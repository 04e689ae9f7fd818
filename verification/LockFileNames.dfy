/** The file and segment names of the intermodule singletons (detail/portable_intermodule_singleton.hpp,
    detail/intermodule_singleton_common.hpp): each process stamps its names with its pid and creation time,
    and a cleaner reads the stamp of a dead process back from the name of its lock file. */
module LockFileNames {
  import opened Words

  // ---------- printing numbers

  function Digit(d: nat): char
    requires d < 10
  {
    ['0', '1', '2', '3', '4', '5', '6', '7', '8', '9'][d]
  }

  function Decimal(n: nat): (s: string)
    ensures s != []
  {
    if n < 10 then [Digit(n)] else Decimal(n / 10) + [Digit(n % 10)]
  }

  predicate IsDigit(c: char) {
    '0' <= c <= '9'
  }

  function DigitValue(c: char): nat {
    if IsDigit(c) then c as int - '0' as int else 0
  }

  function Parse(s: string): nat {
    if s == [] then 0 else 10 * Parse(s[..|s| - 1]) + DigitValue(s[|s| - 1])
  }

  lemma DigitRoundTrip(d: nat)
    requires d < 10
    ensures IsDigit(Digit(d)) && DigitValue(Digit(d)) == d
  {
  }

  /** Printed numbers are digits only and read back as themselves. */
  lemma {:induction false} DecimalRoundTrip(n: nat)
    ensures Parse(Decimal(n)) == n && forall i | 0 <= i < |Decimal(n)| :: IsDigit(Decimal(n)[i])
  {
    if n < 10 {
      DigitRoundTrip(n);
      assert Decimal(n)[..0] == [];
    } else {
      DecimalRoundTrip(n / 10);
      DigitRoundTrip(n % 10);
      assert Decimal(n)[..|Decimal(n)| - 1] == Decimal(n / 10);
    }
  }

  lemma DecimalInjective(m: nat, n: nat)
    requires Decimal(m) == Decimal(n)
    ensures m == n
  {
    DecimalRoundTrip(m);
    DecimalRoundTrip(n);
  }

  // ---------- the names

  /** get_pid_creation_time_str: the seconds go through an unsigned long of `longBits` bits. */
  function Stamp(longBits: nat, pid: nat, microsecs: nat): string {
    Decimal(pid) + ['_'] + (Decimal(Wrap(longBits, microsecs / 1000000)) + ['.'] + Decimal(microsecs % 1000000))
  }

  const MAP_BASE: string := "bip.gmem.map."
  const LOCK_BASE: string := "lck"

  function MapName(longBits: nat, pid: nat, microsecs: nat): string {
    MAP_BASE + Stamp(longBits, pid, microsecs)
  }

  function LockFileName(longBits: nat, pid: nat, microsecs: nat): string {
    LOCK_BASE + Stamp(longBits, pid, microsecs)
  }

  // ---------- cutting strings

  /** The position of the first `c` in `s`, or its length. */
  function FindChar(s: string, c: char): (p: nat)
    ensures p <= |s| && c !in s[..p] && (p < |s| ==> s[p] == c)
  {
    if s == [] || s[0] == c then 0
    else
      var p := FindChar(s[1..], c) + 1;
      assert s[..p] == [s[0]] + s[1..][..p - 1];
      p
  }

  lemma FindUnique(s: string, c: char, p: nat)
    requires p < |s| && s[p] == c && c !in s[..p]
    ensures FindChar(s, c) == p
  {
    var q := FindChar(s, c);
    assert forall i | 0 <= i < p :: s[i] == s[..p][i];
    assert forall i | 0 <= i < q :: s[i] == s[..q][i];
  }

  lemma NotADigit(n: nat, c: char)
    requires !IsDigit(c)
    ensures c !in Decimal(n)
  {
    DecimalRoundTrip(n);
  }

  /** A number, a separator and the rest: the first separator ends the number. */
  lemma CutNumber(n: nat, c: char, rest: string)
    requires !IsDigit(c)
    ensures var s := Decimal(n) + [c] + rest;
            && FindChar(s, c) == |Decimal(n)| && s[..FindChar(s, c)] == Decimal(n)
            && s[FindChar(s, c) + 1..] == rest
  {
    var s := Decimal(n) + [c] + rest;
    NotADigit(n, c);
    assert s[..|Decimal(n)|] == Decimal(n);
    FindUnique(s, c, |Decimal(n)|);
  }

  lemma CutUnique(m: nat, n: nat, c: char, x: string, y: string)
    requires !IsDigit(c) && Decimal(m) + [c] + x == Decimal(n) + [c] + y
    ensures m == n && x == y
  {
    CutNumber(m, c, x);
    CutNumber(n, c, y);
    DecimalInjective(m, n);
  }

  /** Two processes share a stamp exactly when they share pid, microseconds and the seconds that an unsigned
      long can tell apart. */
  lemma StampsDiffer(longBits: nat, pid: nat, t: nat, pid': nat, t': nat)
    ensures Stamp(longBits, pid, t) == Stamp(longBits, pid', t')
            <==> && pid == pid' && t % 1000000 == t' % 1000000
                 && Wrap(longBits, t / 1000000) == Wrap(longBits, t' / 1000000)
  {
    if Stamp(longBits, pid, t) == Stamp(longBits, pid', t') {
      var secs, secs' := Wrap(longBits, t / 1000000), Wrap(longBits, t' / 1000000);
      var usecs, usecs' := Decimal(t % 1000000), Decimal(t' % 1000000);
      CutUnique(pid, pid', '_', Decimal(secs) + ['.'] + usecs, Decimal(secs') + ['.'] + usecs');
      CutUnique(secs, secs', '.', usecs, usecs');
      DecimalInjective(t % 1000000, t' % 1000000);
    }
  }

  /** The pid and the creation time can be read back from a stamp, as long as the seconds fit in an unsigned
      long: the number before '_', and a million times the one before '.' plus the last one. */
  lemma StampReadsBack(longBits: nat, pid: nat, t: nat)
    requires t / 1000000 < Pow2(longBits)
    ensures var s := Stamp(longBits, pid, t);
            var p := FindChar(s, '_');
            p < |s| && Parse(s[..p]) == pid
            && var rest := s[p + 1..];
               var d := FindChar(rest, '.');
               d < |rest| && 1000000 * Parse(rest[..d]) + Parse(rest[d + 1..]) == t
  {
    var secs, usecs := t / 1000000, t % 1000000;
    WrapSmall(longBits, secs);
    CutNumber(pid, '_', Decimal(secs) + ['.'] + Decimal(usecs));
    CutNumber(secs, '.', Decimal(usecs));
    DecimalRoundTrip(pid);
    DecimalRoundTrip(secs);
    DecimalRoundTrip(usecs);
  }

  /** The names as they are printed: process 7, created 12 seconds and 34 microseconds after the epoch. */
  lemma NamesAsPrinted(longBits: nat)
    requires 12 < Pow2(longBits)
    ensures MapName(longBits, 7, 12000034) == "bip.gmem.map.7_12.34"
    ensures LockFileName(longBits, 7, 12000034) == "lck7_12.34"
  {
    WrapSmall(longBits, 12);
    assert Decimal(7) == "7" && Decimal(12) == "12" && Decimal(34) == "34";
    assert Stamp(longBits, 7, 12000034) == "7_12.34";
  }

  // ---------- the check

  predicate StartsWith(s: string, prefix: string) {
    |prefix| <= |s| && s[..|prefix|] == prefix
  }

  /** check_if_filename_complies_with_pid: accepts the names of the process `pid`; `suffix` is what follows
      the prefix, and keeps its old value when the name is too short or has another prefix. */
  method ChecksPid(filename: string, prefix: string, pid: nat, oldSuffix: string, creationTime: bool)
      returns (ok: bool, suffix: string)
    ensures creationTime ==> (ok <==> StartsWith(filename, prefix + Decimal(pid) + ['_']))
    ensures !creationTime ==> (ok <==> filename == prefix + Decimal(pid))
    ensures suffix == if |filename| <= |prefix| || !StartsWith(filename, prefix) then oldSuffix
                      else if creationTime && '_' !in filename[|prefix|..] then Decimal(pid)
                      else filename[|prefix|..]
  {
    var fname := filename;
    suffix := oldSuffix;
    if |fname| <= |prefix| {
      return false, suffix;
    }
    fname := fname[..|prefix|];
    if fname != prefix {
      return false, suffix;
    }
    fname := filename;
    fname := fname[|prefix|..];
    suffix := Decimal(pid);
    if creationTime {
      PrefixIsCut(filename, prefix, pid);
      var p := FindChar(fname, '_');
      if p == |fname| {
        return false, suffix;
      }
      var saveSuffix := fname;
      fname := fname[..p];
      fname, suffix := suffix, fname;
      ok := suffix == fname;
      suffix, saveSuffix := saveSuffix, suffix;
    } else {
      fname, suffix := suffix, fname;
      ok := suffix == fname;
    }
  }

  /** A name starts with prefix, pid and '_' exactly when the number before the first '_' is the pid. */
  lemma PrefixIsCut(filename: string, prefix: string, pid: nat)
    requires StartsWith(filename, prefix)
    ensures var rest := filename[|prefix|..];
            var p := FindChar(rest, '_');
            && (p == |rest| <==> '_' !in rest)
            && (StartsWith(filename, prefix + Decimal(pid) + ['_']) <==> p < |rest| && rest[..p] == Decimal(pid))
  {
    var rest := filename[|prefix|..];
    var p := FindChar(rest, '_');
    assert filename == prefix + rest;
    assert p == |rest| ==> rest[..p] == rest;
    WithoutPrefix(prefix, rest, Decimal(pid) + ['_']);
    assert prefix + (Decimal(pid) + ['_']) == prefix + Decimal(pid) + ['_'];
    CutIsPid(rest, pid);
  }

  lemma WithoutPrefix(prefix: string, rest: string, more: string)
    ensures StartsWith(prefix + rest, prefix + more) <==> StartsWith(rest, more)
  {
    if |more| <= |rest| {
      assert (prefix + rest)[..|prefix + more|] == prefix + rest[..|more|];
      assert (prefix + more)[|prefix|..] == more && (prefix + rest[..|more|])[|prefix|..] == rest[..|more|];
    }
  }

  /** A string starts with a number and '_' exactly when the number is what precedes its first '_'. */
  lemma CutIsPid(s: string, pid: nat)
    ensures var p := FindChar(s, '_');
            StartsWith(s, Decimal(pid) + ['_']) <==> p < |s| && s[..p] == Decimal(pid)
  {
    var p := FindChar(s, '_');
    if StartsWith(s, Decimal(pid) + ['_']) {
      PidIsCut(s, pid);
    } else if p < |s| && s[..p] == Decimal(pid) {
      CutAt(s, Decimal(pid), '_', p);
    }
  }

  lemma CutAt(s: string, start: string, c: char, p: nat)
    requires p < |s| && s[p] == c && s[..p] == start
    ensures StartsWith(s, start + [c])
  {
    assert s[..p + 1] == s[..p] + [c];
  }

  lemma PidIsCut(s: string, pid: nat)
    requires StartsWith(s, Decimal(pid) + ['_'])
    ensures FindChar(s, '_') < |s| && s[..FindChar(s, '_')] == Decimal(pid)
  {
    var start := Decimal(pid) + ['_'];
    StartThenRest(s, start);
    CutNumber(pid, '_', s[|start|..]);
  }

  lemma StartThenRest(s: string, start: string)
    requires StartsWith(s, start)
    ensures s == start + s[|start|..]
  {
  }

  /** A stamped lock file name is accepted as one's own exactly when the pids are equal. */
  lemma OwnLockFile(longBits: nat, pid: nat, t: nat, currentPid: nat)
    ensures var name := LockFileName(longBits, pid, t);
            && |name| > |LOCK_BASE| && StartsWith(name, LOCK_BASE) && name[|LOCK_BASE|..] == Stamp(longBits, pid, t)
            && '_' in Stamp(longBits, pid, t)
            && (StartsWith(name, LOCK_BASE + Decimal(currentPid) + ['_']) <==> pid == currentPid)
  {
    var name := LockFileName(longBits, pid, t);
    var rest := Decimal(Wrap(longBits, t / 1000000)) + ['.'] + Decimal(t % 1000000);
    assert name[|LOCK_BASE|..] == Stamp(longBits, pid, t);
    CutNumber(pid, '_', rest);
    PrefixIsCut(name, LOCK_BASE, currentPid);
    if Decimal(pid) == Decimal(currentPid) {
      DecimalInjective(pid, currentPid);
    }
  }

  /** The suffix ChecksPid leaves, from an empty one, is a stamp exactly when the name is the stamped name of a
      lock file: too short names and other prefixes leave nothing, and names without '_' the pid of the
      caller, which is no stamp. */
  lemma StampedSuffix(filename: string, currentPid: nat, suffix: string, longBits: nat, pid: nat, t: nat)
    requires suffix == if |filename| <= |LOCK_BASE| || !StartsWith(filename, LOCK_BASE) then ""
                       else if '_' !in filename[|LOCK_BASE|..] then Decimal(currentPid)
                       else filename[|LOCK_BASE|..]
    ensures suffix == Stamp(longBits, pid, t) <==> filename == LockFileName(longBits, pid, t)
  {
    OwnLockFile(longBits, pid, t, currentPid);
    NotADigit(currentPid, '_');
    if StartsWith(filename, LOCK_BASE) {
      assert filename == LOCK_BASE + filename[|LOCK_BASE|..];
    }
  }

  /** The naming part of apply_gmem_erase_logic: whether the lock file is one's own, and the name of the
      segment to clean.  That name is the map of a process exactly when the file is the lock file of that
      process: a name with another prefix, too short, or without '_' leads to the map of no process. */
  method CleanedMap(filename: string, currentPid: nat) returns (own: bool, mapName: string)
    ensures forall longBits: nat, pid: nat, t: nat ::
              mapName == MapName(longBits, pid, t) <==> filename == LockFileName(longBits, pid, t)
    ensures forall longBits: nat, pid: nat, t: nat | filename == LockFileName(longBits, pid, t) ::
              own <==> pid == currentPid
  {
    var str;
    own, str := ChecksPid(filename, LOCK_BASE, currentPid, "", true);
    mapName := MAP_BASE + str;
    forall longBits: nat, pid: nat, t: nat
      ensures mapName == MapName(longBits, pid, t) <==> filename == LockFileName(longBits, pid, t)
      ensures filename == LockFileName(longBits, pid, t) ==> (own <==> pid == currentPid)
    {
      StampedSuffix(filename, currentPid, str, longBits, pid, t);
      assert mapName[|MAP_BASE|..] == str;
      assert MapName(longBits, pid, t)[|MAP_BASE|..] == Stamp(longBits, pid, t);
      OwnLockFile(longBits, pid, t, currentPid);
    }
  }
}
