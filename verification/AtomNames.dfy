/**
 * Package atoms such as "gcc-13.2.1-r0": a name and a version, split at the
 * earliest hyphen whose tail has the shape of a version. A name that holds such
 * a hyphen itself is cut too early, and a version of one digit is not seen.
 */
module AtomNames {
  import opened Text
  import opened Decimals

  /** A character a version may end with. */
  predicate EndChar(c: char) {
    IsDigit(c) || 'a' <= c <= 'z' || 'A' <= c <= 'Z' || c == '.' || c == '_' || c == '+'
  }

  predicate VerChar(c: char) {
    EndChar(c) || c == '-'
  }

  predicate AllVer(s: string) {
    forall i :: 0 <= i < |s| ==> VerChar(s[i])
  }

  /** A digit, any version characters, and an end character: at least two characters. */
  predicate Version(s: string) {
    |s| >= 2 && IsDigit(s[0]) && AllVer(s) && EndChar(s[|s| - 1])
  }

  /** As the pattern is anchored with $, one line break may follow. */
  predicate VersionTail(s: string) {
    Version(s) || (s != "" && s[|s| - 1] == '\n' && Version(s[..|s| - 1]))
  }

  predicate Alphanumeric(c: char) {
    '0' <= c <= '9' || 'a' <= c <= 'z' || 'A' <= c <= 'Z'
  }

  /** The shape in full: a digit, letters and digits with "._+" and hyphens, and no hyphen at the end. */
  lemma VersionIs(s: string)
    ensures Version(s) <==>
      && |s| >= 2 && '0' <= s[0] <= '9' && s[|s| - 1] != '-'
      && forall i :: 0 <= i < |s| ==> Alphanumeric(s[i]) || s[i] in "._+-"
  {
    forall c: char ensures VerChar(c) <==> Alphanumeric(c) || c in "._+-" {
    }
    forall c: char ensures EndChar(c) <==> VerChar(c) && c != '-' {
    }
  }

  predicate SplitsAt(atom: string, i: nat)
    requires i < |atom|
  {
    atom[i] == '-' && VersionTail(atom[i + 1..])
  }

  function SplitFrom(atom: string, i: nat): (string, string)
    requires i <= |atom|
    decreases |atom| - i
  {
    if i == |atom| then (atom, "")
    else if SplitsAt(atom, i) then (atom[..i], atom[i + 1..])
    else SplitFrom(atom, i + 1)
  }

  function Split(atom: string): (string, string) {
    SplitFrom(atom, 0)
  }

  method SplitNameVer(atom: string) returns (name: string, ver: string)
    ensures (name, ver) == Split(atom)
    ensures ver != "" ==> name + "-" + ver == atom && VersionTail(ver)
    ensures ver != "" ==> forall i :: 0 <= i < |name| ==> !SplitsAt(atom, i)
    ensures ver == "" ==> name == atom && forall i :: 0 <= i < |atom| ==> !SplitsAt(atom, i)
  {
    for i := 0 to |atom|
      invariant Split(atom) == SplitFrom(atom, i)
      invariant forall k :: 0 <= k < i ==> !SplitsAt(atom, k)
    {
      if atom[i] != '-' {
        continue;
      }
      var tail := atom[i + 1..];
      if tail != "" && IsDigit(tail[0]) && VersionTail(tail) {
        return atom[..i], tail;
      }
    }
    return atom, "";
  }

  /** Some hyphen of the name starts what reads as the beginning of a version. */
  predicate VersionInside(name: string) {
    exists i :: 0 <= i < |name| - 1 && name[i] == '-' && IsDigit(name[i + 1]) && AllVer(name[i + 1..])
  }

  lemma {:induction false} SplitFirst(atom: string, i: nat, k: nat)
    requires i <= k < |atom| && SplitsAt(atom, k)
    requires forall j :: i <= j < k ==> !SplitsAt(atom, j)
    ensures SplitFrom(atom, i) == (atom[..k], atom[k + 1..])
    decreases k - i
  {
    if i < k {
      SplitFirst(atom, i + 1, k);
    }
  }

  /** A split never lies after a hyphen that splits. */
  lemma {:induction false} SplitNotAfter(atom: string, i: nat, k: nat)
    requires i <= k < |atom| && SplitsAt(atom, k)
    ensures |SplitFrom(atom, i).0| <= k
    decreases k - i
  {
    if i < k && !SplitsAt(atom, i) {
      SplitNotAfter(atom, i + 1, k);
    }
  }

  /** Text that can end a version of its own or of a longer tail. */
  predicate Ending(m: string) {
    m != "" && AllVer(m) && EndChar(m[|m| - 1])
  }

  lemma VersionBehind(head: string, m: string)
    requires Ending(m)
    ensures Version(head + "-" + m) <==> head != "" && IsDigit(head[0]) && AllVer(head)
  {
    var body := head + "-" + m;
    assert VerChar('-') && !IsDigit('-');
    hide IsDigit, VerChar, EndChar;
    assert forall k :: 0 <= k < |head| ==> body[k] == head[k];
    assert forall k :: 0 <= k < |m| ==> body[|head| + 1 + k] == m[k];
    assert body[|head|] == '-';
  }

  lemma TailBehind(head: string, ver: string)
    requires VersionTail(ver)
    ensures VersionTail(head + "-" + ver) <==> head != "" && IsDigit(head[0]) && AllVer(head)
  {
    var tail := head + "-" + ver;
    var n := |ver| - 1;
    if Version(ver) {
      VersionBehind(head, ver);
      assert tail[|tail| - 1] == ver[n];
    } else {
      VersionBehind(head, ver[..n]);
      assert tail[..|tail| - 1] == head + "-" + ver[..n];
      assert tail[|tail| - 1] == '\n';
    }
  }

  /** A hyphen inside the name splits exactly when what follows it in the name could begin a version. */
  lemma HyphenInName(name: string, ver: string, i: nat)
    requires VersionTail(ver) && i < |name|
    ensures
      SplitsAt(name + "-" + ver, i) <==>
      (name[i] == '-' && i + 1 < |name| && IsDigit(name[i + 1]) && AllVer(name[i + 1..]))
  {
    var atom := name + "-" + ver;
    assert atom[i] == name[i] && atom[i + 1..] == name[i + 1..] + "-" + ver;
    hide VersionTail, IsDigit, AllVer;
    TailBehind(name[i + 1..], ver);
  }

  /** A split with a version is made at a hyphen that splits. */
  lemma {:induction false} SplitShape(atom: string, i: nat)
    requires i <= |atom|
    ensures
      var (name, ver) := SplitFrom(atom, i);
      if ver == "" then name == atom
      else |name| < |atom| && SplitsAt(atom, |name|) && name == atom[..|name|] && ver == atom[|name| + 1..]
    decreases |atom| - i
  {
    if i < |atom| {
      SplitShape(atom, i + 1);
    }
  }

  /**
   * Any name and any version joined by a hyphen come apart again if and only if
   * the version has the shape of one and no hyphen of the name begins another.
   */
  lemma SplitOfJoin(name: string, ver: string)
    ensures Split(name + "-" + ver) == (name, ver) <==> VersionTail(ver) && !VersionInside(name)
  {
    var atom := name + "-" + ver;
    assert atom[|name| + 1..] == ver && atom[..|name|] == name && atom[|name|] == '-';
    SplitShape(atom, 0);
    hide VersionTail;
    if VersionTail(ver) {
      forall i | 0 <= i < |name|
        ensures SplitsAt(atom, i) <==>
          (name[i] == '-' && i + 1 < |name| && IsDigit(name[i + 1]) && AllVer(name[i + 1..]))
      {
        HyphenInName(name, ver, i);
      }
      if VersionInside(name) {
        var i :| 0 <= i < |name| - 1 && name[i] == '-' && IsDigit(name[i + 1]) && AllVer(name[i + 1..]);
        SplitNotAfter(atom, 0, i);
      } else {
        SplitFirst(atom, 0, |name|);
      }
    }
  }

  /** A version of one digit is never split off: behind it only an earlier hyphen can split. */
  lemma OneDigitStays(name: string, d: char)
    requires IsDigit(d)
    ensures Split(name + "-" + [d]) == (name + "-" + [d], "") <==> !VersionInside(name)
    ensures Split(name + "-" + [d]) != (name, [d])
  {
    var atom := name + "-" + [d];
    assert atom[|name| + 1..] == [d];
    SplitOfJoin(name, [d]);
    forall i | 0 <= i < |name|
      ensures SplitsAt(atom, i) <==>
        (name[i] == '-' && i + 1 < |name| && IsDigit(name[i + 1]) && AllVer(name[i + 1..]))
    {
      var head := name[i + 1..];
      assert atom[i] == name[i] && atom[i + 1..] == head + "-" + [d];
      VersionBehind(head, [d]);
      assert (head + "-" + [d])[|head| + 1] == d;
    }
    if VersionInside(name) {
      var i :| 0 <= i < |name| - 1 && name[i] == '-' && IsDigit(name[i + 1]) && AllVer(name[i + 1..]);
      SplitNotAfter(atom, 0, i);
    } else {
      NeverSplits(atom, 0);
    }
  }

  lemma {:induction false} NeverSplits(atom: string, i: nat)
    requires i <= |atom| && forall k :: i <= k < |atom| ==> !SplitsAt(atom, k)
    ensures SplitFrom(atom, i) == (atom, "")
    decreases |atom| - i
  {
    if i < |atom| {
      NeverSplits(atom, i + 1);
    }
  }

  /** An atom of the distribution: the revision stays with the version. */
  lemma GccAtom()
    ensures Split("gcc-13.2.1-r0") == ("gcc", "13.2.1-r0")
    ensures Split("gtk+-2.0-devel") == ("gtk+", "2.0-devel")
  {
    VersionIs("13.2.1-r0");
    VersionIs("2.0-devel");
    SplitOfJoin("gcc", "13.2.1-r0");
    SplitOfJoin("gtk+", "2.0-devel");
    assert "gcc" + "-" + "13.2.1-r0" == "gcc-13.2.1-r0";
    assert "gtk+" + "-" + "2.0-devel" == "gtk+-2.0-devel";
  }
}
