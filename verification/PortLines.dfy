/** The only lines the port patterns match, and the lines of Caddy's. */
module PortLines {
  import opened Text
  import opened OrderedDict
  import opened Decimals
  import opened PortConfig
  import opened PortText
  import C = CaddyPort

  // ------------------------------------------------------------- one token back

  /** A token has been scanned from i to j: what stands there. */
  predicate Scanned(t: string, i: nat, j: nat, tok: Token) {
    && i <= j <= |t|
    && match tok
       case Space(min) => AllSpace(t[i..j]) && j - i >= min
       case Word(w, anyCase) => SameWord(t[i..j], w, anyCase)
  }

  lemma TokenOnly(t: string, i: nat, tok: Token)
    requires i <= |t| && ScanToken(t, i, tok).Some?
    ensures Scanned(t, i, ScanToken(t, i, tok).value, tok)
  {
    var j := ScanToken(t, i, tok).value;
    assert forall k :: 0 <= k < j - i ==> t[i..j][k] == t[i + k];
    hide SameChar;
  }

  lemma ScanNext(t: string, i: nat, tok: Token, more: Pattern) returns (j: nat)
    requires i <= |t| && Scan(t, i, [tok] + more).Some?
    ensures j <= |t| && Scanned(t, i, j, tok) && Scan(t, j, more) == Scan(t, i, [tok] + more)
  {
    assert ([tok] + more)[0] == tok && ([tok] + more)[1..] == more;
    TokenOnly(t, i, tok);
    hide ScanToken, Scanned;
    j := ScanToken(t, i, tok).value;
  }

  /** Behind the pattern: digits, white space and the end of a line. */
  lemma MatchParts(t: string, p: Pattern, i: nat)
    requires i <= |t| && MatchAt(t, p, i).Some?
    ensures var m := MatchAt(t, p, i).value;
      && Before(t[..i]) && Scan(t, i, p) == Some(m.digits)
      && AllDigits(t[m.digits..m.digitsEnd]) && LineEnd(t[m.digitsEnd..m.end], t[m.end..])
  {
    var m := MatchAt(t, p, i).value;
    C.SpaceBehind(t, m.digitsEnd);
    assert forall k :: 0 <= k < m.digitsEnd - m.digits ==> t[m.digits..m.digitsEnd][k] == t[m.digits + k];
    hide Scan, IsDigit, AllSpace, Trailer;
  }

  lemma CutText(t: string, i: nat, j: nat)
    requires i <= j <= |t|
    ensures t[i..] == t[i..j] + t[j..]
  {
  }

  /** The pattern matches at such lines only. */
  lemma AssignmentOnly(t: string, i: nat, key: string, anyCase: bool)
      returns (w: string, k: string, w1: string, w2: string, ds: string, z: string, b: string)
    requires i <= |t| && MatchAt(t, Assignment(key, anyCase), i).Some?
    ensures Before(t[..i]) && AllSpace(w) && SameWord(k, key, anyCase) && AllSpace(w1) && AllSpace(w2)
    ensures AllDigits(ds) && LineEnd(z, b) && t[i..] == AssignmentLine(w, k, w1, w2, ds, z, b)
    ensures Finds(t, i, Assignment(key, anyCase), ds)
  {
    var p := Assignment(key, anyCase);
    var m := MatchAt(t, p, i).value;
    var s, x, e := Space(0), Word(key, anyCase), Word("=", false);
    assert p == [s] + ([x] + ([s] + ([e] + ([s] + []))));
    assert forall j: nat :: j <= |t| ==> Scan(t, j, []) == Some(j);
    MatchParts(t, p, i);
    ds, z, b := t[m.digits..m.digitsEnd], t[m.digitsEnd..m.end], t[m.end..];
    hide Scan, MatchAt, Assignment, Before, AllDigits, LineEnd, SameWord, AllSpace;
    var i1 := ScanNext(t, i, s, [x] + ([s] + ([e] + ([s] + []))));
    var i2 := ScanNext(t, i1, x, [s] + ([e] + ([s] + [])));
    var i3 := ScanNext(t, i2, s, [e] + ([s] + []));
    var i4 := ScanNext(t, i3, e, [s] + []);
    var i5 := ScanNext(t, i4, s, []);
    w, k, w1, w2 := t[i..i1], t[i1..i2], t[i2..i3], t[i4..i5];
    assert t[i3..i4] == "=" by { EqualsOnly(t[i3..i4]); }
    CutText(t, i, i1);
    CutText(t, i1, i2);
    CutText(t, i2, i3);
    CutText(t, i3, i4);
    CutText(t, i4, i5);
    CutText(t, i5, m.digitsEnd);
    CutText(t, m.digitsEnd, m.end);
  }

  lemma EqualsOnly(s: string)
    requires SameWord(s, "=", false)
    ensures s == "="
  {
  }

  lemma SpacedOnly(t: string, i: nat, word: string, min: nat)
      returns (w: string, w1: string, ds: string, z: string, b: string)
    requires i <= |t| && MatchAt(t, [Space(0), Word(word, false), Space(min)], i).Some?
    ensures Before(t[..i]) && AllSpace(w) && AllSpace(w1) && |w1| >= min
    ensures AllDigits(ds) && LineEnd(z, b) && t[i..] == SpacedLine(w, word, w1, ds, z, b)
    ensures Finds(t, i, [Space(0), Word(word, false), Space(min)], ds)
  {
    var s, x, e := Space(0), Word(word, false), Space(min);
    var p := [s, x, e];
    var m := MatchAt(t, p, i).value;
    assert p == [s] + ([x] + ([e] + []));
    assert forall j: nat :: j <= |t| ==> Scan(t, j, []) == Some(j);
    MatchParts(t, p, i);
    ds, z, b := t[m.digits..m.digitsEnd], t[m.digitsEnd..m.end], t[m.end..];
    hide Scan, MatchAt, Before, AllDigits, LineEnd, SameWord, AllSpace;
    var i1 := ScanNext(t, i, s, [x] + ([e] + []));
    var i2 := ScanNext(t, i1, x, [e] + []);
    var i3 := ScanNext(t, i2, e, []);
    w, w1 := t[i..i1], t[i2..i3];
    assert t[i1..i2] == word by { SameExactly(t[i1..i2], word); }
    CutText(t, i, i1);
    CutText(t, i1, i2);
    CutText(t, i2, i3);
    CutText(t, i3, m.digitsEnd);
    CutText(t, m.digitsEnd, m.end);
  }

  lemma SameExactly(s: string, w: string)
    requires SameWord(s, w, false)
    ensures s == w
  {
  }

  /** key = digits stands at i, on a line of its own. */
  ghost predicate AssignmentThere(t: string, i: nat, key: string, anyCase: bool) {
    && i <= |t| && Before(t[..i])
    && exists w, k, w1, w2, ds, z, b ::
         && AllSpace(w) && SameWord(k, key, anyCase) && AllSpace(w1) && AllSpace(w2) && AllDigits(ds) && LineEnd(z, b)
         && t[i..] == AssignmentLine(w, k, w1, w2, ds, z, b)
  }

  /** word digits stands at i, on a line of its own, with so much white space between. */
  ghost predicate SpacedThere(t: string, i: nat, word: string, min: nat) {
    && i <= |t| && Before(t[..i])
    && exists w, w1, ds, z, b ::
         && AllSpace(w) && AllSpace(w1) && |w1| >= min && AllDigits(ds) && LineEnd(z, b)
         && t[i..] == SpacedLine(w, word, w1, ds, z, b)
  }

  lemma AssignmentNeeds(t: string, i: nat, key: string, anyCase: bool)
    requires i <= |t| && MatchAt(t, Assignment(key, anyCase), i).Some?
    ensures AssignmentThere(t, i, key, anyCase)
  {
    hide *;
    var w, k, w1, w2, ds, z, b := AssignmentOnly(t, i, key, anyCase);
    ThereIs(t, i, key, anyCase, w, k, w1, w2, ds, z, b);
  }

  lemma ThereIs(t: string, i: nat, key: string, anyCase: bool,
                w: string, k: string, w1: string, w2: string, ds: string, z: string, b: string)
    requires i <= |t| && Before(t[..i]) && t[i..] == AssignmentLine(w, k, w1, w2, ds, z, b)
    requires AllSpace(w) && SameWord(k, key, anyCase) && AllSpace(w1) && AllSpace(w2) && AllDigits(ds) && LineEnd(z, b)
    ensures AssignmentThere(t, i, key, anyCase)
  {
    hide AllSpace, SameWord, AllDigits, LineEnd, AssignmentLine, Before;
  }

  lemma SpacedNeeds(t: string, i: nat, word: string, min: nat)
    requires i <= |t| && MatchAt(t, [Space(0), Word(word, false), Space(min)], i).Some?
    ensures SpacedThere(t, i, word, min)
  {
    hide *;
    var w, w1, ds, z, b := SpacedOnly(t, i, word, min);
    SpacedIs(t, i, word, min, w, w1, ds, z, b);
  }

  lemma SpacedIs(t: string, i: nat, word: string, min: nat, w: string, w1: string, ds: string, z: string, b: string)
    requires i <= |t| && Before(t[..i]) && t[i..] == SpacedLine(w, word, w1, ds, z, b)
    requires AllSpace(w) && AllSpace(w1) && |w1| >= min && AllDigits(ds) && LineEnd(z, b)
    ensures SpacedThere(t, i, word, min)
  {
    hide AllSpace, AllDigits, LineEnd, SpacedLine, Before;
  }

  /** The registry, by the only lines its entries match. */
  lemma RegistryOnly(t: string, i: nat)
    requires i <= |t|
    ensures MatchAt(t, SSH, i).Some? ==> SpacedThere(t, i, "Port", 1)
    ensures MatchAt(t, HERMES, i).Some? ==> SpacedThere(t, i, "port:", 0)
    ensures MatchAt(t, COCKPIT, i).Some? ==> AssignmentThere(t, i, "ListenStream", false)
    ensures MatchAt(t, MARIADB, i).Some? ==> AssignmentThere(t, i, "port", true)
    ensures MatchAt(t, OPENWEBUI, i).Some? ==> AssignmentThere(t, i, "PORT", false)
    ensures MatchAt(t, ODYSSEUS, i).Some? ==> AssignmentThere(t, i, "port", false)
  {
    hide MatchAt, Assignment, AssignmentThere, SpacedThere;
    if MatchAt(t, SSH, i).Some? {
      SpacedNeeds(t, i, "Port", 1);
    }
    if MatchAt(t, HERMES, i).Some? {
      SpacedNeeds(t, i, "port:", 0);
    }
    if MatchAt(t, COCKPIT, i).Some? {
      AssignmentNeeds(t, i, "ListenStream", false);
    }
    if MatchAt(t, MARIADB, i).Some? {
      AssignmentNeeds(t, i, "port", true);
    }
    if MatchAt(t, OPENWEBUI, i).Some? {
      AssignmentNeeds(t, i, "PORT", false);
    }
    if MatchAt(t, ODYSSEUS, i).Some? {
      AssignmentNeeds(t, i, "port", false);
    }
  }

  // -------------------------------------------------------------- Caddy's lines

  /** Text in front of the port: of one line and without a comment. */
  predicate Head(h: string) {
    forall k :: 0 <= k < |h| ==> h[k] != '\n' && h[k] != '#'
  }

  function CaddyText(h: string, ds: string, z: string, b: string): string {
    h + (":" + (ds + (z + b)))
  }

  /** Caddy's pattern finds the digits at i. */
  predicate CaddyFinds(t: string, i: nat, ds: string) {
    i <= |t| && C.CaddyAt(t, i).Some? && var m := C.CaddyAt(t, i).value; t[m.digits..m.digitsEnd] == ds
  }

  lemma RunOf(t: string, i: nat, d: nat, e: nat)
    requires i < d <= e <= |t| && t[d - 1] == ':' && Head(t[i..d])
    requires forall k :: d <= k < e ==> t[k] != '\n' && t[k] != '#' && t[k] != ':'
    requires e == |t| || t[e] == '\n' || t[e] == '#'
    ensures C.RunEnd(t, i) == e && C.LastColon(t, i, e) == d - 1
  {
    forall k | i <= k < e ensures t[k] != '\n' && t[k] != '#' {
      if k < d {
        assert t[k] == t[i..d][k - i];
      }
    }
    C.RunEndIs(t, i, e);
    C.LastColonIs(t, i, e, d - 1);
  }

  /** Behind the digits the run holds white space only. */
  lemma BlankRun(t: string, d: nat, f: nat)
    requires d <= f <= |t| && (forall k :: d <= k < f ==> IsDigit(t[k]) || IsSpace(t[k])) && (f == |t| || t[f] == '\n')
    ensures var e := C.RunEnd(t, d);
      e <= f && forall k :: d <= k < e ==> t[k] != '\n' && t[k] != '#' && t[k] != ':'
    ensures var e := C.RunEnd(t, d); e == |t| || t[e] == '\n'
  {
    assert !IsDigit('#') && !IsSpace('#') && !IsDigit(':') && !IsSpace(':');
  }

  lemma MatchIs(t: string, i: nat, d: nat, e: nat)
    requires i < d < e <= |t| && LineStart(t, i) && C.RunEnd(t, i) >= e && C.LastColon(t, i, C.RunEnd(t, i)) == d - 1
    requires DigitEnd(t, d) == e && Trailer(t, e).Some?
    ensures C.CaddyAt(t, i).Some? && C.CaddyAt(t, i).value.digits == d && C.CaddyAt(t, i).value.digitsEnd == e
  {
    hide C.RunEnd, C.LastColon, DigitEnd, Trailer, LineStart;
  }

  lemma BlankBehind(t: string, d: nat, ds: string, z: string, b: string)
    requires d <= |t| && t[d..] == ds + (z + b) && LineEnd(z, b) && AllDigits(ds)
    ensures var f := d + |ds| + |z|;
      f <= |t| && (forall k :: d <= k < f ==> IsDigit(t[k]) || IsSpace(t[k])) && (f == |t| || t[f] == '\n')
  {
    hide IsDigit, IsSpace;
    var f := d + |ds| + |z|;
    forall k | d <= k < f ensures IsDigit(t[k]) || IsSpace(t[k]) {
      assert t[k] == t[d..][k - d];
      if k < d + |ds| {
        assert t[k] == ds[k - d];
      } else {
        assert t[k] == z[k - d - |ds|];
      }
    }
    assert f < |t| ==> t[f] == t[d..][f - d] == b[0];
  }

  lemma CaddyInside(t: string, i: nat, h: string, ds: string, z: string, b: string)
    requires Rest(t, i, CaddyText(h, ds, z, b)) && LineStart(t, i)
    requires Head(h) && AllDigits(ds) && LineEnd(z, b)
    ensures CaddyFinds(t, i, ds)
  {
    var d := i + |h| + 1;
    assert CaddyText(h, ds, z, b) == h + (":" + (ds + (z + b)));
    hide *;
    DigitsAll(ds);
    HeadThen(t, i, h, ds + (z + b));
    DigitsRead(t, d, ds, z, b);
    BlankBehind(t, d, ds, z, b);
    BlankRun(t, d, d + |ds| + |z|);
    RunOf(t, i, d, C.RunEnd(t, d));
    RunBehind(t, d, d + |ds|);
    MatchIs(t, i, d, d + |ds|);
    FoundIs(t, i, d, ds);
  }

  lemma FoundIs(t: string, i: nat, d: nat, ds: string)
    requires i <= |t| && C.CaddyAt(t, i).Some? && d + |ds| <= |t| && t[d..d + |ds|] == ds
    requires C.CaddyAt(t, i).value.digits == d && C.CaddyAt(t, i).value.digitsEnd == d + |ds|
    ensures CaddyFinds(t, i, ds)
  {
    hide C.CaddyAt;
  }

  /** The run covers the digits. */
  lemma RunBehind(t: string, d: nat, e: nat)
    requires d <= e <= |t| && DigitEnd(t, d) == e
    ensures C.RunEnd(t, d) >= e
  {
    assert !IsDigit('#') && !IsDigit('\n');
  }

  lemma HeadThen(t: string, i: nat, h: string, rest: string)
    requires Rest(t, i, h + (":" + rest)) && Head(h)
    ensures var d := i + |h| + 1; d <= |t| && t[d..] == rest && t[d - 1] == ':' && Head(t[i..d])
  {
    var d := i + |h| + 1;
    assert t[i..d] == t[i..][..|h| + 1] == h + ":";
    assert t[d - 1] == t[i..d][|h|];
    assert t[d..] == t[i..][|h| + 1..];
  }

  /** A line with a colon, digits and white space behind it, and no comment: the pattern matches and finds the digits. */
  lemma CaddyFound(a: string, h: string, ds: string, z: string, b: string)
    requires Before(a) && Head(h) && AllDigits(ds) && LineEnd(z, b)
    ensures CaddyFinds(a + CaddyText(h, ds, z, b), |a|, ds)
  {
    BeforeIsStart(a, CaddyText(h, ds, z, b));
    hide *;
    CaddyInside(a + CaddyText(h, ds, z, b), |a|, h, ds, z, b);
  }

  /** The pattern matches at such lines only. */
  lemma CaddyOnly(t: string, i: nat) returns (h: string, ds: string, z: string, b: string)
    requires i <= |t| && C.CaddyAt(t, i).Some?
    ensures Before(t[..i]) && Head(h) && AllDigits(ds) && LineEnd(z, b) && t[i..] == CaddyText(h, ds, z, b)
    ensures CaddyFinds(t, i, ds)
  {
    hide *;
    var m := C.CaddyAt(t, i).value;
    C.CaddyParts(t, i);
    C.TrailerEnds(t, m.digitsEnd);
    C.SpaceBehind(t, m.digitsEnd);
    h, ds, z, b := t[i..m.digits - 1], t[m.digits..m.digitsEnd], t[m.digitsEnd..m.end], t[m.end..];
    DigitsOf(t, m.digits);
    StartIs(t, i);
    EndIs(z, b);
    PiecesOf(t, i, m.digits, m.digitsEnd, m.end);
    FoundIs(t, i, m.digits, ds);
  }

  lemma PiecesOf(t: string, i: nat, d: nat, e: nat, n: nat)
    requires i < d <= e <= n <= |t| && C.Clean(t, i, d) && t[d - 1] == ':'
    ensures Head(t[i..d - 1]) && t[i..] == CaddyText(t[i..d - 1], t[d..e], t[e..n], t[n..])
  {
    HeadOf(t, i, d);
    hide C.Clean, Head;
    CutText(t, d, e);
    CutText(t, e, n);
  }

  lemma StartIs(t: string, i: nat)
    requires i <= |t| && LineStart(t, i)
    ensures Before(t[..i])
  {
  }

  lemma EndIs(z: string, b: string)
    requires AllSpace(z) && (b == "" || b[0] == '\n')
    ensures LineEnd(z, b)
  {
  }

  lemma DigitsOf(t: string, d: nat)
    requires d < |t| && IsDigit(t[d])
    ensures AllDigits(t[d..DigitEnd(t, d)])
  {
    var ds := t[d..DigitEnd(t, d)];
    forall k | 0 <= k < |ds| ensures IsDigit(ds[k]) {
      assert ds[k] == t[d + k];
    }
  }

  lemma HeadOf(t: string, i: nat, d: nat)
    requires i < d <= |t| && C.Clean(t, i, d) && t[d - 1] == ':'
    ensures Head(t[i..d - 1]) && t[i..] == t[i..d - 1] + (":" + t[d..])
  {
    var h := t[i..d - 1];
    forall k | 0 <= k < |h| ensures h[k] != '\n' && h[k] != '#' {
      assert h[k] == t[i + k];
    }
  }

  /** The port read is that of the first line found, when it is one. */
  lemma CaddyFirst(t: string, i: nat, ds: string)
    requires CaddyFinds(t, i, ds) && AllDigits(ds) && forall k :: 0 <= k < i ==> !C.IsCaddy(t, k)
    ensures C.CaddyExtract(t) == if 1 <= ValueOf(ds) <= 65535 then Some(ValueOf(ds)) else None
  {
    C.CaddySearchIs(t, i);
    hide C.CaddyAt, C.CaddySearch;
  }
}
