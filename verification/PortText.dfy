/** The lines the port patterns find, the ports they accept, as text. */
module PortText {
  import opened Text
  import opened OrderedDict
  import opened Decimals
  import opened PortConfig

  // ---------------------------------------------------------------- one token

  /** The same letters, in any case where the pattern allows it. */
  predicate SameWord(w: string, word: string, anyCase: bool) {
    |w| == |word| && forall i :: 0 <= i < |w| ==> SameChar(w[i], word[i], anyCase)
  }

  /** What stands in t from i on. */
  predicate Rest(t: string, i: nat, s: string) {
    i <= |t| && t[i..] == s
  }

  lemma ScanSpace(t: string, w: string, rest: string, i: nat, min: nat)
    requires Rest(t, i, w + rest) && AllSpace(w) && |w| >= min && (rest != "" ==> !IsSpace(rest[0]))
    ensures i <= i + |w| <= |t| && ScanToken(t, i, Space(min)) == Some(i + |w|) && Rest(t, i + |w|, rest)
  {
    var j := i + |w|;
    assert forall k :: i <= k < j ==> t[k] == t[i..][k - i] == w[k - i];
    assert j < |t| ==> t[j] == t[i..][|w|] == rest[0];
    assert SpaceEnd(t, i) == j;
  }

  lemma ScanWord(t: string, w: string, rest: string, i: nat, word: string, anyCase: bool)
    requires Rest(t, i, w + rest) && SameWord(w, word, anyCase)
    ensures i <= i + |w| <= |t| && ScanToken(t, i, Word(word, anyCase)) == Some(i + |w|) && Rest(t, i + |w|, rest)
  {
    hide SameChar;
    assert forall k :: 0 <= k < |w| ==> t[i + k] == t[i..][k] == w[k];
  }

  lemma ScanFirst(t: string, i: nat, tok: Token, more: Pattern)
    requires i <= |t| && ScanToken(t, i, tok).Some?
    ensures Scan(t, i, [tok] + more) == Scan(t, ScanToken(t, i, tok).value, more)
  {
    hide ScanToken;
    assert ([tok] + more)[0] == tok && ([tok] + more)[1..] == more;
  }

  // -------------------------------------------------------- digits and line ends

  /** What may follow the digits: white space that reaches the end of a line. */
  predicate LineEnd(z: string, b: string) {
    AllSpace(z) && (b == "" || b[0] == '\n')
  }

  lemma DigitsRead(t: string, d: nat, ds: string, z: string, b: string)
    requires d <= |t| && t[d..] == ds + (z + b) && LineEnd(z, b) && forall k :: 0 <= k < |ds| ==> IsDigit(ds[k])
    ensures DigitEnd(t, d) == d + |ds| <= |t| && t[d..d + |ds|] == ds && Trailer(t, d + |ds|).Some?
  {
    var e := d + |ds|;
    assert !IsDigit('\n') && forall c: char :: IsSpace(c) ==> !IsDigit(c);
    assert forall k :: d <= k < e ==> t[k] == t[d..][k - d] == ds[k - d];
    var rest := z + b;
    assert e < |t| ==> t[e] == t[d..][|ds|] == rest[0];
    assert DigitEnd(t, d) == e;
    assert t[e..] == rest;
    hide DigitEnd, IsDigit;
    TrailerThere(t, e, z, b);
  }

  lemma TrailerThere(t: string, e: nat, z: string, b: string)
    requires e <= |t| && t[e..] == z + b && LineEnd(z, b)
    ensures Trailer(t, e).Some?
  {
    var s := SpaceEnd(t, e);
    assert forall k :: e <= k < e + |z| ==> t[k] == t[e..][k - e] == z[k - e];
    assert s >= e + |z|;
    if b != "" {
      assert t[e + |z|] == t[e..][|z|] == '\n' && IsSpace('\n');
      assert s > e + |z|;
    }
  }

  // ---------------------------------------------------------------- whole lines

  /** The pattern matches the line that starts at i and finds these digits. */
  predicate Finds(t: string, i: nat, p: Pattern, ds: string) {
    i <= |t| && MatchAt(t, p, i).Some? && var m := MatchAt(t, p, i).value; t[m.digits..m.digitsEnd] == ds
  }

  /** A pattern that has been scanned up to digits finds them. */
  lemma LineFound(t: string, p: Pattern, i: nat, d: nat, ds: string, z: string, b: string)
    requires i <= d <= |t| && LineStart(t, i) && Scan(t, i, p) == Some(d) && Rest(t, d, ds + (z + b))
    requires LineEnd(z, b) && ds != "" && forall k :: 0 <= k < |ds| ==> IsDigit(ds[k])
    ensures Finds(t, i, p, ds)
  {
    DigitsRead(t, d, ds, z, b);
    hide Scan, LineStart, DigitEnd, Trailer, IsDigit, LineEnd, MatchAt;
    MatchFrom(t, p, i, d, d + |ds|);
  }

  /** The beginning of a line. */
  predicate Before(a: string) {
    a == "" || a[|a| - 1] == '\n'
  }

  predicate AllDigits(ds: string) {
    ds != "" && forall k :: 0 <= k < |ds| ==> IsDigit(ds[k])
  }

  /** What stands behind the beginning of the line: key = digits, white space, and what follows. */
  function AssignmentLine(w: string, k: string, w1: string, w2: string, ds: string, z: string, b: string): string {
    w + (k + (w1 + ("=" + (w2 + (ds + (z + b))))))
  }

  function SpacedLine(w: string, word: string, w1: string, ds: string, z: string, b: string): string {
    w + (word + (w1 + (ds + (z + b))))
  }

  lemma AssignmentInside(t: string, i: nat, w: string, k: string, w1: string, w2: string, ds: string, z: string, b: string,
                         key: string, anyCase: bool)
    requires Rest(t, i, AssignmentLine(w, k, w1, w2, ds, z, b)) && LineStart(t, i)
    requires AllSpace(w) && AllSpace(w1) && AllSpace(w2) && LineEnd(z, b) && AllDigits(ds)
    requires SameWord(k, key, anyCase) && WordOk(k, false)
    ensures Finds(t, i, Assignment(key, anyCase), ds)
  {
    var r5 := ds + (z + b);
    var r4 := w2 + r5;
    DigitsAll(ds);
    FirstOf(ds, z + b);
    assert IsDigit(ds[0]) && !IsSpace(ds[0]) && !IsSpace(k[0]) && k != "";
    assert AssignmentLine(w, k, w1, w2, ds, z, b) == w + (k + (w1 + ("=" + r4)));
    hide *;
    AssignmentScan(t, i, w, k, w1, r4, key, anyCase);
    var i4 := i + |w| + |k| + |w1| + 1;
    ScanSpace(t, w2, r5, i4, 0);
    FiveTokens(t, i, i + |w|, i + |w| + |k|, i + |w| + |k| + |w1|, i4, i4 + |w2|, key, anyCase);
    LineFound(t, Assignment(key, anyCase), i, i4 + |w2|, ds, z, b);
  }

  /**
   * key = digits, on a line of its own, with any white space around the key and
   * the equals sign: the pattern matches there and finds the digits.
   */
  lemma AssignmentFound(a: string, w: string, k: string, w1: string, w2: string, ds: string, z: string, b: string,
                        key: string, anyCase: bool)
    requires Before(a) && AllSpace(w) && AllSpace(w1) && AllSpace(w2) && LineEnd(z, b) && AllDigits(ds)
    requires SameWord(k, key, anyCase) && WordOk(k, false)
    ensures Finds(a + AssignmentLine(w, k, w1, w2, ds, z, b), |a|, Assignment(key, anyCase), ds)
  {
    hide *;
    BeforeIsStart(a, AssignmentLine(w, k, w1, w2, ds, z, b));
    AssignmentInside(a + AssignmentLine(w, k, w1, w2, ds, z, b), |a|, w, k, w1, w2, ds, z, b, key, anyCase);
  }

  lemma AssignmentScan(t: string, i: nat, w: string, k: string, w1: string, r4: string, key: string, anyCase: bool)
    requires Rest(t, i, w + (k + (w1 + ("=" + r4)))) && AllSpace(w) && AllSpace(w1)
    requires SameWord(k, key, anyCase) && k != "" && !IsSpace(k[0])
    ensures var i1, i2, i3 := i + |w|, i + |w| + |k|, i + |w| + |k| + |w1|;
      && i3 + 1 <= |t| && ScanToken(t, i, Space(0)) == Some(i1) && ScanToken(t, i1, Word(key, anyCase)) == Some(i2)
      && ScanToken(t, i2, Space(0)) == Some(i3) && ScanToken(t, i3, Word("=", false)) == Some(i3 + 1)
      && Rest(t, i3 + 1, r4)
  {
    hide *;
    FirstOf(k, w1 + ("=" + r4));
    ScanSpace(t, w, k + (w1 + ("=" + r4)), i, 0);
    ScanWord(t, k, w1 + ("=" + r4), i + |w|, key, anyCase);
    SignScan(t, i + |w| + |k|, w1, r4);
  }

  lemma SignScan(t: string, i: nat, w1: string, r4: string)
    requires Rest(t, i, w1 + ("=" + r4)) && AllSpace(w1)
    ensures var i3 := i + |w1|;
      && i3 + 1 <= |t| && ScanToken(t, i, Space(0)) == Some(i3) && ScanToken(t, i3, Word("=", false)) == Some(i3 + 1)
      && Rest(t, i3 + 1, r4)
  {
    SignWord();
    FirstOf("=", r4);
    assert !IsSpace('=');
    hide *;
    ScanSpace(t, w1, "=" + r4, i, 0);
    ScanWord(t, "=", r4, i + |w1|, "=", false);
  }

  lemma SignWord()
    ensures SameWord("=", "=", false)
  {
  }

  lemma FirstOf(s: string, rest: string)
    requires s != ""
    ensures s + rest != "" && (s + rest)[0] == s[0]
  {
  }

  lemma BeforeIsStart(a: string, rest: string)
    requires Before(a)
    ensures LineStart(a + rest, |a|) && Rest(a + rest, |a|, rest)
  {
  }

  lemma DigitsAll(ds: string)
    requires AllDigits(ds)
    ensures ds != "" && forall k :: 0 <= k < |ds| ==> IsDigit(ds[k])
  {
  }

  lemma FiveTokens(t: string, i: nat, i1: nat, i2: nat, i3: nat, i4: nat, i5: nat, key: string, anyCase: bool)
    requires i <= |t| && i1 <= |t| && i2 <= |t| && i3 <= |t| && i4 <= |t| && i5 <= |t|
    requires ScanToken(t, i, Space(0)) == Some(i1) && ScanToken(t, i1, Word(key, anyCase)) == Some(i2)
    requires ScanToken(t, i2, Space(0)) == Some(i3) && ScanToken(t, i3, Word("=", false)) == Some(i4)
    requires ScanToken(t, i4, Space(0)) == Some(i5)
    ensures Scan(t, i, Assignment(key, anyCase)) == Some(i5)
  {
    var s, x, e := Space(0), Word(key, anyCase), Word("=", false);
    assert Scan(t, i5, []) == Some(i5);
    assert Assignment(key, anyCase) == [s] + ([x] + ([s] + ([e] + ([s] + []))));
    hide ScanToken, Scan;
    ScanFirst(t, i4, s, []);
    ScanFirst(t, i3, e, [s] + []);
    ScanFirst(t, i2, s, [e] + ([s] + []));
    ScanFirst(t, i1, x, [s] + ([e] + ([s] + [])));
    ScanFirst(t, i, s, [x] + ([s] + ([e] + ([s] + []))));
  }

  lemma SpacedInside(t: string, i: nat, w: string, word: string, w1: string, min: nat, ds: string, z: string, b: string)
    requires Rest(t, i, SpacedLine(w, word, w1, ds, z, b)) && LineStart(t, i)
    requires AllSpace(w) && AllSpace(w1) && |w1| >= min && LineEnd(z, b) && AllDigits(ds) && WordOk(word, false)
    ensures Finds(t, i, [Space(0), Word(word, false), Space(min)], ds)
  {
    var r3 := ds + (z + b);
    DigitsAll(ds);
    DigitNoSpace(ds[0]);
    WordItself(word);
    assert SpacedLine(w, word, w1, ds, z, b) == w + (word + (w1 + r3));
    hide *;
    FirstOf(ds, z + b);
    FirstOf(word, w1 + r3);
    ScanSpace(t, w, word + (w1 + r3), i, 0);
    ScanWord(t, word, w1 + r3, i + |w|, word, false);
    ScanSpace(t, w1, r3, i + |w| + |word|, min);
    ThreeTokens(t, i, i + |w|, i + |w| + |word|, i + |w| + |word| + |w1|, word, min);
    LineFound(t, [Space(0), Word(word, false), Space(min)], i, i + |w| + |word| + |w1|, ds, z, b);
  }

  lemma DigitNoSpace(c: char)
    requires IsDigit(c)
    ensures !IsSpace(c)
  {
  }

  lemma WordItself(word: string)
    requires WordOk(word, false)
    ensures word != "" && !IsSpace(word[0]) && SameWord(word, word, false)
  {
  }

  /** word digits, on a line of its own, with the white space the pattern asks for. */
  lemma SpacedFound(a: string, w: string, word: string, w1: string, min: nat, ds: string, z: string, b: string)
    requires Before(a) && AllSpace(w) && AllSpace(w1) && |w1| >= min && LineEnd(z, b) && AllDigits(ds) && WordOk(word, false)
    ensures Finds(a + SpacedLine(w, word, w1, ds, z, b), |a|, [Space(0), Word(word, false), Space(min)], ds)
  {
    hide *;
    BeforeIsStart(a, SpacedLine(w, word, w1, ds, z, b));
    SpacedInside(a + SpacedLine(w, word, w1, ds, z, b), |a|, w, word, w1, min, ds, z, b);
  }

  lemma ThreeTokens(t: string, i: nat, i1: nat, i2: nat, i3: nat, word: string, min: nat)
    requires i <= |t| && i1 <= |t| && i2 <= |t| && i3 <= |t|
    requires ScanToken(t, i, Space(0)) == Some(i1) && ScanToken(t, i1, Word(word, false)) == Some(i2)
    requires ScanToken(t, i2, Space(min)) == Some(i3)
    ensures Scan(t, i, [Space(0), Word(word, false), Space(min)]) == Some(i3)
  {
    var s, x, e := Space(0), Word(word, false), Space(min);
    assert Scan(t, i3, []) == Some(i3);
    assert [s, x, e] == [s] + ([x] + ([e] + []));
    hide ScanToken, Scan;
    ScanFirst(t, i2, e, []);
    ScanFirst(t, i1, x, [e] + []);
    ScanFirst(t, i, s, [x] + ([e] + []));
  }

  /** The registry, by the lines its entries find. */
  lemma RegistryFinds(a: string, w: string, w1: string, w2: string, ds: string, z: string, b: string)
    requires Before(a) && AllSpace(w) && AllSpace(w1) && AllSpace(w2) && LineEnd(z, b) && AllDigits(ds)
    ensures Finds(a + AssignmentLine(w, "ListenStream", w1, w2, ds, z, b), |a|, COCKPIT, ds)
    ensures Finds(a + AssignmentLine(w, "Port", w1, w2, ds, z, b), |a|, MARIADB, ds)
    ensures Finds(a + AssignmentLine(w, "PORT", w1, w2, ds, z, b), |a|, OPENWEBUI, ds)
    ensures Finds(a + AssignmentLine(w, "port", w1, w2, ds, z, b), |a|, ODYSSEUS, ds)
    ensures Finds(a + SpacedLine(w, "port:", w1, ds, z, b), |a|, HERMES, ds)
    ensures w1 != "" ==> Finds(a + SpacedLine(w, "Port", w1, ds, z, b), |a|, SSH, ds)
  {
    assert WordOk("Port", false) && WordOk("ListenStream", false) && WordOk("port:", false);
    assert WordOk("port", false) && WordOk("PORT", false);
    assert SameWord("ListenStream", "ListenStream", false) && SameWord("PORT", "PORT", false) && SameWord("port", "port", false);
    assert Lower('P') == 'p';
    assert SameWord("Port", "port", true);
    assert COCKPIT == Assignment("ListenStream", false) && MARIADB == Assignment("port", true);
    assert OPENWEBUI == Assignment("PORT", false) && ODYSSEUS == Assignment("port", false);
    hide WordOk, SameWord, Before, AllSpace, LineEnd, AllDigits, MatchAt, Assignment, Finds, AssignmentLine, SpacedLine;
    AssignmentFound(a, w, "ListenStream", w1, w2, ds, z, b, "ListenStream", false);
    AssignmentFound(a, w, "Port", w1, w2, ds, z, b, "port", true);
    AssignmentFound(a, w, "PORT", w1, w2, ds, z, b, "PORT", false);
    AssignmentFound(a, w, "port", w1, w2, ds, z, b, "port", false);
    SpacedFound(a, w, "port:", w1, 0, ds, z, b);
    if w1 != "" {
      SpacedFound(a, w, "Port", w1, 1, ds, z, b);
    }
  }

  /** The port read is that of the first line found, when it is one. */
  lemma ExtractFirst(t: string, i: nat, p: Pattern, ds: string)
    requires Finds(t, i, p, ds) && AllDigits(ds) && forall k :: 0 <= k < i ==> !Found(t, p, k)
    ensures Extract(t, p) == if 1 <= ValueOf(ds) <= 65535 then Some(ValueOf(ds)) else None
  {
    hide MatchAt;
    SearchFinds(t, p, i);
  }

  // ------------------------------------------------------------- ports as arguments

  function Pow10(k: nat): nat {
    if k == 0 then 1 else 10 * Pow10(k - 1)
  }

  lemma {:induction false} DecimalShape(n: nat, k: nat)
    requires n < Pow10(k) && k > 0
    ensures |Decimal(n)| <= k && (n > 0 ==> Decimal(n)[0] != '0')
  {
    if n >= 10 {
      assert k > 1 && Pow10(k) == 10 * Pow10(k - 1) by {
        assert Pow10(1) == 10 * Pow10(0);
      }
      DecimalShape(n / 10, k - 1);
    }
  }

  lemma {:induction false} DecimalOfValue(s: string)
    requires AllDigits(s) && s[0] != '0'
    ensures ValueOf(s) > 0 && Decimal(ValueOf(s)) == s
    decreases |s|
  {
    var k := |s| - 1;
    var c := DigitValue(s[k]);
    assert IsDigit(s[k]) && [(c + '0' as int) as char] == [s[k]];
    if k == 0 {
      assert s[..0] == "" && s == [s[0]];
    } else {
      DecimalOfValue(s[..k]);
      var n := ValueOf(s[..k]);
      assert ValueOf(s) == 10 * n + c && ValueOf(s) / 10 == n && ValueOf(s) % 10 == c;
      assert s == s[..k] + [s[k]];
    }
  }

  /** The ports accepted are the decimal forms of 1 to 65535, and those only. */
  lemma ValidPortIs(s: string)
    ensures ValidPort(s) <==> exists n :: 1 <= n <= 65535 && s == Decimal(n)
  {
    if ValidPort(s) {
      DecimalOfValue(s);
    }
    forall n | 1 <= n <= 65535 && s == Decimal(n) ensures ValidPort(s) {
      assert Pow10(5) == 100000 by {
        assert Pow10(1) == 10 && Pow10(2) == 100 && Pow10(3) == 1000 && Pow10(4) == 10000;
      }
      DecimalShape(n, 5);
      DecimalValue(n);
    }
  }
}
