/**
 * The service port editor: registry patterns, the port read, the port replaced.
 */
module PortConfig {
  import opened Text
  import opened OrderedDict
  import opened Decimals

  // ----------------------------------------------------------------- patterns

  /** White space (at least min characters of it) or a fixed word. */
  datatype Token = Space(min: nat) | Word(word: string, anyCase: bool)

  type Pattern = seq<Token>

  function Assignment(key: string, anyCase: bool): Pattern {
    [Space(0), Word(key, anyCase), Space(0), Word("=", false), Space(0)]
  }

  const SSH: Pattern := [Space(0), Word("Port", false), Space(1)]
  const COCKPIT: Pattern := Assignment("ListenStream", false)
  const MARIADB: Pattern := Assignment("port", true)
  const OPENWEBUI: Pattern := Assignment("PORT", false)
  const HERMES: Pattern := [Space(0), Word("port:", false), Space(0)]
  const ODYSSEUS: Pattern := Assignment("port", false)

  function Lower(c: char): char {
    if 'A' <= c <= 'Z' then ((c as int) + 32) as char else c
  }

  predicate SameChar(c: char, d: char, anyCase: bool) {
    c == d || (anyCase && Lower(c) == Lower(d))
  }

  predicate WordAt(t: string, i: nat, w: string, anyCase: bool) {
    i + |w| <= |t| && forall k :: 0 <= k < |w| ==> SameChar(t[i + k], w[k], anyCase)
  }

  function ScanToken(t: string, i: nat, tok: Token): (r: Option<nat>)
    requires i <= |t|
    ensures r.Some? ==> i <= r.value <= |t|
  {
    match tok
    case Space(min) => var j := SpaceEnd(t, i); if j - i >= min then Some(j) else None
    case Word(w, anyCase) => if WordAt(t, i, w, anyCase) then Some(i + |w|) else None
  }

  function Scan(t: string, i: nat, pattern: Pattern): (r: Option<nat>)
    requires i <= |t|
    ensures r.Some? ==> i <= r.value <= |t|
    decreases |pattern|
  {
    if pattern == [] then Some(i)
    else
      match ScanToken(t, i, pattern[0])
      case None => None
      case Some(j) => Scan(t, j, pattern[1..])
  }

  function DigitEnd(t: string, i: nat): (n: nat)
    requires i <= |t|
    ensures i <= n <= |t|
    ensures n < |t| ==> !IsDigit(t[n])
    ensures forall k :: i <= k < n ==> IsDigit(t[k])
    decreases |t| - i
  {
    if i < |t| && IsDigit(t[i]) then DigitEnd(t, i + 1) else i
  }

  /** The last line break in t[i..j], or j when there is none. */
  function LastBreak(t: string, i: nat, j: nat): (n: nat)
    requires i <= j <= |t|
    ensures i <= n <= j
    ensures n < j ==> t[n] == '\n'
    ensures forall k :: n < k < j ==> t[k] != '\n'
    ensures n == j ==> forall k :: i <= k < j ==> t[k] != '\n'
    decreases j - i
  {
    if i == j then j
    else if t[j - 1] == '\n' then j - 1
    else
      var n := LastBreak(t, i, j - 1);
      if n == j - 1 then j else n
  }

  /** White space up to an end of line, as much as possible: where it ends, if there is one. */
  function Trailer(t: string, e: nat): (r: Option<nat>)
    requires e <= |t|
    ensures r.Some? ==> e <= r.value <= SpaceEnd(t, e)
    ensures r.Some? ==> r.value == |t| || t[r.value] == '\n'
  {
    var s := SpaceEnd(t, e);
    if s == |t| then Some(s)
    else
      var n := LastBreak(t, e, s);
      if n < s then Some(n) else None
  }

  predicate LineStart(t: string, i: nat)
    requires i <= |t|
  {
    i == 0 || t[i - 1] == '\n'
  }

  // Where the match starts, where its digits start and end, and where it ends.
  datatype Match = Match(start: nat, digits: nat, digitsEnd: nat, end: nat)

  function MatchAt(t: string, pattern: Pattern, i: nat): (r: Option<Match>)
    requires i <= |t|
    ensures r.Some? ==> r.value.start == i <= r.value.digits < r.value.digitsEnd <= r.value.end <= |t|
  {
    if !LineStart(t, i) then None
    else
      match Scan(t, i, pattern)
      case None => None
      case Some(d) =>
        var e := DigitEnd(t, d);
        if e == d then None
        else
          match Trailer(t, e)
          case None => None
          case Some(end) => Some(Match(i, d, e, end))
  }

  predicate Found(t: string, pattern: Pattern, i: nat)
    requires i <= |t|
  {
    MatchAt(t, pattern, i).Some?
  }

  /** The first position at or after i with a match, past the end of the text when there is none. */
  function SearchFrom(t: string, pattern: Pattern, i: nat): (s: nat)
    requires i <= |t|
    ensures i <= s <= |t| + 1
    ensures s <= |t| ==> Found(t, pattern, s)
    ensures forall k :: i <= k < s && k <= |t| ==> !Found(t, pattern, k)
    decreases |t| - i
  {
    if Found(t, pattern, i) then i else if i == |t| then i + 1 else SearchFrom(t, pattern, i + 1)
  }

  /** The first match. */
  function Search(t: string, pattern: Pattern): Option<Match> {
    var s := SearchFrom(t, pattern, 0);
    if s <= |t| then MatchAt(t, pattern, s) else None
  }

  // ------------------------------------------------------------------- editing

  /** A port as the command accepts it: one to five digits, no leading zero, at most 65535. */
  predicate ValidPort(s: string) {
    && 1 <= |s| <= 5 && (forall k :: 0 <= k < |s| ==> IsDigit(s[k])) && s[0] != '0'
    && ValueOf(s) <= 65535
  }

  function Extract(t: string, pattern: Pattern): Option<nat> {
    match Search(t, pattern)
    case None => None
    case Some(m) =>
      var n := ValueOf(t[m.digits..m.digitsEnd]);
      if 1 <= n <= 65535 then Some(n) else None
  }

  function WithPort(t: string, m: Match, port: nat): string
    requires m.digits <= |t| && m.end <= |t|
  {
    t[..m.digits] + Decimal(port) + t[m.end..]
  }

  datatype Reply = InvalidPort | NoPortLine | WriteFailed | Done(was: nat, now: nat)

  class ServiceConfig {
    const pattern: Pattern
    var text: string

    constructor (pattern: Pattern, text: string)
      ensures this.pattern == pattern && this.text == text
    {
      this.pattern := pattern;
      this.text := text;
    }

    /** A flag says whether the atomic write succeeds. */
    method SetPort(arg: string, writable: bool) returns (r: Reply)
      modifies this`text
      ensures !ValidPort(arg) ==> r == InvalidPort
      ensures ValidPort(arg) && Search(old(text), pattern) == None ==> r == NoPortLine
      ensures ValidPort(arg) && Search(old(text), pattern).Some? ==>
        var m := Search(old(text), pattern).value;
        r == if writable then Done(ValueOf(old(text)[m.digits..m.digitsEnd]), ValueOf(arg)) else WriteFailed
      ensures text == if r.Done? then WithPort(old(text), Search(old(text), pattern).value, ValueOf(arg)) else old(text)
    {
      if !ValidPort(arg) {
        return InvalidPort;
      }
      var found := Search(text, pattern);
      if found == None {
        return NoPortLine;
      }
      var m := found.value;
      var was := ValueOf(text[m.digits..m.digitsEnd]);
      var newText := text[..m.digits] + Decimal(ValueOf(arg)) + text[m.end..];
      if !writable {
        return WriteFailed;
      }
      text := newText;
      return Done(was, ValueOf(arg));
    }
  }

  // ---------------------------------------------------------- read after write

  /** Words begin with no white space and hold no digits; there is at least one. */
  predicate WordOk(w: string, anyCase: bool) {
    w != "" && !IsSpace(w[0]) && forall k :: 0 <= k < |w| ==> !IsDigit(w[k])
  }

  ghost predicate PatternOk(p: Pattern) {
    forall i :: 0 <= i < |p| && p[i].Word? ==> WordOk(p[i].word, p[i].anyCase)
  }

  lemma AssignmentOk(key: string, anyCase: bool)
    requires WordOk(key, anyCase)
    ensures PatternOk(Assignment(key, anyCase))
  {
    assert WordOk("=", false);
    hide WordOk;
  }

  lemma SpacedOk(word: string, min: nat)
    requires WordOk(word, false)
    ensures PatternOk([Space(0), Word(word, false), Space(min)])
  {
    hide WordOk;
  }

  lemma RegistryOk()
    ensures PatternOk(SSH) && PatternOk(COCKPIT) && PatternOk(MARIADB)
    ensures PatternOk(OPENWEBUI) && PatternOk(HERMES) && PatternOk(ODYSSEUS)
  {
    assert WordOk("Port", false) && WordOk("ListenStream", false) && WordOk("port:", false);
    assert WordOk("port", true) && WordOk("port", false) && WordOk("PORT", false);
    hide WordOk, PatternOk, Assignment;
    SpacedOk("Port", 1);
    SpacedOk("port:", 0);
    AssignmentOk("ListenStream", false);
    AssignmentOk("port", true);
    AssignmentOk("PORT", false);
    AssignmentOk("port", false);
  }

  /** Two texts that agree before d and both have a digit at d. */
  ghost predicate AgreeTo(t: string, u: string, d: nat) {
    d < |t| && d < |u| && IsDigit(t[d]) && IsDigit(u[d]) && forall k :: 0 <= k < d ==> t[k] == u[k]
  }

  lemma DigitNotSame(c: char, d: char, anyCase: bool)
    requires IsDigit(c) && !IsDigit(d)
    ensures !SameChar(c, d, anyCase)
  {
  }

  lemma SpaceEndAgrees(t: string, u: string, d: nat, i: nat)
    requires AgreeTo(t, u, d) && i <= d
    ensures SpaceEnd(t, i) == SpaceEnd(u, i) <= d
  {
  }

  lemma WordAgrees(t: string, u: string, d: nat, i: nat, w: string, anyCase: bool)
    requires AgreeTo(t, u, d) && i <= d && WordOk(w, anyCase)
    ensures WordAt(t, i, w, anyCase) == WordAt(u, i, w, anyCase)
    ensures WordAt(t, i, w, anyCase) ==> i + |w| <= d
  {
    if i + |w| > d {
      DigitNotSame(t[d], w[d - i], anyCase);
      DigitNotSame(u[d], w[d - i], anyCase);
      assert t[d] == t[i + (d - i)] && u[d] == u[i + (d - i)];
    } else {
      assert forall k :: i <= k < i + |w| ==> t[k] == u[k];
    }
  }

  /** The scan from before d reads nothing that differs, and stops at d at the latest. */
  lemma {:induction false} ScanAgrees(t: string, u: string, d: nat, i: nat, p: Pattern)
    requires AgreeTo(t, u, d) && i <= d && PatternOk(p)
    ensures Scan(t, i, p) == Scan(u, i, p)
    ensures Scan(t, i, p).Some? ==> Scan(t, i, p).value <= d
    decreases |p|
  {
    if p != [] {
      hide WordOk, IsSpace;
      match p[0]
      case Space(min) =>
        SpaceEndAgrees(t, u, d, i);
        hide SpaceEnd, AgreeTo;
        ScanAgrees(t, u, d, SpaceEnd(t, i), p[1..]);
      case Word(w, anyCase) =>
        WordAgrees(t, u, d, i, w, anyCase);
        hide WordAt, AgreeTo;
        if WordAt(t, i, w, anyCase) {
          ScanAgrees(t, u, d, i + |w|, p[1..]);
        }
    }
  }

  /** What a scan has just read is no digit. */
  lemma {:induction false} ScanLeavesNoDigit(t: string, i: nat, p: Pattern)
    requires i <= |t| && PatternOk(p)
    ensures Scan(t, i, p).Some? ==> forall k :: i <= k < Scan(t, i, p).value ==> !IsDigit(t[k])
    decreases |p|
  {
    if p != [] {
      match p[0]
      case Space(min) =>
        ScanLeavesNoDigit(t, SpaceEnd(t, i), p[1..]);
      case Word(w, anyCase) =>
        if WordAt(t, i, w, anyCase) {
          forall k | i <= k < i + |w| ensures !IsDigit(t[k]) {
            assert SameChar(t[i + (k - i)], w[k - i], anyCase);
            if IsDigit(t[k]) {
              DigitNotSame(t[k], w[k - i], anyCase);
            }
          }
          ScanLeavesNoDigit(t, i + |w|, p[1..]);
        }
    }
  }

  lemma LastBreakAgrees(t: string, u: string, i: nat, j: nat)
    requires i <= j <= |t| && j <= |u| && forall k :: i <= k < j ==> t[k] == u[k]
    ensures LastBreak(t, i, j) == LastBreak(u, i, j)
  {
    var n, m := LastBreak(t, i, j), LastBreak(u, i, j);
    assert n < j ==> u[n] == '\n';
    assert m < j ==> t[m] == '\n';
  }

  lemma TrailerAgrees(t: string, u: string, d: nat, e: nat)
    requires AgreeTo(t, u, d) && e <= d
    ensures Trailer(t, e) == Trailer(u, e)
  {
    SpaceEndAgrees(t, u, d, e);
    LastBreakAgrees(t, u, e, SpaceEnd(t, e));
  }

  lemma DigitEndAgrees(t: string, u: string, d: nat, q: nat)
    requires AgreeTo(t, u, d) && q < d && !IsDigit(t[d - 1])
    ensures DigitEnd(t, q) == DigitEnd(u, q) < d
  {
    var n, m := DigitEnd(t, q), DigitEnd(u, q);
    assert u[d - 1] == t[d - 1];
    assert !(q <= d - 1 < n) && !(q <= d - 1 < m);
  }

  /** No line start before the match gains a match when only the text from the digits on changes. */
  lemma EarlierUnchanged(t: string, u: string, p: Pattern, m: Match, i: nat)
    requires PatternOk(p) && m.start <= m.digits <= |t| && MatchAt(t, p, m.start) == Some(m)
    requires AgreeTo(t, u, m.digits) && i < m.start && MatchAt(t, p, i) == None
    ensures MatchAt(u, p, i) == None
  {
    var d := m.digits;
    ScanAgrees(t, u, d, i, p);
    ScanLeavesNoDigit(t, m.start, p);
    match Scan(t, i, p)
    case None =>
    case Some(q) =>
      if q < d {
        assert !IsDigit(t[d - 1]);
        DigitEndAgrees(t, u, d, q);
        TrailerAgrees(t, u, d, DigitEnd(t, q));
      }
  }

  lemma SearchFinds(u: string, p: Pattern, s: nat)
    requires s <= |u| && Found(u, p, s)
    requires forall k :: 0 <= k < s ==> !Found(u, p, k)
    ensures Search(u, p) == MatchAt(u, p, s)
  {
    hide MatchAt;
    assert SearchFrom(u, p, 0) == s;
  }

  /** After the new digits comes the end of the text or an end of line, so the match reaches one again. */
  lemma NewTrailer(a: string, rest: string)
    requires rest == "" || rest[0] == '\n'
    ensures Trailer(a + rest, |a|).Some?
  {
    var t := a + rest;
    var s := SpaceEnd(t, |a|);
    if rest != "" {
      assert t[|a|] == '\n' && s > |a|;
    }
  }

  lemma NewDigits(a: string, port: string, rest: string)
    requires (forall k :: 0 <= k < |port| ==> IsDigit(port[k])) && (rest == "" || rest[0] == '\n')
    ensures DigitEnd(a + port + rest, |a|) == |a| + |port|
  {
    var t := a + port + rest;
    assert forall k :: |a| <= k < |a| + |port| ==> t[k] == port[k - |a|];
    assert rest != "" ==> t[|a| + |port|] == '\n';
  }

  lemma EditedText(t: string, m: Match, port: nat)
    requires m.start <= m.digits < m.digitsEnd <= m.end <= |t| && IsDigit(t[m.digits])
    requires m.end == |t| || t[m.end] == '\n'
    ensures var u := WithPort(t, m, port); var e := m.digits + |Decimal(port)|;
      && AgreeTo(t, u, m.digits) && m.start <= |u|
      && DigitEnd(u, m.digits) == e && u[m.digits..e] == Decimal(port) && Trailer(u, e).Some?
  {
    hide DigitEnd, Trailer, Decimal, IsDigit;
    var a, ds, rest := t[..m.digits], Decimal(port), t[m.end..];
    assert rest != "" ==> rest[0] == t[m.end];
    NewDigits(a, ds, rest);
    NewTrailer(a + ds, rest);
    Parts(a, ds, rest);
  }

  lemma Parts(a: string, b: string, c: string)
    requires b != ""
    ensures var u := a + b + c; u[|a|] == b[0] && u[|a|..|a| + |b|] == b && forall k :: 0 <= k < |a| ==> u[k] == a[k]
  {
  }

  lemma MatchParts(t: string, p: Pattern, i: nat)
    requires i <= |t| && MatchAt(t, p, i).Some?
    ensures var m := MatchAt(t, p, i).value;
      LineStart(t, i) && Scan(t, i, p) == Some(m.digits) && DigitEnd(t, m.digits) == m.digitsEnd && Trailer(t, m.digitsEnd) == Some(m.end)
  {
    hide LineStart, Scan, DigitEnd, Trailer;
  }

  lemma MatchFrom(t: string, p: Pattern, i: nat, d: nat, e: nat)
    requires i <= |t| && LineStart(t, i) && Scan(t, i, p) == Some(d) && d < e && DigitEnd(t, d) == e && Trailer(t, e).Some?
    ensures MatchAt(t, p, i) == Some(Match(i, d, e, Trailer(t, e).value))
  {
    hide LineStart, Scan, DigitEnd, Trailer;
  }

  lemma EditedMatch(t: string, p: Pattern, m: Match, port: nat)
    requires PatternOk(p) && m.start <= |t| && MatchAt(t, p, m.start) == Some(m)
    ensures var u := WithPort(t, m, port);
      && AgreeTo(t, u, m.digits) && m.start <= |u| && MatchAt(u, p, m.start).Some?
      && MatchAt(u, p, m.start).value.digits == m.digits
      && MatchAt(u, p, m.start).value.digitsEnd == m.digits + |Decimal(port)| <= |u|
      && u[m.digits..m.digits + |Decimal(port)|] == Decimal(port)
  {
    var u := WithPort(t, m, port);
    MatchParts(t, p, m.start);
    hide WithPort, DigitEnd, Trailer, Decimal, PatternOk, Scan, MatchAt, IsDigit;
    EditedText(t, m, port);
    assert LineStart(u, m.start);
    hide AgreeTo, LineStart;
    ScanAgrees(t, u, m.digits, m.start, p);
    MatchFrom(u, p, m.start, m.digits, m.digits + |Decimal(port)|);
  }

  /** The search in the edited text stops at the same line and reads the new digits. */
  lemma EditedSearch(t: string, p: Pattern, m: Match, port: nat)
    requires PatternOk(p) && Search(t, p) == Some(m)
    ensures var u := WithPort(t, m, port);
      && Search(u, p).Some? && Search(u, p).value.digits == m.digits
      && u[m.digits..Search(u, p).value.digitsEnd] == Decimal(port)
  {
    var u := WithPort(t, m, port);
    assert m.start <= |t| && MatchAt(t, p, m.start) == Some(m);
    assert forall k :: 0 <= k < m.start ==> !Found(t, p, k);
    EditedMatch(t, p, m, port);
    hide PatternOk, Decimal, Scan, Trailer, DigitEnd, WithPort, AgreeTo, Search;
    forall k | 0 <= k < m.start ensures !Found(u, p, k) {
      assert !Found(t, p, k);
      EarlierUnchanged(t, u, p, m, k);
    }
    SearchFinds(u, p, m.start);
  }

  lemma LostIsSpace(t: string, p: Pattern, m: Match)
    requires Search(t, p) == Some(m)
    ensures AllSpace(t[m.digitsEnd..m.end])
  {
    assert Trailer(t, m.digitsEnd) == Some(m.end);
    var s := t[m.digitsEnd..m.end];
    assert forall k :: 0 <= k < |s| ==> s[k] == t[m.digitsEnd + k];
  }

  /**
   * For any pattern of the registry and any valid port, the edited text is read
   * back as the new port; the text before the digits and after the match is kept,
   * and what is lost between them is white space.
   */
  lemma ReadAfterWrite(t: string, p: Pattern, port: nat)
    requires PatternOk(p) && 1 <= port <= 65535 && Search(t, p).Some?
    ensures var m := Search(t, p).value; var u := WithPort(t, m, port);
      && Extract(u, p) == Some(port)
      && u == t[..m.digits] + Decimal(port) + t[m.end..]
      && AllSpace(t[m.digitsEnd..m.end])
  {
    var m := Search(t, p).value;
    hide PatternOk, Decimal, Search, AllSpace;
    LostIsSpace(t, p, m);
    EditedSearch(t, p, m, port);
    DecimalValue(port);
  }

  /** The digits are the whole of what changes: they end the text, or a line that a non-blank line follows. */
  predicate EndsLine(t: string, e: nat)
    requires e <= |t|
  {
    e == |t| || (t[e] == '\n' && SpaceEnd(t, e) < |t| && LastBreak(t, e, SpaceEnd(t, e)) == e)
  }

  /** Nothing but the digits changes exactly when they end a line that no blank line and no trailing space follows. */
  lemma OnlyDigitsChange(t: string, p: Pattern, port: nat)
    requires Search(t, p).Some?
    ensures var m := Search(t, p).value;
      WithPort(t, m, port) == t[..m.digits] + Decimal(port) + t[m.digitsEnd..] <==> EndsLine(t, m.digitsEnd)
  {
    var m := Search(t, p).value;
    var a := t[..m.digits] + Decimal(port);
    assert WithPort(t, m, port) == a + t[m.end..];
    if a + t[m.end..] == a + t[m.digitsEnd..] {
      assert |t[m.end..]| == |t[m.digitsEnd..]|;
    }
    var s := SpaceEnd(t, m.digitsEnd);
    if m.digitsEnd < |t| && t[m.digitsEnd] == '\n' && s < |t| {
      assert IsSpace('\n');
    }
  }

  const TWO_BREAKS := "Port 22\n\n"

  lemma ExampleScan()
    ensures Scan(TWO_BREAKS, 0, SSH) == Some(5)
  {
    var t := TWO_BREAKS;
    assert SpaceEnd(t, 0) == 0 && SpaceEnd(t, 4) == 5;
    assert t[0 + 0] == 'P' && t[0 + 1] == 'o' && t[0 + 2] == 'r' && t[0 + 3] == 't';
    assert WordAt(t, 0, "Port", false);
    hide SpaceEnd, WordAt;
    var rest1: Pattern := [Word("Port", false), Space(1)];
    var rest2: Pattern := [Space(1)];
    assert SSH[1..] == rest1 && rest1[1..] == rest2 && rest2[1..] == [];
    assert Scan(t, 5, []) == Some(5) && Scan(t, 4, rest2) == Some(5) && Scan(t, 0, rest1) == Some(5);
  }

  lemma ExampleEnd()
    ensures DigitEnd(TWO_BREAKS, 5) == 7 && Trailer(TWO_BREAKS, 7) == Some(9)
  {
    var t := TWO_BREAKS;
    assert SpaceEnd(t, 7) == 9;
    assert DigitEnd(t, 7) == 7 && DigitEnd(t, 6) == 7;
  }

  lemma ExampleText()
    ensures WithPort(TWO_BREAKS, Match(0, 5, 7, 9), 80) == "Port 80"
  {
    assert Decimal(8) == "8" && Decimal(80) == "80";
    hide Decimal;
    assert TWO_BREAKS[..5] == "Port " && TWO_BREAKS[9..] == "";
  }

  /** A file that ends in a blank line loses its last line breaks. */
  lemma LineBreaksLost()
    ensures Search("Port 22\n\n", SSH) == Some(Match(0, 5, 7, 9))
    ensures WithPort("Port 22\n\n", Match(0, 5, 7, 9), 80) == "Port 80"
  {
    ExampleScan();
    ExampleEnd();
    ExampleText();
    hide Scan, DigitEnd, Trailer, WithPort;
    assert MatchAt(TWO_BREAKS, SSH, 0) == Some(Match(0, 5, 7, 9));
  }
}
