/** Caddy's port: behind the last colon of a line without comment. */
module CaddyPort {
  import opened Text
  import opened OrderedDict
  import opened Decimals
  import opened PortConfig

  // ------------------------------------------------------------------- pattern

  /** The end of the run of characters other than '\n' and '#' that starts at i. */
  function RunEnd(t: string, i: nat): (n: nat)
    requires i <= |t|
    ensures i <= n <= |t|
    ensures n < |t| ==> t[n] == '\n' || t[n] == '#'
    ensures forall k :: i <= k < n ==> t[k] != '\n' && t[k] != '#'
    decreases |t| - i
  {
    if i < |t| && t[i] != '\n' && t[i] != '#' then RunEnd(t, i + 1) else i
  }

  /** The last colon in t[i..e], or e when there is none. */
  function LastColon(t: string, i: nat, e: nat): (n: nat)
    requires i <= e <= |t|
    ensures i <= n <= e
    ensures n < e ==> t[n] == ':'
    ensures forall k :: (n < k < e || (n == e && i <= k < e)) ==> t[k] != ':'
    decreases e - i
  {
    if i == e then e
    else if t[e - 1] == ':' then e - 1
    else
      var n := LastColon(t, i, e - 1);
      if n == e - 1 then e else n
  }

  /** Digits and the end of a line behind the colon at j. */
  predicate PortAfter(t: string, j: nat)
    requires j < |t|
  {
    var e := DigitEnd(t, j + 1);
    e > j + 1 && Trailer(t, e).Some?
  }

  /** A match at i: its colon is the last of the run, the only one a port can follow. */
  function CaddyAt(t: string, i: nat): (r: Option<Match>)
    requires i <= |t|
    ensures r.Some? ==> r.value.start == i < r.value.digits < r.value.digitsEnd <= r.value.end <= |t|
  {
    var e := RunEnd(t, i);
    var j := LastColon(t, i, e);
    if LineStart(t, i) && j < e && PortAfter(t, j) then
      var n := DigitEnd(t, j + 1);
      Some(Match(i, j + 1, n, Trailer(t, n).value))
    else None
  }

  /** A colon ends digits and white space before any line end. */
  lemma ColonBlocks(t: string, a: nat, last: nat)
    requires a <= last < |t| && t[last] == ':' && forall k :: a <= k < last ==> t[k] != '\n'
    ensures DigitEnd(t, a) <= last && Trailer(t, DigitEnd(t, a)) == None
  {
    assert !IsDigit(':') && !IsSpace(':');
    var q := DigitEnd(t, a);
    assert q <= last;
    var s := SpaceEnd(t, q);
    assert s <= last;
    NoBreak(t, q, s);
  }

  lemma {:induction false} NoBreak(t: string, i: nat, j: nat)
    requires i <= j <= |t| && forall k :: i <= k < j ==> t[k] != '\n'
    ensures LastBreak(t, i, j) == j
    decreases j - i
  {
    if i < j {
      NoBreak(t, i, j - 1);
    }
  }

  /** Whichever colon of the run the pattern tries, only the last can be followed by a port and a line end. */
  lemma OnlyLastColon(t: string, i: nat, j: nat)
    requires i <= |t| && i <= j < RunEnd(t, i) && t[j] == ':' && j != LastColon(t, i, RunEnd(t, i))
    ensures !PortAfter(t, j)
  {
    var last := LastColon(t, i, RunEnd(t, i));
    hide DigitEnd, Trailer;
    ColonBlocks(t, j + 1, last);
  }

  predicate IsCaddy(t: string, i: nat)
    requires i <= |t|
  {
    CaddyAt(t, i).Some?
  }

  /** The first position at or after i with a match, past the end of the text when there is none. */
  function CaddyFrom(t: string, i: nat): (s: nat)
    requires i <= |t|
    ensures i <= s <= |t| + 1
    ensures s <= |t| ==> IsCaddy(t, s)
    ensures forall k :: i <= k < s && k <= |t| ==> !IsCaddy(t, k)
    decreases |t| - i
  {
    if IsCaddy(t, i) then i else if i == |t| then i + 1 else CaddyFrom(t, i + 1)
  }

  function CaddySearch(t: string): Option<Match> {
    var s := CaddyFrom(t, 0);
    if s <= |t| then CaddyAt(t, s) else None
  }

  function CaddyExtract(t: string): Option<nat> {
    match CaddySearch(t)
    case None => None
    case Some(m) =>
      var n := ValueOf(t[m.digits..m.digitsEnd]);
      if 1 <= n <= 65535 then Some(n) else None
  }

  // ---------------------------------------------------------- read after write

  lemma RunEndIs(t: string, i: nat, n: nat)
    requires i <= n <= |t| && (n < |t| ==> t[n] == '\n' || t[n] == '#')
    requires forall k :: i <= k < n ==> t[k] != '\n' && t[k] != '#'
    ensures RunEnd(t, i) == n
  {
  }

  lemma LastColonIs(t: string, i: nat, e: nat, n: nat)
    requires i <= n < e <= |t| && t[n] == ':' && forall k :: n < k < e ==> t[k] != ':'
    ensures LastColon(t, i, e) == n
  {
  }

  /** No line end and no comment before d. */
  ghost predicate Clean(t: string, i: nat, d: nat) {
    forall k :: i <= k < d && k < |t| ==> t[k] != '\n' && t[k] != '#'
  }

  ghost predicate AllDigits(t: string, d: nat, e: nat) {
    forall k :: d <= k < e && k < |t| ==> IsDigit(t[k])
  }

  /** The colon before the digits is the same in the edited text. */
  lemma SameColon(t: string, i: nat, d: nat, u: string, end: nat)
    requires i < d < end <= |u| && d <= |t| && t[..d] == u[..d]
    requires t[d - 1] == ':' && Clean(t, i, d)
    requires AllDigits(u, d, end) && (end < |u| ==> u[end] == '\n')
    ensures RunEnd(u, i) == end && LastColon(u, i, end) == d - 1
  {
    forall k | i <= k < end ensures u[k] != '\n' && u[k] != '#' {
      if k < d {
        assert u[k] == u[..d][k] == t[..d][k];
      }
    }
    RunEndIs(u, i, end);
    assert u[d - 1] == u[..d][d - 1] == t[..d][d - 1];
    LastColonIs(u, i, end, d - 1);
  }

  lemma LastColonSame(t: string, u: string, i: nat, e: nat)
    requires i <= e <= |t| && e <= |u| && forall k :: i <= k < e ==> t[k] == u[k]
    ensures LastColon(t, i, e) == LastColon(u, i, e)
  {
  }

  lemma PortAfterSame(t: string, u: string, d: nat, j: nat)
    requires AgreeTo(t, u, d) && j + 1 < d && !IsDigit(t[d - 1])
    ensures PortAfter(t, j) == PortAfter(u, j)
  {
    hide AgreeTo, DigitEnd, Trailer, IsDigit;
    assert j < |t| && j < |u| by { AgreeLengths(t, u, d); }
    DigitEndAgrees(t, u, d, j + 1);
    TrailerAgrees(t, u, d, DigitEnd(t, j + 1));
  }

  lemma AgreeLengths(t: string, u: string, d: nat)
    requires AgreeTo(t, u, d)
    ensures d < |t| && d < |u|
  {
  }

  /** A line before the one of the match reads the same in the edited text. */
  lemma CaddyEarlier(t: string, u: string, m: Match, i: nat)
    requires m.start < m.digits <= |t| && AgreeTo(t, u, m.digits) && LineStart(t, m.start) && t[m.digits - 1] == ':'
    requires i < m.start <= |u| && !IsCaddy(t, i)
    ensures !IsCaddy(u, i)
  {
    var d, b := m.digits, m.start - 1;
    assert t[b] == '\n' && u[b] == '\n';
    var e := RunEnd(t, i);
    assert e <= b && !IsDigit(t[d - 1]);
    RunEndIs(u, i, e);
    LastColonSame(t, u, i, e);
    assert LineStart(t, i) <==> LineStart(u, i);
    var j := LastColon(t, i, e);
    hide PortAfter, LineStart, IsDigit, AgreeTo, LastColon, RunEnd, DigitEnd, Trailer;
    if j < e {
      PortAfterSame(t, u, d, j);
    }
  }

  lemma CaddySearchIs(t: string, s: nat)
    requires s <= |t| && IsCaddy(t, s) && forall k :: 0 <= k < s ==> !IsCaddy(t, k)
    ensures CaddySearch(t) == CaddyAt(t, s)
  {
    hide CaddyAt, IsCaddy;
    assert CaddyFrom(t, 0) == s;
  }

  lemma CaddyParts(t: string, i: nat)
    requires i <= |t| && CaddyAt(t, i).Some?
    ensures var m := CaddyAt(t, i).value;
      && LineStart(t, i) && t[m.digits - 1] == ':' && m.digitsEnd == DigitEnd(t, m.digits) && IsDigit(t[m.digits])
      && Clean(t, i, m.digits)
      && Trailer(t, m.digitsEnd) == Some(m.end)
  {
    hide Trailer, LineStart;
  }

  ghost predicate ReadsPort(u: string, r: Option<Match>, d: nat, port: nat) {
    && r.Some? && r.value.digits == d && d <= r.value.digitsEnd <= |u|
    && u[d..r.value.digitsEnd] == Decimal(port)
  }

  lemma CaddyLine(t: string, u: string, i: nat, d: nat, e: nat)
    requires AgreeTo(t, u, d) && i < d < e <= |u| && d <= |t|
    requires LineStart(t, i) && t[d - 1] == ':' && Clean(t, i, d)
    requires AllDigits(u, d, e) && (e < |u| ==> u[e] == '\n') && DigitEnd(u, d) == e && Trailer(u, e).Some?
    ensures CaddyAt(u, i).Some? && CaddyAt(u, i).value.digits == d && CaddyAt(u, i).value.digitsEnd == e
  {
    hide Trailer, CaddyAt, IsDigit, DigitEnd, Clean, AllDigits, RunEnd, LastColon;
    LinesAgree(t, u, d, i);
    hide AgreeTo, LineStart;
    SameColon(t, i, d, u, e);
    CaddyMatches(u, i, d, e);
  }

  /** What the edit leaves around the new digits, which end at e. */
  ghost predicate EditedAt(t: string, u: string, d: nat, e: nat, port: nat) {
    && d < e <= |u| && d <= |t| && AgreeTo(t, u, d) && AllDigits(u, d, e) && (e < |u| ==> u[e] == '\n')
    && DigitEnd(u, d) == e && Trailer(u, e).Some? && u[d..e] == Decimal(port)
  }

  lemma EditedIs(t: string, m: Match, port: nat)
    requires m.start <= m.digits < m.digitsEnd <= m.end <= |t| && IsDigit(t[m.digits])
    requires m.end == |t| || t[m.end] == '\n'
    ensures m.start <= |WithPort(t, m, port)|
    ensures EditedAt(t, WithPort(t, m, port), m.digits, m.digits + |Decimal(port)|, port)
  {
    hide Decimal, Trailer, WithPort, IsDigit, DigitEnd, AgreeTo, AllDigits;
    EditedText(t, m, port);
    NewEnd(t, m, port);
  }

  lemma EditedReads(t: string, u: string, i: nat, d: nat, e: nat, port: nat)
    requires EditedAt(t, u, d, e, port) && i < d && LineStart(t, i) && t[d - 1] == ':' && Clean(t, i, d)
    ensures ReadsPort(u, CaddyAt(u, i), d, port)
  {
    hide Decimal, Trailer, CaddyAt, DigitEnd, Clean, AllDigits, AgreeTo, LineStart;
    CaddyLine(t, u, i, d, e);
  }

  lemma EditedAgrees(t: string, u: string, d: nat, e: nat, port: nat)
    requires EditedAt(t, u, d, e, port)
    ensures AgreeTo(t, u, d)
  {
  }

  lemma EndsKnown(t: string, i: nat)
    requires i <= |t| && CaddyAt(t, i).Some?
    ensures var m := CaddyAt(t, i).value;
      m.start == i < m.digits < m.digitsEnd <= m.end <= |t| && (m.end == |t| || t[m.end] == '\n') && IsDigit(t[m.digits])
  {
    CaddyParts(t, i);
    TrailerEnds(t, CaddyAt(t, i).value.digitsEnd);
    hide *;
  }

  /** The edited line matches again, with the new digits. */
  lemma CaddyEdited(t: string, m: Match, port: nat)
    requires m.start <= |t| && CaddyAt(t, m.start) == Some(m)
    ensures var u := WithPort(t, m, port);
      AgreeTo(t, u, m.digits) && m.start <= |u| && ReadsPort(u, CaddyAt(u, m.start), m.digits, port)
  {
    hide *;
    EndsKnown(t, m.start);
    CaddyParts(t, m.start);
    var u, e := WithPort(t, m, port), m.digits + |Decimal(port)|;
    EditedIs(t, m, port);
    EditedAgrees(t, u, m.digits, e, port);
    EditedReads(t, u, m.start, m.digits, e, port);
  }

  lemma TrailerEnds(t: string, e: nat)
    requires e <= |t| && Trailer(t, e).Some?
    ensures var n := Trailer(t, e).value; n <= |t| && (n < |t| ==> t[n] == '\n')
  {
    hide Trailer;
  }

  lemma LinesAgree(t: string, u: string, d: nat, i: nat)
    requires AgreeTo(t, u, d) && i <= d && LineStart(t, i)
    ensures t[..d] == u[..d] && LineStart(u, i)
  {
    hide IsDigit;
  }

  lemma NewEnd(t: string, m: Match, port: nat)
    requires m.digits <= m.end <= |t| && (m.end < |t| ==> t[m.end] == '\n')
    ensures var u := WithPort(t, m, port); var e := m.digits + |Decimal(port)|;
      e <= |u| && (e < |u| ==> u[e] == '\n') && AllDigits(u, m.digits, e)
  {
    hide IsDigit;
    var u, a, ds := WithPort(t, m, port), t[..m.digits], Decimal(port);
    assert forall k :: 0 <= k < |ds| ==> u[m.digits + k] == ds[k];
    assert forall k :: m.digits <= k < m.digits + |ds| ==> u[k] == ds[k - m.digits];
    assert m.end < |t| ==> u[m.digits + |ds|] == t[m.end];
  }

  lemma CaddyMatches(u: string, i: nat, d: nat, e: nat)
    requires i < d < e <= |u| && LineStart(u, i) && RunEnd(u, i) == e && LastColon(u, i, e) == d - 1
    requires DigitEnd(u, d) == e && Trailer(u, e).Some?
    ensures CaddyAt(u, i).Some? && CaddyAt(u, i).value.digits == d && CaddyAt(u, i).value.digitsEnd == e
  {
    hide RunEnd, LastColon, DigitEnd, Trailer, LineStart;
  }

  /**
   * For Caddy's entry and any valid port: the edited text is read back as the new
   * port, the text before the digits and after the match is kept, and what is
   * lost between them is white space.
   */
  lemma CaddyReadAfterWrite(t: string, port: nat)
    requires 1 <= port <= 65535 && CaddySearch(t).Some?
    ensures var m := CaddySearch(t).value; var u := WithPort(t, m, port);
      && CaddyExtract(u) == Some(port)
      && u == t[..m.digits] + Decimal(port) + t[m.end..]
      && AllSpace(t[m.digitsEnd..m.end])
  {
    var m := CaddySearch(t).value;
    CaddyFirst(t);
    CaddyParts(t, m.start);
    SpaceBehind(t, m.digitsEnd);
    hide Decimal, CaddyAt, AllSpace, Trailer, DigitEnd, IsDigit, LineStart, CaddySearch;
    CaddyAgain(t, port);
    DecimalValue(port);
  }

  /** The search in the edited text stops at the same line and reads the new digits. */
  lemma CaddyAgain(t: string, port: nat)
    requires CaddySearch(t).Some?
    ensures var m := CaddySearch(t).value; var u := WithPort(t, m, port);
      ReadsPort(u, CaddySearch(u), m.digits, port)
  {
    hide *;
    CaddyFirst(t);
    var m := CaddySearch(t).value;
    var u := WithPort(t, m, port);
    CaddyParts(t, m.start);
    CaddyEdited(t, m, port);
    forall k | 0 <= k < m.start ensures !IsCaddy(u, k) {
      CaddyEarlier(t, u, m, k);
    }
    ReadsIsSome(u, m.start, m.digits, port);
    CaddySearchIs(u, m.start);
  }

  lemma CaddyFirst(t: string)
    requires CaddySearch(t).Some?
    ensures var m := CaddySearch(t).value;
      m.start <= |t| && CaddyAt(t, m.start) == Some(m) && forall k :: 0 <= k < m.start ==> !IsCaddy(t, k)
  {
    hide CaddyAt;
  }

  lemma ReadsIsSome(u: string, i: nat, d: nat, port: nat)
    requires i <= |u| && ReadsPort(u, CaddyAt(u, i), d, port)
    ensures IsCaddy(u, i)
  {
    hide CaddyAt, Decimal;
  }

  lemma SpaceBehind(t: string, e: nat)
    requires e <= |t| && Trailer(t, e).Some?
    ensures AllSpace(t[e..Trailer(t, e).value])
  {
    var n := Trailer(t, e).value;
    assert forall k :: 0 <= k < n - e ==> t[e..n][k] == t[e + k];
  }
}
