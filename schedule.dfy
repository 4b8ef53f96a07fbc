// Recognising schedule rows and turning them into records. The scanner and the
// hour arithmetic are shared verbatim by main.py and old.py; the two files differ
// only in which cells hold which field, captured here by a Layout value.

module Schedule {
  import opened Strings

  predicate IsDigit(c: char) { '0' <= c <= '9' }

  predicate AllDigits(s: string)
  {
    forall k :: 0 <= k < |s| ==> IsDigit(s[k])
  }

  predicate AllBlank(s: string)
  {
    forall k :: 0 <= k < |s| ==> s[k] == ' '
  }

  /** The language of ` *- *`: blanks, one dash, blanks. */
  predicate Connector(m: string)
  {
    m != [] && ((m[0] == ' ' && Connector(m[1..])) || (m[0] == '-' && AllBlank(m[1..])))
  }

  /** The language of the regular expression `\d{4} *- *\d{4}` (ASCII digits, plain blanks). */
  predicate InPattern(t: string)
  {
    |t| >= 9 && AllDigits(t[..4]) && AllDigits(t[|t| - 4..]) && Connector(t[4..|t| - 4])
  }

  /** No match of the pattern starts at position p. */
  ghost predicate NoMatchAt(s: string, p: nat)
    requires p <= |s|
  {
    forall q :: p <= q <= |s| ==> !InPattern(s[p..q])
  }

  /** No match of the pattern starts at a position in [lo, hi). */
  ghost predicate NoMatchIn(s: string, lo: int, hi: int)
  {
    forall p :: lo <= p < hi && 0 <= p <= |s| ==> NoMatchAt(s, p)
  }

  /** s[p..q] is the match re.search reports: the one starting leftmost. */
  ghost predicate Leftmost(s: string, p: int, q: int)
  {
    0 <= p <= q <= |s| && InPattern(s[p..q]) && NoMatchIn(s, 0, p)
  }

  // ---------------------------------------------------------------------------
  // The scanner

  function SkipBlanks(s: string, i: nat): (j: nat)
    requires i <= |s|
    ensures i <= j <= |s| && AllBlank(s[i..j])
    ensures j == |s| || s[j] != ' '
    decreases |s| - i
  {
    if i < |s| && s[i] == ' ' then SkipBlanks(s, i + 1) else i
  }

  /** The end of the match starting at position i, if there is one. */
  function MatchAt(s: string, i: nat): Option<nat>
    requires i <= |s|
  {
    if i + 4 <= |s| && AllDigits(s[i..i + 4]) then
      var j := SkipBlanks(s, i + 4);
      if j < |s| && s[j] == '-' then
        var k := SkipBlanks(s, j + 1);
        if k + 4 <= |s| && AllDigits(s[k..k + 4]) then Some(k + 4) else None
      else None
    else None
  }

  /** Tries every start position from i on, leftmost first. */
  function FindFrom(s: string, i: nat): Option<(nat, nat)>
    requires i <= |s|
    decreases |s| - i
  {
    match MatchAt(s, i)
    case Some(e) => Some((i, e))
    case None => if i < |s| then FindFrom(s, i + 1) else None
  }

  /** re.search('\d{4} *- *\d{4}', s): start and end of the leftmost match. */
  function Search(s: string): (r: Option<(nat, nat)>)
    ensures r.Some? ==> r.value.0 <= r.value.1 <= |s| && InPattern(s[r.value.0..r.value.1])
  {
    FindFromSound(s, 0);
    FindFrom(s, 0)
  }

  lemma {:induction false} SkipAllBlank(s: string, a: nat, b: nat)
    requires a <= b <= |s| && AllBlank(s[a..b]) && (b == |s| || s[b] != ' ')
    ensures SkipBlanks(s, a) == b
    decreases b - a
  {
    if a < b {
      assert s[a] == s[a..b][0];
      assert s[a + 1..b] == s[a..b][1..];
      SkipAllBlank(s, a + 1, b);
    }
  }

  lemma {:induction false} ConnectorSkip(s: string, a: nat, b: nat)
    requires a <= b < |s| && Connector(s[a..b]) && s[b] != ' '
    ensures SkipBlanks(s, a) < b && s[SkipBlanks(s, a)] == '-'
    ensures SkipBlanks(s, SkipBlanks(s, a) + 1) == b
    decreases b - a
  {
    var m := s[a..b];
    assert m[0] == s[a];
    assert m[1..] == s[a + 1..b];
    if s[a] == ' ' {
      ConnectorSkip(s, a + 1, b);
    } else {
      SkipAllBlank(s, a + 1, b);
    }
  }

  lemma {:induction false} ConnectorOfParts(x: string, y: string)
    requires AllBlank(x) && AllBlank(y)
    ensures Connector(x + ['-'] + y)
  {
    if x != [] {
      assert (x + ['-'] + y)[1..] == x[1..] + ['-'] + y;
      ConnectorOfParts(x[1..], y);
    } else {
      assert (x + ['-'] + y)[1..] == y;
    }
  }

  lemma {:induction false} ConnectorDash(m: string) returns (j: nat)
    requires Connector(m)
    ensures j < |m| && m[j] == '-' && AllBlank(m[..j]) && AllBlank(m[j + 1..])
  {
    if m[0] == ' ' && Connector(m[1..]) {
      var j' := ConnectorDash(m[1..]);
      j := j' + 1;
      assert m[..j] == [m[0]] + m[1..][..j'];
      assert m[j + 1..] == m[1..][j' + 1..];
    } else {
      j := 0;
    }
  }

  /** The three pieces of a candidate span: leading digits, connector, trailing digits. */
  lemma SpanPieces(s: string, i: nat, e: nat)
    requires i + 9 <= e <= |s|
    ensures var t := s[i..e];
            t[..4] == s[i..i + 4] && t[4..|t| - 4] == s[i + 4..e - 4] && t[|t| - 4..] == s[e - 4..e]
  {
    var t := s[i..e];
    assert |t| == e - i;
    assert t[..4] == s[i..i + 4];
    var m := t[4..|t| - 4];
    assert forall k :: 0 <= k < |m| ==> m[k] == s[i + 4 + k];
    assert t[|t| - 4..] == s[e - 4..e];
  }

  /** A connector read off the text: blanks, the dash at j, blanks. */
  lemma ConnectorPieces(s: string, a: nat, j: nat, b: nat)
    requires a <= j < b <= |s| && s[j] == '-'
    ensures s[a..b] == s[a..j] + ['-'] + s[j + 1..b]
  {
    assert s[a..b] == s[a..j] + s[j..j + 1] + s[j + 1..b];
  }

  /** A span whose three pieces have the right shapes is in the pattern. */
  lemma PatternOf(s: string, i: nat, e: nat)
    requires i + 9 <= e <= |s|
    requires AllDigits(s[i..i + 4]) && Connector(s[i + 4..e - 4]) && AllDigits(s[e - 4..e])
    ensures InPattern(s[i..e])
  {
    SpanPieces(s, i, e);
  }

  /** Every end MatchAt reports closes a match of the pattern. */
  lemma MatchAtSound(s: string, i: nat)
    requires i <= |s| && MatchAt(s, i).Some?
    ensures i < MatchAt(s, i).value <= |s| && InPattern(s[i..MatchAt(s, i).value])
  {
    var j := SkipBlanks(s, i + 4);
    var k := SkipBlanks(s, j + 1);
    assert MatchAt(s, i) == Some(k + 4);
    ConnectorPieces(s, i + 4, j, k);
    ConnectorOfParts(s[i + 4..j], s[j + 1..k]);
    PatternOf(s, i, k + 4);
  }

  /** Every match of the pattern starting at i is the one MatchAt reports. */
  lemma MatchAtComplete(s: string, i: nat, e: nat)
    requires i <= e <= |s|
    ensures InPattern(s[i..e]) ==> MatchAt(s, i) == Some(e)
  {
    if InPattern(s[i..e]) {
      SpanPieces(s, i, e);
      assert AllDigits(s[i..i + 4]) && AllDigits(s[e - 4..e]) && Connector(s[i + 4..e - 4]);
      assert IsDigit(s[e - 4..e][0]);
      ConnectorSkip(s, i + 4, e - 4);
    }
  }

  /** No match starts at i when MatchAt finds none there. */
  lemma MatchAtNone(s: string, i: nat)
    requires i <= |s| && MatchAt(s, i).None?
    ensures NoMatchAt(s, i)
  {
    forall q | i <= q <= |s|
      ensures !InPattern(s[i..q])
    {
      MatchAtComplete(s, i, q);
    }
  }

  lemma {:induction false} FindFromSpec(s: string, i: nat)
    requires i <= |s|
    ensures FindFrom(s, i).None? ==> NoMatchIn(s, i, |s| + 1)
    ensures FindFrom(s, i).Some? ==>
              var (p, q) := FindFrom(s, i).value;
              i <= p <= q <= |s| && InPattern(s[p..q]) && NoMatchIn(s, i, p)
    decreases |s| - i
  {
    match MatchAt(s, i)
    case Some(e) =>
      MatchAtSound(s, i);
    case None =>
      MatchAtNone(s, i);
      if i < |s| {
        FindFromSpec(s, i + 1);
      }
  }

  lemma {:induction false} FindFromSound(s: string, i: nat)
    requires i <= |s|
    ensures FindFrom(s, i).Some? ==>
              var (p, q) := FindFrom(s, i).value;
              i <= p <= q <= |s| && InPattern(s[p..q])
    decreases |s| - i
  {
    if MatchAt(s, i).Some? {
      MatchAtSound(s, i);
    } else if i < |s| {
      FindFromSound(s, i + 1);
    }
  }

  /** Search reports nothing exactly when no match starts anywhere. */
  lemma SearchNone(s: string)
    ensures Search(s).None? <==> NoMatchIn(s, 0, |s| + 1)
  {
    FindFromSpec(s, 0);
    if Search(s).Some? {
      var (p, q) := Search(s).value;
      assert !NoMatchAt(s, p);
    }
  }

  /** What Search reports is the leftmost match... */
  lemma SearchSome(s: string)
    requires Search(s).Some?
    ensures Leftmost(s, Search(s).value.0, Search(s).value.1)
  {
    FindFromSpec(s, 0);
  }

  lemma LeftmostUnique(s: string, p: int, q: int, p': int, q': int)
    requires Leftmost(s, p, q) && Leftmost(s, p', q')
    ensures p == p'
  {
    assert p' < p ==> NoMatchAt(s, p');
    assert p < p' ==> NoMatchAt(s, p);
  }

  /** ...and it is the only leftmost match: one start position has one match. */
  lemma SearchLeftmost(s: string, p: int, q: int)
    requires Leftmost(s, p, q)
    ensures Search(s) == Some((p, q))
  {
    FindFromSpec(s, 0);
    assert !NoMatchAt(s, p);
    var (p', q') := Search(s).value;
    LeftmostUnique(s, p, q, p', q');
    MatchAtComplete(s, p, q);
    MatchAtComplete(s, p, q');
  }

  // ---------------------------------------------------------------------------
  // Accepting a time span

  /** A four-digit time such as "1630". */
  predicate IsTime(t: string)
  {
    |t| == 4 && AllDigits(t)
  }

  /** The bounds check `'0700' < h < '2100'`, a comparison of strings. */
  predicate InWindow(t: string)
  {
    LexLess("0700", t) && LexLess(t, "2100")
  }

  datatype Hours = Hours(start: string, end: string)

  predicate Accepted(h: Hours)
  {
    IsTime(h.start) && IsTime(h.end) && InWindow(h.start) && InWindow(h.end)
  }

  /** The blanks on either side of the dash in a matched span. */
  lemma PatternParts(m: string) returns (x: string, y: string)
    requires InPattern(m)
    ensures AllBlank(x) && AllBlank(y)
    ensures m == (m[..4] + x) + ['-'] + (y + m[|m| - 4..])
  {
    var c := m[4..|m| - 4];
    var j := ConnectorDash(c);
    x, y := c[..j], c[j + 1..];
    assert c == x + ['-'] + y;
    assert m == m[..4] + c + m[|m| - 4..];
  }

  lemma NoDashLeft(d: string, x: string)
    requires AllDigits(d) && AllBlank(x)
    ensures '-' !in d + x
  {
    forall k | 0 <= k < |d + x|
      ensures (d + x)[k] != '-'
    {
      if k < |d| {
        assert IsDigit(d[k]);
      } else {
        assert x[k - |d|] == ' ';
      }
    }
  }

  lemma NoDashRight(y: string, d: string)
    requires AllBlank(y) && AllDigits(d)
    ensures '-' !in y + d
  {
    forall k | 0 <= k < |y + d|
      ensures (y + d)[k] != '-'
    {
      if k < |y| {
        assert y[k] == ' ';
      } else {
        assert IsDigit(d[k - |y|]);
      }
    }
  }

  lemma StripLeftHalf(d: string, x: string)
    requires AllDigits(d) && AllBlank(x)
    ensures Strip(d + x) == d
  {
    DigitsAreStripped(d);
    BlanksAreSpace(x);
    assert [] + d + x == d + x;
    StripSurrounded([], d, x);
  }

  lemma StripRightHalf(y: string, d: string)
    requires AllBlank(y) && AllDigits(d)
    ensures Strip(y + d) == d
  {
    DigitsAreStripped(d);
    BlanksAreSpace(y);
    assert y + d + [] == y + d;
    StripSurrounded(y, d, []);
  }

  /** A match splits on its one dash into two halves that strip to its digit groups. */
  lemma PatternHalves(m: string)
    requires InPattern(m)
    ensures |Split(m, '-')| == 2
    ensures Strip(Split(m, '-')[0]) == m[..4] && Strip(Split(m, '-')[1]) == m[|m| - 4..]
  {
    var x, y := PatternParts(m);
    var d1, d2 := m[..4], m[|m| - 4..];
    NoDashLeft(d1, x);
    NoDashRight(y, d2);
    SplitOnce(d1 + x, '-', y + d2);
    StripLeftHalf(d1, x);
    StripRightHalf(y, d2);
  }

  lemma DigitsAreStripped(d: string)
    requires AllDigits(d)
    ensures IsStripped(d)
  {
    if d != [] {
      assert IsDigit(d[0]) && IsDigit(d[|d| - 1]);
    }
  }

  lemma BlanksAreSpace(x: string)
    requires AllBlank(x)
    ensures AllSpace(x)
  {
  }

  /** [h.strip() for h in parts] */
  function StripEach(parts: seq<string>): seq<string>
  {
    if parts == [] then [] else [Strip(parts[0])] + StripEach(parts[1..])
  }

  /** The stripped halves of a match are its two digit groups. */
  lemma SpanHalves(m: string)
    requires InPattern(m)
    ensures StripEach(Split(m, '-')) == [m[..4], m[|m| - 4..]]
  {
    PatternHalves(m);
    var parts := Split(m, '-');
    assert parts == [parts[0], parts[1]];
    StripEachPair(parts[0], parts[1]);
  }

  lemma StripEachPair(a: string, b: string)
    ensures StripEach([a, b]) == [Strip(a), Strip(b)]
  {
    assert [a, b][1..] == [b];
    assert [b][1..] == [];
    assert StripEach([b]) == [Strip(b)];
    assert StripEach([a, b]) == [Strip(a)] + StripEach([b]);
  }

  lemma AllInWindowPair(a: string, b: string)
    ensures AllInWindow([a, b]) == (InWindow(a) && InWindow(b))
  {
    assert [a, b][1..] == [b];
    assert [b][1..] == [];
    assert AllInWindow([b]) == InWindow(b);
    assert AllInWindow([a, b]) == (InWindow(a) && AllInWindow([b]));
  }

  /** all('0700' < h < '2100' for h in hours) */
  function AllInWindow(hours: seq<string>): bool
  {
    hours == [] || (InWindow(hours[0]) && AllInWindow(hours[1..]))
  }

  /** A matched span, split on '-' and stripped, kept when every half lies strictly between "0700" and "2100". */
  function HoursOfSpan(m: string): (r: Option<Hours>)
    requires InPattern(m)
    ensures r.Some? <==> InWindow(m[..4]) && InWindow(m[|m| - 4..])
    ensures r.Some? ==> r.value == Hours(m[..4], m[|m| - 4..]) && Accepted(r.value)
  {
    var hours := StripEach(Split(m, '-'));
    SpanHalves(m);
    AllInWindowPair(m[..4], m[|m| - 4..]);
    if AllInWindow(hours) then
      Some(Hours(hours[0], hours[1]))
    else
      None
  }

  /** One cell's text: the hours of its leftmost span, if that span is accepted. */
  function HoursFromCell(text: string): (r: Option<Hours>)
    ensures r.Some? ==> Accepted(r.value)
  {
    match Search(text)
    case None => None
    case Some(span) =>
      FindFromSound(text, 0);
      HoursOfSpan(text[span.0..span.1])
  }

  /** A cell without any match yields no hours. */
  lemma HoursFromCellNone(text: string)
    requires NoMatchIn(text, 0, |text| + 1)
    ensures HoursFromCell(text) == None
  {
    SearchNone(text);
  }

  /** A cell yields the digit groups of its leftmost match exactly when both lie in the window. */
  lemma HoursFromCellLeftmost(text: string, p: int, q: int)
    requires Leftmost(text, p, q)
    ensures var h := Hours(text[p..p + 4], text[q - 4..q]);
            HoursFromCell(text) == if InWindow(h.start) && InWindow(h.end) then Some(h) else None
  {
    SearchLeftmost(text, p, q);
    HoursFromCellAt(text, p, q);
  }

  lemma HoursFromCellAt(text: string, p: nat, q: nat)
    requires p <= q <= |text| && InPattern(text[p..q]) && Search(text) == Some((p, q))
    ensures var h := Hours(text[p..p + 4], text[q - 4..q]);
            HoursFromCell(text) == if InWindow(h.start) && InWindow(h.end) then Some(h) else None
  {
    var m := text[p..q];
    HoursFromCellUnfold(text, p, q);
    SpanEnds(text, p, q);
    SpanResult(HoursOfSpan(m), text[p..p + 4], text[q - 4..q]);
  }

  lemma SpanResult(r: Option<Hours>, a: string, b: string)
    requires r.Some? <==> InWindow(a) && InWindow(b)
    requires r.Some? ==> r.value == Hours(a, b)
    ensures r == if InWindow(a) && InWindow(b) then Some(Hours(a, b)) else None
  {
  }

  /** The digit groups of a span, read in the cell's own coordinates. */
  lemma SpanEnds(text: string, p: nat, q: nat)
    requires p + 9 <= q <= |text|
    ensures text[p..q][..4] == text[p..p + 4]
    ensures text[p..q][q - p - 4..] == text[q - 4..q]
  {
  }

  /** HoursFromCell on a cell whose search reports [p, q). */
  lemma HoursFromCellUnfold(text: string, p: nat, q: nat)
    requires p <= q <= |text| && InPattern(text[p..q]) && Search(text) == Some((p, q))
    ensures HoursFromCell(text) == HoursOfSpan(text[p..q])
  {
  }

  /** The first value present in xs, scanning from the front. */
  function FirstSome<T>(xs: seq<Option<T>>): (r: Option<T>)
    ensures r.Some? ==> r in xs
  {
    if xs == [] then None
    else if xs[0].Some? then xs[0]
    else FirstSome(xs[1..])
  }

  lemma {:induction false} FirstSomeNone<T>(xs: seq<Option<T>>)
    ensures FirstSome(xs).None? <==> forall c :: 0 <= c < |xs| ==> xs[c].None?
  {
    if xs != [] {
      FirstSomeNone(xs[1..]);
      assert forall c :: 0 < c < |xs| ==> xs[c] == xs[1..][c - 1];
    }
  }

  lemma {:induction false} FirstSomeFirst<T>(xs: seq<Option<T>>, c: nat)
    requires c < |xs| && xs[c].Some?
    requires forall c' :: 0 <= c' < c ==> xs[c'].None?
    ensures FirstSome(xs) == xs[c]
  {
    if c > 0 {
      assert xs[1..][c - 1] == xs[c];
      FirstSomeFirst(xs[1..], c - 1);
    }
  }

  /** hours_from_cell applied to each cell of a row, in order. */
  function CellHours(cells: seq<string>): (r: seq<Option<Hours>>)
    ensures |r| == |cells|
  {
    seq(|cells|, c requires 0 <= c < |cells| => HoursFromCell(cells[c]))
  }

  lemma CellAccepted(cells: seq<string>, c: nat)
    requires c < |cells| && CellHours(cells)[c].Some?
    ensures Accepted(CellHours(cells)[c].value)
  {
    assert CellHours(cells)[c] == HoursFromCell(cells[c]);
  }

  lemma FirstSomeAccepted(cells: seq<string>)
    ensures var r := FirstSome(CellHours(cells)); r.Some? ==> Accepted(r.value)
  {
    var xs := CellHours(cells);
    var r := FirstSome(xs);
    if r.Some? {
      var c :| 0 <= c < |xs| && xs[c] == r;
      CellAccepted(cells, c);
    }
  }

  /** hours_from_schedule_row: the hours of the first cell that yields any. */
  function HoursFromRow(cells: seq<string>): (r: Option<Hours>)
    ensures r.Some? ==> Accepted(r.value)
  {
    var r := FirstSome(CellHours(cells));
    FirstSomeAccepted(cells);
    r
  }

  /** Every cell's result is absent exactly when every entry of CellHours is. */
  lemma CellHoursNone(cells: seq<string>)
    ensures (forall c :: 0 <= c < |cells| ==> CellHours(cells)[c].None?) <==>
            (forall c :: 0 <= c < |cells| ==> HoursFromCell(cells[c]).None?)
  {
    var xs := CellHours(cells);
    if forall c :: 0 <= c < |cells| ==> xs[c].None? {
      forall c | 0 <= c < |cells|
        ensures HoursFromCell(cells[c]).None?
      {
        assert xs[c].None?;
      }
    }
  }

  /** A row yields no hours exactly when none of its cells does. */
  lemma HoursFromRowNone(cells: seq<string>)
    ensures HoursFromRow(cells).None? <==> forall c :: 0 <= c < |cells| ==> HoursFromCell(cells[c]).None?
  {
    var xs := CellHours(cells);
    assert HoursFromRow(cells) == FirstSome(xs);
    FirstSomeNone(xs);
    CellHoursNone(cells);
  }

  /** The row's hours are those of its first cell that yields any. */
  lemma HoursFromRowFirst(cells: seq<string>, c: nat)
    requires c < |cells| && HoursFromCell(cells[c]).Some?
    requires forall c' :: 0 <= c' < c ==> HoursFromCell(cells[c']).None?
    ensures HoursFromRow(cells) == HoursFromCell(cells[c])
  {
    var xs := CellHours(cells);
    assert HoursFromRow(cells) == FirstSome(xs);
    assert xs[c] == HoursFromCell(cells[c]);
    forall c' | 0 <= c' < c
      ensures xs[c'].None?
    {
      assert HoursFromCell(cells[c']).None?;
    }
    FirstSomeFirst(xs, c);
  }

  /** The scanner finds `a-b` (sep "-") or `a - b` (sep " - ") as one span covering the whole cell. */
  lemma SpanFound(a: string, sep: string, b: string)
    requires |a| == 4 && |b| == 4 && AllDigits(a) && AllDigits(b)
    requires sep == "-" || sep == " - "
    ensures var t := a + sep + b;
            Search(t) == Some((0 as nat, |t|)) && t[0..4] == a && t[|t| - 4..|t|] == b
  {
    var t := a + sep + b;
    var e := 4 + |sep|;
    assert t[0..4] == a && t[e..e + 4] == b && t[e] == b[0];
    if sep == "-" {
      assert t[4] == '-';
      assert SkipBlanks(t, 4) == 4 && SkipBlanks(t, 5) == 5;
    } else {
      assert t[4] == ' ' && t[5] == '-' && t[6] == ' ';
      assert SkipBlanks(t, 5) == 5 && SkipBlanks(t, 4) == 5;
      assert SkipBlanks(t, 7) == 7 && SkipBlanks(t, 6) == 7;
    }
    assert MatchAt(t, 0) == Some(e + 4);
  }

  /**
   * A cell holding two four-digit times joined by a bare dash, or by a dash
   * with one blank on each side, yields those times (the blanks stripped)
   * exactly when both lie strictly between 0700 and 2100: "1630 - 1800" gives
   * 1630 and 1800, while "0600-0800" is matched and still rejected.
   */
  lemma SpanHours(a: string, sep: string, b: string)
    requires |a| == 4 && |b| == 4 && AllDigits(a) && AllDigits(b)
    requires sep == "-" || sep == " - "
    ensures HoursFromCell(a + sep + b) == if InWindow(a) && InWindow(b) then Some(Hours(a, b)) else None
  {
    SpanFound(a, sep, b);
    TrailingSpanHours(a + sep + b, 0, a, b);
  }

  /** A cell whose search reports [p, |t|) yields the times at the two ends of that span, if accepted. */
  lemma TrailingSpanHours(t: string, p: nat, a: string, b: string)
    requires p + 9 <= |t| && Search(t) == Some((p, |t|)) && t[p..p + 4] == a && t[|t| - 4..|t|] == b
    ensures HoursFromCell(t) == if InWindow(a) && InWindow(b) then Some(Hours(a, b)) else None
  {
    TrailingSpanOfCell(t, p);
    TrailingSpanEnds(t, p, a, b);
    SpanWindowHours(t[p..|t|], a, b);
  }

  /** A cell whose search reports [p, |t|) yields what that span yields. */
  lemma TrailingSpanOfCell(t: string, p: nat)
    requires p + 9 <= |t| && Search(t) == Some((p, |t|))
    ensures HoursFromCell(t) == HoursOfSpan(t[p..|t|])
  {
    HoursFromCellUnfold(t, p, |t|);
  }

  /** The two digit groups of a span running to the end of the cell, read within the span. */
  lemma TrailingSpanEnds(t: string, p: nat, a: string, b: string)
    requires p + 9 <= |t| && t[p..p + 4] == a && t[|t| - 4..|t|] == b
    ensures var m := t[p..|t|]; m[..4] == a && m[|m| - 4..] == b
  {
    var m := t[p..|t|];
    SpanEnds(t, p, |t|);
    assert |m| - 4 == |t| - p - 4;
  }

  /** A matched span with digit groups a and b is kept, as Hours(a, b), exactly when both are in the window. */
  lemma SpanWindowHours(m: string, a: string, b: string)
    requires InPattern(m) && m[..4] == a && m[|m| - 4..] == b
    ensures HoursOfSpan(m) == if InWindow(a) && InWindow(b) then Some(Hours(a, b)) else None
  {
    SpanResult(HoursOfSpan(m), a, b);
  }

  // ---------------------------------------------------------------------------
  // Hour arithmetic

  function DigitValue(c: char): int
  {
    c as int - '0' as int
  }

  /** int(t[:2]) for a string of two digits or more. */
  function HourOf(t: string): int
    requires |t| >= 2
  {
    10 * DigitValue(t[0]) + DigitValue(t[1])
  }

  /** range(lo, hi). */
  function Range(lo: int, hi: int): (r: seq<int>)
    ensures |r| == if lo < hi then hi - lo else 0
    ensures forall k :: 0 <= k < |r| ==> r[k] == lo + k
    decreases hi - lo
  {
    if lo < hi then [lo] + Range(lo + 1, hi) else []
  }

  /**
   * normalize_hours: sort the two times, take their hour prefixes, and drop the
   * last hour when the later time ends exactly on it.
   */
  function NormalizeHours(h: Hours): (r: seq<int>)
    requires IsTime(h.start) && IsTime(h.end)
    ensures forall k :: 0 <= k < |r| - 1 ==> r[k + 1] == r[k] + 1
  {
    var lo := if LexLess(h.end, h.start) then h.end else h.start;
    var hi := if LexLess(h.end, h.start) then h.start else h.end;
    var h1 := HourOf(lo[..2]);
    var h2 := HourOf(hi[..2]) - if hi[2..] == "00" then 1 else 0;
    Range(h1, h2 + 1)
  }

  /** The two examples documented beside normalize_hours. */
  lemma NormalizeHoursExamples()
    ensures NormalizeHours(Hours("1630", "1800")) == [16, 17]
    ensures NormalizeHours(Hours("1600", "1830")) == [16, 17, 18]
  {
    assert LexLess("1630", "1800");
    assert LexLess("1600", "1830");
    assert "1800"[2..] == "00";
    assert "1830"[2..] != "00";
  }

  /** The order of the two times does not matter: they are sorted first. */
  lemma NormalizeHoursSymmetric(a: string, b: string)
    requires IsTime(a) && IsTime(b)
    ensures NormalizeHours(Hours(a, b)) == NormalizeHours(Hours(b, a))
  {
    LexLessTotal(a, b);
    LexLessAsymmetric(a, b);
  }

  /**
   * For a sorted pair, an hour is occupied iff it lies from the start hour up to
   * the end hour, the end hour itself only when the span runs past it.
   */
  lemma NormalizeHoursMembers(h: Hours, x: int)
    requires IsTime(h.start) && IsTime(h.end) && !LexLess(h.end, h.start)
    ensures x in NormalizeHours(h) <==>
              HourOf(h.start) <= x && (x < HourOf(h.end) || (x == HourOf(h.end) && h.end[2..] != "00"))
  {
    var r := NormalizeHours(h);
    assert h.start[..2][0] == h.start[0] && h.start[..2][1] == h.start[1];
    assert h.end[..2][0] == h.end[0] && h.end[..2][1] == h.end[1];
    if HourOf(h.start) <= x && (x < HourOf(h.end) || (x == HourOf(h.end) && h.end[2..] != "00")) {
      assert r[x - HourOf(h.start)] == x;
    }
  }

  /** A span ending on the hour does not occupy that hour. */
  lemma EndOnTheHourIsFree(h: Hours)
    requires IsTime(h.start) && IsTime(h.end) && LexLess(h.start, h.end) && h.end[2..] == "00"
    ensures HourOf(h.end) !in NormalizeHours(h)
  {
    LexLessAsymmetric(h.start, h.end);
    NormalizeHoursMembers(h, HourOf(h.end));
  }

  /** An all-digit string never sorts below a run of zeros no longer than it. */
  lemma {:induction false} NotBelowZeros(u: string, z: string)
    requires AllDigits(u) && |z| <= |u|
    requires forall k :: 0 <= k < |z| ==> z[k] == '0'
    ensures !LexLess(u, z)
  {
    if z != [] {
      assert IsDigit(u[0]);
      NotBelowZeros(u[1..], z[1..]);
    }
  }

  lemma HourBounds(t: string)
    requires IsTime(t) && InWindow(t)
    ensures 7 <= HourOf(t) <= 20
  {
    assert IsDigit(t[0]) && IsDigit(t[1]);
    assert "0700"[0] == '0' && "0700"[1..] == "700" && "700"[0] == '7';
    if t[0] == '0' {
      assert LexLess("700", t[1..]);
      assert t[1..][0] == t[1];
    }
    assert "2100"[0] == '2' && "2100"[1..] == "100" && "100"[0] == '1' && "100"[1..] == "00";
    if t[0] == '2' {
      assert LexLess(t[1..], "100");
      assert t[1..][0] == t[1] && t[1..][1..] == t[2..];
      if t[1] == '1' {
        NotBelowZeros(t[2..], "00");
      }
    }
  }

  /** Accepted spans only touch the hours 7..20, the keys the occupancy index seeds. */
  lemma NormalizeHoursWithinDay(h: Hours)
    requires Accepted(h)
    ensures forall x :: x in NormalizeHours(h) ==> 7 <= x <= 20
  {
    HourBounds(h.start);
    HourBounds(h.end);
    assert h.start[..2][0] == h.start[0] && h.start[..2][1] == h.start[1];
    assert h.end[..2][0] == h.end[0] && h.end[..2][1] == h.end[1];
  }

  // ---------------------------------------------------------------------------
  // Records and the two column layouts

  /** Which cell holds which field, how many cells a row must exceed, and whether get_heb reverses. */
  datatype Layout = Layout(semester: nat, day: nat, room: nat, building: nat, lastCell: nat, reversesHebrew: bool)

  predicate ValidLayout(l: Layout)
  {
    l.semester <= l.lastCell && l.day <= l.lastCell && l.room <= l.lastCell && l.building <= l.lastCell
  }

  /** main.py: semester 0, day 2, room 3, building 4; rows need more than 4 cells; get_heb only strips. */
  const MainLayout := Layout(0, 2, 3, 4, 4, false)

  /** old.py: building 2, room 3, day 4, semester 6; rows need more than 6 cells; get_heb strips and reverses. */
  const OldLayout := Layout(6, 4, 3, 2, 6, true)

  datatype Record = Record(building: string, room: string, day: string, semester: string, hours: Hours)

  /** get_heb of the layout's file. */
  function Heb(l: Layout, s: string): (r: string)
    ensures IsStripped(r) && |r| == |Strip(s)|
  {
    var t := Strip(s);
    if l.reversesHebrew then
      ReverseStripped(t);
      Reverse(t)
    else
      t
  }

  /** main.py's get_heb is idempotent. */
  lemma MainHebIdempotent(s: string)
    ensures Heb(MainLayout, Heb(MainLayout, s)) == Heb(MainLayout, s)
  {
    StripIdempotent(s);
  }

  /** old.py's get_heb applied twice gives back the stripped text. */
  lemma OldHebTwice(s: string)
    ensures Heb(OldLayout, Heb(OldLayout, s)) == Strip(s)
  {
    var t := Strip(s);
    var r := Reverse(t);
    OldHebUnfold(s);
    ReverseStripped(t);
    StripStripped(r);
    OldHebUnfold(r);
    ReverseReverse(t);
  }

  /** old.py's get_heb is strip followed by [::-1]. */
  lemma OldHebUnfold(s: string)
    ensures Heb(OldLayout, s) == Reverse(Strip(s))
  {
  }

  /** parse_schedule_row (main.py) and the field extraction of Gilman.parse (old.py). */
  function ExtractRecord(cells: seq<string>, hours: Hours, l: Layout): (r: Option<Record>)
    requires ValidLayout(l)
    ensures r.Some? <==> |cells| > l.lastCell && Strip(cells[l.building]) != [] && Strip(cells[l.room]) != []
    ensures r.Some? ==> r.value == Record(Heb(l, cells[l.building]), Strip(cells[l.room]),
                                          Heb(l, cells[l.day]), Heb(l, cells[l.semester]), hours)
  {
    if |cells| > l.lastCell then
      var building := Heb(l, cells[l.building]);
      var room := Strip(cells[l.room]);
      var day := Heb(l, cells[l.day]);
      var semester := Heb(l, cells[l.semester]);
      if building != [] && room != [] then
        Some(Record(building, room, day, semester, hours))
      else
        None
    else
      None
  }

  /** main.py: building from cell 4, room from cell 3, day from cell 2, semester from cell 0, all only stripped. */
  lemma MainLayoutFields(cells: seq<string>, hours: Hours)
    requires |cells| > 4 && Strip(cells[4]) != [] && Strip(cells[3]) != []
    ensures ExtractRecord(cells, hours, MainLayout) ==
              Some(Record(Strip(cells[4]), Strip(cells[3]), Strip(cells[2]), Strip(cells[0]), hours))
  {
  }

  /** old.py: building from cell 2, room from cell 3, day from cell 4, semester from cell 6; all but the room reversed. */
  lemma OldLayoutFields(cells: seq<string>, hours: Hours)
    requires |cells| > 6 && Strip(cells[2]) != [] && Strip(cells[3]) != []
    ensures ExtractRecord(cells, hours, OldLayout) ==
              Some(Record(Reverse(Strip(cells[2])), Strip(cells[3]), Reverse(Strip(cells[4])), Reverse(Strip(cells[6])), hours))
  {
  }

  /** What every emitted record satisfies: a known place and an accepted time span. */
  predicate WellFormed(r: Record)
  {
    r.building != [] && r.room != [] && IsStripped(r.room) && Accepted(r.hours)
  }

  /** One table row: hours first, then the fields. */
  function ParseRow(cells: seq<string>, l: Layout): (r: Option<Record>)
    requires ValidLayout(l)
    ensures r.Some? ==> WellFormed(r.value)
  {
    match HoursFromRow(cells)
    case None => None
    case Some(h) => ExtractRecord(cells, h, l)
  }

  /** What one row contributes to the page's records: nothing or one record. */
  function RowRecords(cells: seq<string>, l: Layout): (r: seq<Record>)
    requires ValidLayout(l)
  {
    match ParseRow(cells, l)
    case None => []
    case Some(rec) => [rec]
  }

  /** RowRecords spelled out as the two checks of the parsing loop. */
  lemma RowRecordsSteps(cells: seq<string>, l: Layout)
    requires ValidLayout(l)
    ensures var hours := HoursFromRow(cells);
            RowRecords(cells, l) ==
              if hours.Some? && ExtractRecord(cells, hours.value, l).Some?
              then [ExtractRecord(cells, hours.value, l).value]
              else []
  {
  }

  /** The records of a page, one per accepted row, in row order. */
  function ParsePage(page: seq<seq<string>>, l: Layout): (r: seq<Record>)
    requires ValidLayout(l)
    ensures |r| <= |page|
  {
    if page == [] then [] else ParsePage(page[..|page| - 1], l) + RowRecords(page[|page| - 1], l)
  }

  /** Every record a page yields names a building and a room and has an accepted span. */
  lemma {:induction false} ParsePageWellFormed(page: seq<seq<string>>, l: Layout)
    requires ValidLayout(l)
    ensures forall k :: 0 <= k < |ParsePage(page, l)| ==> WellFormed(ParsePage(page, l)[k])
  {
    if page != [] {
      ParsePageWellFormed(page[..|page| - 1], l);
    }
  }

  lemma ParsePageSnoc(page: seq<seq<string>>, i: nat, l: Layout)
    requires ValidLayout(l) && i < |page|
    ensures ParsePage(page[..i + 1], l) == ParsePage(page[..i], l) + RowRecords(page[i], l)
  {
    assert page[..i + 1][..i] == page[..i];
    assert page[..i + 1][i] == page[i];
  }

  lemma ParsePageLast(page: seq<seq<string>>, l: Layout)
    requires ValidLayout(l) && page != []
    ensures ParsePage(page, l) == ParsePage(page[..|page| - 1], l) + RowRecords(page[|page| - 1], l)
  {
  }

  lemma {:induction false} ParsePageAppend(a: seq<seq<string>>, b: seq<seq<string>>, l: Layout)
    requires ValidLayout(l)
    ensures ParsePage(a + b, l) == ParsePage(a, l) + ParsePage(b, l)
    decreases |b|
  {
    if b == [] {
      assert a + b == a;
    } else {
      var b' := b[..|b| - 1];
      var row := b[|b| - 1];
      assert (a + b)[..|a + b| - 1] == a + b';
      assert (a + b)[|a + b| - 1] == row;
      calc {
        ParsePage(a + b, l);
        == { ParsePageLast(a + b, l); }
        ParsePage(a + b', l) + RowRecords(row, l);
        == { ParsePageAppend(a, b', l); }
        ParsePage(a, l) + ParsePage(b', l) + RowRecords(row, l);
        == { ParsePageLast(b, l); }
        ParsePage(a, l) + ParsePage(b, l);
      }
    }
  }

  /** A row contributes a record exactly when it has accepted hours and the fields extract. */
  lemma ParsePageSingle(row: seq<string>, l: Layout)
    requires ValidLayout(l)
    ensures ParsePage([row], l) == RowRecords(row, l)
    ensures |ParsePage([row], l)| == 1 <==>
              HoursFromRow(row).Some? && |row| > l.lastCell && Strip(row[l.building]) != [] && Strip(row[l.room]) != []
  {
    assert [row][..0] == [];
  }

  /** parse (main.py) and the row loop of Gilman.parse (old.py). */
  method ParseRows(page: seq<seq<string>>, l: Layout) returns (records: seq<Record>)
    requires ValidLayout(l)
    ensures records == ParsePage(page, l)
  {
    records := [];
    var i := 0;
    while i < |page|
      invariant 0 <= i <= |page|
      invariant records == ParsePage(page[..i], l)
    {
      var cells := page[i];
      var hours := HoursFromRow(cells);
      if hours.Some? {
        var parsed := ExtractRecord(cells, hours.value, l);
        if parsed.Some? {
          records := records + [parsed.value];
        }
      }
      RowRecordsSteps(cells, l);
      ParsePageSnoc(page, i, l);
      i := i + 1;
    }
    assert page[..|page|] == page;
  }
}
