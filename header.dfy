/** The four-line page header: its validation (`validate_header`) and the two
    fields read from its first line, the run date (`extract_date`) and the
    printed page number (`extract_pagenum`). */
module Header {

  import opened Strings
  import opened Failures

  /** The header shape the parser accepts: the first line names the run date
      and the page, the second the run time and the year (both ignoring case),
      the third is empty and the fourth carries the four column titles. */
  ghost predicate WellFormedHeader(h: seq<string>) {
    |h| >= 4 &&
    Contains(Lower(h[0]), "run date") && Contains(Lower(h[0]), "page") &&
    Contains(Lower(h[1]), "run time") && Contains(Lower(h[1]), "year") &&
    h[2] == "" &&
    Contains(h[3], "CUSIP NO") && Contains(h[3], "ISSUER NAME") &&
    Contains(h[3], "ISSUER DESCRIPTION") && Contains(h[3], "STATUS")
  }

  /** `validate_header`: the tests run in source order and stop at the first
      failure; indexing past the end of a short header is an IndexError. */
  function ValidateHeader(h: seq<string>): (r: Outcome)
    ensures r == Pass <==> WellFormedHeader(h)
    ensures r.Fail? ==> r.error == MissingHeaderLine || r.error == MalformedHeader
    ensures r.Fail? && |h| >= 4 ==> r.error == MalformedHeader
  {
    if |h| < 1 then Fail(MissingHeaderLine)
    else if !Has(Lower(h[0]), "run date") || !Has(Lower(h[0]), "page") then Fail(MalformedHeader)
    else if |h| < 2 then Fail(MissingHeaderLine)
    else if !Has(Lower(h[1]), "run time") || !Has(Lower(h[1]), "year") then Fail(MalformedHeader)
    else if |h| < 3 then Fail(MissingHeaderLine)
    else if h[2] != "" then Fail(MalformedHeader)
    else if |h| < 4 then Fail(MissingHeaderLine)
    else if !Has(h[3], "CUSIP NO") || !Has(h[3], "ISSUER NAME") ||
            !Has(h[3], "ISSUER DESCRIPTION") || !Has(h[3], "STATUS") then Fail(MalformedHeader)
    else Pass
  }

  // ---------------------------------------------------------------------------
  // The run date

  /** `[0-9]{1,2}/` anchored at `p`. The greedy two-digit attempt and the
      one-digit fallback cannot both succeed, so at most one end exists. */
  function NumberSlashAt(s: string, p: nat): (r: Option<nat>)
    ensures r.Some? ==> p < r.value <= |s|
  {
    if p + 1 < |s| && IsDigit(s[p]) && s[p + 1] == '/' then Some(p + 2)
    else if p + 2 < |s| && IsDigit(s[p]) && IsDigit(s[p + 1]) && s[p + 2] == '/' then Some(p + 3)
    else None
  }

  /** `[0-9]{1,2}/[0-9]{1,2}/[0-9]{4,4}` anchored at `p`. */
  function DateAt(s: string, p: nat): (r: Option<nat>)
    ensures r.Some? ==> p < r.value <= |s|
  {
    match NumberSlashAt(s, p)
    case None => None
    case Some(q) =>
      match NumberSlashAt(s, q)
      case None => None
      case Some(t) => if t + 4 <= |s| && AllDigits(s[t..t + 4]) then Some(t + 4) else None
  }

  /** `d` is `a` digits, a slash, `b` digits, a slash and four digits. */
  ghost predicate DateLayout(d: string, a: nat, b: nat) {
    1 <= a <= 2 && 1 <= b <= 2 && |d| == a + b + 6 &&
    d[a] == '/' && d[a + b + 1] == '/' &&
    forall m :: 0 <= m < |d| && m != a && m != a + b + 1 ==> IsDigit(d[m])
  }

  /** A date as the pattern spells it, e.g. `1/2/2020` or `12/31/1999`. */
  ghost predicate IsDateText(d: string) {
    exists a: nat, b: nat :: DateLayout(d, a, b)
  }

  /** The anchored date matcher accepts exactly the date-shaped text. */
  lemma DateAtIff(s: string, p: nat, e: nat)
    ensures DateAt(s, p) == Some(e) <==> p <= e <= |s| && IsDateText(s[p..e])
  {
    if DateAt(s, p) == Some(e) {
      DateAtShaped(s, p, e);
    }
    if p <= e <= |s| && IsDateText(s[p..e]) {
      DateAtAccepts(s, p, e);
    }
  }

  /** What the date matcher accepts is date-shaped. */
  lemma DateAtShaped(s: string, p: nat, e: nat)
    requires DateAt(s, p) == Some(e)
    ensures p <= e <= |s| && IsDateText(s[p..e])
  {
    var q := NumberSlashAt(s, p).value;
    var t := NumberSlashAt(s, q).value;
    var d := s[p..e];
    var a, b := q - p - 1, t - q - 1;
    assert forall m :: p <= m < p + a ==> IsDigit(s[m]);
    assert forall m :: q <= m < q + b ==> IsDigit(s[m]);
    forall m | 0 <= m < |d| && m != a && m != a + b + 1 ensures IsDigit(d[m]) {
      assert d[m] == s[p + m];
      if m < a {
      } else if m < a + b + 1 {
        assert p + m == q + (m - a - 1);
      } else {
        assert s[p + m] == s[t..t + 4][m - a - b - 2];
      }
    }
    assert DateLayout(d, a, b);
  }

  /** Date-shaped text is accepted by the date matcher. */
  lemma DateAtAccepts(s: string, p: nat, e: nat)
    requires p <= e <= |s| && IsDateText(s[p..e])
    ensures DateAt(s, p) == Some(e)
  {
    var d := s[p..e];
    var a: nat, b: nat :| DateLayout(d, a, b);
    assert d[0] == s[p] && d[1] == s[p + 1] && d[a] == s[p + a];
    assert NumberSlashAt(s, p) == Some(p + a + 1);
    var q := p + a + 1;
    assert d[a + 1] == s[q] && d[a + 2] == s[q + 1] && d[a + b + 1] == s[q + b];
    assert NumberSlashAt(s, q) == Some(q + b + 1);
    var t := q + b + 1;
    var y := s[t..t + 4];
    forall m | 0 <= m < 4 ensures IsDigit(y[m]) {
      assert y[m] == s[t + m] == d[a + b + 2 + m];
    }
  }

  /** `run\s*?date:\s*?` anchored at `i`: the position after it. Each lazy run
      of whitespace is followed by a letter or a digit, so it must take all the
      whitespace there is. */
  function RunDateLabelEnd(s: string, i: nat): (r: Option<nat>)
    ensures r.Some? ==> i < r.value <= |s|
  {
    if !KeywordAt(s, i, "run") then None
    else
      var j := SkipWhile(s, i + 3, IsSpace);
      if KeywordAt(s, j, "date:") then Some(SkipWhile(s, j + 5, IsSpace)) else None
  }

  /** The whole first pattern of `extract_date`, anchored at `i`. */
  function RunDateAt(s: string, i: nat): (r: Option<nat>)
    ensures r.Some? ==> i < r.value <= |s|
  {
    match RunDateLabelEnd(s, i)
    case None => None
    case Some(p) => DateAt(s, p)
  }

  /** `s[i..e]` is a labelled date as the first pattern of `extract_date`
      spells it: `run` (any case), whitespace from `i + 3` to `j`, `date:`
      (any case), whitespace from `j + 5` to `p`, and a date from `p` to `e`. */
  ghost predicate RunDateLayout(s: string, i: nat, j: nat, p: nat, e: nat) {
    KeywordAt(s, i, "run") && KeywordAt(s, j, "date:") &&
    i + 3 <= j && j + 5 <= p <= e <= |s| &&
    (forall m :: i + 3 <= m < j ==> IsSpace(s[m])) &&
    (forall m :: j + 5 <= m < p ==> IsSpace(s[m])) &&
    IsDateText(s[p..e])
  }

  /** A labelled date laid out from `i` is what the matcher finds there, with
      the date starting at `p`. */
  lemma RunDateLayoutEnds(s: string, i: nat, j: nat, p: nat, e: nat)
    requires RunDateLayout(s, i, j, p, e)
    ensures RunDateLabelEnd(s, i) == Some(p) && RunDateAt(s, i) == Some(e)
  {
    assert Lower(s[j..j + 5])[0] == LowerChar(s[j]);
    SkipWhileExact(s, i + 3, j - (i + 3), IsSpace);
    var d := s[p..e];
    var a: nat, b: nat :| DateLayout(d, a, b);
    assert IsDigit(d[0]) && d[0] == s[p];
    SkipWhileExact(s, j + 5, p - (j + 5), IsSpace);
    DateAtIff(s, p, e);
  }

  /** The labelled-date matcher accepts exactly the labelled dates. */
  lemma RunDateAtIff(s: string, i: nat, e: nat)
    ensures RunDateAt(s, i) == Some(e) <==> exists j: nat, p: nat :: RunDateLayout(s, i, j, p, e)
  {
    if RunDateAt(s, i) == Some(e) {
      var j := SkipWhile(s, i + 3, IsSpace);
      var p := RunDateLabelEnd(s, i).value;
      DateAtIff(s, p, e);
      assert RunDateLayout(s, i, j, p, e);
    }
    if exists j: nat, p: nat :: RunDateLayout(s, i, j, p, e) {
      var j: nat, p: nat :| RunDateLayout(s, i, j, p, e);
      RunDateLayoutEnds(s, i, j, p, e);
    }
  }

  /** `extract_date`: search the line for the labelled date, keep the matched
      text, then search the WHOLE line again for a bare date and use that
      second match's offsets to slice the kept text. It fails exactly when the
      line holds no labelled date, and then with the missing-date error: the
      second search cannot fail once the first succeeded. */
  function ExtractDate(line: string): (r: Result<string>)
    ensures r.Ok? <==> Search(line, 0, RunDateAt).Some?
    ensures r.Err? ==> r.error == NoRunDate
  {
    match Search(line, 0, RunDateAt)
    case None => Err(NoRunDate)
    case Some((a, b)) =>
      var full := line[a..b];
      assert DateAt(line, RunDateLabelEnd(line, a).value) == Some(b);
      match Search(line, 0, DateAt)
      case None => Err(NoRunDate)
      case Some((c, d)) => Ok(Slice(full, c, d))
  }

  /** No digit appears inside a keyword match of a digit-free keyword. */
  lemma KeywordHasNoDigits(s: string, i: nat, w: string)
    requires KeywordAt(s, i, w)
    requires forall m :: 0 <= m < |w| ==> !IsDigit(w[m])
    ensures forall m :: i <= m < i + |w| ==> !IsDigit(s[m])
  {
    forall m | i <= m < i + |w| ensures !IsDigit(s[m]) {
      assert Lower(s[i..i + |w|])[m - i] == LowerChar(s[m]);
    }
  }

  /** When the line opens with a labelled date, `extract_date` returns exactly
      the date the label introduces. */
  lemma ExtractDateAtLineStart(line: string, j: nat, p: nat, e: nat)
    requires RunDateLayout(line, 0, j, p, e)
    ensures ExtractDate(line) == Ok(line[p..e])
  {
    RunDateLayoutEnds(line, 0, j, p, e);
    NoDateInLabel(line);
    SearchFinds(line, 0, RunDateAt, 0, e);
    SearchFinds(line, 0, DateAt, p, e);
    var full := line[0..e];
    assert Slice(full, p, e) == full[p..e] == line[p..e];
  }

  /** No bare date starts inside a run-date label at column 0. */
  lemma NoDateInLabel(line: string)
    requires RunDateLabelEnd(line, 0).Some?
    ensures forall m :: 0 <= m < RunDateLabelEnd(line, 0).value ==> DateAt(line, m).None?
  {
    var j := SkipWhile(line, 3, IsSpace);
    KeywordHasNoDigits(line, 0, "run");
    KeywordHasNoDigits(line, j, "date:");
    forall m | 0 <= m < RunDateLabelEnd(line, 0).value ensures DateAt(line, m).None? {
      assert !IsDigit(line[m]);
    }
  }

  /** A first line whose run-date label does not start at column 0. */
  const ShiftedLine: string := "Xrun date:1/2/2020"

  /** The same line, character by character. */
  lemma ShiftedLineChars()
    ensures ShiftedLine == ['X', 'r', 'u', 'n', ' ', 'd', 'a', 't', 'e', ':',
                            '1', '/', '2', '/', '2', '0', '2', '0']
  {
  }

  /** A keyword spelt out character by character in lower case stands there. */
  lemma KeywordFromChars(s: string, i: nat, w: string)
    requires i + |w| <= |s|
    requires forall m :: 0 <= m < |w| ==> s[i + m] == w[m] && !('A' <= w[m] <= 'Z')
    ensures KeywordAt(s, i, w)
  {
    var y := s[i..i + |w|];
    assert forall m :: 0 <= m < |w| ==> y[m] == w[m];
    assert y == w;
    LowerIdentity(w);
  }

  lemma ShiftedNotAtStart()
    ensures RunDateAt(ShiftedLine, 0).None?
  {
    ShiftedLineChars();
    assert Lower(ShiftedLine[0..3])[0] == LowerChar(ShiftedLine[0]) == 'x';
  }

  // The lemmas about `ShiftedLine` below split on the index with empty
  // `if m == 0 {} else if m == 1 {} ...` chains: each branch fixes one index,
  // so that the verifier looks that character up in the literal on its own.

  lemma ShiftedLabel()
    ensures RunDateLabelEnd(ShiftedLine, 1) == Some(10)
  {
    var line := ShiftedLine;
    ShiftedLineChars();
    forall m | 0 <= m < 3 ensures line[1 + m] == "run"[m] && !('A' <= "run"[m] <= 'Z') {
      if m == 0 {} else if m == 1 {} else {}
    }
    KeywordFromChars(line, 1, "run");
    SkipWhileExact(line, 4, 1, IsSpace);
    forall m | 0 <= m < 5 ensures line[5 + m] == "date:"[m] && !('A' <= "date:"[m] <= 'Z') {
      if m == 0 {} else if m == 1 {} else if m == 2 {} else if m == 3 {} else {}
    }
    KeywordFromChars(line, 5, "date:");
    SkipWhileExact(line, 10, 0, IsSpace);
  }

  lemma ShiftedDate()
    ensures DateAt(ShiftedLine, 10) == Some(18)
  {
    var line := ShiftedLine;
    ShiftedLineChars();
    assert NumberSlashAt(line, 10) == Some(12);
    assert NumberSlashAt(line, 12) == Some(14);
    var y := line[14..18];
    forall m | 0 <= m < 4 ensures IsDigit(y[m]) {
      assert y[m] == line[14 + m];
    }
  }

  lemma ShiftedLabelMatch()
    ensures RunDateAt(ShiftedLine, 0).None?
    ensures RunDateLabelEnd(ShiftedLine, 1) == Some(10)
    ensures RunDateAt(ShiftedLine, 1) == Some(18)
  {
    ShiftedNotAtStart();
    ShiftedLabel();
    ShiftedDate();
  }

  lemma ShiftedSearches()
    ensures Search(ShiftedLine, 0, RunDateAt) == Some((1, 18))
    ensures Search(ShiftedLine, 0, DateAt) == Some((10, 18))
  {
    var line := ShiftedLine;
    ShiftedLabelMatch();
    SearchFinds(line, 0, RunDateAt, 1, 18);
    forall m | 0 <= m < 10 ensures DateAt(line, m).None? {
      ShiftedLabelHasNoDigit(m);
    }
    SearchFinds(line, 0, DateAt, 10, 18);
  }

  lemma ShiftedLabelHasNoDigit(m: nat)
    requires m < 10
    ensures !IsDigit(ShiftedLine[m])
  {
    ShiftedLineChars();
    if m < 5 {
      if m == 0 {} else if m == 1 {} else if m == 2 {} else if m == 3 {} else {}
    } else {
      if m == 5 {} else if m == 6 {} else if m == 7 {} else if m == 8 {} else {}
    }
  }

  lemma ShiftedTail()
    ensures ShiftedLine[11..18] == "/2/2020"
  {
    ShiftedLineChars();
    var y := ShiftedLine[11..18];
    forall m | 0 <= m < 7 ensures y[m] == "/2/2020"[m] {
      if m == 0 {} else if m == 1 {} else if m == 2 {} else if m == 3 {}
      else if m == 4 {} else if m == 5 {} else {}
    }
  }

  /** The offset quirk: when the label does not start the line, the second
      search's offsets, taken in the whole line, cut the kept text in the
      wrong place. Here the date `1/2/2020` comes back as `/2/2020`. */
  lemma ExtractDateShiftedLabel()
    ensures ExtractDate(ShiftedLine) == Ok("/2/2020")
  {
    ShiftedSearches();
    ShiftedTail();
    var full := ShiftedLine[1..18];
    assert Slice(full, 10, 18) == full[10..17] == ShiftedLine[11..18];
  }

  // ---------------------------------------------------------------------------
  // The printed page number

  /** `page\s*?[0-9]{1,40}` anchored at `i`: the lazy whitespace run must take
      all whitespace before the digits, and the greedy digit run stops at 40. */
  function PageNumberAt(s: string, i: nat): (r: Option<nat>)
    ensures r.Some? ==> i < r.value <= |s|
  {
    if !KeywordAt(s, i, "page") then None
    else
      var j := SkipWhile(s, i + 4, IsSpace);
      var k := SkipWhile(s, j, IsDigit);
      if k == j then None else Some(Min(k, j + 40))
  }

  /** `s[i..b]` is a match of `page\s*?[0-9]{1,40}`: `page` (any case),
      whitespace from `i + 4` to `j`, then the digits from `j` to `b`, as
      many as stand there up to 40. */
  ghost predicate PageNumberLayout(s: string, i: nat, j: nat, b: nat) {
    KeywordAt(s, i, "page") && i + 4 <= j < b <= |s| && b <= j + 40 &&
    (forall m :: i + 4 <= m < j ==> IsSpace(s[m])) &&
    (forall m :: j <= m < b ==> IsDigit(s[m])) &&
    (b == j + 40 || b == |s| || !IsDigit(s[b]))
  }

  /** In a page-number match the digits start where the whitespace ends. */
  lemma PageLayoutDigitsStart(s: string, i: nat, j: nat, b: nat)
    requires PageNumberLayout(s, i, j, b)
    ensures SkipWhile(s, i + 4, IsSpace) == j
  {
    SkipWhileExact(s, i + 4, j - (i + 4), IsSpace);
  }

  /** The page-number matcher accepts exactly the page-number matches. */
  lemma PageNumberAtIff(s: string, i: nat, b: nat)
    ensures PageNumberAt(s, i) == Some(b) <==> exists j: nat :: PageNumberLayout(s, i, j, b)
  {
    if PageNumberAt(s, i) == Some(b) {
      var j := SkipWhile(s, i + 4, IsSpace);
      assert PageNumberLayout(s, i, j, b);
    }
    if exists j: nat :: PageNumberLayout(s, i, j, b) {
      var j: nat :| PageNumberLayout(s, i, j, b);
      PageLayoutDigitsStart(s, i, j, b);
      var k := SkipWhile(s, j, IsDigit);
      assert b <= k;
      assert b < j + 40 ==> k == b;
    }
  }

  /** `extract_pagenum`: find the pattern, lower-case the match, delete
      `page`, strip and convert with `int`. It fails exactly when the line
      holds no match, and then with the missing-page-number error: `int`
      always accepts what is left of a match. */
  function ExtractPageNum(line: string): (r: Result<nat>)
    ensures r.Err? <==> Search(line, 0, PageNumberAt).None?
    ensures r.Err? ==> r.error == NoPageNumber
  {
    match Search(line, 0, PageNumberAt)
    case None => Err(NoPageNumber)
    case Some((a, b)) =>
      PageMatchParse(line, a, b);
      match ParseDecimal(Strip(ReplaceAll(Lower(line[a..b]), "page")))
      case None => Err(NotAnInteger)
      case Some(n) => Ok(n)
  }

  /** What `extract_pagenum` does to a matched text `x`: the label (any
      case), whitespace from 4 to `w`, digits from `w` on. Lower-casing,
      deleting `page` and stripping leave exactly the digits. */
  lemma PageMatchDigits(x: string, w: nat)
    requires 4 <= w < |x| && Lower(x[..4]) == "page"
    requires forall m :: 4 <= m < w ==> IsSpace(x[m])
    requires forall m :: w <= m < |x| ==> IsDigit(x[m])
    ensures ParseDecimal(Strip(ReplaceAll(Lower(x), "page"))) == Some(Decimal(x[w..]))
  {
    var ws, ds := x[4..w], x[w..];
    var y := ws + ds;
    forall m | 0 <= m < |x| ensures Lower(x)[m] == ("page" + y)[m] {
      if m < 4 {
        assert Lower(x[..4])[m] == LowerChar(x[m]);
      } else if m < w {
        assert y[m - 4] == x[m];
      } else {
        assert y[m - 4] == x[m];
      }
    }
    assert Lower(x) == "page" + y;
    assert ("page" + y)[..4] == "page" && ("page" + y)[4..] == y;
    forall m | 0 <= m < |y| ensures y[m] != 'p' {
      assert y[m] == x[m + 4];
    }
    ReplaceAllAbsent(y, "page");
    assert ReplaceAll(Lower(x), "page") == y;
    StripPadded(ws, ds);
  }

  /** The page number is the decimal value of the digits after the first
      `page` label that has digits after it, all of them up to 40. */
  lemma ExtractPageNumValue(line: string, a: nat, j: nat, b: nat)
    requires PageNumberLayout(line, a, j, b)
    requires forall a': nat, j': nat, b': nat :: a' < a ==> !PageNumberLayout(line, a', j', b')
    ensures ExtractPageNum(line) == Ok(Decimal(line[j..b]))
  {
    forall a' | 0 <= a' < a ensures PageNumberAt(line, a').None? {
      if PageNumberAt(line, a').Some? {
        PageNumberAtIff(line, a', PageNumberAt(line, a').value);
      }
    }
    PageNumberAtIff(line, a, b);
    SearchFinds(line, 0, PageNumberAt, a, b);
    PageLayoutDigitsStart(line, a, j, b);
    PageMatchParse(line, a, b);
  }

  /** What `extract_pagenum` makes of a match from `a` to `b`: the value of
      all its digits. */
  lemma PageMatchParse(line: string, a: nat, b: nat)
    requires PageNumberAt(line, a) == Some(b)
    ensures var j := SkipWhile(line, a + 4, IsSpace);
            j < b <= j + 40 && AllDigits(line[j..b]) &&
            (b == j + 40 || b == |line| || !IsDigit(line[b])) &&
            ParseDecimal(Strip(ReplaceAll(Lower(line[a..b]), "page"))) == Some(Decimal(line[j..b]))
  {
    var j := SkipWhile(line, a + 4, IsSpace);
    var x := line[a..b];
    var y := x[j - a..];
    PageMatchShape(line, a, b);
    PageMatchDigits(x, j - a);
    assert y == line[j..b];
    forall m | 0 <= m < |y| ensures IsDigit(y[m]) {
      assert y[m] == x[j - a + m];
    }
  }

  /** A match of the page-number pattern, cut out of the line: the label,
      whitespace, then only digits, all those standing there up to 40. */
  lemma PageMatchShape(line: string, a: nat, b: nat)
    requires PageNumberAt(line, a) == Some(b)
    ensures var x := line[a..b];
            var w := SkipWhile(line, a + 4, IsSpace) - a;
            4 <= w < |x| && b <= a + w + 40 && Lower(x[..4]) == "page" &&
            (forall m :: 4 <= m < w ==> IsSpace(x[m])) &&
            (forall m :: w <= m < |x| ==> IsDigit(x[m])) &&
            (b == a + w + 40 || b == |line| || !IsDigit(line[b]))
  {
    var x := line[a..b];
    var j := SkipWhile(line, a + 4, IsSpace);
    assert x[..4] == line[a..a + 4];
    forall m | 4 <= m < j - a ensures IsSpace(x[m]) {
      assert x[m] == line[a + m];
    }
    forall m | j - a <= m < |x| ensures IsDigit(x[m]) {
      assert x[m] == line[a + m];
    }
  }
}
