/** One page of the securities list (`parse_page`): check the page feed,
    split into lines, validate the header, read the run date and the printed
    page number, find the column starts in the title line, then turn every
    data line into a security record and remember the `total count` footer. */
module Page {

  import opened Strings
  import opened Failures
  import opened Header
  import Segment

  /** One row of the list, with the fields of the source's record dictionary. */
  datatype Security = Security(
    cusip: string,
    issuer: string,
    description: string,
    date: string,
    page: nat,
    optionable: bool,
    added: bool,
    deleted: bool)

  /** Where the CUSIP, issuer and description columns start on this page. */
  datatype Columns = Columns(cusip: nat, issuer: nat, description: nat)

  /** What a page yields: its records in order and its footer count, if any. */
  datatype PageOut = PageOut(records: seq<Security>, expected: Option<nat>)

  /** `^[a-zA-Z0-9]{6,6} [a-zA-Z0-9]{2,2} [a-zA-Z0-9]{1,1}$`. (`$` would also
      accept a final newline, which a stripped string never has.) */
  predicate IsCusip(c: string) {
    |c| == 11 && c[6] == ' ' && c[9] == ' ' &&
    forall m :: 0 <= m < 11 && m != 6 && m != 9 ==> IsAlnum(c[m])
  }

  /** The column starts are where `re.search` first finds each title. */
  function ColumnsOf(title: string): (c: Columns)
    requires Contains(title, "CUSIP NO")
    requires Contains(title, "ISSUER NAME")
    requires Contains(title, "ISSUER DESCRIPTION")
    ensures FirstOccurrence(title, "CUSIP NO", c.cusip)
    ensures FirstOccurrence(title, "ISSUER NAME", c.issuer)
    ensures FirstOccurrence(title, "ISSUER DESCRIPTION", c.description)
  {
    Columns(Find(title, "CUSIP NO").value, Find(title, "ISSUER NAME").value,
            Find(title, "ISSUER DESCRIPTION").value)
  }

  /** The CUSIP column of a data line, as cut: it still holds the `*` marker. */
  function RawCusip(line: string, cols: Columns): string {
    Slice(line, cols.cusip, cols.issuer)
  }

  /** The description column runs to the end of the line, so it also holds
      the STATUS column with its ADDED or DELETED marker. */
  function RawDescription(line: string, cols: Columns): string {
    SliceFrom(line, cols.description)
  }

  /** The CUSIP as stored: markers removed, whitespace stripped. */
  function NormalCusip(line: string, cols: Columns): string {
    Strip(ReplaceAll(RawCusip(line, cols), "*"))
  }

  /** The record a data line becomes. */
  function RowRecord(line: string, cols: Columns, date: string, page: nat): Security {
    var description := RawDescription(line, cols);
    Security(
      NormalCusip(line, cols),
      Strip(Slice(line, cols.issuer, cols.description)),
      Strip(ReplaceAll(ReplaceAll(description, "ADDED"), "DELETED")),
      date,
      page,
      '*' in RawCusip(line, cols),
      Has(description, "ADDED"),
      Has(description, "DELETED"))
  }

  /** The fields of a record as the source promises them: the CUSIP holds no
      `*`; the record is optionable exactly when a `*` stands in the CUSIP
      column; it is added (deleted) exactly when `ADDED` (`DELETED`) occurs
      anywhere from the description column on, the STATUS column included;
      date and page are the page's. */
  lemma RecordFields(line: string, cols: Columns, date: string, page: nat)
    ensures var r := RowRecord(line, cols, date, page);
            '*' !in r.cusip &&
            (r.optionable <==> exists m :: cols.cusip <= m < cols.issuer && m < |line| && line[m] == '*') &&
            (r.added <==> exists m :: cols.description <= m && Occurs(line, "ADDED", m)) &&
            (r.deleted <==> exists m :: cols.description <= m && Occurs(line, "DELETED", m)) &&
            r.date == date && r.page == page
  {
    ReplaceAllDrops(RawCusip(line, cols), '*');
    StripKeeps(ReplaceAll(RawCusip(line, cols), "*"));
    SliceHas(line, cols.cusip, cols.issuer, '*');
    SliceFromContains(line, cols.description, "ADDED");
    SliceFromContains(line, cols.description, "DELETED");
  }

  datatype LineKind = Blank | Footer | Data

  /** Blank lines are skipped, lines naming `total count` in any case are the
      footer, everything else is a data line. */
  function Kind(line: string): LineKind {
    if Strip(line) == "" then Blank
    else if Has(Lower(line), "total count") then Footer
    else Data
  }

  /** The lines after the header, in source order, folded into `acc`. */
  function ScanRows(rows: seq<string>, cols: Columns, date: string, page: nat, acc: PageOut): Result<PageOut>
    decreases |rows|
  {
    if rows == [] then Ok(acc)
    else
      var line := rows[0];
      match Kind(line)
      case Blank => ScanRows(rows[1..], cols, date, page, acc)
      case Footer =>
        (match ParseDecimal(Digits(line))
         case None => Err(NotAnInteger)
         case Some(n) => ScanRows(rows[1..], cols, date, page, acc.(expected := Some(n))))
      case Data =>
        var security := RowRecord(line, cols, date, page);
        if IsCusip(security.cusip)
        then ScanRows(rows[1..], cols, date, page, acc.(records := acc.records + [security]))
        else Err(MalformedCusip(security.cusip))
  }

  /** The page's text split into lines, the final form feed left out. */
  function PageLines(b: string): seq<string>
    requires |b| > 0
  {
    Split(b[..|b| - 1], '\n')
  }

  /** `parse_page` as a function of the page's text. */
  function ParsedPage(b: string): (r: Result<PageOut>)
    ensures r.Ok? ==> |b| > 0 && b[|b| - 1] == Segment.FormFeed
  {
    if |b| == 0 then Err(EmptyPage)
    else if b[|b| - 1] != Segment.FormFeed then Err(MissingPageFeed)
    else
      var lines := PageLines(b);
      match ValidateHeader(lines[..Min(4, |lines|)])
      case Fail(e) => Err(e)
      case Pass =>
        var date :- ExtractDate(lines[0]);
        var page :- ExtractPageNum(lines[0]);
        ScanRows(lines[4..], ColumnsOf(lines[3]), date, page, PageOut([], None))
  }

  /** `parse_page`: the checks before the loop, then the loop itself. */
  method ParsePage(b: string) returns (r: Result<PageOut>)
    ensures r == ParsedPage(b)
  {
    if |b| == 0 {
      return Err(EmptyPage);
    }
    if b[|b| - 1] != Segment.FormFeed {
      return Err(MissingPageFeed);
    }
    var lines := Split(b[..|b| - 1], '\n');
    var header := ValidateHeader(lines[..Min(4, |lines|)]);
    if header.Fail? {
      return Err(header.error);
    }
    assert lines[..4][3] == lines[3];
    var date :- ExtractDate(lines[0]);
    var page :- ExtractPageNum(lines[0]);
    r := ScanPage(lines[4..], ColumnsOf(lines[3]), date, page);
  }

  /** The loop of `parse_page` over `lines[4:]`: it appends records and
      overwrites the expected count as it meets them, and stops at the first
      bad footer or CUSIP. */
  method ScanPage(rows: seq<string>, cols: Columns, date: string, page: nat) returns (r: Result<PageOut>)
    ensures r == ScanRows(rows, cols, date, page, PageOut([], None))
  {
    var securities: seq<Security> := [];
    var expected: Option<nat> := None;
    var i := 0;
    while i < |rows|
      invariant i <= |rows|
      invariant ScanRows(rows[i..], cols, date, page, PageOut(securities, expected))
             == ScanRows(rows, cols, date, page, PageOut([], None))
    {
      var line := rows[i];
      assert rows[i..][1..] == rows[i + 1..];
      i := i + 1;
      if Strip(line) == "" {
        continue;
      }
      if Has(Lower(line), "total count") {
        var n := ParseDecimal(Digits(line));
        if n.None? {
          return Err(NotAnInteger);
        }
        expected := n;
        continue;
      }
      var security := RowRecord(line, cols, date, page);
      if !IsCusip(security.cusip) {
        return Err(MalformedCusip(security.cusip));
      }
      securities := securities + [security];
    }
    return Ok(PageOut(securities, expected));
  }

  // ---------------------------------------------------------------------------
  // What the loop promises, stated row by row

  /** The error a row stops the loop with, if any: a footer that holds no
      digit (`int('')`), or a data line whose CUSIP has the wrong shape. */
  function RowError(line: string, cols: Columns): Option<Error> {
    match Kind(line)
    case Blank => None
    case Footer => if forall m :: 0 <= m < |line| ==> !IsDigit(line[m]) then Some(NotAnInteger) else None
    case Data =>
      var c := NormalCusip(line, cols);
      if IsCusip(c) then None else Some(MalformedCusip(c))
  }

  /** The data lines among `rows`, in their order. */
  function DataLines(rows: seq<string>): seq<string> {
    if rows == [] then [] else (if Kind(rows[0]) == Data then [rows[0]] else []) + DataLines(rows[1..])
  }

  /** The data lines are lines of `rows` that are neither blank nor footers,
      and every such line is among them. */
  lemma {:induction false} DataLinesKind(rows: seq<string>)
    ensures forall l :: l in DataLines(rows) <==> l in rows && Kind(l) == Data
    decreases |rows|
  {
    if rows != [] {
      DataLinesKind(rows[1..]);
      assert rows == [rows[0]] + rows[1..];
    }
  }

  /** The records a sequence of data lines becomes, one per line. */
  function Entries(lines: seq<string>, cols: Columns, date: string, page: nat): (r: seq<Security>)
    ensures |r| == |lines|
  {
    seq(|lines|, k requires 0 <= k < |lines| => RowRecord(lines[k], cols, date, page))
  }

  /** The count printed by the last footer among `rows`, found by reading from
      the end; `prior` when `rows` holds no footer. */
  function FooterCount(rows: seq<string>, prior: Option<nat>): Option<nat> {
    if rows == [] then prior
    else if Kind(rows[|rows| - 1]) == Footer then Some(Decimal(Digits(rows[|rows| - 1])))
    else FooterCount(rows[..|rows| - 1], prior)
  }

  /** No count is read exactly when no row is a footer. */
  lemma {:induction false} FooterCountNone(rows: seq<string>)
    ensures FooterCount(rows, None) == None <==> forall k :: 0 <= k < |rows| ==> Kind(rows[k]) != Footer
    decreases |rows|
  {
    if rows != [] {
      var init := rows[..|rows| - 1];
      FooterCountNone(init);
      assert forall k :: 0 <= k < |init| ==> init[k] == rows[k];
    }
  }

  /** Row `k` is the first one that stops the loop. */
  ghost predicate FirstBad(rows: seq<string>, cols: Columns, k: int) {
    0 <= k < |rows| && RowError(rows[k], cols).Some? &&
    forall j :: 0 <= j < k ==> RowError(rows[j], cols).None?
  }

  /** Reading the footer count from the end agrees with the loop's overwriting
      of it from the front. */
  lemma {:induction false} FooterCountCons(x: string, rest: seq<string>, prior: Option<nat>)
    ensures FooterCount([x] + rest, prior) ==
            FooterCount(rest, if Kind(x) == Footer then Some(Decimal(Digits(x))) else prior)
    decreases |rest|
  {
    var s := [x] + rest;
    if rest == [] {
      assert s[..|s| - 1] == [];
    } else {
      assert s[..|s| - 1] == [x] + rest[..|rest| - 1];
      assert s[|s| - 1] == rest[|rest| - 1];
      FooterCountCons(x, rest[..|rest| - 1], prior);
    }
  }

  /** A footer line is accepted exactly when it holds a digit, and then its
      count is the decimal value of its digits. */
  lemma FooterValue(line: string)
    ensures ParseDecimal(Digits(line)).None? <==> forall m :: 0 <= m < |line| ==> !IsDigit(line[m])
    ensures ParseDecimal(Digits(line)).Some? ==> ParseDecimal(Digits(line)).value == Decimal(Digits(line))
  {
    DigitsOnly(line);
  }

  /** The accumulator after an accepted row: a footer replaces the count, a
      data line appends its record, a blank line changes nothing. */
  function Absorb(acc: PageOut, x: string, cols: Columns, date: string, page: nat): PageOut {
    match Kind(x)
    case Blank => acc
    case Footer => acc.(expected := Some(Decimal(Digits(x))))
    case Data => acc.(records := acc.records + [RowRecord(x, cols, date, page)])
  }

  /** One turn of the loop: the first row either stops it with its error or
      is absorbed. */
  lemma ScanRowsStep(rows: seq<string>, cols: Columns, date: string, page: nat, acc: PageOut)
    requires rows != []
    ensures RowError(rows[0], cols).Some? ==>
            ScanRows(rows, cols, date, page, acc) == Err(RowError(rows[0], cols).value)
    ensures RowError(rows[0], cols).None? ==>
            ScanRows(rows, cols, date, page, acc) ==
            ScanRows(rows[1..], cols, date, page, Absorb(acc, rows[0], cols, date, page))
  {
    FooterValue(rows[0]);
  }

  /** The loop succeeds exactly when no row stops it. */
  lemma {:induction false} ScanRowsOk(rows: seq<string>, cols: Columns, date: string, page: nat, acc: PageOut)
    ensures ScanRows(rows, cols, date, page, acc).Ok? <==>
            forall k :: 0 <= k < |rows| ==> RowError(rows[k], cols).None?
    decreases |rows|
  {
    if rows != [] {
      ScanRowsStep(rows, cols, date, page, acc);
      ScanRowsOk(rows[1..], cols, date, page, Absorb(acc, rows[0], cols, date, page));
      forall k | 0 <= k < |rows| - 1 ensures rows[1..][k] == rows[k + 1] { }
    }
  }

  /** When the loop succeeds it has appended one record per data line, in
      order, and holds the count of the last footer (or the count it started
      with when there is no footer). */
  lemma ScanRowsValue(rows: seq<string>, cols: Columns, date: string, page: nat, acc: PageOut)
    requires ScanRows(rows, cols, date, page, acc).Ok?
    ensures ScanRows(rows, cols, date, page, acc).value ==
            PageOut(acc.records + Entries(DataLines(rows), cols, date, page), FooterCount(rows, acc.expected))
  {
    ScanRowsRecords(rows, cols, date, page, acc);
    ScanRowsCount(rows, cols, date, page, acc);
  }

  lemma EntriesCons(x: string, lines: seq<string>, cols: Columns, date: string, page: nat)
    ensures Entries([x] + lines, cols, date, page) == [RowRecord(x, cols, date, page)] + Entries(lines, cols, date, page)
  {
    var l := [x] + lines;
    assert forall k :: 0 < k < |l| ==> l[k] == lines[k - 1];
  }

  lemma {:induction false} ScanRowsRecords(rows: seq<string>, cols: Columns, date: string, page: nat, acc: PageOut)
    requires ScanRows(rows, cols, date, page, acc).Ok?
    ensures ScanRows(rows, cols, date, page, acc).value.records ==
            acc.records + Entries(DataLines(rows), cols, date, page)
    decreases |rows|
  {
    if rows != [] {
      var x, rest := rows[0], rows[1..];
      ScanRowsStep(rows, cols, date, page, acc);
      var acc' := Absorb(acc, x, cols, date, page);
      ScanRowsRecords(rest, cols, date, page, acc');
      var tail := Entries(DataLines(rest), cols, date, page);
      if Kind(x) == Data {
        var r := RowRecord(x, cols, date, page);
        assert acc'.records == acc.records + [r];
        assert DataLines(rows) == [x] + DataLines(rest);
        EntriesCons(x, DataLines(rest), cols, date, page);
        assert (acc.records + [r]) + tail == acc.records + ([r] + tail);
      } else {
        assert acc'.records == acc.records;
        assert DataLines(rows) == DataLines(rest);
      }
    }
  }

  lemma {:induction false} ScanRowsCount(rows: seq<string>, cols: Columns, date: string, page: nat, acc: PageOut)
    requires ScanRows(rows, cols, date, page, acc).Ok?
    ensures ScanRows(rows, cols, date, page, acc).value.expected == FooterCount(rows, acc.expected)
    decreases |rows|
  {
    if rows != [] {
      var x, rest := rows[0], rows[1..];
      ScanRowsStep(rows, cols, date, page, acc);
      var acc' := Absorb(acc, x, cols, date, page);
      ScanRowsCount(rest, cols, date, page, acc');
      assert rows == [x] + rest;
      FooterCountCons(x, rest, acc.expected);
      assert acc'.expected == if Kind(x) == Footer then Some(Decimal(Digits(x))) else acc.expected;
    }
  }

  /** When the loop fails, it fails with the error of the first row that
      stops it. */
  lemma {:induction false} ScanRowsError(rows: seq<string>, cols: Columns, date: string, page: nat, acc: PageOut)
    requires ScanRows(rows, cols, date, page, acc).Err?
    ensures exists k :: FirstBad(rows, cols, k) &&
                        ScanRows(rows, cols, date, page, acc).error == RowError(rows[k], cols).value
    decreases |rows|
  {
    ScanRowsStep(rows, cols, date, page, acc);
    if RowError(rows[0], cols).Some? {
      assert FirstBad(rows, cols, 0);
    } else {
      var rest := rows[1..];
      ScanRowsError(rest, cols, date, page, Absorb(acc, rows[0], cols, date, page));
      var k :| FirstBad(rest, cols, k) &&
               ScanRows(rest, cols, date, page, Absorb(acc, rows[0], cols, date, page)).error == RowError(rest[k], cols).value;
      assert rest[k] == rows[k + 1];
      forall j | 0 <= j < k + 1 ensures RowError(rows[j], cols).None? {
        if j > 0 { assert rows[j] == rest[j - 1]; }
      }
      assert FirstBad(rows, cols, k + 1);
    }
  }

  /** Every record the loop appends has a well-formed CUSIP. */
  lemma {:induction false} ScanRowsCusips(rows: seq<string>, cols: Columns, date: string, page: nat, acc: PageOut)
    requires forall k :: 0 <= k < |acc.records| ==> IsCusip(acc.records[k].cusip)
    ensures ScanRows(rows, cols, date, page, acc).Ok? ==>
            forall k :: 0 <= k < |ScanRows(rows, cols, date, page, acc).value.records| ==>
              IsCusip(ScanRows(rows, cols, date, page, acc).value.records[k].cusip)
    decreases |rows|
  {
    if rows != [] {
      var x := rows[0];
      match Kind(x)
      case Blank =>
        ScanRowsCusips(rows[1..], cols, date, page, acc);
      case Footer =>
        if ParseDecimal(Digits(x)).Some? {
          ScanRowsCusips(rows[1..], cols, date, page, acc.(expected := ParseDecimal(Digits(x))));
        }
      case Data =>
        var security := RowRecord(x, cols, date, page);
        if IsCusip(security.cusip) {
          ScanRowsCusips(rows[1..], cols, date, page, acc.(records := acc.records + [security]));
        }
    }
  }

  // ---------------------------------------------------------------------------
  // What `parse_page` promises

  /** The page passes every check before the loop: it ends with a form feed,
      its header is accepted and its first line yields a run date and a page
      number. */
  ghost predicate HeaderAccepted(b: string) {
    |b| > 0 && b[|b| - 1] == Segment.FormFeed &&
    |PageLines(b)| >= 4 && WellFormedHeader(PageLines(b)[..4]) &&
    ExtractDate(PageLines(b)[0]).Ok? && ExtractPageNum(PageLines(b)[0]).Ok?
  }

  /** The column starts read from the title line of an accepted page. */
  ghost function PageColumns(b: string): Columns
    requires HeaderAccepted(b)
  {
    var lines := PageLines(b);
    assert lines[..4][3] == lines[3];
    ColumnsOf(lines[3])
  }

  /** The lines after the header of an accepted page. */
  ghost function PageRows(b: string): seq<string>
    requires HeaderAccepted(b)
  {
    PageLines(b)[4..]
  }

  /** A page that fails a check before the loop is not parsed. */
  lemma HeaderRejected(b: string)
    requires !HeaderAccepted(b)
    ensures ParsedPage(b).Err?
  {
    if |b| > 0 && b[|b| - 1] == Segment.FormFeed {
      var lines := PageLines(b);
      assert ValidateHeader(lines[..Min(4, |lines|)]) == Pass ==> |lines| >= 4 && lines[..Min(4, |lines|)] == lines[..4];
    }
  }

  /** On a page that passes the checks before the loop, parsing is the loop
      over the rows after the header. */
  lemma HeaderThenRows(b: string)
    requires HeaderAccepted(b)
    ensures ParsedPage(b) == ScanRows(PageRows(b), PageColumns(b), ExtractDate(PageLines(b)[0]).value,
                                      ExtractPageNum(PageLines(b)[0]).value, PageOut([], None))
  {
    var lines := PageLines(b);
    assert lines[..Min(4, |lines|)] == lines[..4];
  }

  /** A page is parsed exactly when it passes the checks before the loop and
      no row after the header stops the loop. */
  lemma ParsedPageOk(b: string)
    ensures ParsedPage(b).Ok? <==>
            HeaderAccepted(b) &&
            forall k :: 0 <= k < |PageRows(b)| ==> RowError(PageRows(b)[k], PageColumns(b)).None?
  {
    if HeaderAccepted(b) {
      var lines := PageLines(b);
      HeaderThenRows(b);
      ScanRowsOk(PageRows(b), PageColumns(b), ExtractDate(lines[0]).value,
                 ExtractPageNum(lines[0]).value, PageOut([], None));
    } else {
      HeaderRejected(b);
    }
  }

  /** A parsed page yields one record per data line after the header, in
      order, each stamped with the date and page number of line 0, and the
      count of its last footer, or none when it has no footer. */
  lemma ParsedPageValue(b: string)
    requires ParsedPage(b).Ok?
    ensures HeaderAccepted(b)
    ensures ParsedPage(b).value ==
            PageOut(Entries(DataLines(PageRows(b)), PageColumns(b),
                            ExtractDate(PageLines(b)[0]).value, ExtractPageNum(PageLines(b)[0]).value),
                    FooterCount(PageRows(b), None))
  {
    ParsedPageOk(b);
    HeaderThenRows(b);
    var lines := PageLines(b);
    ScanRowsValue(lines[4..], PageColumns(b), ExtractDate(lines[0]).value,
                  ExtractPageNum(lines[0]).value, PageOut([], None));
  }

  /** All records of a parsed page carry the run date and page number read
      from its first line, and there is one per data line. */
  lemma ParsedPageStamps(b: string)
    requires ParsedPage(b).Ok?
    ensures HeaderAccepted(b)
    ensures |ParsedPage(b).value.records| == |DataLines(PageRows(b))|
    ensures forall k :: 0 <= k < |ParsedPage(b).value.records| ==>
              ParsedPage(b).value.records[k].date == ExtractDate(PageLines(b)[0]).value &&
              ParsedPage(b).value.records[k].page == ExtractPageNum(PageLines(b)[0]).value
  {
    ParsedPageValue(b);
  }

  /** Every record of a parsed page has a well-formed CUSIP. */
  lemma ParsedPageCusips(b: string)
    requires ParsedPage(b).Ok?
    ensures forall k :: 0 <= k < |ParsedPage(b).value.records| ==> IsCusip(ParsedPage(b).value.records[k].cusip)
  {
    ParsedPageOk(b);
    HeaderThenRows(b);
    var lines := PageLines(b);
    ScanRowsCusips(lines[4..], PageColumns(b), ExtractDate(lines[0]).value,
                   ExtractPageNum(lines[0]).value, PageOut([], None));
  }
}
