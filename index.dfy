/** The whole securities list (`parse_pdf_index`): cut the rendered text into
    pages, parse each page in order, concatenate their records and compare
    their number with the footer count the last page reported. */
module Index {

  import opened Strings
  import opened Failures
  import Segment
  import opened Page

  /** The result of parsing each page on its own. */
  function ParseEach(pages: seq<string>): (r: seq<Result<PageOut>>)
    ensures |r| == |pages|
  {
    seq(|pages|, k requires 0 <= k < |pages| => ParsedPage(pages[k]))
  }

  /** The page results taken in order on top of `acc`: records are
      concatenated and each page's footer count replaces the one before it;
      the first page that failed ends everything. */
  function Collect(results: seq<Result<PageOut>>, acc: PageOut): Result<PageOut>
    decreases |results|
  {
    if results == [] then Ok(acc)
    else
      var out :- results[0];
      Collect(results[1..], PageOut(acc.records + out.records, out.expected))
  }

  /** `parse_pdf_index` as a function of the rendered text. With no page at
      all, `expected_lines` is never bound and the comparison fails. */
  function ParsedIndex(text: string): Result<seq<Security>> {
    var pages := Segment.Pages(text);
    if pages == [] then Err(NoPages)
    else
      var out :- Collect(ParseEach(pages), PageOut([], None));
      if out.expected != Some(|out.records|) then Err(CountMismatch(|out.records|, out.expected))
      else Ok(out.records)
  }

  /** `parse_pdf_index`: the loop over the yielded pages, then the count check. */
  method ParsePdfIndex(text: string) returns (r: Result<seq<Security>>)
    ensures r == ParsedIndex(text)
  {
    var pages := Segment.SplitPages(text);
    ghost var results := ParseEach(pages);
    var securities: seq<Security> := [];
    var expected: Option<nat> := None;
    var i := 0;
    while i < |pages|
      invariant i <= |pages|
      invariant Collect(results[i..], PageOut(securities, expected)) == Collect(results, PageOut([], None))
    {
      var out := ParsePage(pages[i]);
      assert out == results[i];
      assert results[i..][1..] == results[i + 1..];
      if out.Err? {
        return Err(out.error);
      }
      securities := securities + out.value.records;
      expected := out.value.expected;
      i := i + 1;
    }
    if |pages| == 0 {
      return Err(NoPages);
    }
    if expected != Some(|securities|) {
      return Err(CountMismatch(|securities|, expected));
    }
    return Ok(securities);
  }

  // ---------------------------------------------------------------------------
  // What `parse_pdf_index` promises

  /** Every page parsed. */
  predicate AllOk(results: seq<Result<PageOut>>) {
    forall k :: 0 <= k < |results| ==> results[k].Ok?
  }

  /** The records a page result holds; a failed page holds none. */
  function Records(result: Result<PageOut>): seq<Security> {
    if result.Ok? then result.value.records else []
  }

  /** The records of all pages, in page order, gathered from the last page
      backwards. */
  function AllRecords(results: seq<Result<PageOut>>): seq<Security> {
    if results == [] then []
    else AllRecords(results[..|results| - 1]) + Records(results[|results| - 1])
  }

  /** Collecting succeeds exactly when every page parsed. */
  lemma {:induction false} CollectOk(results: seq<Result<PageOut>>, acc: PageOut)
    ensures Collect(results, acc).Ok? <==> AllOk(results)
    decreases |results|
  {
    if results != [] && results[0].Ok? {
      var out := results[0].value;
      CollectOk(results[1..], PageOut(acc.records + out.records, out.expected));
      forall k | 0 <= k < |results| - 1 ensures results[1..][k] == results[k + 1] { }
    }
  }

  /** Gathering from the back agrees with concatenating page by page from
      the front. */
  lemma {:induction false} AllRecordsCons(results: seq<Result<PageOut>>)
    requires results != []
    ensures AllRecords(results) == Records(results[0]) + AllRecords(results[1..])
    decreases |results|
  {
    var rest := results[1..];
    if |results| > 1 {
      var init := results[..|results| - 1];
      var first, last := Records(results[0]), Records(results[|results| - 1]);
      AllRecordsCons(init);
      assert init[0] == results[0];
      assert init[1..] == rest[..|rest| - 1];
      assert rest[|rest| - 1] == results[|results| - 1];
      calc {
        AllRecords(results);
        AllRecords(init) + last;
        (first + AllRecords(init[1..])) + last;
        first + (AllRecords(init[1..]) + last);
        first + AllRecords(rest);
      }
    } else {
      assert results[..0] == [];
      assert rest == [];
    }
  }

  /** What collecting yields: the records of all pages in order after those
      already held, and the footer count of the last page (or the one held
      when there are no pages). */
  lemma {:induction false} CollectValue(results: seq<Result<PageOut>>, acc: PageOut)
    requires AllOk(results)
    ensures Collect(results, acc).Ok?
    ensures Collect(results, acc).value ==
            PageOut(acc.records + AllRecords(results),
                    if results == [] then acc.expected else results[|results| - 1].value.expected)
    decreases |results|
  {
    CollectOk(results, acc);
    if results != [] {
      var first := results[0].value;
      var rest := results[1..];
      assert AllOk(rest) by {
        forall k | 0 <= k < |rest| ensures rest[k].Ok? {
          assert rest[k] == results[k + 1];
        }
      }
      AllRecordsCons(results);
      CollectValue(rest, PageOut(acc.records + first.records, first.expected));
      if rest != [] {
        assert rest[|rest| - 1] == results[|results| - 1];
      }
    }
  }

  /** The document is parsed exactly when it has a page, every page parses,
      and the last page's footer count equals the number of records on all
      pages; the result is then those records in page order. */
  lemma IndexResult(text: string)
    ensures var results := ParseEach(Segment.Pages(text));
            ParsedIndex(text).Ok? <==>
            results != [] && AllOk(results) &&
            results[|results| - 1].value.expected == Some(|AllRecords(results)|)
    ensures ParsedIndex(text).Ok? ==> ParsedIndex(text).value == AllRecords(ParseEach(Segment.Pages(text)))
  {
    var results := ParseEach(Segment.Pages(text));
    CollectOk(results, PageOut([], None));
    if AllOk(results) {
      CollectValue(results, PageOut([], None));
    }
  }

  /** Only the last page's footer counts: when every page parses but the last
      one reports no count (it has no footer line, by `Page.ParsedPageValue`
      and `Page.FooterCountNone`), the document is rejected, whatever earlier
      pages declared. */
  lemma IndexNeedsLastFooter(text: string)
    requires var results := ParseEach(Segment.Pages(text));
             results != [] && AllOk(results) && results[|results| - 1].value.expected == None
    ensures ParsedIndex(text) == Err(CountMismatch(|AllRecords(ParseEach(Segment.Pages(text)))|, None))
  {
    CollectValue(ParseEach(Segment.Pages(text)), PageOut([], None));
  }

  /** When every page parses but the last page's footer count is not the
      number of records on all pages, the document fails with the mismatch
      between the two. */
  lemma IndexCountMismatch(text: string)
    requires var results := ParseEach(Segment.Pages(text));
             results != [] && AllOk(results) &&
             results[|results| - 1].value.expected != Some(|AllRecords(results)|)
    ensures var results := ParseEach(Segment.Pages(text));
            ParsedIndex(text) ==
            Err(CountMismatch(|AllRecords(results)|, results[|results| - 1].value.expected))
  {
    CollectValue(ParseEach(Segment.Pages(text)), PageOut([], None));
  }

  /** The first page that fails ends collecting, with its own error. */
  lemma {:induction false} CollectError(results: seq<Result<PageOut>>, acc: PageOut, k: nat)
    requires k < |results| && results[k].Err?
    requires forall j :: 0 <= j < k ==> results[j].Ok?
    ensures Collect(results, acc) == Err(results[k].error)
    decreases k
  {
    if k > 0 {
      var out := results[0].value;
      var rest := results[1..];
      assert rest[k - 1] == results[k];
      forall j | 0 <= j < k - 1 ensures rest[j].Ok? {
        assert rest[j] == results[j + 1];
      }
      CollectError(rest, PageOut(acc.records + out.records, out.expected), k - 1);
    }
  }

  /** A document with a failing page fails with the error of the first page
      that fails; later pages are never looked at. */
  lemma IndexFirstFailure(text: string, k: nat)
    requires var pages := Segment.Pages(text);
             k < |pages| && ParsedPage(pages[k]).Err? &&
             forall j :: 0 <= j < k ==> ParsedPage(pages[j]).Ok?
    ensures ParsedIndex(text) == Err(ParsedPage(Segment.Pages(text)[k]).error)
  {
    var pages := Segment.Pages(text);
    var results := ParseEach(pages);
    forall j | 0 <= j < k ensures results[j].Ok? {
      assert results[j] == ParsedPage(pages[j]);
    }
    CollectError(results, PageOut([], None), k);
  }

  /** Every record of a parsed document has a well-formed CUSIP. */
  lemma IndexCusips(text: string)
    requires ParsedIndex(text).Ok?
    ensures forall s :: s in ParsedIndex(text).value ==> IsCusip(s.cusip)
  {
    var pages := Segment.Pages(text);
    var results := ParseEach(pages);
    IndexResult(text);
    forall k, s: Security | 0 <= k < |results| && s in Records(results[k])
      ensures IsCusip(s.cusip)
    {
      assert results[k] == ParsedPage(pages[k]);
      ParsedPageCusips(pages[k]);
    }
    AllRecordsCusips(results);
  }

  /** Records gathered from pages whose CUSIPs are all well-formed have
      well-formed CUSIPs. */
  lemma {:induction false} AllRecordsCusips(results: seq<Result<PageOut>>)
    requires forall k, s :: 0 <= k < |results| && s in Records(results[k]) ==> IsCusip(s.cusip)
    ensures forall s :: s in AllRecords(results) ==> IsCusip(s.cusip)
    decreases |results|
  {
    if results != [] {
      var init := results[..|results| - 1];
      assert forall k :: 0 <= k < |init| ==> init[k] == results[k];
      AllRecordsCusips(init);
    }
  }
}
