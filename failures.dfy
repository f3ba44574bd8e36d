/** What can go wrong while parsing one securities-list document. Every
    exception the parser raises ends the whole document, so each is one
    constructor here, named after what the input lacked. */
module Failures {

  import Strings

  datatype Error =
    | EmptyPage                        // `bytes_arr[-1]` on an empty page (IndexError)
    | MissingPageFeed                  // last byte of the page is not a form feed (ValueError)
    | MissingHeaderLine                // header shorter than the line being tested (IndexError)
    | MalformedHeader                  // a header test failed (ValueError)
    | NoRunDate                        // no `run date: D/D/YYYY` in line 0 (AttributeError on None)
    | NoPageNumber                     // no `page N` in line 0 (AttributeError on None)
    | NotAnInteger                     // `int('')` on a `total count` line without digits (ValueError)
    | MalformedCusip(cusip: string)    // a CUSIP of the wrong shape (NameError: MalformedDataError is undefined)
    | NoPages                          // no page found, `expected_lines` never bound (UnboundLocalError)
    | CountMismatch(total: nat, expected: Strings.Option<nat>)  // record count differs from the last footer (ValueError)

  datatype Result<+T> = Ok(value: T) | Err(error: Error) {
    predicate IsFailure() { Err? }

    function PropagateFailure<U>(): Result<U>
      requires Err?
    {
      Err(error)
    }

    function Extract(): T
      requires Ok?
    {
      value
    }
  }

  /** Result of a check that returns nothing on success. */
  datatype Outcome = Pass | Fail(error: Error)
}
