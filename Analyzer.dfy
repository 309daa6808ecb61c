/** The diagnostics side of the viewer: collecting the analyzer's records
    into a list of errors (`run_lexer`) and the label each error gets in the
    error list. The analyzer process and the JSON decoder are not modelled:
    the analyzer's standard output arrives as its sequence of records, and
    decoding one record is a given partial function. */
module Analyzer {

  import opened Wrappers
  import Text
  import Decimal

  /** One diagnostic (`struct Error`): a line number as the analyzer reports
      it and its message. */
  datatype Error = Error(line: int, message: string)

  /** Decoding of one record into an error. `None` stands for every way the
      decoding throws: text that is not JSON, a missing `line` or `message`
      field, a field of the wrong type. */
  type Parser = string -> Option<Error>

  /** The errors decoded from `records`, in record order; records that fail
      to decode contribute nothing. */
  function Decoded(records: seq<string>, parse: Parser): seq<Error>
  {
    if records == [] then []
    else
      var last := records[|records| - 1];
      Decoded(records[..|records| - 1], parse) + (if parse(last).Some? then [parse(last).value] else [])
  }

  /** How many records fail to decode. */
  function Failures(records: seq<string>, parse: Parser): nat
  {
    if records == [] then 0
    else Failures(records[..|records| - 1], parse) + (if parse(records[|records| - 1]).None? then 1 else 0)
  }

  /** The record loop of `run_lexer`. `output` is `None` when the analyzer
      could not be started, else the records it wrote. */
  method RunLexer(output: Option<seq<string>>, parse: Parser) returns (errors: seq<Error>)
    ensures output.None? ==> errors == []
    ensures output.Some? ==> errors == Decoded(output.value, parse)
  {
    errors := [];
    if output.None? {
      return;
    }
    var records := output.value;
    for i := 0 to |records|
      invariant errors == Decoded(records[..i], parse)
    {
      assert records[..i + 1][..i] == records[..i];
      var decoded := parse(records[i]);
      if decoded.Some? {
        errors := errors + [decoded.value];
      }
      // a record that fails to decode is reported and skipped
    }
    assert records[..|records|] == records;
  }

  /** Decoding works record by record: what one batch yields does not
      depend on the records around it. */
  lemma {:induction false} DecodedAppend(a: seq<string>, b: seq<string>, parse: Parser)
    ensures Decoded(a + b, parse) == Decoded(a, parse) + Decoded(b, parse)
    ensures Failures(a + b, parse) == Failures(a, parse) + Failures(b, parse)
    decreases |b|
  {
    if b == [] {
      assert a + b == a;
    } else {
      var b' := b[..|b| - 1];
      assert (a + b)[..|a + b| - 1] == a + b';
      DecodedAppend(a, b', parse);
    }
  }

  /** A record that fails to decode is skipped and the records after it are
      still decoded. */
  lemma DecodedSkipsFailure(before: seq<string>, bad: string, after: seq<string>, parse: Parser)
    requires parse(bad).None?
    ensures Decoded(before + [bad] + after, parse) == Decoded(before, parse) + Decoded(after, parse)
    ensures Failures(before + [bad] + after, parse) == Failures(before, parse) + 1 + Failures(after, parse)
  {
    DecodedAppend(before + [bad], after, parse);
    DecodedAppend(before, [bad], parse);
    assert [bad][..0] == [];
  }

  /** Every record either yields one error or counts as one failure. */
  lemma {:induction false} DecodedCount(records: seq<string>, parse: Parser)
    ensures |Decoded(records, parse)| + Failures(records, parse) == |records|
  {
    if records != [] {
      DecodedCount(records[..|records| - 1], parse);
    }
  }

  /** An error is in the result exactly when some record decodes to it. */
  lemma {:induction false} DecodedMembers(records: seq<string>, parse: Parser, e: Error)
    ensures e in Decoded(records, parse) <==> exists i :: 0 <= i < |records| && parse(records[i]) == Some(e)
  {
    if records != [] {
      var init := records[..|records| - 1];
      DecodedMembers(init, parse, e);
      if exists i :: 0 <= i < |init| && parse(init[i]) == Some(e) {
        var i :| 0 <= i < |init| && parse(init[i]) == Some(e);
        assert records[i] == init[i];
      }
      if exists i :: 0 <= i < |records| && parse(records[i]) == Some(e) {
        var i :| 0 <= i < |records| && parse(records[i]) == Some(e);
        if i < |init| {
          assert init[i] == records[i];
        }
      }
    }
  }

  /** When every record decodes, the errors are the decoded records, one per
      record and in the same order. */
  lemma {:induction false} DecodedAllValid(records: seq<string>, parse: Parser)
    requires forall i :: 0 <= i < |records| ==> parse(records[i]).Some?
    ensures |Decoded(records, parse)| == |records|
    ensures forall i :: 0 <= i < |records| ==> Decoded(records, parse)[i] == parse(records[i]).value
  {
    if records != [] {
      var init := records[..|records| - 1];
      DecodedAllValid(init, parse);
    }
  }

  /** Records `line 1`, garbage, `line 2` give the errors for lines 1 and 2,
      and one failure. */
  lemma DecodedExample(r1: string, bad: string, r2: string, parse: Parser)
    requires parse(r1) == Some(Error(1, "a"))
    requires parse(bad) == None
    requires parse(r2) == Some(Error(2, "b"))
    ensures Decoded([r1, bad, r2], parse) == [Error(1, "a"), Error(2, "b")]
    ensures Failures([r1, bad, r2], parse) == 1
  {
    DecodedSkipsFailure([r1], bad, [r2], parse);
    assert [r1, bad, r2] == [r1] + [bad] + [r2];
    assert [r1][..0] == [] && [r2][..0] == [];
  }

  // ---------------------------------------------------------------------
  // Error list labels
  // ---------------------------------------------------------------------

  /** Text of the error button for `e`: "Line <line>: <message>". */
  function Label(e: Error): string
  {
    "Line " + Decimal.IntToString(e.line) + ": " + e.message
  }

  /** Recovers the error from a label: the number runs from after "Line "
      to the first ':', which must be followed by a space. */
  function ParseLabel(s: string): Option<Error>
  {
    if |s| < 5 || s[..5] != "Line " then None
    else
      var rest := s[5..];
      var k := Text.IndexOf(rest, ':');
      if |rest| < k + 2 || rest[k + 1] != ' ' then None
      else
        match Decimal.ParseInt(rest[..k])
        case None => None
        case Some(n) => Some(Error(n, rest[k + 2..]))
  }

  /** A label determines its error: reading it back gives the error. */
  lemma LabelRoundTrip(e: Error)
    ensures ParseLabel(Label(e)) == Some(e)
  {
    var num := Decimal.IntToString(e.line);
    Decimal.IntToStringRoundTrip(e.line);
    var s := Label(e);
    assert s[..5] == "Line ";
    var rest := s[5..];
    assert rest == num + ": " + e.message;
    Text.IndexOfUnique(rest, ':', |num|);
    assert rest[..|num|] == num;
    assert rest[|num| + 2..] == e.message;
  }

  /** Distinct errors get distinct labels; equal errors (duplicates in the
      analyzer output) get equal ones. */
  lemma LabelInjective(e1: Error, e2: Error)
    ensures Label(e1) == Label(e2) <==> e1 == e2
  {
    LabelRoundTrip(e1);
    LabelRoundTrip(e2);
  }
}
