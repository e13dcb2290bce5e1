/**
 * Concrete Range values and what `stream` answers to them. Each value is
 * a parameter fixed by the precondition, so the proof goes through the
 * general lemmas rather than by evaluation.
 */
module RangeExamples {
  import opened Wrappers
  import opened PyText
  import opened PyInt
  import opened RangeServing

  /** Tokens after the second are ignored: `bytes=0-10-20` is the range 0..10. */
  lemma ExtraTokenIgnored(header: string)
    requires header == "bytes=0-10-20"
    ensures ParseRange(header) == Parsed(0, Some(10))
  {
    Decimals();
    assert header == Unit + Decimal(0) + "-" + Decimal(10) + "-20";
    ParseClosedRange(0, 10, "-20");
  }

  /** A token that is not a number: `int("abc")` fails. */
  lemma NotANumber(header: string)
    requires header == "bytes=abc-10"
    ensures ParseRange(header) == Unparsed
  {
    ReplaceLeading(Unit, "", "abc-10", -1);
    assert header == Unit + "abc-10";
    var rest := "abc-10";
    assert rest[..6] != Unit;
    assert rest[1..][..|rest[1..]|] != Unit;
    assert Replace(rest, Unit, "", -2) == rest;
    SplitCons("abc", '-', "10");
    assert "abc" + ['-'] + "10" == rest;
    assert !IsNumeral("abc"[0]);
  }

  /** The suffix form `bytes=-500` is not supported. */
  lemma SuffixExample(header: string)
    requires header == "bytes=-500"
    ensures ParseRange(header) == Unparsed
  {
    assert header == Unit + "-" + "500";
    SuffixRangeUnparsed("500");
  }

  /** `bytes=5` has no second token. */
  lemma NoDashExample(header: string)
    requires header == "bytes=5"
    ensures ParseRange(header) == Unparsed
  {
    MissingDashUnparsed(header);
  }

  /** A multi-range value fails `int` on its second token. */
  lemma MultiRangeExample(header: string)
    requires header == "bytes=0-10,20-30"
    ensures ParseRange(header) == Unparsed
  {
    assert header == Unit + "0" + "-" + "10,20" + "-30";
    assert "10,20"[2] == ',';
    MultiRangeUnparsed("0", "10,20", "-30");
  }

  /** A bare `bytes=` leaves one empty token. */
  lemma EmptyRangeExample(header: string)
    requires header == "bytes="
    ensures ParseRange(header) == Unparsed
  {
    MissingDashUnparsed(header);
  }

  /** The decimal renderings of the numbers the examples use. */
  lemma Decimals()
    ensures Decimal(0) == "0" && Decimal(5) == "5" && Decimal(10) == "10"
    ensures Decimal(100) == "100" && Decimal(200) == "200" && Decimal(299) == "299"
    ensures Decimal(950) == "950" && Decimal(1000) == "1000" && Decimal(1100) == "1100"
  {
  }

  lemma RenderBackward()
    ensures ContentRange(10, 5, 100) == "bytes 10-5/100"
  {
    Decimals();
  }

  lemma RenderClosed()
    ensures ContentRange(200, 299, 1000) == "bytes 200-299/1000"
  {
    Decimals();
  }

  lemma ParseBackward(header: string)
    requires header == "bytes=10-5"
    ensures ParseRange(header) == Parsed(10, Some(5))
  {
    Decimals();
    assert header == Unit + Decimal(10) + "-" + Decimal(5) + "";
    ParseClosedRange(10, 5, "");
  }

  /** On 100 bytes, `bytes=10-5` is a 206 with no body that announces `bytes 10-5/100`. */
  lemma BackwardRangeExample(data: seq<byte>, filename: string, header: string)
    requires |data| == 100 && header == "bytes=10-5"
    ensures Serve(data, filename, Some(header)).status == 206
    ensures Serve(data, filename, Some(header)).body == []
    ensures Serve(data, filename, Some(header)).contentRange == Some("bytes 10-5/100")
  {
    ParseBackward(header);
    PartialContent(data, filename, header);
    RenderBackward();
  }

  lemma ParseClosed(header: string)
    requires header == "bytes=200-299"
    ensures ParseRange(header) == Parsed(200, Some(299))
  {
    Decimals();
    assert header == Unit + Decimal(200) + "-" + Decimal(299) + "";
    ParseClosedRange(200, 299, "");
  }

  /** 1000 bytes, `bytes=200-299`: 100 bytes with `bytes 200-299/1000`. */
  lemma ClosedRangeExample(data: seq<byte>, filename: string, header: string)
    requires |data| == 1000 && header == "bytes=200-299"
    ensures Serve(data, filename, Some(header)).status == 206
    ensures |Serve(data, filename, Some(header)).body| == 100
    ensures Serve(data, filename, Some(header)).contentRange == Some("bytes 200-299/1000")
  {
    ParseClosed(header);
    PartialContent(data, filename, header);
    RenderClosed();
  }

  lemma ParseOpen(header: string)
    requires header == "bytes=950-"
    ensures ParseRange(header) == Parsed(950, None)
  {
    Decimals();
    assert header == Unit + Decimal(950) + "-" + "";
    ParseOpenRange(950, "");
  }

  /** 1000 bytes, `bytes=950-`: the last 50 bytes. */
  lemma OpenRangeExample(data: seq<byte>, filename: string, header: string)
    requires |data| == 1000 && header == "bytes=950-"
    ensures Serve(data, filename, Some(header)).status == 206
    ensures Serve(data, filename, Some(header)).body == data[950..1000]
  {
    ParseOpen(header);
    PartialContent(data, filename, header);
  }

  lemma ParsePastEnd(header: string)
    requires header == "bytes=1000-1100"
    ensures ParseRange(header) == Parsed(1000, Some(1100))
  {
    Decimals();
    assert header == Unit + Decimal(1000) + "-" + Decimal(1100) + "";
    ParseClosedRange(1000, 1100, "");
  }

  /** 1000 bytes, `bytes=1000-1100`: not satisfiable, no body. */
  lemma PastEndExample(data: seq<byte>, filename: string, header: string)
    requires |data| == 1000 && header == "bytes=1000-1100"
    ensures Serve(data, filename, Some(header)).status == 416
    ensures Serve(data, filename, Some(header)).body == []
  {
    ParsePastEnd(header);
    StartPastEnd(data, filename, header);
  }

  /** 1000 bytes and no Range header: all 1000 bytes with 200. */
  lemma NoRangeExample(data: seq<byte>, filename: string)
    requires |data| == 1000
    ensures Serve(data, filename, None).status == 200
    ensures |Serve(data, filename, None).body| == 1000
  {
  }
}
