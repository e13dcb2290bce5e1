/**
 * The `stream` handler once the record is loaded: the media type rule,
 * the lenient parse of the `Range` header, and the choice between a full
 * 200 response, a 416 and a 206 carrying one byte range. It follows a
 * subset of byte ranges (section 2.1 of RFC 7233), the 206 response and
 * its Content-Range header (sections 4.1 and 4.2) and 416 (section 4.4),
 * but exactly as the handler does it, not as the RFC says.
 */
module RangeServing {
  import opened Wrappers
  import opened PyText
  import opened PyInt

  /** The media type both stream and download send: video for `.mp4` in any case, audio otherwise. */
  function Mimetype(filename: string): (m: string)
    ensures m == "video/mp4" <==> EndsWith(Lower(filename), ".mp4")
    ensures m == "video/mp4" || m == "audio/mpeg"
  {
    if EndsWith(Lower(filename), ".mp4") then "video/mp4" else "audio/mpeg"
  }

  lemma MimetypeIgnoresCase(filename: string)
    ensures Mimetype(Lower(filename)) == Mimetype(filename)
  {
    LowerIdempotent(filename);
  }

  /**
   * The outcome of parsing a Range value: `Unparsed` when `int` or an index
   * fails, otherwise the first position and the last one, if given (an
   * empty second token leaves it to the content size).
   */
  datatype RangeSpec = Unparsed | Parsed(start: int, end: Option<int>)

  /**
   * Every `bytes=` is removed, the rest is split at `-`, and only the first
   * two pieces are read; anything after them is ignored.
   */
  function ParseRange(header: string): (r: RangeSpec)
    ensures r.Parsed? ==> r.start >= 0 && (r.end.Some? ==> r.end.value >= 0)
  {
    ParseTokens(RangeTokens(header))
  }

  /** The pieces the handler reads: `header.replace('bytes=', '').split('-')`. */
  function RangeTokens(header: string): (tokens: seq<string>)
    ensures |tokens| > 0
    ensures forall i :: 0 <= i < |tokens| ==> '-' !in tokens[i]
  {
    Split(Replace(header, Unit, "", -1), '-')
  }

  /** The range unit prefix the handler removes. */
  const Unit := "bytes="

  /** Reads the first two pieces of the split value; `int` never sees a `-`. */
  function ParseTokens(tokens: seq<string>): (r: RangeSpec)
    requires |tokens| > 0
    requires forall i :: 0 <= i < |tokens| ==> '-' !in tokens[i]
    ensures r.Parsed? ==> r.start >= 0 && (r.end.Some? ==> r.end.value >= 0)
  {
    match ParseInt(tokens[0])
    case None => Unparsed
    case Some(start) =>
      if |tokens| < 2 then Unparsed
      else if tokens[1] == "" then Parsed(start, None)
      else
        match ParseInt(tokens[1])
        case None => Unparsed
        case Some(end) => Parsed(start, Some(end))
  }

  /**
   * What the handler puts in its response: status, body, media type (none
   * for the 416, which leaves the framework's default) and the headers it
   * adds itself.
   */
  datatype Response = Response(
    status: nat,
    body: seq<byte>,
    mimetype: Option<string>,
    contentRange: Option<string>,
    acceptRanges: Option<string>,
    contentLength: Option<string>)

  /** The plain answer: status 200, the whole content, and none of the range headers. */
  function FullContent(data: seq<byte>, mimetype: string): (r: Response)
    ensures r.status == 200 && r.body == data && r.mimetype == Some(mimetype)
    ensures r.contentRange == None && r.acceptRanges == None && r.contentLength == None
  {
    Response(200, data, Some(mimetype), None, None, None)
  }

  /** The Content-Range value `bytes <first>-<last>/<size>`. */
  function ContentRange(first: nat, last: nat, size: nat): (r: string)
    ensures StartsWith(r, "bytes ")
  {
    "bytes " + Decimal(first) + "-" + Decimal(last) + "/" + Decimal(size)
  }

  /** `min(end, size - 1)`, where an omitted end stands for `size - 1`. */
  function LastServed(end: Option<int>, size: nat): (last: int)
    ensures last <= size - 1
    ensures end.Some? ==> last <= end.value
    ensures last == size - 1 || (end.Some? && last == end.value)
  {
    if end.Some? && end.value < size - 1 then end.value else size - 1
  }

  /** The response `stream` sends for content `data` stored under `filename`. */
  function Serve(data: seq<byte>, filename: string, rangeHeader: Option<string>): (r: Response)
    ensures r.status == 200 || r.status == 206 || r.status == 416
    ensures r.status == 200 ==> r.body == data && r.contentRange == None
    ensures r.status == 416 ==> r.body == [] && r.mimetype == None
    ensures r.status == 416 ==> r.contentRange == None && r.acceptRanges == None && r.contentLength == None
    ensures r.status != 416 ==> r.mimetype == Some(Mimetype(filename))
    ensures r.status == 206 ==>
      && |data| > 0
      && r.acceptRanges == Some("bytes")
      && r.contentLength == Some(Decimal(|r.body|))
    ensures |r.body| <= |data|
  {
    var mimetype := Mimetype(filename);
    if rangeHeader == None || rangeHeader == Some("") then FullContent(data, mimetype)
    else Answer(data, mimetype, ParseRange(rangeHeader.value))
  }

  /** The response to a Range value once it has been read as `spec`. */
  function Answer(data: seq<byte>, mimetype: string, spec: RangeSpec): (r: Response)
    requires spec.Parsed? ==> spec.start >= 0 && (spec.end.Some? ==> spec.end.value >= 0)
    ensures r.status == 200 || r.status == 206 || r.status == 416
    ensures r.status == 200 <==> spec.Unparsed?
    ensures r.status == 200 ==> r == FullContent(data, mimetype)
    ensures r.status == 416 ==> r.body == [] && r.mimetype == None
    ensures r.status == 416 ==> r.contentRange == None && r.acceptRanges == None && r.contentLength == None
    ensures r.status != 416 ==> r.mimetype == Some(mimetype)
    ensures r.status == 206 ==>
      && |data| > 0
      && r.acceptRanges == Some("bytes")
      && r.contentLength == Some(Decimal(|r.body|))
    ensures |r.body| <= |data|
  {
    match spec
    case Unparsed => FullContent(data, mimetype)
    case Parsed(start, end) =>
      var size := |data|;
      if start >= size then Response(416, [], None, None, None, None)
      else
        var last := LastServed(end, size);
        var chunk := Slice(data, start, last + 1);
        Response(206, chunk, Some(mimetype), Some(ContentRange(start, last, size)),
                 Some("bytes"), Some(Decimal(|chunk|)))
  }

  /**
   * A read start inside the content gives 206: the end is clamped to the
   * last byte, an omitted end means the last byte, the body is the bytes
   * from start to that end inclusive (none if the end is before the start),
   * and Content-Range names start, clamped end and size; a start at or past
   * the end gives 416.
   */
  lemma AnswerParsed(data: seq<byte>, mimetype: string, start: nat, end: Option<int>)
    requires end.Some? ==> end.value >= 0
    ensures start >= |data| ==> Answer(data, mimetype, Parsed(start, end)).status == 416
    ensures start < |data| ==> Answer(data, mimetype, Parsed(start, end)).status == 206
    ensures
      var r := Answer(data, mimetype, Parsed(start, end));
      var last := LastServed(end, |data|);
      start < |data| ==>
        && r.body == (if start <= last then data[start..last + 1] else [])
        && r.contentRange == Some(ContentRange(start, last, |data|))
  {
  }

  /** Without a Range header, or with an empty one, the whole content is sent. */
  lemma NoRangeServesAll(data: seq<byte>, filename: string, rangeHeader: Option<string>)
    requires rangeHeader == None || rangeHeader == Some("")
    ensures Serve(data, filename, rangeHeader) == FullContent(data, Mimetype(filename))
  {
  }

  /** A Range value that does not parse is never an error: the whole content is sent. */
  lemma UnparsedServesAll(data: seq<byte>, filename: string, header: string)
    requires ParseRange(header) == Unparsed
    ensures Serve(data, filename, Some(header)) == FullContent(data, Mimetype(filename))
  {
  }

  /** A parsed start at or past the end is refused with 416 and no body, whatever the end. */
  lemma StartPastEnd(data: seq<byte>, filename: string, header: string)
    requires ParseRange(header).Parsed? && ParseRange(header).start >= |data|
    ensures Serve(data, filename, Some(header)).status == 416
    ensures Serve(data, filename, Some(header)).body == []
  {
  }

  /** Empty content never yields a partial response. */
  lemma EmptyContentNeverPartial(filename: string, rangeHeader: Option<string>)
    ensures Serve([], filename, rangeHeader).status != 206
  {
  }

  /**
   * A parsed start inside the content gives 206: the end is clamped to the
   * last byte, an omitted end means the last byte, the body is the bytes
   * from start to that end inclusive (none if the end is before the start),
   * and Content-Range names start, clamped end and size.
   */
  lemma PartialContent(data: seq<byte>, filename: string, header: string)
    requires ParseRange(header).Parsed? && ParseRange(header).start < |data|
    ensures Serve(data, filename, Some(header)).status == 206
    ensures
      var spec := ParseRange(header);
      var last := LastServed(spec.end, |data|);
      && Serve(data, filename, Some(header)).body == (if spec.start <= last then data[spec.start..last + 1] else [])
      && (spec.start <= last ==> |Serve(data, filename, Some(header)).body| == last - spec.start + 1)
    ensures
      var spec := ParseRange(header);
      Serve(data, filename, Some(header)).contentRange
        == Some(ContentRange(spec.start, LastServed(spec.end, |data|), |data|))
  {
    ServeAnswers(data, filename, header);
    var spec := ParseRange(header);
    AnswerParsed(data, Mimetype(filename), spec.start, spec.end);
  }

  /** Any Range value, the empty one included, is answered as it parses. */
  lemma ServeAnswers(data: seq<byte>, filename: string, header: string)
    ensures Serve(data, filename, Some(header)) == Answer(data, Mimetype(filename), ParseRange(header))
  {
    if header == "" {
      EmptyUnparsed();
    }
  }

  /** An empty Range value does not parse. */
  lemma EmptyUnparsed()
    ensures ParseRange("") == Unparsed
  {
    assert Replace("", Unit, "", -1) == "";
    assert Split("", '-') == [""];
  }

  /** The Content-Length of a partial response reads back, through `int`, as the body length. */
  lemma ContentLengthReadsBack(data: seq<byte>, filename: string, rangeHeader: Option<string>)
    requires |Decimal(|data|)| <= MaxStrDigits
    requires Serve(data, filename, rangeHeader).status == 206
    ensures
      var r := Serve(data, filename, rangeHeader);
      r.contentLength.Some? && ParseInt(r.contentLength.value) == Some(|r.body|)
  {
    var n := |Serve(data, filename, rangeHeader).body|;
    DecimalMonotone(n, |data|);
    ParseDecimal(n);
  }

  /**
   * The Content-Range value reads back: after `bytes `, the piece before
   * `/` splits at `-` into the first and last byte, and the piece after it
   * is the size.
   */
  lemma ContentRangeReadsBack(first: nat, last: nat, size: nat)
    requires |Decimal(first)| <= MaxStrDigits && |Decimal(last)| <= MaxStrDigits
    requires |Decimal(size)| <= MaxStrDigits
    ensures
      var r := ContentRange(first, last, size);
      var fields := Split(r[|"bytes "|..], '/');
      && |fields| == 2
      && ParseInt(fields[1]) == Some(size)
      && var bounds := Split(fields[0], '-');
         && |bounds| == 2
         && ParseInt(bounds[0]) == Some(first)
         && ParseInt(bounds[1]) == Some(last)
  {
    ContentRangeFields(first, last, size);
    DecimalPlain(first);
    DecimalPlain(last);
    SplitPair(Decimal(first), '-', Decimal(last));
    ParseDecimal(first);
    ParseDecimal(last);
    ParseDecimal(size);
  }

  /** After `bytes `, the Content-Range value splits at `/` into the span and the size. */
  lemma ContentRangeFields(first: nat, last: nat, size: nat)
    ensures Split(ContentRange(first, last, size)[|"bytes "|..], '/')
      == [Decimal(first) + "-" + Decimal(last), Decimal(size)]
  {
    ContentRangeShape(first, last, size);
    assert '/' !in Decimal(first) + "-" + Decimal(last) && '/' !in Decimal(size) by {
      DecimalPlain(first);
      DecimalPlain(last);
      DecimalPlain(size);
    }
    SplitPair(Decimal(first) + "-" + Decimal(last), '/', Decimal(size));
  }

  /** After `bytes ` comes the span, a `/` and the size. */
  lemma ContentRangeShape(first: nat, last: nat, size: nat)
    ensures ContentRange(first, last, size)[|"bytes "|..]
      == Decimal(first) + "-" + Decimal(last) + ['/'] + Decimal(size)
  {
    var tail := Decimal(first) + "-" + Decimal(last) + ['/'] + Decimal(size);
    assert ContentRange(first, last, size) == "bytes " + tail;
  }

  /** Two separator-free pieces joined by the separator split back into those two. */
  lemma SplitPair(x: string, sep: char, y: string)
    requires sep !in x && sep !in y
    ensures Split(x + [sep] + y, sep) == [x, y]
  {
    SplitCons(x, sep, y);
    SplitNone(y, sep);
  }

  /** A leading `bytes=` goes, and the rest is stripped as it stands. */
  lemma StripUnit(t: string)
    ensures Replace(Unit + t, Unit, "", -1) == Replace(t, Unit, "", -1)
  {
    ReplaceLeading(Unit, "", t, -1);
    ReplaceAllCounts(t, Unit, "", -2, -1);
  }

  /**
   * `bytes=` holds no `-`, so no occurrence straddles a `-`: the piece
   * before the first `-` is stripped on its own and the rest splits as it would alone.
   */
  lemma TokensAroundDash(x: string, y: string)
    requires '-' !in x
    ensures RangeTokens(x + "-" + y) == [Replace(x, Unit, "", -1)] + RangeTokens(y)
  {
    assert x + "-" + y == x + ['-'] + y;
    ReplaceAround(x, '-', y, Unit, "", -1);
    ReplaceKeepsOut(x, Unit, "", -1, '-');
    SplitCons(Replace(x, Unit, "", -1), '-', Replace(y, Unit, "", -1));
  }

  /** A value without `-` stays without `-` once stripped, so it is a single piece. */
  lemma TokensNoDash(x: string)
    requires '-' !in x
    ensures RangeTokens(x) == [Replace(x, Unit, "", -1)]
  {
    ReplaceKeepsOut(x, Unit, "", -1, '-');
    SplitNone(Replace(x, Unit, "", -1), '-');
  }

  /**
   * `bytes=<first>-<second><tail>`, `tail` empty or starting a further
   * piece, yields `first` and `second`, each with its own `bytes=` removed,
   * as its first two pieces.
   */
  lemma TwoTokens(first: string, second: string, tail: string)
    requires '-' !in first && '-' !in second
    requires tail == "" || tail[0] == '-'
    ensures
      var tokens := RangeTokens(Unit + first + "-" + second + tail);
      && |tokens| >= 2
      && tokens[0] == Replace(first, Unit, "", -1)
      && tokens[1] == Replace(second, Unit, "", -1)
  {
    var x := Unit + first;
    assert '-' !in x by {
      assert '-' !in Unit;
    }
    assert Unit + first + "-" + second + tail == x + "-" + (second + tail);
    TokensAroundDash(x, second + tail);
    StripUnit(first);
    TokensHead(second, tail);
  }

  /** A `-`-free piece followed by nothing or by further pieces is the first piece of the split. */
  lemma TokensHead(second: string, tail: string)
    requires '-' !in second
    requires tail == "" || tail[0] == '-'
    ensures RangeTokens(second + tail)[0] == Replace(second, Unit, "", -1)
  {
    if tail == "" {
      assert second + tail == second;
      TokensNoDash(second);
    } else {
      assert second + tail == second + "-" + tail[1..];
      TokensAroundDash(second, tail[1..]);
    }
  }

  /** Two leading pieces that `int` reads as `a` and `b` parse to the range `a`-`b`. */
  lemma TokensClosed(tokens: seq<string>, a: nat, b: nat)
    requires |tokens| >= 2 && forall i :: 0 <= i < |tokens| ==> '-' !in tokens[i]
    requires ParseInt(tokens[0]) == Some(a) && ParseInt(tokens[1]) == Some(b)
    requires tokens[1] != ""
    ensures ParseTokens(tokens) == Parsed(a, Some(b))
  {
  }

  /** A first piece that `int` reads as `a` and an empty second one parse to the open range from `a`. */
  lemma TokensOpen(tokens: seq<string>, a: nat)
    requires |tokens| >= 2 && forall i :: 0 <= i < |tokens| ==> '-' !in tokens[i]
    requires ParseInt(tokens[0]) == Some(a) && tokens[1] == ""
    ensures ParseTokens(tokens) == Parsed(a, None)
  {
  }

  /**
   * `bytes=<a>-<b>` written in decimal, followed by any further
   * `-`-separated pieces, parses to exactly `a` and `b`.
   */
  lemma ParseClosedRange(a: nat, b: nat, tail: string)
    requires |Decimal(a)| <= MaxStrDigits && |Decimal(b)| <= MaxStrDigits
    requires tail == "" || tail[0] == '-'
    ensures ParseRange(Unit + Decimal(a) + "-" + Decimal(b) + tail) == Parsed(a, Some(b))
  {
    var first, second := Decimal(a), Decimal(b);
    var tokens := RangeTokens(Unit + first + "-" + second + tail);
    assert |tokens| >= 2 && tokens[0] == first && tokens[1] == second by {
      DecimalPlain(a);
      DecimalPlain(b);
      TwoTokens(first, second, tail);
    }
    assert ParseInt(first) == Some(a) && ParseInt(second) == Some(b) by {
      ParseDecimal(a);
      ParseDecimal(b);
    }
    TokensClosed(tokens, a, b);
  }

  /** `bytes=<a>-`, followed by any further `-`-separated pieces, parses to `a` with the end left open. */
  lemma ParseOpenRange(a: nat, tail: string)
    requires |Decimal(a)| <= MaxStrDigits
    requires tail == "" || tail[0] == '-'
    ensures ParseRange(Unit + Decimal(a) + "-" + tail) == Parsed(a, None)
  {
    var first := Decimal(a);
    var tokens := RangeTokens(Unit + first + "-" + tail);
    assert '-' !in first && Replace(first, Unit, "", -1) == first by {
      DecimalPlain(a);
    }
    OpenTokens(first, tail);
    assert ParseInt(first) == Some(a) by {
      ParseDecimal(a);
    }
    TokensOpen(tokens, a);
  }

  /** `bytes=<first>-` followed by nothing or by further pieces yields `first`, stripped, and an empty piece. */
  lemma OpenTokens(first: string, tail: string)
    requires '-' !in first
    requires tail == "" || tail[0] == '-'
    ensures
      var tokens := RangeTokens(Unit + first + "-" + tail);
      && |tokens| >= 2
      && tokens[0] == Replace(first, Unit, "", -1)
      && tokens[1] == ""
  {
    var x := Unit + first;
    assert '-' !in x by {
      assert '-' !in Unit;
    }
    assert Unit + first + "-" + tail == x + "-" + tail;
    TokensAroundDash(x, tail);
    StripUnit(first);
    EmptyHead(tail);
  }

  /** Nothing before the first `-`, or nothing at all, gives an empty first piece. */
  lemma EmptyHead(tail: string)
    requires tail == "" || tail[0] == '-'
    ensures RangeTokens(tail)[0] == ""
  {
    if tail == "" {
      TokensNoDash("");
    } else {
      assert tail == "" + "-" + tail[1..];
      TokensAroundDash("", tail[1..]);
    }
    assert Replace("", Unit, "", -1) == "";
  }

  /** A decimal rendering holds neither a `b` nor a `-`, so stripping `bytes=` leaves it whole. */
  lemma DecimalPlain(n: nat)
    ensures 'b' !in Decimal(n) && '-' !in Decimal(n) && '/' !in Decimal(n)
    ensures Replace(Decimal(n), Unit, "", -1) == Decimal(n)
  {
    var d := Decimal(n);
    assert forall i :: 0 <= i < |d| ==> d[i] != 'b' && d[i] != '-' && d[i] != '/';
    ReplaceAbsent(d, Unit, "", -1);
  }

  /**
   * For `0 <= a <= b < size`, `bytes=a-b` serves exactly the bytes `a..b`
   * inclusive with 206 and announces `bytes a-b/size`.
   */
  lemma ServeClosedRange(data: seq<byte>, filename: string, a: nat, b: nat)
    requires a <= b < |data| && |Decimal(|data|)| <= MaxStrDigits
    ensures
      var r := Serve(data, filename, Some(Unit + Decimal(a) + "-" + Decimal(b)));
      && r.status == 206
      && r.body == data[a..b + 1]
      && r.contentRange == Some(ContentRange(a, b, |data|))
  {
    var header := Unit + Decimal(a) + "-" + Decimal(b);
    assert ParseRange(header) == Parsed(a, Some(b)) by {
      DecimalMonotone(a, |data|);
      DecimalMonotone(b, |data|);
      ParseClosedRange(a, b, "");
      assert header + "" == header;
    }
    ServeParsedClosed(data, filename, header, a, b);
  }

  /** A header read as `a`-`b` with `a <= b` inside the content serves bytes `a..b`. */
  lemma ServeParsedClosed(data: seq<byte>, filename: string, header: string, a: nat, b: nat)
    requires a <= b < |data|
    requires ParseRange(header) == Parsed(a, Some(b))
    ensures
      var r := Serve(data, filename, Some(header));
      && r.status == 206
      && r.body == data[a..b + 1]
      && r.contentRange == Some(ContentRange(a, b, |data|))
  {
    ServeAnswers(data, filename, header);
    AnswerClosed(data, Mimetype(filename), a, b);
  }

  /** The range `a`-`b` with `a <= b` inside the content is answered with the bytes `a..b`. */
  lemma AnswerClosed(data: seq<byte>, mimetype: string, a: nat, b: nat)
    requires a <= b < |data|
    ensures Answer(data, mimetype, Parsed(a, Some(b))).status == 206
    ensures Answer(data, mimetype, Parsed(a, Some(b))).body == data[a..b + 1]
    ensures Answer(data, mimetype, Parsed(a, Some(b))).contentRange == Some(ContentRange(a, b, |data|))
  {
    assert LastServed(Some(b), |data|) == b;
    AnswerParsed(data, mimetype, a, Some(b));
  }

  /** For `a < size`, `bytes=a-` serves everything from `a` to the last byte. */
  lemma ServeOpenRange(data: seq<byte>, filename: string, a: nat)
    requires a < |data| && |Decimal(|data|)| <= MaxStrDigits
    ensures
      var r := Serve(data, filename, Some(Unit + Decimal(a) + "-"));
      && r.status == 206
      && r.body == data[a..]
      && r.contentRange == Some(ContentRange(a, |data| - 1, |data|))
  {
    var header := Unit + Decimal(a) + "-";
    assert ParseRange(header) == Parsed(a, None) by {
      DecimalMonotone(a, |data|);
      ParseOpenRange(a, "");
      assert header + "" == header;
    }
    ServeParsedOpen(data, filename, header, a);
  }

  /** A header read as the open range from `a` inside the content serves the bytes from `a` on. */
  lemma ServeParsedOpen(data: seq<byte>, filename: string, header: string, a: nat)
    requires a < |data|
    requires ParseRange(header) == Parsed(a, None)
    ensures
      var r := Serve(data, filename, Some(header));
      && r.status == 206
      && r.body == data[a..]
      && r.contentRange == Some(ContentRange(a, |data| - 1, |data|))
  {
    ServeAnswers(data, filename, header);
    AnswerOpen(data, Mimetype(filename), a);
  }

  /** The open range from `a` inside the content is answered with the bytes from `a` on. */
  lemma AnswerOpen(data: seq<byte>, mimetype: string, a: nat)
    requires a < |data|
    ensures Answer(data, mimetype, Parsed(a, None)).status == 206
    ensures Answer(data, mimetype, Parsed(a, None)).body == data[a..]
    ensures Answer(data, mimetype, Parsed(a, None)).contentRange == Some(ContentRange(a, |data| - 1, |data|))
  {
    AnswerParsed(data, mimetype, a, None);
    assert data[a..|data|] == data[a..];
  }

  /** An end before the start, inside the content, gives a 206 with an empty body, not an error. */
  lemma ServeBackwardRange(data: seq<byte>, filename: string, a: nat, b: nat)
    requires b < a < |data| && |Decimal(|data|)| <= MaxStrDigits
    ensures
      var r := Serve(data, filename, Some(Unit + Decimal(a) + "-" + Decimal(b)));
      && r.status == 206
      && r.body == []
      && r.contentRange == Some(ContentRange(a, b, |data|))
  {
    var header := Unit + Decimal(a) + "-" + Decimal(b);
    assert ParseRange(header) == Parsed(a, Some(b)) by {
      DecimalMonotone(a, |data|);
      DecimalMonotone(b, |data|);
      ParseClosedRange(a, b, "");
      assert header + "" == header;
    }
    ServeAnswers(data, filename, header);
    AnswerParsed(data, Mimetype(filename), a, Some(b));
  }

  /** The suffix form `bytes=-n` is not supported: its empty first piece fails `int`, whatever follows. */
  lemma SuffixRangeUnparsed(t: string)
    ensures ParseRange(Unit + "-" + t) == Unparsed
  {
    assert '-' !in Unit;
    TokensAroundDash(Unit, t);
    ReplaceLeading(Unit, "", "", -1);
    assert Unit + "" == Unit;
    var tokens := RangeTokens(Unit + "-" + t);
    assert tokens[0] == [];
    assert ParseInt([]) == None;
  }

  /** A value without `-` yields one piece, so indexing the second one fails. */
  lemma MissingDashUnparsed(header: string)
    requires '-' !in header
    ensures ParseRange(header) == Unparsed
  {
    TokensNoDash(header);
  }

  /** A comma in the second piece, as in a multi-range value, survives the stripping and makes `int` fail. */
  lemma MultiRangeUnparsed(first: string, second: string, tail: string)
    requires '-' !in first && '-' !in second && ',' in second
    requires tail == "" || tail[0] == '-'
    ensures ParseRange(Unit + first + "-" + second + tail) == Unparsed
  {
    var tokens := RangeTokens(Unit + first + "-" + second + tail);
    TwoTokens(first, second, tail);
    assert tokens[1] != "" && ParseInt(tokens[1]) == None by {
      assert ',' !in Unit;
      ReplaceKeepsIn(second, Unit, "", -1, ',');
      var k :| 0 <= k < |tokens[1]| && tokens[1][k] == ',';
      assert !IsNumeral(tokens[1][k]);
    }
    TokensSecondFails(tokens);
  }

  /** A non-empty second piece that `int` refuses leaves the value unparsed. */
  lemma TokensSecondFails(tokens: seq<string>)
    requires |tokens| >= 2 && forall i :: 0 <= i < |tokens| ==> '-' !in tokens[i]
    requires tokens[1] != "" && ParseInt(tokens[1]) == None
    ensures ParseTokens(tokens) == Unparsed
  {
  }
}
