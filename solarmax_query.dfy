/** The inverter client of `solarmax_query/solarmax.py`: the checksum and
    query builder over `self.index`, the response decoder `parseData`, and
    the checksum test and decode of `query`, with the socket exchange
    abstracted as the device's answer to the frame sent. */
module SolarMaxQuery {
  import opened Text
  import opened Hex
  import opened Frame

  /** What the exchange in `query` yields: the first non-empty chunk the
      socket delivers, or the failure of send, receive or decoding. */
  datatype Exchange = Received(data: string) | IoFailed

  /** The exceptions `parseData` does not catch. */
  datatype ParseError =
    | MissingField  // `split(...)[1]` on a string without the separator
    | NotHex        // `int(..., 16)` on a string that is not hexadecimal

  /** The result of `query`: an integer, Python's `None`, or an exception
      that escapes to the caller. */
  datatype Outcome = Value(n: nat) | Absent | Raised(error: ParseError)

  /** `parseData(data)`: the second `|`-field, `None` when it is empty,
      and otherwise its value. */
  function ParseData(data: string): Outcome
  {
    var parts := Split(data, '|');
    if |parts| < 2 then Raised(MissingField)
    else if parts[1] == "" then Absent
    else ParseValue(parts[1])
  }

  /** The rest of `parseData` on a non-empty segment: its second
      `=`-field, cut at the first `,`, read in base 16. */
  function ParseValue(ndata: string): Outcome
  {
    var fields := Split(ndata, '=');
    if |fields| < 2 then Raised(MissingField)
    else
      var value := if ',' in fields[1] then Split(fields[1], ',')[0] else fields[1];
      if IsHexString(value) then Value(FromHex(value)) else Raised(NotHex)
  }

  /** What `query` returns for a given outcome of the exchange. */
  function QueryOutcome(ex: Exchange): Outcome
  {
    match ex
    case IoFailed => Absent
    case Received(data) => if !CrcAccepts(data) then Absent else ParseData(data)
  }

  class SolarMax {
    /** The address of the inverter this client talks to. */
    const index: int

    constructor (inverterIndex: int)
      ensures index == inverterIndex
    {
      index := inverterIndex;
    }

    method Checksum(text: string) returns (crc: string)
      ensures crc == CrcOf(text)
    {
      var total := 0;
      for i := 0 to |text|
        invariant total == OrdSum(text[..i])
      {
        assert text[..i + 1][..i] == text[..i];
        total := total + text[i] as int;
      }
      assert text[..|text|] == text;
      crc := HexValue(total);
      ghost var digits := crc;
      while |crc| < 4
        invariant crc == Zeros(|crc| - |digits|) + digits
        invariant |crc| <= 4 || crc == digits
        decreases 4 - |crc|
      {
        assert Zeros(|crc| - |digits| + 1) == "0" + Zeros(|crc| - |digits|);
        crc := "0" + crc;
      }
      PaddingDone(crc, digits, 4);
    }

    method CreateQueryString(code: string) returns (queryString: string)
      ensures queryString == QueryFrame(index, code)
    {
      var srcAddress := "FB";
      var destAddress := HexValue(index);
      if |destAddress| < 2 {
        destAddress := "0" + destAddress;
      }
      var queryType := "64";
      var lenght := HexValue(1 + 3 + 3 + 3 + 3 + |code| + 1 + 4 + 1);
      var preCrcString := srcAddress + ";" + destAddress + ";" + lenght + "|" + queryType + ":" + code + "|";
      var crc := Checksum(preCrcString);
      queryString := "{" + preCrcString + crc + "}";
    }

    /** `query(code)`: the device answers the frame built for `code`. */
    method Query(code: string, device: string -> Exchange) returns (r: Outcome)
      ensures r == QueryOutcome(device(QueryFrame(index, code)))
    {
      var queryString := CreateQueryString(code);
      var ex := device(queryString);
      if ex.IoFailed? {
        return Absent;
      }
      var data := ex.data;
      var inCrc := PySlice(data, -5, -1);
      var checkCrc := Checksum(PySlice(data, 1, -5));
      if inCrc != checkCrc {
        return Absent;
      }
      r := ParseData(data);
    }
  }

  /** `query` yields `None` when the exchange fails, when the reply is
      shorter than five characters, when the four characters before the last
      differ from the checksum of `data[1:-5]` (for a five-character reply
      that text is empty and its checksum is `0000`), and when that text sums to
      0x10000 or more; in every other case it is `parseData(data)`. */
  lemma QueryOutcomeAbsent(ex: Exchange)
    ensures ex.IoFailed? ==> QueryOutcome(ex) == Absent
    ensures ex.Received? && |ex.data| < 5 ==> QueryOutcome(ex) == Absent
    ensures ex.Received? && |ex.data| >= 6 && ex.data[|ex.data| - 5..|ex.data| - 1] != CrcOf(ex.data[1..|ex.data| - 5])
      ==> QueryOutcome(ex) == Absent
    ensures ex.Received? && |ex.data| == 5 && ex.data[..4] != "0000" ==> QueryOutcome(ex) == Absent
    ensures ex.Received? && OrdSum(PySlice(ex.data, 1, -5)) >= 0x10000 ==> QueryOutcome(ex) == Absent
    ensures ex.Received? && CrcAccepts(ex.data) ==> QueryOutcome(ex) == ParseData(ex.data)
  {
    if ex.Received? && CrcAccepts(ex.data) {
      CrcAcceptsBounds(ex.data);
    }
  }

  /** A reply with any one character of its checked text altered is
      answered with `None`. */
  lemma TamperedReplyAbsent(data: string, i: nat, c: char)
    requires CrcAccepts(data)
    requires 1 <= i < |data| - 5 && c != data[i]
    ensures QueryOutcome(Received(data[i := c])) == Absent
  {
    TamperedFrameRejected(data, i, c);
  }

  /** `parseData` returns `None` exactly when the text between the first
      and the second `|` (or the end) is empty, and raises when there is
      no `|` at all. */
  lemma ParseDataAbsent(data: string)
    ensures '|' !in data ==> ParseData(data) == Raised(MissingField)
    ensures ParseData(data) == Absent <==> '|' in data && Before(After(data, '|'), '|') == ""
  {
    SplitFirst(data, '|');
    if '|' in data {
      SplitFirst(After(data, '|'), '|');
    }
  }

  /** Otherwise the value is the text after the first `=` of that segment,
      up to the next `=` or `,`, read in base 16; a segment without `=` and
      a value that is not hexadecimal raise. */
  lemma ParseDataValue(data: string)
    requires '|' in data
    ensures var segment := Before(After(data, '|'), '|');
      && (segment != "" && '=' !in segment ==> ParseData(data) == Raised(MissingField))
      && (segment != "" && '=' in segment ==>
            var v := Before(Before(After(segment, '='), '='), ',');
            ParseData(data) == if IsHexString(v) then Value(FromHex(v)) else Raised(NotHex))
  {
    var rest := After(data, '|');
    SplitFirst(data, '|');
    SplitFirst(rest, '|');
    var segment := Before(rest, '|');
    SplitFirst(segment, '=');
    if '=' in segment {
      var tail := After(segment, '=');
      SplitFirst(tail, '=');
      var field := Before(tail, '=');
      SplitFirst(field, ',');
    }
  }

  lemma UpperHexExcludesPunctuation(s: string)
    requires IsUpperHexString(s)
    ensures '|' !in s && '=' !in s && ',' !in s && '}' !in s
  {
    forall k | 0 <= k < |s| ensures s[k] !in "|=,}" {
      assert IsUpperHexDigit(s[k]);
    }
  }

  /** A well-formed reply `{HEAD|64:CODE=VALUE<extra>|CRC}` carrying the hex
      of a non-negative value, optionally followed by a `,`-suffix, and a
      correct four-character checksum decodes to that value. */
  lemma ReplyRoundTrip(head: string, code: string, value: nat, extra: string)
    requires '|' !in head && '|' !in code && '=' !in code
    requires '|' !in extra && '=' !in extra && (extra == "" || extra[0] == ',')
    requires OrdSum(head + "|64:" + code + "=" + HexValue(value) + extra + "|") < 0x10000
    ensures var pre := head + "|64:" + code + "=" + HexValue(value) + extra + "|";
      QueryOutcome(Received("{" + pre + CrcOf(pre) + "}")) == Value(value)
  {
    var pre := head + "|64:" + code + "=" + HexValue(value) + extra + "|";
    WrappedAccepted(pre);
    ParseChecked(head, code, value, extra);
  }

  /** The decode half of `ReplyRoundTrip`: the checksum appended to the
      checked text contains no bar, so the value survives `parseData`. */
  lemma ParseChecked(head: string, code: string, value: nat, extra: string)
    requires '|' !in head && '|' !in code && '=' !in code
    requires '|' !in extra && '=' !in extra && (extra == "" || extra[0] == ',')
    ensures var pre := head + "|64:" + code + "=" + HexValue(value) + extra + "|";
      ParseData("{" + pre + CrcOf(pre) + "}") == Value(value)
  {
    var pre := head + "|64:" + code + "=" + HexValue(value) + extra + "|";
    var crc := CrcOf(pre);
    CrcOfSpec(pre);
    UpperHexExcludesPunctuation(crc);
    assert '|' !in crc + "}";
    ParseReply(head, code, value, extra, crc + "}");
    CheckedSpelling(head, code, HexValue(value), extra, crc);
  }

  /** A reply `{HEAD|64:CODE=HEX<extra>|<trailer>` read around its two bars. */
  lemma ReplySpelling(head: string, code: string, hex: string, extra: string, trailer: string)
    ensures "{" + head + "|64:" + code + "=" + hex + extra + "|" + trailer
      == ("{" + head) + "|" + ("64:" + code + "=" + hex + extra) + "|" + trailer
  {
  }

  /** The same reply with trailer `<crc>}` read as brace, checked text,
      checksum and brace. */
  lemma CheckedSpelling(head: string, code: string, hex: string, extra: string, crc: string)
    ensures "{" + head + "|64:" + code + "=" + hex + extra + "|" + (crc + "}")
      == "{" + (head + "|64:" + code + "=" + hex + extra + "|") + crc + "}"
  {
  }

  /** Wrapping a text in braces with its checksum, when that fits in four
      characters, gives a frame the response test accepts. */
  lemma WrappedAccepted(pre: string)
    requires OrdSum(pre) < 0x10000
    ensures CrcAccepts("{" + pre + CrcOf(pre) + "}")
  {
    var crc := CrcOf(pre);
    CrcOfSpec(pre);
    WrappedSlices(pre, crc);
    assert crc[|crc| - 4..] == crc;
    assert pre + crc[..|crc| - 4] == pre;
  }

  /** The decode half: a reply `{HEAD|64:CODE=VALUE<extra>|<trailer>}` whose
      value is the hex of `value`, optionally followed by a `,`-suffix,
      decodes to `value` whatever the trailer holds. */
  lemma ParseReply(head: string, code: string, value: nat, extra: string, trailer: string)
    requires '|' !in head && '|' !in code && '=' !in code && '|' !in trailer
    requires '|' !in extra && '=' !in extra && (extra == "" || extra[0] == ',')
    ensures ParseData("{" + head + "|64:" + code + "=" + HexValue(value) + extra + "|" + trailer) == Value(value)
  {
    var hex := HexValue(value);
    HexValueNonNegative(value);
    UpperHexExcludesPunctuation(hex);
    var body := "64:" + code + "=" + hex + extra;
    assert '|' !in body;
    ParseSegmentOf("{" + head, body, trailer);
    ParseValueOf(code, hex, extra);
    ReplySpelling(head, code, hex, extra, trailer);
  }

  /** `parseData` of `<a>|<body>|<b>` with a non-empty, bar-free body is
      the value of the body. */
  lemma ParseSegmentOf(a: string, body: string, b: string)
    requires '|' !in a && '|' !in body && '|' !in b && body != ""
    ensures ParseData(a + "|" + body + "|" + b) == ParseValue(body)
  {
    JoinThree(a, body, b, '|');
    SplitJoin([a, body, b], '|');
  }

  /** The segment `64:CODE=HEX<extra>` has the value of `HEX`. */
  lemma ParseValueOf(code: string, hex: string, extra: string)
    requires '=' !in code && IsHexString(hex) && IsUpperHexString(hex)
    requires '=' !in extra && (extra == "" || extra[0] == ',')
    ensures ParseValue("64:" + code + "=" + hex + extra) == Value(FromHex(hex))
  {
    UpperHexExcludesPunctuation(hex);
    var field := hex + extra;
    assert '=' !in field;
    JoinTwo("64:" + code, field, '=');
    SplitJoin(["64:" + code, field], '=');
    assert "64:" + code + "=" + hex + extra == ("64:" + code) + "=" + field;
    if extra == "" {
      assert field == hex;
    } else {
      BeforeConcat(hex, extra, ',');
      SplitFirst(field, ',');
    }
  }

  /** The sample reply in the comment of `parseData` decodes to 1.  (The
      replies of these examples are parameters so that the verifier does not
      unfold the decoder on a literal.  Their length fields and checksums
      are meant to be those of the frames; `parseData` looks at neither,
      and the model does not evaluate them.) */
  lemma SampleReply(data: string)
    requires data == "{01;FB;18|64:ADR=1|04A9}"
    ensures ParseData(data) == Value(1)
  {
    SampleDecodes(data, "01;FB;18", "", "04A9}");
  }

  /** A value with a comma-separated suffix keeps only what precedes the
      comma. */
  lemma SampleReplyWithSuffix(data: string)
    requires data == "{01;FB;1A|64:ADR=1,2|0510}"
    ensures ParseData(data) == Value(1)
  {
    SampleDecodes(data, "01;FB;1A", ",2", "0510}");
  }

  /** A reply of the sample's shape, `{HEAD|64:ADR=1<extra>|TRAILER`,
      decodes to 1. */
  lemma SampleDecodes(data: string, head: string, extra: string, trailer: string)
    requires data == "{" + head + "|64:ADR=1" + extra + "|" + trailer
    requires '|' !in head && '|' !in trailer
    requires '|' !in extra && '=' !in extra && (extra == "" || extra[0] == ',')
    ensures ParseData(data) == Value(1)
  {
    assert HexValue(1) == "1";
    assert data == "{" + head + "|64:" + "ADR" + "=" + HexValue(1) + extra + "|" + trailer;
    ParseReply(head, "ADR", 1, extra, trailer);
  }

  /** A segment holding only `64:` is not empty, so `parseData` does not
      return `None` for it: it raises in the `=` split. */
  lemma SegmentWithoutValue(data: string)
    requires data == "{01;FB;13|64:|035F}"
    ensures ParseData(data) == Raised(MissingField)
  {
    SegmentSpelling(data, "{01;FB;13", "64:", "035F}");
    SplitJoin(["{01;FB;13", "64:", "035F}"], '|');
    SplitFirst("64:", '=');
  }

  /** Only a literally empty segment gives `None`. */
  lemma EmptySegment(data: string)
    requires data == "{01;FB;10||02B8}"
    ensures ParseData(data) == Absent
  {
    SegmentSpelling(data, "{01;FB;10", "", "02B8}");
    SplitJoin(["{01;FB;10", "", "02B8}"], '|');
  }

  lemma SegmentSpelling(data: string, head: string, segment: string, trailer: string)
    requires data == head + "|" + segment + "|" + trailer
    ensures data == Join([head, segment, trailer], '|')
  {
    JoinThree(head, segment, trailer, '|');
  }

  /** A five-character reply such as `0000}` passes the checksum test (the
      checked text is empty and its checksum is `0000`) and then raises in
      `parseData`, which finds no `|`. */
  lemma FiveCharacterReply()
    ensures CrcAccepts("0000}")
    ensures QueryOutcome(Received("0000}")) == Raised(MissingField)
  {
    CrcOfEmpty();
    assert PySlice("0000}", -5, -1) == "0000";
    assert PySlice("0000}", 1, -5) == "";
    ParseDataAbsent("0000}");
  }
}
