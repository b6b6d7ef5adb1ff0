/** The SolarMax frame layout `{FB;DD;LL|64:CODE|CRC}`, the additive
    checksum, and the checksum test applied to received frames.  These are
    the specification functions the two client variants are proved
    against. */
module Frame {
  import opened Text
  import opened Hex

  /** Address of an external host on the inverter bus (0xFB). */
  const SourceAddress: string := "FB"

  /** Sub-port of the data query (0x64 = 100). */
  const QueryType: string := "64"

  /** `checksum(text)`: the hex of the code-point sum, zero-padded to at
      least four characters and never truncated. */
  function CrcOf(text: string): string
  {
    ZeroPad(HexValue(OrdSum(text)), 4)
  }

  /** The destination field: the hex of the index, with one `0` put in
      front when that hex is a single character. */
  function DestField(index: int): string
  {
    var h := HexValue(index);
    if |h| < 2 then "0" + h else h
  }

  /** The value declared in the length field for a given command code. */
  function LengthValue(code: string): int
  {
    1 + 3 + 3 + 3 + 3 + |code| + 1 + 4 + 1
  }

  function LengthField(code: string): string
  {
    HexValue(LengthValue(code))
  }

  /** Everything between the opening `{` and the checksum. */
  function PreCrc(index: int, code: string): string
  {
    SourceAddress + ";" + DestField(index) + ";" + LengthField(code) + "|" + QueryType + ":" + code + "|"
  }

  /** The query frame for inverter `index` and command `code`. */
  function QueryFrame(index: int, code: string): string
  {
    "{" + PreCrc(index, code) + CrcOf(PreCrc(index, code)) + "}"
  }

  /** The integrity test on a received frame: the four characters before
      the last one must equal the checksum of `data[1:-5]`. */
  predicate CrcAccepts(data: string)
  {
    PySlice(data, -5, -1) == CrcOf(PySlice(data, 1, -5))
  }

  /** The checksum reads back as the code-point sum, is uppercase, at
      least four characters, exactly four below 0x10000, and longer only by
      the digits the sum really needs. */
  lemma CrcOfSpec(text: string)
    ensures IsHexString(CrcOf(text)) && IsUpperHexString(CrcOf(text))
    ensures FromHex(CrcOf(text)) == OrdSum(text)
    ensures |CrcOf(text)| >= 4
    ensures |CrcOf(text)| == 4 <==> OrdSum(text) < 0x10000
    ensures |CrcOf(text)| > 4 ==> CrcOf(text)[0] != '0'
  {
    var h := HexValue(OrdSum(text));
    HexValueNonNegative(OrdSum(text));
    ToHexLength(OrdSum(text), 4);
    var r := CrcOf(text);
    var z := r[..|r| - |h|];
    assert r == z + h;
    FromHexLeadingZeros(z, h);
    assert Pow16(4) == 0x10000;
  }

  lemma CrcOfEmpty()
    ensures CrcOf("") == "0000"
  {
    assert HexValue(0) == "0";
  }

  /** Two texts have the same checksum exactly when their code-point sums
      agree. */
  lemma CrcOfInjective(a: string, b: string)
    ensures CrcOf(a) == CrcOf(b) <==> OrdSum(a) == OrdSum(b)
  {
    CrcOfSpec(a);
    CrcOfSpec(b);
  }

  /** Changing a single character always changes the checksum. */
  lemma CrcOfSingleEdit(s: string, i: nat, c: char)
    requires i < |s| && c != s[i]
    ensures CrcOf(s[i := c]) != CrcOf(s)
  {
    OrdSumUpdate(s, i, c);
    CrcOfInjective(s[i := c], s);
  }

  /** For an index in 0..255 the destination is exactly two uppercase hex
      digits, zero-padded, that read back as the index. */
  lemma DestFieldByte(index: int)
    requires 0 <= index < 256
    ensures |DestField(index)| == 2
    ensures IsHexString(DestField(index)) && IsUpperHexString(DestField(index))
    ensures FromHex(DestField(index)) == index
    ensures index < 16 ==> DestField(index)[0] == '0'
  {
    var h := HexValue(index);
    HexValueNonNegative(index);
    ToHexLength(index, 2);
    ToHexLength(index, 1);
    if |h| < 2 {
      FromHexLeadingZeros("0", h);
    }
  }

  /** The index is not range-checked: from 256 on the destination takes
      more than two characters, and a negative index is rendered with
      Python's leftover `x` (upper-cased), so the field is not hexadecimal. */
  lemma DestFieldOutOfRange(index: int)
    ensures index >= 256 ==> |DestField(index)| > 2 && IsHexString(DestField(index)) && FromHex(DestField(index)) == index
    ensures index < 0 ==> DestField(index)[0] == 'X' && !IsHexString(DestField(index))
  {
    if index >= 256 {
      HexValueNonNegative(index);
      ToHexLength(index, 2);
      assert Pow16(2) == 256 by {
        assert Pow16(1) == 16;
      }
    } else if index < 0 {
      HexValueNegative(index);
      ToHexRoundTrip(-index);
    }
  }

  /** The length field is `hexValue(19 + len(code))`: two characters up to
      a 236-character code, and `"16"` for a three-letter code. */
  lemma LengthFieldSpec(code: string)
    ensures IsHexString(LengthField(code)) && FromHex(LengthField(code)) == 19 + |code|
    ensures |code| <= 236 <==> |LengthField(code)| == 2
    ensures |code| == 3 ==> LengthField(code) == "16"
  {
    var n := LengthValue(code);
    HexValueNonNegative(n);
    assert Pow16(2) == 256 by {
      assert Pow16(1) == 16;
    }
    ToHexLength(n, 2);
    ToHexLength(n, 1);
    if |code| == 3 {
      ToHexSixteen();
    }
  }

  lemma ToHexSixteen()
    ensures ToHex(22) == "16"
  {
    assert HexDigit(1) == '1';
    assert HexDigit(6) == '6';
    assert ToHex(1) == "1";
  }

  /** Field by field layout of a query frame whose fixed-width fields all
      have their nominal width; the declared length is then the length of
      the whole frame, braces included. */
  lemma QueryFrameLayout(index: int, code: string)
    requires 0 <= index < 256 && |code| <= 236
    requires OrdSum(PreCrc(index, code)) < 0x10000
    ensures var q := QueryFrame(index, code);
      && |q| == 19 + |code|
      && q[..4] == "{FB;"
      && IsHexString(q[4..6]) && FromHex(q[4..6]) == index
      && q[6] == ';'
      && IsHexString(q[7..9]) && FromHex(q[7..9]) == |q|
      && q[9..13] == "|64:"
      && q[13..13 + |code|] == code
      && q[13 + |code|] == '|'
      && q[|q| - 5..|q| - 1] == CrcOf(q[1..|q| - 5])
      && q[|q| - 1] == '}'
  {
    DestFieldByte(index);
    LengthFieldSpec(code);
    var d, l := DestField(index), LengthField(code);
    CrcFourDigits(PreCrc(index, code));
    FieldsOfFrame(index, d, l, code);
  }

  /** The layout of `QueryFrameLayout` for any two-character destination and
      length fields that read back as the index and the frame length. */
  lemma FieldsOfFrame(index: int, d: string, l: string, code: string)
    requires |d| == 2 && IsHexString(d) && FromHex(d) == index
    requires |l| == 2 && IsHexString(l) && FromHex(l) == 19 + |code|
    requires |CrcOf(SourceAddress + ";" + d + ";" + l + "|" + QueryType + ":" + code + "|")| == 4
    ensures var pre := SourceAddress + ";" + d + ";" + l + "|" + QueryType + ":" + code + "|";
      var q := "{" + pre + CrcOf(pre) + "}";
      && |q| == 19 + |code|
      && q[..4] == "{FB;"
      && IsHexString(q[4..6]) && FromHex(q[4..6]) == index
      && q[6] == ';'
      && IsHexString(q[7..9]) && FromHex(q[7..9]) == |q|
      && q[9..13] == "|64:"
      && q[13..13 + |code|] == code
      && q[13 + |code|] == '|'
      && q[|q| - 5..|q| - 1] == CrcOf(q[1..|q| - 5])
      && q[|q| - 1] == '}'
  {
    var pre := SourceAddress + ";" + d + ";" + l + "|" + QueryType + ":" + code + "|";
    SplicedLayout(d, l, code, CrcOf(pre));
  }

  /** A checked text summing to below 0x10000 has a four-character checksum. */
  lemma CrcFourDigits(text: string)
    requires OrdSum(text) < 0x10000
    ensures |CrcOf(text)| == 4
  {
    CrcOfSpec(text);
  }

  /** Positions of the pieces of `{FB;<d>;<l>|64:<code>|<crc>}` when `d`
      and `l` have two characters and `crc` has four. */
  lemma SplicedLayout(d: string, l: string, code: string, crc: string)
    requires |d| == 2 && |l| == 2 && |crc| == 4
    ensures var pre := SourceAddress + ";" + d + ";" + l + "|" + QueryType + ":" + code + "|";
      var q := "{" + pre + crc + "}";
      && |q| == 19 + |code|
      && q[..4] == "{FB;" && q[4..6] == d && q[6] == ';' && q[7..9] == l
      && q[9..13] == "|64:" && q[13..13 + |code|] == code && q[13 + |code|] == '|'
      && q[1..|q| - 5] == pre && q[|q| - 5..|q| - 1] == crc && q[|q| - 1] == '}'
  {
    var pre := SourceAddress + ";" + d + ";" + l + "|" + QueryType + ":" + code + "|";
    var q := "{" + pre + crc + "}";
    var head := "{FB;" + d + ";" + l + "|64:";
    assert |head| == 13;
    assert q == head + code + "|" + crc + "}";
    assert q[..4] == "{FB;";
    assert q[4..6] == d;
    assert q[7..9] == l;
    assert q[9..13] == "|64:";
    assert q[13..13 + |code|] == code;
    assert q[1..|q| - 5] == pre;
    assert q[|q| - 5..|q| - 1] == crc;
  }

  /** `{<pre><crc>}` with the checksum of `pre` as `crc`: the two slices
      taken by the response test. */
  lemma WrappedSlices(pre: string, crc: string)
    requires |crc| >= 4
    ensures var q := "{" + pre + crc + "}";
      && PySlice(q, -5, -1) == crc[|crc| - 4..]
      && PySlice(q, 1, -5) == pre + crc[..|crc| - 4]
  {
    var q := "{" + pre + crc + "}";
    PySliceTrailer(q);
    assert q[|q| - 5..|q| - 1] == crc[|crc| - 4..];
    assert q[1..|q| - 5] == pre + crc[..|crc| - 4];
  }

  /** The frame built for a query passes the very test applied to
      responses exactly when its checksum fits in four characters. */
  lemma QueryFrameAccepted(index: int, code: string)
    ensures CrcAccepts(QueryFrame(index, code)) <==> OrdSum(PreCrc(index, code)) < 0x10000
  {
    var pre := PreCrc(index, code);
    var crc := CrcOf(pre);
    CrcOfSpec(pre);
    WrappedSlices(pre, crc);
    var body := pre + crc[..|crc| - 4];
    if OrdSum(pre) < 0x10000 {
      assert body == pre;
      assert crc[|crc| - 4..] == crc;
    } else {
      OrdSumAppend(pre, crc[..|crc| - 4]);
      CrcOfSpec(body);
    }
  }

  /** What acceptance implies about a received frame: at least five
      characters, and a checked text whose sum fits in four hex digits (the
      sum is compared unmasked against a four-character field). */
  lemma CrcAcceptsBounds(data: string)
    requires CrcAccepts(data)
    ensures |data| >= 5
    ensures OrdSum(PySlice(data, 1, -5)) < 0x10000
    ensures |data| >= 6 ==> data[|data| - 5..|data| - 1] == CrcOf(data[1..|data| - 5])
  {
    PySliceTrailer(data);
    CrcOfSpec(PySlice(data, 1, -5));
  }

  /** Changing any one character of the checked text of an accepted frame
      makes the frame fail the test. */
  lemma TamperedFrameRejected(data: string, i: nat, c: char)
    requires CrcAccepts(data)
    requires 1 <= i < |data| - 5 && c != data[i]
    ensures !CrcAccepts(data[i := c])
  {
    CrcAcceptsBounds(data);
    TamperedCheckedText(data, i, c);
  }

  lemma TamperedCheckedText(data: string, i: nat, c: char)
    requires |data| >= 6 && data[|data| - 5..|data| - 1] == CrcOf(data[1..|data| - 5])
    requires 1 <= i < |data| - 5 && c != data[i]
    ensures !CrcAccepts(data[i := c])
  {
    var n, t := |data|, data[i := c];
    var body := data[1..n - 5];
    EditedSlices(data, i, c);
    CrcOfSingleEdit(body, i - 1, c);
    assert PySlice(t, -5, -1) == CrcOf(body);
    assert PySlice(t, 1, -5) == body[i - 1 := c];
  }

  /** The slices of a frame with character `i` of its checked text replaced. */
  lemma EditedSlices(data: string, i: nat, c: char)
    requires 1 <= i < |data| - 5
    ensures var t, n := data[i := c], |data|;
      && PySlice(t, -5, -1) == data[n - 5..n - 1]
      && PySlice(t, 1, -5) == data[1..n - 5][i - 1 := c]
  {
    var t, n := data[i := c], |data|;
    PySliceTrailer(t);
    var body := data[1..n - 5];
    var edited := t[1..n - 5];
    forall k | 0 <= k < |body| ensures edited[k] == body[i - 1 := c][k] {
      assert edited[k] == t[k + 1];
    }
    assert edited == body[i - 1 := c];
    assert t[n - 5..n - 1] == data[n - 5..n - 1];
  }
}
