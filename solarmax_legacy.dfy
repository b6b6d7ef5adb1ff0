/** The earlier client `solarmax.py`: the same checksum and query builder,
    with the inverter index passed to `createQueryString` instead of kept on
    the object.  Its methods read no state of the object, so they are
    module-level methods here. */
module SolarMaxLegacy {
  import opened Text
  import opened Hex
  import opened Frame
  import SolarMaxQuery

  method Checksum(text: string) returns (crc: string)
    ensures crc == CrcOf(text)
  {
    var total := 0;
    for i := 0 to |text|
      invariant total == OrdSum(text[..i])
    {
      assert text[..i + 1][..i] == text[..i];
      total := total + text[i] as int;
    }
    assert text[..|text|] == text;
    crc := HexValue(total);
    ghost var digits := crc;
    while |crc| < 4
      invariant crc == Zeros(|crc| - |digits|) + digits
      invariant |crc| <= 4 || crc == digits
      decreases 4 - |crc|
    {
      assert Zeros(|crc| - |digits| + 1) == "0" + Zeros(|crc| - |digits|);
      crc := "0" + crc;
    }
    PaddingDone(crc, digits, 4);
  }

  method CreateQueryString(inverterIndex: int, code: string) returns (queryString: string)
    ensures queryString == QueryFrame(inverterIndex, code)
  {
    var srcAddress := "FB";
    var destAddress := HexValue(inverterIndex);
    if |destAddress| < 2 {
      destAddress := "0" + destAddress;
    }
    var queryType := "64";
    var lenght := HexValue(1 + 3 + 3 + 3 + 3 + |code| + 1 + 4 + 1);
    var preCrcString := srcAddress + ";" + destAddress + ";" + lenght + "|" + queryType + ":" + code + "|";
    var crc := Checksum(preCrcString);
    queryString := "{" + preCrcString + crc + "}";
  }

  /** Both builders produce the same frame, character for character, for
      the same index and code. */
  method BuildersAgree(inverterIndex: int, code: string) returns (legacy: string, current: string)
    ensures legacy == current
    ensures legacy == QueryFrame(inverterIndex, code)
  {
    legacy := CreateQueryString(inverterIndex, code);
    var client := new SolarMaxQuery.SolarMax(inverterIndex);
    current := client.CreateQueryString(code);
  }
}
