# SolarMax protocol codec

A Dafny model of the protocol codec of a client for SolarMax photovoltaic
inverters. The client talks to an inverter over TCP with ASCII frames of the
form `{FB;DD;LL|64:CODE|CRC}`:

- `FB` is the address of the external host.
- `DD` is the inverter index in hex.
- `LL` is the hex of `19 + len(CODE)`.
- `64` is the data-query sub-port.
- `CRC` is the additive checksum: the uppercase hex of the sum of the
  characters' code points, zero-padded to at least four digits and never
  truncated.

A reply such as `{01;FB;18|64:ADR=1|04A9}` carries its value in hex after the `=`.

The model covers both client variants:

- `solarmax_query/solarmax.py`, the current client: the object keeps the
  inverter index.
- `solarmax.py`, the earlier client: the index is passed to the builder.

The model has five modules:

- `Text` (`text.dfy`): the Python string operations the code depends on:
  the code-point sum `sum(ord(c))`, slicing with Python's negative and clamped
  bounds (`data[-5:-1]`, `data[1:-5]`), and `str.split` on one character. The
  split comes with its inverse `Join`, and the lemmas show that the split is
  the unique decomposition around the separator.
- `Hex` (`hex.dfy`): `hexValue`, which is `hex(i)[2:].upper()`, including
  what it gives for a negative `i` (`X5` for `-5`). Also the base-16 reading
  of a hex-digit string, and the round trip between the two.
- `Frame` (`frame.dfy`): the specification functions. `CrcOf` is
  `checksum`; `DestField`, `LengthField`, `PreCrc` and `QueryFrame` build the
  query frame; `CrcAccepts` is the checksum test that `query` applies to a
  reply. The lemmas prove:
  - the checksum reads back as the sum, and distinct sums give distinct
    checksums;
  - for nominal field widths, the frame's layout field by field, with the
    declared length equal to the frame's length;
  - a built frame passes the reply test exactly when its checksum has four
    digits;
  - changing one character of an accepted frame's checked text makes it
    fail.
- `SolarMaxQuery` (`solarmax_query.dfy`), for `solarmax_query/solarmax.py`:
  - `ParseData` is `parseData` as a pure function; `ParseValue` is its
    second half, from the `=` split on.
  - `QueryOutcome` is the check-and-decode part of `query` as a pure
    function of what the exchange yielded.
  - A class `SolarMax` holds the index. Its methods `Checksum` (the
    accumulator loop and the padding loop), `CreateQueryString` and `Query`
    are proved against those functions.

  The socket exchange is a parameter `device: string -> Exchange`: the
  device's answer to the frame sent. That answer is either the received
  text or `IoFailed`, which stands for any exception in send, receive or
  decoding. The result of `query` is an `Outcome`:
  - `Value(n)`;
  - `Absent` (Python's `None`);
  - `Raised(MissingField | NotHex)`, the `IndexError` and `ValueError` that
    `parseData` lets escape, outside the `try` block.
- `SolarMaxLegacy` (`solarmax_legacy.dfy`), for `solarmax.py`: its
  `Checksum` and `CreateQueryString(inverterIndex, code)` are proved against
  the same functions. `BuildersAgree` shows that the two builders produce
  the same frame.

Behaviour of the code that is easy to misread:

- A reply whose segment is `64:` (as in `{01;FB;13|64:|035F}`) is not "empty".
  `parseData` returns `None` only for a literally empty segment between the
  first and second `|`. For `64:` it raises in `split("=")[1]`
  (`SegmentWithoutValue`, `EmptySegment`).
- A malformed value is not absorbed into `None`. `int(…, 16)` and
  `split(…)[1]` sit outside the `try`, so they raise to the caller (`Raised`).
- `split("=")[1]` is the text between the first and the second `=`, not
  everything after the first.
- The checksum is not truncated. A checked text whose sum reaches 0x10000
  gives a checksum of five or more digits. Such a reply is always rejected
  (`CrcAcceptsBounds`). A query frame with such a checksum does not pass
  the reply test (`QueryFrameAccepted`).
- A reply of only five characters such as `0000}` passes the checksum test.
  Its checked text is empty, and `checksum("")` is `0000`. `parseData` then
  raises, because the reply has no `|` (`FiveCharacterReply`).

## Model

| member | source | states |
|---|---|---|
| `Hex.HexValueNonNegative` | solarmax_query/solarmax.py:39-40 | for `i >= 0`, `hexValue(i)` is non-empty uppercase hex with no `0x` prefix and no leading zero (except `"0"`), and it reads back as `i` |
| `Hex.HexValueNegative` | solarmax.py:16-17 | for `i < 0` the rendering is `X` followed by the digits of `-i`, so it is not a hex string |
| `Hex.HexValueInjective` | solarmax.py:16-17 | distinct non-negative values have distinct renderings |
| `Hex.ToHexLength` | solarmax_query/solarmax.py:40 | the hex of `n` has at most `k` digits exactly when `n < 16^k` |
| `Text.OrdSumAppend` | solarmax_query/solarmax.py:43-45 | the code-point sum of a concatenation is the sum of the parts' sums |
| `Text.OrdSumUpdate` | solarmax.py:20-22 | replacing one character changes the sum by the difference of the two code points |
| `Text.PySliceTrailer` | solarmax_query/solarmax.py:103-104 | what `data[-5:-1]` and `data[1:-5]` are for every length of `data`, including fewer than four characters for a reply shorter than five |
| `Text.Split` | solarmax_query/solarmax.py:81 | `s.split(d)` has at least one part, no part contains `d`, and joining the parts with `d` gives `s` back |
| `Text.SplitJoin` | solarmax_query/solarmax.py:84 | splitting a join of `d`-free parts gives those parts back, so the split is the unique such decomposition |
| `Text.SplitFirst` | solarmax_query/solarmax.py:85-86 | `split(d)[0]` is the text before the first `d`; there is a second part exactly when `d` occurs, and the remaining parts are the split of the text after it |
| `Text.Before` | solarmax_query/solarmax.py:86 | a prefix of `s` without `d` that is all of `s` or is followed by `d` |
| `Text.BeforeConcat` | solarmax_query/solarmax.py:85-86 | the text before the first `,` of `a + b` is `a` when `a` has no `,` and `b` is empty or starts with `,` |
| `Frame.CrcOfSpec` | solarmax_query/solarmax.py:42-49 | `checksum(text)` is uppercase hex that reads back as the code-point sum. It is at least 4 characters, exactly 4 when the sum is below 0x10000, and otherwise has no leading zero (no truncation) |
| `Frame.CrcOfEmpty` | solarmax_query/solarmax.py:46-49 | `checksum("")` is `"0000"` |
| `Frame.CrcOfInjective` | solarmax.py:19-26 | two texts have the same checksum exactly when their code-point sums agree |
| `Frame.CrcOfSingleEdit` | solarmax.py:20-26 | changing any single character changes the checksum |
| `Frame.DestFieldByte` | solarmax_query/solarmax.py:58-60 | for an index in 0..255 the destination is exactly two uppercase hex digits, zero-padded, reading back as the index |
| `Frame.DestFieldOutOfRange` | solarmax.py:35-37 | from 256 on the destination is longer than two characters; a negative index gives a field starting with `X` that is not hex |
| `Frame.LengthFieldSpec` | solarmax.py:42-43 | the length field is the hex of `19 + len(code)`: two characters up to a 236-character code, `"16"` for a three-letter code |
| `Frame.QueryFrameLayout` | solarmax_query/solarmax.py:55-71 | with nominal field widths the frame is `{FB;`, the destination (reads as the index), `;`, the length (reads as the frame's own length), a bar and `64:`, the code, a bar, the checksum of everything between `{` and the checksum, and `}` |
| `Frame.QueryFrameAccepted` | solarmax_query/solarmax.py:103-105 | a built query frame passes the test `query` applies to replies exactly when the sum of its checked text is below 0x10000 |
| `Frame.CrcAcceptsBounds` | solarmax_query/solarmax.py:102-106 | an accepted reply has at least five characters, its checked text sums to below 0x10000, and its four characters before the last are the checksum of `data[1:-5]` |
| `Frame.TamperedFrameRejected` | solarmax_query/solarmax.py:103-106 | changing any character of the checked text of an accepted frame makes it fail the test |
| `SolarMaxQuery.SolarMax.constructor` | solarmax_query/solarmax.py:4-9 | the client keeps the inverter index it is given |
| `SolarMaxQuery.SolarMax.Checksum` | solarmax_query/solarmax.py:42-49 | the accumulator and padding loops compute `CrcOf(text)` |
| `SolarMaxQuery.SolarMax.CreateQueryString` | solarmax_query/solarmax.py:51-73 | the step-by-step builder over `self.index` produces `QueryFrame(index, code)` |
| `SolarMaxQuery.SolarMax.Query` | solarmax_query/solarmax.py:89-109 | `query(code)` returns `QueryOutcome` of the device's answer to exactly the frame built for `code` |
| `SolarMaxQuery.QueryOutcomeAbsent` | solarmax_query/solarmax.py:92-106 | `None` when send or receive fails, when the reply is shorter than five characters, when the four characters before the last differ from `checksum(data[1:-5])`, or when that text sums to 0x10000 or more; otherwise it is `parseData(data)` |
| `SolarMaxQuery.TamperedReplyAbsent` | solarmax_query/solarmax.py:102-106 | a reply with one character of its checked text altered yields `None` |
| `SolarMaxQuery.ParseDataAbsent` | solarmax_query/solarmax.py:81-83 | `parseData` raises when there is no bar separator, and returns `None` exactly when the text between the first and second bar is empty |
| `SolarMaxQuery.ParseDataValue` | solarmax_query/solarmax.py:84-87 | otherwise: a segment without `=` raises; else the value is the text after the first `=`, up to the next `=` or `,`, read in base 16, and raises if that is not hex |
| `SolarMaxQuery.ParseSegmentOf` | solarmax_query/solarmax.py:81-83 | for a reply `a`, bar, a non-empty bar-free segment, bar, `b`, `parseData` decodes exactly that segment, whatever `a` and `b` hold |
| `SolarMaxQuery.ParseValueOf` | solarmax_query/solarmax.py:84-87 | a segment `64:CODE=HEX`, optionally followed by `,EXTRA`, decodes to the value of `HEX` |
| `SolarMaxQuery.WrappedAccepted` | solarmax_query/solarmax.py:103-105 | a text wrapped in braces with its four-character checksum passes the reply test |
| `SolarMaxQuery.ParseReply` | solarmax_query/solarmax.py:75-87 | a reply of head, bar, `64:CODE=HEX` with an optional `,EXTRA`, bar and trailer decodes to the value whose hex it carries, whatever the trailer holds |
| `SolarMaxQuery.ReplyRoundTrip` | solarmax_query/solarmax.py:102-109 | a reply built from a value, optionally followed by a `,`-suffix, with a correct four-character checksum, makes `query` return that value |
| `SolarMaxQuery.ParseChecked` | solarmax_query/solarmax.py:81-87 | the same reply, checksum and closing brace included, decodes to the value through `parseData` |
| `SolarMaxQuery.SampleReply` | solarmax_query/solarmax.py:77 | the sample reply in the comment of `parseData` decodes to 1 |
| `SolarMaxQuery.SampleDecodes` | solarmax_query/solarmax.py:77-87 | every reply of the sample's shape (a head, a bar, `64:ADR=1` with an optional `,`-suffix, a bar and a trailer) decodes to 1 |
| `SolarMaxQuery.SampleReplyWithSuffix` | solarmax_query/solarmax.py:85-86 | a body `ADR=1,2` decodes to 1 |
| `SolarMaxQuery.SegmentWithoutValue` | solarmax_query/solarmax.py:82-84 | a segment `64:` is not empty and raises in the `=` split |
| `SolarMaxQuery.EmptySegment` | solarmax_query/solarmax.py:82-83 | a literally empty segment gives `None` |
| `SolarMaxQuery.FiveCharacterReply` | solarmax_query/solarmax.py:103-109 | `0000}` passes the checksum test and then `parseData` raises |
| `SolarMaxLegacy.Checksum` | solarmax.py:19-26 | the accumulator and padding loops compute `CrcOf(text)` |
| `SolarMaxLegacy.CreateQueryString` | solarmax.py:28-50 | the builder produces `QueryFrame(inverterIndex, code)` |
| `SolarMaxLegacy.BuildersAgree` | solarmax.py:28-50 | the earlier and the current builder produce the same frame for the same index and code |

## Left out

- The socket layer is not modelled: socket creation in `__init__`, `__del__`, `connect` in both files, `pingInverter`, `reconnect`, and the `query` of `solarmax.py`. It is TCP and process I/O with unbounded `time.sleep(60)` retries.
- The `sendall` and `recv` loop of `query` is abstracted as the device's answer to the frame. That answer is the first non-empty decoded chunk or `IoFailed`. The 255-byte `recv` limit and replies split over several chunks are not modelled.
- A query that never returns is not modelled. When the peer has closed the connection, every `recv` yields an empty chunk and the loop at solarmax_query/solarmax.py:97-98 spins forever; the device function always answers.
- `SolarMaxQuery.ParseDataValue` and `SolarMaxQuery.ParseReply`: `int(s, 16)` is modelled only on non-empty strings of hex digits, in either case. Python also accepts surrounding whitespace, a sign, a `0x` prefix and underscores; the model raises `NotHex` for these.
- The scaled accessors (`acOutput`, `energyDay`, `voltageDC`, `currentDC` and the rest) are not modelled: they compute floating-point `round(data * k, n)`.
- The plain integer accessors are not modelled: each only returns `query(CODE)`.
- `getUnit` is not modelled: it is a dictionary keyed by bound methods.
- The label tables of `model`, `status` and `alarmCode` are not modelled. They are static lookup data and can raise `KeyError`; each returns `None` when `query` does.
- `SolarMaxQuery.SampleReply`, `SolarMaxQuery.SampleReplyWithSuffix`, `SolarMaxQuery.SegmentWithoutValue`, `SolarMaxQuery.EmptySegment`: their replies carry the length fields and checksums of those frames, but the model does not evaluate them; these lemmas are about `parseData` only. `ReplyRoundTrip` covers every reply of that shape with a correct checksum.
