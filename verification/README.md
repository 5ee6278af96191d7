# ptviewer decoding and buffering core, in Dafny

`ptviewer.py` watches a CSV log of CAN-bus frames that keeps growing. On each
file-change event it decodes the rows it has not seen yet into motor positions.
It keeps a bounded history per CAN identifier, and a single time-stamp list
shared by all channels. This project models that core:

- `uint_to_float` (module `Dequant`) as an affine map over exact reals;
- `parse_position` (module `Frame`), including the bitwise `|` that builds the
  16-bit code;
- the body of the row loop in `CSVHandler.on_modified` (module `RowDecode`):
  width check, the payload field, `split('|')[1].strip().split()`, the eight
  hex tokens, the channel, the tag filter and the time stamp, each in the
  source's order;
- the handler state (`data_dict`, `times`, `max_points`, `last_processed`) and
  the loop with append, eviction and cursor (module `Handler`). Each row is
  first decoded into an outcome (`Decoded`); the loop is then a fold `Run` of
  the buffer update `Apply` over those outcomes (`Process`), wrapped by the
  event `OnModified`. A row whose position overflows `float` ends the pass
  (`FirstAbort`). A method `Ingest` runs the loop step by step on local
  copies of the buffers, returning a new state value, and is proved equal to
  the fold. The source mutates the handler object; the model does not.

Support modules: `Wrappers` (`Option`), `PyText` (Python's `str.split(sep)`,
`str.strip()` and `str.split()`), `Hex` (`int(s, 16)`).

Behaviour the model keeps as the code has it:

- `times` is one list for all channels. A full sample adds one time stamp to
  it. The front entry is dropped exactly when that sample made its own channel
  overflow.
- The `row[8]` fallback at ptviewer.py:56 is dead code, because rows with
  fewer than 10 fields were skipped at line 52. Only field 9 is read.
- Byte tokens are not range-checked. `int(x, 16)` accepts `1FF`. The code is
  then `(d1 << 8) | d2` with a true bitwise OR, so it can leave 16 bits, or
  differ from `d1 * 256 + d2` (`Frame.ParsePositionOrNotAdd`,
  `Frame.ParsePositionBeyondRange`).
- A row whose time stamp field is not hex keeps its position, and registers its
  channel if it is new. It adds no time stamp and skips the eviction check.
  The capacity bound therefore holds only over rows without such partial
  updates (`Handler.ProcessKeepsBound`). A partial update on a full channel
  breaks the bound (`Handler.PartialUpdateBreaksBound`).
- Rejections (`IndexError`, `ValueError` and the explicit checks) are
  skip-and-continue. When the pass over the unread rows reaches the end, the
  cursor is set to the row count, whether rows were rejected or not.
- One error escapes the row loop's handler. Because byte tokens are unchecked,
  the position code can be arbitrarily large, and `float(x_int)` in
  `uint_to_float` raises `OverflowError` once the code is at least
  2^1024 - 2^970 (`Frame.FloatLimitValue`). That error is neither an
  `IndexError` nor a `ValueError`, so it ends the pass: the updates of earlier
  rows stay, the cursor assignment at ptviewer.py:79 is skipped, and the outer
  handler prints it. The next event then applies those earlier rows a second
  time (`Handler.AbortedEventRepeats`, `Handler.AbortDuplicatesSample`).
- The cursor is not monotone. The code slices `rows[last_processed:]` and then
  assigns `len(rows)`, so a truncated log moves the cursor back and decodes
  nothing (`Handler.TruncatedLogRewindsCursor`).
- Byte tokens above `FF` are accepted: `int(x, 16)` rejects only tokens that
  are not hex at all (`BadHexByte`).
- The position range is the pair of literals `-3.14159` and `3.14159`, not
  `[-pi, pi]`.

## Model

| member | source | states |
|---|---|---|
| Dequant.UintToFloat | ptviewer.py:9-12 | code 0 maps to `x_min`; code `2^bits - 1` maps to `x_max`; with `x_min <= x_max`, every code in range maps into `[x_min, x_max]`; `bits = 0` (division by zero in the source) is excluded |
| Dequant.Quantize | ptviewer.py:9-12 | the quantizer that `uint_to_float` inverts: `x_min` gets code 0, `x_max` the top code, values in the interval get codes in range |
| Dequant.QuantizeDequantize | ptviewer.py:9-12 | quantizing the de-quantized value of any code gives that code back |
| Dequant.DequantizeQuantize | ptviewer.py:9-12 | a value whose quantized code is an integer `k` is exactly the de-quantized value of `k` |
| Dequant.Monotone | ptviewer.py:9-12 | with `x_min <= x_max`, a larger code never gives a smaller value |
| Dequant.StrictlyMonotone | ptviewer.py:9-12 | with `x_min < x_max`, a larger code gives a strictly larger value |
| Frame.BitOr | ptviewer.py:19 | Python `|` on non-negative integers: the result is at least each operand and at most their sum |
| Frame.BitOrBits | ptviewer.py:19 | bit `i` of `a | b` is set exactly when bit `i` of `a` or of `b` is |
| Frame.SameBitsSame | ptviewer.py:19 | two numbers with the same bits are equal, so the per-bit law determines `|` |
| Frame.OrIntoLowBits | ptviewer.py:19 | or-ing a value below `2^k` into a multiple of `2^k` equals adding it |
| Frame.PositionCode | ptviewer.py:19 | when byte 2 is below 256 the code is `data[1] * 256 + data[2]`; when both bytes are, it fits in 16 bits (at most 65535) |
| Frame.ParsePosition | ptviewer.py:9-22 | `None` exactly when the payload is not 8 values or `data[0] != 0x01`; otherwise `OverflowError` exactly when the code is too large for `float`, and else the de-quantized code over `[-3.14159, 3.14159]` with 16 bits; for genuine bytes it is always a position, the big-endian value of bytes 1-2, and lies in the range |
| Frame.FastPow2IsPow2 | ptviewer.py:12 | the power of two by repeated squaring equals `2^n` |
| Frame.FloatLimitValue | ptviewer.py:12 | the least integer on which `float()` overflows is 2^1024 - 2^970 |
| Frame.ParsePositionOverflowBoundary | ptviewer.py:12-21 | a motor reply whose byte-2 token has the value 2^1024 - 2^970 raises `OverflowError`; one less still decodes to a position |
| Frame.ParsePositionEndpoints | ptviewer.py:15-22 | bytes `00 00` give `-3.14159`; bytes `FF FF` give `3.14159` |
| Frame.ParsePositionMonotone | ptviewer.py:19-21 | for genuine bytes, a larger big-endian code in bytes 1-2 never decodes to a smaller position |
| Frame.ParsePositionMidpoint | ptviewer.py:19-21 | payload `01 80 00 00 00 00 00 00` decodes to a position strictly between 0 and 0.0001 |
| Frame.ParsePositionOrNotAdd | ptviewer.py:19 | the unchecked token `1FF` in byte 2 gives code `0x1FF`, the same position as byte `FF`, not `0x100 + 0x1FF` |
| Frame.SameCodeSamePosition | ptviewer.py:19-21 | two motor replies with equal position code decode to the same position |
| Frame.ParsePositionBeyondRange | ptviewer.py:19-21 | the unchecked token `100` in byte 1 gives a position above `3.14159` |
| PyText.SplitOn | ptviewer.py:60 | `split('|')`: at least one piece, no piece contains the separator, and at least two pieces exactly when the string contains it |
| PyText.JoinSplit | ptviewer.py:60 | joining the pieces of `split(sep)` with `sep` gives back the string |
| PyText.SplitJoin | ptviewer.py:60 | splitting the join of separator-free pieces gives back the pieces |
| PyText.SecondPiece | ptviewer.py:60 | piece 1 of `split('|')` is exactly the text between the first and the second `|`, or the end of the field |
| PyText.Strip | ptviewer.py:60 | `strip()` yields a contiguous piece of the text with only whitespace cut from either end, that neither starts nor ends with whitespace; text that does not start or end with whitespace is unchanged |
| PyText.CutOfParts | ptviewer.py:60 | cutting whitespace from the front and then from the back of the rest keeps a piece of the text with only whitespace around it |
| PyText.Words | ptviewer.py:60 | `split()` yields only non-empty tokens without whitespace |
| PyText.WordsOfSpace | ptviewer.py:60 | `split()` of whitespace alone is empty |
| PyText.WordsCons | ptviewer.py:60 | `split()` of whitespace, then a maximal whitespace-free run, then the rest is that run followed by the words of the rest; with `WordsOfSpace` this fixes `split()` on every string |
| PyText.WordsJoinSpace | ptviewer.py:60 | splitting the single-space join of non-empty, whitespace-free tokens gives back the tokens |
| PyText.WordsOfTrimStart | ptviewer.py:60 | `lstrip().split()` equals `split()` |
| PyText.WordsOfTrimEnd | ptviewer.py:60 | `rstrip().split()` equals `split()` |
| PyText.WordsOfStrip | ptviewer.py:60 | `strip().split()` equals `split()` |
| Hex.ParseHex | ptviewer.py:64-65 | `int(s, 16)` succeeds exactly on non-empty hex-digit strings, and the value has no more hex places than the string has characters; which value is fixed by `Hex.ValueAppend` and `Hex.DigitTable` |
| Hex.ParseToHex | ptviewer.py:64-65 | parsing the lower-case hex spelling of any number gives that number |
| Hex.ValueAppend | ptviewer.py:64-65 | positional notation: the value of `a + b` is the value of `a` times `16^|b|` plus the value of `b` |
| Hex.DigitTable | ptviewer.py:64-65 | each single digit parses to its value: `0`-`9` to 0-9, `a`-`f` and `A`-`F` to 10-15 |
| Hex.UpperDigit | ptviewer.py:64-65 | an upper-case digit has the same value as its lower-case form |
| Hex.ValueUpper | ptviewer.py:64-65 | upper-casing a digit string does not change its value |
| Hex.ValueZeros | ptviewer.py:64-65 | a string of zero digits has value 0 |
| Hex.ValueLeadingZeros | ptviewer.py:64-65 | leading zeros do not change the value |
| Hex.Digits | ptviewer.py:64-65 | the digits of `n` in either case are a hex string of value `n` |
| Hex.Spell | ptviewer.py:64-65 | writing `n` in either case, padded with leading zeros to any width, gives a hex string at least that wide that `int(s, 16)` parses back to `n` |
| Hex.PlainSpelling | ptviewer.py:64-65 | the shortest lower-case spelling of `n` is the one `ToHex` writes, so `ParseToHex` is a case of `Spell` |
| Hex.ByteStyleWidth | ptviewer.py:64 | a value below 256 written as a log byte is exactly two upper-case digits |
| Hex.LogSpellings | ptviewer.py:64-65 | the log's own tokens parse to their values: `01` to 1, `1F` to 31, `4C` to 76, `1A2B` to 0x1A2B, `201` to 0x201, `ff` and `FF` to 255 |
| Hex.TwoDigitsIsByte | ptviewer.py:64 | a token of one or two hex digits denotes a value below 256 |
| RowDecode.PayloadTokens | ptviewer.py:60 | the payload tokens are non-empty and contain no whitespace; `PayloadOfSegment` says which words they are |
| RowDecode.PayloadOfSegment | ptviewer.py:60 | the tokens are the whitespace-separated words between the first and second separator, whatever text and further separators follow |
| RowDecode.ParseBytes | ptviewer.py:64 | the token list parses exactly when every token is hex, into one value per token, in order |
| RowDecode.DecodeRowMeaning | ptviewer.py:52-72 | a row fails a structural check (width, `|`, eight tokens) exactly when it is rejected with one of those three reasons; a row that yields a position has hex bytes, the channel of field 5 and the position `parse_position` gives for its bytes; it is a full sample exactly when field 2 is hex |
| RowDecode.DecodeRow | ptviewer.py:52-54 | a row is rejected for its width exactly when it has fewer than 10 fields |
| RowDecode.Reason | ptviewer.py:53-81 | a row gets a diagnostic unless it is a full sample or not a motor reply; a rejected row is reported with its own reason, a position without a time stamp as a bad time stamp, and a row that raises `OverflowError` as such |
| RowDecode.StructuralReasons | ptviewer.py:52-63 | `RowTooShort` exactly for fewer than 10 fields; `MalformedPayloadField` exactly for a wide row without `|` in field 9; `BadByteCount` exactly when the token count is not 8 |
| RowDecode.SemanticReasons | ptviewer.py:64-67 | past the structural checks: `BadHexByte` exactly when a token is not hex; `BadChannelId` exactly when the bytes are hex and field 5 is not; a silent skip exactly when both parse and the tag byte is not `0x01`; an abort exactly when both parse, the tag is `0x01` and the code overflows `float` |
| RowDecode.PositionRows | ptviewer.py:65-72 | a well-formed motor reply with hex bytes and channel aborts when its code overflows `float`; otherwise it is a full sample when field 2 is hex, and a position without time stamp when it is not |
| RowDecode.FormattedPayload | ptviewer.py:56-64 | the payload field `label|b0 b1 ...` of a written row yields the spelled tokens, which parse back to the byte values |
| RowDecode.ParseHexTokens | ptviewer.py:64 | parsing the hex spellings of a list of values, in any case and padding, gives back the values |
| RowDecode.ParseEachToken | ptviewer.py:64 | tokens that parse one by one to a list of values parse as a list to those values, in order |
| RowDecode.FormatRowFields | ptviewer.py:52-65 | a written row has ten fields, with the time stamp in field 2, the channel in field 5 and the payload in field 9 |
| RowDecode.DecodeParsedRow | ptviewer.py:52-72 | a well-formed row whose bytes, channel and time stamp all parse is decided by `parse_position` alone: skipped, aborted, or a full sample of that channel, position and time stamp |
| RowDecode.DecodeFormatRow | ptviewer.py:52-72 | a row written from a time stamp, channel and eight values, in any case and padding, decodes to that channel, time stamp and payload position when the tag is `0x01` and the code fits a `float`, aborts when it does not, and is silently skipped when the tag is not `0x01` |
| RowDecode.DecodeLogRow | ptviewer.py:52-72 | a motor reply written as the log writes it, bytes as two upper-case digits, decodes to its channel, its time stamp and the de-quantized big-endian value of bytes 1-2, inside the range |
| RowDecode.AbortingRow | ptviewer.py:64-66 | a written motor reply whose byte-2 value is 2^1024 - 2^970 aborts the pass, in any hex spelling of the fields |
| Handler.Init | ptviewer.py:38-42 | a new handler's cursor is at row 0, so its first read decodes every row |
| Handler.Apply | ptviewer.py:66-76 | one row's update keeps the cursor and the capacity, never forgets a channel, and changes nothing for a rejected, skipped or raising row |
| Handler.ApplyMeaning | ptviewer.py:66-76 | rejected, skipped and raising rows change nothing; a position registers a new channel and leaves every other channel alone; a position without time stamp is appended with no time stamp and no eviction; a full sample on a channel below capacity grows it by one and adds one time stamp; on a channel at or over capacity its length stays the same, its oldest position goes, and the shared time list gains the new stamp and loses its front |
| Handler.Run | ptviewer.py:49-78 | the updates never change the cursor or the capacity and never forget a channel |
| Handler.Process | ptviewer.py:49-78 | processing rows none of which raises never changes the cursor or the capacity and never forgets a channel |
| Handler.FirstAbort | ptviewer.py:49-81 | the pass stops at the first row that raises: every earlier outcome is not an abort, and the one it stops at is |
| Handler.CompletesMeaning | ptviewer.py:49-81 | a pass reaches the end exactly when no row makes `parse_position` raise |
| Handler.FirstAbortSplit | ptviewer.py:49-81 | a pass that reaches the end of `a + b` reaches the end of each part |
| Handler.Decoded | ptviewer.py:52-72 | one outcome per row |
| Handler.DecodedAt | ptviewer.py:52-72 | the `i`-th outcome is the decoding of the `i`-th row, whatever the rows around it |
| Handler.DecodedAppend | ptviewer.py:52-72 | decoding a concatenation of row lists decodes each list on its own |
| Handler.Reports | ptviewer.py:53-78 | at most one diagnostic per row |
| Handler.Unread | ptviewer.py:49 | `rows[last_processed:]` is what follows the first `last_processed` rows, and is empty when the cursor is at or past the end |
| Handler.OnModified | ptviewer.py:44-81 | a failed read leaves the state unchanged; after a read the capacity is unchanged and no channel is lost; the cursor equals the row count when no unread row raises, and stays where it was when one does |
| Handler.OnModifiedCompletes | ptviewer.py:49-79 | when no unread row raises, every unread row is processed and the cursor moves to the end |
| Handler.OnModifiedAborts | ptviewer.py:49-81 | when an unread row raises, the rows before it are processed and the cursor stays |
| Handler.IngestRow | ptviewer.py:52-78 | the step-by-step updates of one row equal `Apply`, and the diagnostic printed is the row's reason |
| Handler.Ingest | ptviewer.py:49-81 | the step-by-step loop produces the state of `OnModified` and the diagnostics of the unread rows up to and including the first that raises |
| Handler.RowStep | ptviewer.py:52-78 | one more row extends the loop's state by that row's update and the diagnostics by that row's reason |
| Handler.RunAppend | ptviewer.py:66-76 | applying the updates of `a + b` is applying those of `a`, then those of `b` |
| Handler.ProcessAppend | ptviewer.py:49-78 | processing `a + b` is processing `a`, then `b` |
| Handler.RunIgnoresCursor | ptviewer.py:49-79 | the buffer updates neither read nor write the cursor |
| Handler.RunSkipsInert | ptviewer.py:52-67 | an outcome that changes nothing can be dropped from a run of updates without changing the result |
| Handler.SkippedRowIsInert | ptviewer.py:52-67 | deleting a rejected or non-motor-reply row from the log does not change the resulting state: a bad row never blocks the rows after it |
| Handler.ReingestIsIdempotent | ptviewer.py:49-79 | after a pass in which no row raises, a second event over the same rows changes nothing |
| Handler.AbortedEventRepeats | ptviewer.py:49-81 | after a pass that stops at a raising row, the next event over the same log applies the rows before it a second time |
| Handler.AbortDuplicatesSample | ptviewer.py:49-81 | a full sample for a new channel followed by a raising row: after two events the channel holds the position twice and the time list has gained the time stamp twice |
| Handler.SampleTwice | ptviewer.py:69-74 | a new channel's sample applied twice is stored twice, with its time stamp twice |
| Handler.ProcessOne | ptviewer.py:49-78 | processing a single row applies its outcome |
| Handler.IncrementalIngest | ptviewer.py:49-79 | when no unread row raises, an event, then another after rows were appended, gives the same state as one event over the whole log |
| Handler.OnlyUnreadRowsMatter | ptviewer.py:49 | rows before the cursor do not affect the result |
| Handler.TruncatedLogRewindsCursor | ptviewer.py:49-79 | when the log has fewer rows than the cursor, nothing is decoded and the cursor moves back to the row count |
| Handler.ProcessKeepsBound | ptviewer.py:69-76 | if every channel holds at most `max_points` positions and no row is a position without time stamp, that stays true after the rows |
| Handler.RunKeepsBound | ptviewer.py:69-76 | within capacity and with no position lacking a time stamp, every update run keeps every channel within `max_points` |
| Handler.PartialUpdateBreaksBound | ptviewer.py:69-74 | a position without time stamp on a full channel leaves it over capacity |
| Handler.ApplyRecent | ptviewer.py:69-76 | one complete update keeps a bounded channel equal to the last `max_points` of everything that arrived on it |
| Handler.RecentPush | ptviewer.py:69-74 | keeping the last `k`, appending one and keeping the last `k` again is keeping the last `k` of everything |
| Handler.RetainsMostRecent | ptviewer.py:69-76 | starting within capacity and with no partial rows, a channel holds exactly the last `max_points` of its old positions followed by the positions the rows deliver to it, in arrival order |
| Handler.RunRetainsMostRecent | ptviewer.py:69-76 | the same retention property for any run of updates without partial ones |
| Handler.UntouchedChannel | ptviewer.py:69-71 | updates that deliver nothing to a channel leave its list, and whether it is registered, unchanged |

## Left out

- `read_csv_with_encoding` (ptviewer.py:25-34) is file I/O with encoding detection. Its result is the input `Handler.Read`: the rows, or `Unreadable`, which leaves the state unchanged.
- The file-name filter on the event path (ptviewer.py:45) is left out. `OnModified` models an event for the log file.
- `animate` and `main` (ptviewer.py:84-130) are plotting, the animation timer and the watchdog threads. They are not modelled, and neither is the unsynchronised sharing of `data_dict` and `times` between those threads.
- The `print` diagnostics are modelled as the list of `Handler.Report` values that `Ingest` returns.
- Hex.ParseHex: models `int(s, 16)` only on plain hex-digit strings. Python also accepts surrounding whitespace, a sign, a `0x` prefix, underscores and non-ASCII digits; the model rejects these.
- Dequant.UintToFloat: computes over exact reals, so the endpoint and monotonicity results hold in real arithmetic. IEEE double rounding, and an infinite result of the multiplication, are not modelled; the `OverflowError` of `float(x_int)` is modelled in `Frame.ParsePosition`.
- Handler.ReingestIsIdempotent: holds only when no unread row raises; otherwise the second event repeats updates, as `Handler.AbortedEventRepeats` states.
- Handler.IncrementalIngest: holds only when no unread row raises; a raising row keeps the cursor, so the rows before it are applied again.
- The exact text of the diagnostics is not modelled, only their reason and row.
