/** The per-row part of `CSVHandler.on_modified`: everything the body of the
    `try` block computes from one CSV row before it touches the buffers. */
module RowDecode {
  import opened Wrappers
  import PyText
  import Hex
  import Frame
  import Dequant

  /** Rows with fewer fields are skipped. */
  const MinFields: nat := 10
  /** Field holding the hexadecimal time stamp. */
  const TimeField: nat := 2
  /** Field holding the hexadecimal CAN identifier. */
  const ChannelField: nat := 5
  /** Field holding `<label>|<hex bytes>`. Because of the width check, the
      source's fallback to field 8 can never be taken. */
  const PayloadField: nat := 9
  const Separator: char := '|'

  /** Why a row was not (fully) taken; each corresponds to one diagnostic the
      source prints. */
  datatype Rejection =
    | RowTooShort            // fewer than ten fields
    | MalformedPayloadField  // no '|' in the payload field
    | BadByteCount           // not exactly eight byte tokens
    | BadHexByte             // a byte token is not hexadecimal (ValueError)
    | BadChannelId           // field 5 is not hexadecimal (ValueError)
    | BadTimestamp           // field 2 is not hexadecimal (ValueError)
    | FloatOverflow          // the position code is too large for `float`
                             // (OverflowError, caught only outside the loop)

  /** What one row does to the buffers. */
  datatype Outcome =
    | Rejected(reason: Rejection)               // nothing changes
    | NotMotorReply                             // tag is not 0x01: silently nothing
    | Sample(channel: nat, position: real, time: nat)
    | PositionOnly(channel: nat, position: real) // the position is appended, then
                                                 // the time stamp fails to parse
    | Aborted                                   // `parse_position` raises OverflowError,
                                                // which ends the whole pass

  /** `data_str.split('|')[1].strip().split()`: the whitespace-separated
      tokens between the first and the second '|'. */
  function PayloadTokens(field: string): (toks: seq<string>)
    requires Separator in field
    ensures forall i :: 0 <= i < |toks| ==> toks[i] != [] && PyText.NoSpace(toks[i])
  {
    PyText.Words(PyText.Strip(PyText.SplitOn(field, Separator)[1]))
  }

  /** The tokens are the words of the text between the first and the second
      '|', whatever follows the second one. */
  lemma PayloadOfSegment(before: string, seg: string, rest: string)
    requires Separator !in before && Separator !in seg
    requires rest == [] || rest[0] == Separator
    ensures PayloadTokens(before + [Separator] + seg + rest) == PyText.Words(seg)
  {
    PyText.SecondPiece(before, seg, rest, Separator);
    PyText.WordsOfStrip(seg);
  }

  /** `[int(x, 16) for x in toks]`: every token parsed, or `None` when one of
      them is not hexadecimal. Values are not limited to a byte. */
  function ParseBytes(toks: seq<string>): (r: Option<seq<nat>>)
    ensures r.Some? <==> forall i :: 0 <= i < |toks| ==> Hex.IsHexString(toks[i])
    ensures r.Some? ==> |r.value| == |toks|
    ensures r.Some? ==> forall i :: 0 <= i < |toks| ==> Hex.ParseHex(toks[i]) == Some(r.value[i])
    decreases |toks|
  {
    if toks == [] then Some([])
    else
      match (Hex.ParseHex(toks[0]), ParseBytes(toks[1..]))
      case (Some(b), Some(rest)) => Some([b] + rest)
      case _ => None
  }

  /** The structural checks: enough fields, a '|' in the payload field, and
      exactly eight tokens after it. */
  predicate WellFormed(row: seq<string>) {
    && |row| >= MinFields
    && Separator in row[PayloadField]
    && |PayloadTokens(row[PayloadField])| == Frame.FrameLength
  }

  /** The decoded payload of a well-formed row, if every token is hex. */
  function Payload(row: seq<string>): Option<seq<nat>>
    requires WellFormed(row)
  {
    ParseBytes(PayloadTokens(row[PayloadField]))
  }

  /** One row, checked in the order the source checks it. A short row, and
      only a short row, is rejected for its width; `DecodeRowMeaning`,
      `StructuralReasons` and `SemanticReasons` state the rest. */
  function DecodeRow(row: seq<string>): (o: Outcome)
    ensures o == Rejected(RowTooShort) <==> |row| < MinFields
  {
    if |row| < MinFields then Rejected(RowTooShort)
    else if Separator !in row[PayloadField] then Rejected(MalformedPayloadField)
    else
      var toks := PayloadTokens(row[PayloadField]);
      if |toks| != Frame.FrameLength then Rejected(BadByteCount)
      else
        match ParseBytes(toks)
        case None => Rejected(BadHexByte)
        case Some(data) =>
          match Hex.ParseHex(row[ChannelField])
          case None => Rejected(BadChannelId)
          case Some(id) =>
            match Frame.ParsePosition(data)
            case NoPosition => NotMotorReply
            case TooLarge => Aborted
            case Position(pos) =>
              match Hex.ParseHex(row[TimeField])
              case None => PositionOnly(id, pos)
              case Some(t) => Sample(id, pos, t)
  }

  /** A row that fails a structural check is rejected for it; a row that
      produces a position has hex bytes and names the channel of field 5 and
      the position `parse_position` gives for its bytes, and it carries a time
      stamp exactly when field 2 is hexadecimal. */
  lemma DecodeRowMeaning(row: seq<string>)
    ensures var o := DecodeRow(row);
            !WellFormed(row) <==> o in {Rejected(RowTooShort), Rejected(MalformedPayloadField), Rejected(BadByteCount)}
    ensures var o := DecodeRow(row);
            o.Sample? || o.PositionOnly? ==>
              && WellFormed(row)
              && Payload(row).Some?
              && Hex.ParseHex(row[ChannelField]) == Some(o.channel)
              && Frame.ParsePosition(Payload(row).value) == Frame.Position(o.position)
    ensures var o := DecodeRow(row); o.Sample? ==> Hex.ParseHex(row[TimeField]) == Some(o.time)
    ensures var o := DecodeRow(row); o.PositionOnly? ==> Hex.ParseHex(row[TimeField]).None?
  {
    if WellFormed(row) {
      var o := DecodeRow(row);
      assert o !in {Rejected(RowTooShort), Rejected(MalformedPayloadField), Rejected(BadByteCount)};
      match Payload(row)
      case None =>
        assert o == Rejected(BadHexByte);
      case Some(data) =>
        assert o.Sample? || o.PositionOnly? ==> Frame.ParsePosition(data) == Frame.Position(o.position);
    }
  }

  /** The diagnostic a row produces, if any. A rejected row is reported with
      its own reason; a row with a bad time stamp is reported even though its
      position was kept; a row that ends the pass is reported by the handler
      around the loop. */
  function Reason(o: Outcome): (r: Option<Rejection>)
    ensures r.None? <==> o.NotMotorReply? || o.Sample?
    ensures o.Rejected? ==> r == Some(o.reason)
    ensures o.PositionOnly? ==> r == Some(BadTimestamp)
    ensures o.Aborted? ==> r == Some(FloatOverflow)
  {
    match o
    case Rejected(why) => Some(why)
    case PositionOnly(_, _) => Some(BadTimestamp)
    case Aborted => Some(FloatOverflow)
    case _ => None
  }

  /** Each structural check rejects with its own reason, in the source's order. */
  lemma StructuralReasons(row: seq<string>)
    ensures DecodeRow(row) == Rejected(RowTooShort) <==> |row| < MinFields
    ensures DecodeRow(row) == Rejected(MalformedPayloadField) <==>
              |row| >= MinFields && Separator !in row[PayloadField]
    ensures DecodeRow(row) == Rejected(BadByteCount) <==>
              && |row| >= MinFields && Separator in row[PayloadField]
              && |PayloadTokens(row[PayloadField])| != Frame.FrameLength
  {
    if WellFormed(row) {
      var o := DecodeRow(row);
      assert o.Rejected? ==> o.reason in {BadHexByte, BadChannelId};
    }
  }

  /** Past the structural checks, a non-hex byte token or channel field
      rejects the row, a frame whose tag is not `0x01` is skipped without a
      diagnostic, and a motor reply whose code is too large for `float` ends
      the pass. */
  lemma SemanticReasons(row: seq<string>)
    requires WellFormed(row)
    ensures DecodeRow(row) == Rejected(BadHexByte) <==> Payload(row).None?
    ensures DecodeRow(row) == Rejected(BadChannelId) <==>
              Payload(row).Some? && Hex.ParseHex(row[ChannelField]).None?
    ensures DecodeRow(row) == NotMotorReply <==>
              && Payload(row).Some? && Hex.ParseHex(row[ChannelField]).Some?
              && Payload(row).value[0] != Frame.MotorReplyTag
    ensures DecodeRow(row) == Aborted <==>
              && Payload(row).Some? && Hex.ParseHex(row[ChannelField]).Some?
              && Payload(row).value[0] == Frame.MotorReplyTag
              && Frame.FloatOverflows(Frame.PositionCode(Payload(row).value))
  {
  }

  /** A well-formed motor reply with hex bytes and channel yields its position
      unless the code overflows `float`; it is a full sample exactly when
      field 2 is hex, and a position without time stamp otherwise. */
  lemma PositionRows(row: seq<string>)
    requires WellFormed(row) && Payload(row).Some? && Hex.ParseHex(row[ChannelField]).Some?
    requires Payload(row).value[0] == Frame.MotorReplyTag
    ensures var c := Hex.ParseHex(row[ChannelField]).value;
            DecodeRow(row) == match Frame.ParsePosition(Payload(row).value)
                              case Position(p) =>
                                (match Hex.ParseHex(row[TimeField])
                                 case Some(t) => Sample(c, p, t)
                                 case None => PositionOnly(c, p))
                              case _ => Aborted
  {
  }

  // ---------------------------------------------------------------------------
  // The encoding side: a row as the logger writes it.
  // ---------------------------------------------------------------------------

  /** Hex spellings of the payload values, all in the spelling `sp`. */
  function HexTokens(payload: seq<nat>, sp: Hex.Spelling): (toks: seq<string>)
    ensures |toks| == |payload|
    ensures forall i :: 0 <= i < |toks| ==> toks[i] == Hex.Spell(payload[i], sp)
  {
    seq(|payload|, i requires 0 <= i < |payload| => Hex.Spell(payload[i], sp))
  }

  /** A ten-field row with time stamp, channel and `caption|b0 b1 ...` in the
      fields the decoder reads, every number in the spelling `sp`; the other
      fields are empty. With `Hex.ByteStyle` this is the CAN log's own format,
      `Data|01 1F 4C 00 ...`. */
  function FormatRow(time: nat, channel: nat, caption: string, payload: seq<nat>, sp: Hex.Spelling): seq<string> {
    [ "", "", Hex.Spell(time, sp), "", "", Hex.Spell(channel, sp), "", "", ""
    , caption + [Separator] + PyText.JoinSpace(HexTokens(payload, sp)) ]
  }

  /** Where `FormatRow` puts each field. */
  lemma FormatRowFields(time: nat, channel: nat, caption: string, payload: seq<nat>, sp: Hex.Spelling)
    ensures var row := FormatRow(time, channel, caption, payload, sp);
            && |row| == MinFields
            && row[TimeField] == Hex.Spell(time, sp)
            && row[ChannelField] == Hex.Spell(channel, sp)
            && row[PayloadField] == caption + [Separator] + PyText.JoinSpace(HexTokens(payload, sp))
  {
  }

  /** Hex digits are not whitespace and not the separator. */
  lemma HexTokensPlain(payload: seq<nat>, sp: Hex.Spelling)
    ensures forall i :: 0 <= i < |payload| ==>
              HexTokens(payload, sp)[i] != [] && PyText.NoSpace(HexTokens(payload, sp)[i])
              && Separator !in HexTokens(payload, sp)[i]
  {
    forall i | 0 <= i < |payload|
      ensures HexTokens(payload, sp)[i] != [] && PyText.NoSpace(HexTokens(payload, sp)[i])
      ensures Separator !in HexTokens(payload, sp)[i]
    {
      var t := Hex.Spell(payload[i], sp);
      assert Hex.IsHexString(t);
    }
  }

  /** The payload field of a formatted row yields the spelled tokens, which
      parse back to the payload values. */
  lemma FormattedPayload(caption: string, payload: seq<nat>, sp: Hex.Spelling)
    requires Separator !in caption
    ensures var field := caption + [Separator] + PyText.JoinSpace(HexTokens(payload, sp));
            && Separator in field
            && PayloadTokens(field) == HexTokens(payload, sp)
            && ParseBytes(HexTokens(payload, sp)) == Some(payload)
  {
    var toks := HexTokens(payload, sp);
    var seg := PyText.JoinSpace(toks);
    var field := caption + [Separator] + seg;
    HexTokensPlain(payload, sp);
    PyText.JoinSpaceAvoids(toks, Separator);
    assert field == caption + [Separator] + seg + [];
    assert field[|caption|] == Separator;
    PyText.SecondPiece(caption, seg, [], Separator);
    PyText.WordsOfStrip(seg);
    PyText.WordsJoinSpace(toks);
    ParseHexTokens(payload, sp);
  }

  /** Parsing the spelled tokens gives back the values. */
  lemma ParseHexTokens(payload: seq<nat>, sp: Hex.Spelling)
    ensures ParseBytes(HexTokens(payload, sp)) == Some(payload)
  {
    var toks := HexTokens(payload, sp);
    forall i | 0 <= i < |toks| ensures Hex.ParseHex(toks[i]) == Some(payload[i]) {
      Hex.ParseSpell(payload[i], sp);
    }
    ParseEachToken(toks, payload);
  }

  /** Tokens that parse one by one to `values` parse as a list to `values`. */
  lemma {:induction false} ParseEachToken(toks: seq<string>, values: seq<nat>)
    requires |toks| == |values|
    requires forall i :: 0 <= i < |toks| ==> Hex.ParseHex(toks[i]) == Some(values[i])
    ensures ParseBytes(toks) == Some(values)
    decreases |toks|
  {
    if toks != [] {
      ParseEachToken(toks[1..], values[1..]);
      assert [values[0]] + values[1..] == values;
    }
  }

  /** Decoding a formatted row of eight values, in any spelling, gives back
      its channel, time stamp and the position of its payload; a frame that is
      not a motor reply is skipped silently, and one whose code overflows
      `float` ends the pass. */
  lemma DecodeFormatRow(time: nat, channel: nat, caption: string, payload: seq<nat>, sp: Hex.Spelling)
    requires Separator !in caption && |payload| == Frame.FrameLength
    ensures DecodeRow(FormatRow(time, channel, caption, payload, sp)) ==
              match Frame.ParsePosition(payload)
              case NoPosition => NotMotorReply
              case TooLarge => Aborted
              case Position(p) => Sample(channel, p, time)
  {
    var row := FormatRow(time, channel, caption, payload, sp);
    FormatRowFields(time, channel, caption, payload, sp);
    assert WellFormed(row) && Payload(row) == Some(payload) by {
      FormattedPayload(caption, payload, sp);
    }
    DecodeParsedRow(row, payload, Hex.Spell(channel, sp), channel, Hex.Spell(time, sp), time);
  }

  /** A well-formed row whose bytes, channel and time stamp all parse decodes
      according to `parse_position` alone. */
  lemma DecodeParsedRow(row: seq<string>, payload: seq<nat>, c: string, channel: nat, t: string, time: nat)
    requires WellFormed(row) && Payload(row) == Some(payload)
    requires row[ChannelField] == c && Hex.ParseHex(c) == Some(channel)
    requires row[TimeField] == t && Hex.ParseHex(t) == Some(time)
    ensures DecodeRow(row) ==
              match Frame.ParsePosition(payload)
              case NoPosition => NotMotorReply
              case TooLarge => Aborted
              case Position(p) => Sample(channel, p, time)
  {
  }

  /** A row as the logger could write it whose byte-2 token spells the
      overflow threshold ends the pass. */
  lemma AbortingRow(time: nat, channel: nat, caption: string, sp: Hex.Spelling)
    requires Separator !in caption
    ensures DecodeRow(FormatRow(time, channel, caption, [1, 0, Frame.FloatLimit, 0, 0, 0, 0, 0], sp)) == Aborted
  {
    Frame.ParsePositionOverflowBoundary();
    DecodeFormatRow(time, channel, caption, [1, 0, Frame.FloatLimit, 0, 0, 0, 0, 0], sp);
  }

  /** A motor reply as the CAN log writes it, bytes as two upper-case digits:
      its channel and time stamp come back, and its position is the
      big-endian value of bytes 1 and 2 de-quantized into the range. */
  lemma DecodeLogRow(time: nat, channel: nat, caption: string, payload: seq<nat>)
    requires Separator !in caption && |payload| == Frame.FrameLength
    requires payload[0] == Frame.MotorReplyTag && payload[1] < 256 && payload[2] < 256
    ensures forall i :: 0 <= i < |payload| && payload[i] < 256 ==>
              |HexTokens(payload, Hex.ByteStyle)[i]| == 2
    ensures var o := DecodeRow(FormatRow(time, channel, caption, payload, Hex.ByteStyle));
            && o.Sample? && o.channel == channel && o.time == time
            && o.position == Dequant.UintToFloat(payload[1] * 256 + payload[2],
                                                 Frame.PositionMin, Frame.PositionMax, Frame.PositionBits)
            && Frame.PositionMin <= o.position <= Frame.PositionMax
  {
    forall i | 0 <= i < |payload| && payload[i] < 256
      ensures |HexTokens(payload, Hex.ByteStyle)[i]| == 2
    {
      Hex.ByteStyleWidth(payload[i]);
    }
    DecodeFormatRow(time, channel, caption, payload, Hex.ByteStyle);
  }
}
