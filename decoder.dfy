/**
 * The decoder of completed messages (print_message): the little-endian
 * 32-bit word at offset 4 is the message's tag; seven tags have a fixed
 * layout whose fields are read at fixed offsets, and everything else is
 * handed back whole for a hex dump.
 */
module Decoder {
  import opened Bytes

  /** The seven message types the decoder knows. */
  datatype MessageType =
    | PresetChangedType
    | SetlistType
    | PresetIndexType
    | PedalType
    | TempoType
    | PresetNameType
    | FootswitchType

  /** What a completed message means. Pedal and tempo values are kept as the raw word of their float. */
  datatype Event =
    | PresetChanged
    | SetlistSelected(setlist: nat)
    | PresetSelected(preset: nat)
    | PedalValue(pedalWord: nat)
    | TempoValue(tempoWord: nat)
    | PresetName(rawName: seq<byte>)
    | FootswitchState(footswitch: nat, enabled: bool)
    | Unrecognized(raw: seq<byte>)

  const TagOffset: nat := 4
  const IndexOffset: nat := 8
  const FootswitchIndexOffset: nat := 12
  const FootswitchStateOffset: nat := 16
  const PedalOffset: nat := 16
  const TempoOffset: nat := 20
  const NameOffset: nat := 8
  const NameLength: nat := 16

  datatype Option<T> = None | Some(value: T)

  /**
   * The layout table: the tag of each message type. Every tag is a 32-bit
   * word whose low three bytes are 00 40 00; the types differ in the top byte.
   */
  function TagOf(t: MessageType): (tag: nat)
    ensures tag < U32Limit && tag % 0x100_0000 == 0x4000
  {
    match t
    case PresetChangedType => 0x23004000
    case SetlistType => 0x2c004000
    case PresetIndexType => 0x27004000
    case PedalType => 0x35004000
    case TempoType => 0x16004000
    case PresetNameType => 0x01004000
    case FootswitchType => 0x13004000
  }

  /** The layout table: how many bytes a message of each type needs so that all its fields are present. */
  function FieldsEnd(t: MessageType): (n: nat)
    ensures 8 <= n <= NameOffset + NameLength && n % 4 == 0
  {
    match t
    case PresetChangedType => 8
    case SetlistType => IndexOffset + 4
    case PresetIndexType => IndexOffset + 4
    case PedalType => PedalOffset + 4
    case TempoType => TempoOffset + 4
    case PresetNameType => NameOffset + NameLength
    case FootswitchType => FootswitchStateOffset + 4
  }

  /** The type a tag stands for, if it is one of the seven. */
  function TypeOfTag(tag: nat): (r: Option<MessageType>)
    ensures r.Some? ==> TagOf(r.value) == tag
    ensures r.None? ==> forall t: MessageType :: TagOf(t) != tag
  {
    if tag == 0x23004000 then Some(PresetChangedType)
    else if tag == 0x2c004000 then Some(SetlistType)
    else if tag == 0x27004000 then Some(PresetIndexType)
    else if tag == 0x35004000 then Some(PedalType)
    else if tag == 0x16004000 then Some(TempoType)
    else if tag == 0x01004000 then Some(PresetNameType)
    else if tag == 0x13004000 then Some(FootswitchType)
    else None
  }

  /** The tag of a message of at least 8 bytes. */
  function Tag(m: seq<byte>): nat
    requires |m| >= 8
  {
    U32Le(m, TagOffset)
  }

  /**
   * print_message's decision. A message shorter than 8 bytes, one with an
   * unknown tag, and one too short for the fields of its tag are all
   * Unrecognized and carry the whole message.
   */
  function Decode(m: seq<byte>): (e: Event)
    ensures e.Unrecognized? ==> e.raw == m
    ensures !e.Unrecognized? ==> |m| >= 8 && TypeOfTag(Tag(m)) == Some(TypeOf(e))
  {
    if |m| < 8 then Unrecognized(m)
    else match TypeOfTag(Tag(m))
      case None => Unrecognized(m)
      case Some(t) =>
        if |m| < FieldsEnd(t) then Unrecognized(m)
        else match t
          case PresetChangedType => PresetChanged
          case SetlistType => SetlistSelected(U32Le(m, IndexOffset))
          case PresetIndexType => PresetSelected(U32Le(m, IndexOffset))
          case PedalType => PedalValue(U32Le(m, PedalOffset))
          case TempoType => TempoValue(U32Le(m, TempoOffset))
          case PresetNameType => PresetName(m[NameOffset .. NameOffset + NameLength])
          case FootswitchType =>
            FootswitchState(U32Le(m, FootswitchIndexOffset), U32Le(m, FootswitchStateOffset) != 0)
  }

  /** The message type of a recognized event. */
  function TypeOf(e: Event): MessageType
    requires !e.Unrecognized?
  {
    match e
    case PresetChanged => PresetChangedType
    case SetlistSelected(_) => SetlistType
    case PresetSelected(_) => PresetIndexType
    case PedalValue(_) => PedalType
    case TempoValue(_) => TempoType
    case PresetName(_) => PresetNameType
    case FootswitchState(_, _) => FootswitchType
  }

  /**
   * The decoder falls back to a dump exactly when the message is under 8
   * bytes, its tag is none of the seven, or it is too short for its fields.
   */
  lemma DecodeUnrecognizedIff(m: seq<byte>)
    ensures Decode(m).Unrecognized? <==>
      |m| < 8 || TypeOfTag(Tag(m)).None? || |m| < FieldsEnd(TypeOfTag(Tag(m)).value)
  {
  }

  /** The fields of a recognized message come from these offsets. */
  lemma DecodeFields(m: seq<byte>)
    requires !Decode(m).Unrecognized?
    ensures |m| >= FieldsEnd(TypeOf(Decode(m)))
    ensures Decode(m).SetlistSelected? ==> Decode(m).setlist == U32Le(m, 8)
    ensures Decode(m).PresetSelected? ==> Decode(m).preset == U32Le(m, 8)
    ensures Decode(m).PedalValue? ==> Decode(m).pedalWord == U32Le(m, 16)
    ensures Decode(m).TempoValue? ==> Decode(m).tempoWord == U32Le(m, 20)
    ensures Decode(m).PresetName? ==> Decode(m).rawName == m[8..24]
    ensures Decode(m).FootswitchState? ==>
      Decode(m).footswitch == U32Le(m, 12) && (Decode(m).enabled <==> U32Le(m, 16) != 0)
  {
  }

  /** The name printed for a preset: the raw name up to its first NUL byte. */
  function VisibleName(raw: seq<byte>): (v: seq<byte>)
    ensures |v| <= |raw| && v == raw[..|v|]
    ensures forall i :: 0 <= i < |v| ==> v[i] != 0
    ensures |v| < |raw| ==> raw[|v|] == 0
  {
    if raw == [] || raw[0] == 0 then [] else [raw[0]] + VisibleName(raw[1..])
  }

  /** A preset name is never longer than 16 bytes. */
  lemma VisibleNameBound(m: seq<byte>)
    requires Decode(m).PresetName?
    ensures |Decode(m).rawName| == NameLength
    ensures |VisibleName(Decode(m).rawName)| <= NameLength
  {
  }

  // ---- the partner of the decoder: the canonical message of an event ----

  /** The events the device can send: 32-bit fields and a 16-byte name. */
  predicate WellFormed(e: Event)
  {
    match e
    case PresetChanged => true
    case SetlistSelected(i) => i < U32Limit
    case PresetSelected(i) => i < U32Limit
    case PedalValue(w) => w < U32Limit
    case TempoValue(w) => w < U32Limit
    case PresetName(n) => |n| == NameLength
    case FootswitchState(i, _) => i < U32Limit
    case Unrecognized(_) => false
  }

  /**
   * A message of the given tag with the given body after the tag, headed by
   * its length in 32-bit words after the first (bytes 2 and 3 of the header
   * are zero here).
   */
  function Assemble(tag: nat, body: seq<byte>): (m: seq<byte>)
    requires tag < U32Limit
    requires |body| % 4 == 0 && |body| < 4 * (U16Limit - 1)
    ensures |m| == 8 + |body|
    ensures U16Le(m, 0) * 4 + 4 == |m|
    ensures U32Le(m, TagOffset) == tag
    ensures m[8..] == body
  {
    var m := EncodeU16(1 + |body| / 4) + [0, 0] + EncodeU32(tag) + body;
    assert m[0..2] == EncodeU16(1 + |body| / 4);
    U16RoundTrip(1 + |body| / 4);
    assert U16Le(m, 0) == U16Le(m[0..2], 0);
    U32RoundTrip(tag);
    U32LeWindow(m, EncodeU32(tag), TagOffset, 0);
    m
  }

  /** The canonical message for an event, padding bytes zero. */
  function Encode(e: Event): (m: seq<byte>)
    requires WellFormed(e)
    ensures |m| >= 8 && U32Le(m, TagOffset) == TagOf(TypeOf(e))
    ensures |m| == FieldsEnd(TypeOf(e))
    ensures U16Le(m, 0) * 4 + 4 == |m|
  {
    match e
    case PresetChanged => Assemble(TagOf(PresetChangedType), [])
    case SetlistSelected(i) => Assemble(TagOf(SetlistType), EncodeU32(i))
    case PresetSelected(i) => Assemble(TagOf(PresetIndexType), EncodeU32(i))
    case PedalValue(w) => Assemble(TagOf(PedalType), Zeros(8) + EncodeU32(w))
    case TempoValue(w) => Assemble(TagOf(TempoType), Zeros(12) + EncodeU32(w))
    case PresetName(n) => Assemble(TagOf(PresetNameType), n)
    case FootswitchState(i, en) =>
      Assemble(TagOf(FootswitchType), Zeros(4) + EncodeU32(i) + EncodeU32(if en then 1 else 0))
  }

  /** Decoding the canonical message of a well-formed event gives back the event. */
  lemma DecodeEncode(e: Event)
    requires WellFormed(e)
    ensures Decode(Encode(e)) == e
  {
    match e
    case PresetChanged =>
    case SetlistSelected(i) => IndexRoundTrip(e, i);
    case PresetSelected(i) => IndexRoundTrip(e, i);
    case PedalValue(w) => PedalRoundTrip(w);
    case TempoValue(w) => TempoRoundTrip(w);
    case PresetName(n) => NameRoundTrip(n);
    case FootswitchState(i, en) => FootswitchRoundTrip(i, en);
  }

  lemma IndexRoundTrip(e: Event, i: nat)
    requires e == SetlistSelected(i) || e == PresetSelected(i)
    requires i < U32Limit
    ensures Decode(Encode(e)) == e
  {
    var m := Encode(e);
    FieldRoundTrip(m, m[8..], 0, i);
  }

  lemma PedalRoundTrip(w: nat)
    requires w < U32Limit
    ensures Decode(Encode(PedalValue(w))) == PedalValue(w)
  {
    var m := Encode(PedalValue(w));
    var body := m[8..];
    assert body[8..12] == EncodeU32(w);
    FieldRoundTrip(m, body, 8, w);
  }

  lemma TempoRoundTrip(w: nat)
    requires w < U32Limit
    ensures Decode(Encode(TempoValue(w))) == TempoValue(w)
  {
    var m := Encode(TempoValue(w));
    var body := m[8..];
    assert body[12..16] == EncodeU32(w);
    FieldRoundTrip(m, body, 12, w);
  }

  lemma NameRoundTrip(n: seq<byte>)
    requires |n| == NameLength
    ensures Decode(Encode(PresetName(n))) == PresetName(n)
  {
    var m := Encode(PresetName(n));
    assert m[NameOffset .. NameOffset + NameLength] == n;
  }

  lemma FootswitchRoundTrip(i: nat, en: bool)
    requires i < U32Limit
    ensures Decode(Encode(FootswitchState(i, en))) == FootswitchState(i, en)
  {
    var b := if en then 1 else 0;
    var body := Zeros(4) + EncodeU32(i) + EncodeU32(b);
    var m := Encode(FootswitchState(i, en));
    assert m == Assemble(TagOf(FootswitchType), body);
    assert U32Le(m, FootswitchIndexOffset) == i by {
      assert body[4..8] == EncodeU32(i);
      FieldRoundTrip(m, body, 4, i);
    }
    assert U32Le(m, FootswitchStateOffset) == b by {
      assert body[8..12] == EncodeU32(b);
      FieldRoundTrip(m, body, 8, b);
    }
  }

  /** A word placed at body offset k is read back at message offset 8 + k. */
  lemma FieldRoundTrip(m: seq<byte>, body: seq<byte>, k: nat, v: nat)
    requires v < U32Limit
    requires |m| == 8 + |body| && m[8..] == body
    requires k + 4 <= |body| && body[k .. k + 4] == EncodeU32(v)
    ensures U32Le(m, 8 + k) == v
  {
    assert m[8 + k .. 8 + k + 4] == body[k .. k + 4];
    U32LeWindow(m, EncodeU32(v), 8 + k, 0);
    U32RoundTrip(v);
  }
}
