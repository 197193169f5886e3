/**
 * The tensor registration wire format: the message that makes a tensor
 * resident on the accelerator, the message that releases it, and readers
 * that recover every field from the bytes.
 */
module Registration {
  import opened Wire

  /** Element types of a tensor (fastllm's DataType). */
  datatype DataType =
    | Float32 | BFloat16 | Int16 | Int8 | Int4 | Int2 | Bit | Float16 | Int4NoZero | Int4Group

  /** The numeric value of each element type, as stored in the type tag field. */
  function TypeTag(t: DataType): int
  {
    match t
    case Float32 => 0
    case BFloat16 => 1
    case Int16 => 2
    case Int8 => 3
    case Int4 => 4
    case Int2 => 5
    case Bit => 6
    case Float16 => 7
    case Int4NoZero => 8
    case Int4Group => 9
  }

  /** Plain floating-point types: sent as tag and raw bytes. */
  predicate IsFloatType(t: DataType)
  {
    t == Float32 || t == BFloat16 || t == Float16
  }

  /** Quantized types with one (min, max) range per channel. */
  predicate IsPerChannelType(t: DataType)
  {
    t == Int8 || t == Int4 || t == Int4NoZero
  }

  predicate IsFloatTag(tag: int)
  {
    tag == TypeTag(Float32) || tag == TypeTag(BFloat16) || tag == TypeTag(Float16)
  }

  predicate IsPerChannelTag(tag: int)
  {
    tag == TypeTag(Int8) || tag == TypeTag(Int4) || tag == TypeTag(Int4NoZero)
  }

  /** The tag alone tells which section layout follows it. */
  lemma TagDeterminesLayout(t: DataType)
    ensures IsFloatTag(TypeTag(t)) <==> IsFloatType(t)
    ensures IsPerChannelTag(TypeTag(t)) <==> IsPerChannelType(t)
    ensures TypeTag(t) == TypeTag(Int4Group) <==> t == Int4Group
  {
  }

  /**
   * The tensor as the client sees it (fastllm's Data): its name, its shape,
   * its element type, the quantization parameters, the bytes that
   * GetBytes() counts, and whether its `cpuData` address is non-null.
   */
  datatype Data = Data(
    name: Bytes,
    dims: seq<int>,
    dataType: DataType,
    perChannelAxis: int,
    group: int,
    groupCnt: int,
    perChannelsConfigs: seq<Range>,
    cpuData: Bytes,
    hasCpuData: bool)

  /** The quantization axis is "none" (-1) or names a dimension. */
  predicate AxisValid(axis: int, dims: seq<int>)
  {
    axis == -1 || 0 <= axis < |dims|
  }

  /** Number of channels: the size along the axis, or 1 when the axis is "none". */
  function ChannelCount(axis: int, dims: seq<int>): int
    requires AxisValid(axis, dims)
  {
    if axis == -1 then 1 else dims[axis]
  }

  /** The number of iterations of a `for (i = 0; i < count; i++)` loop. */
  function Iterations(count: int): nat
  {
    if count < 0 then 0 else count
  }

  /** How many (min, max) pairs a grouped section carries: one per (channel, group). */
  function GroupedRangeCount(axis: int, group: int, dims: seq<int>): nat
    requires AxisValid(axis, dims)
  {
    Iterations(ChannelCount(axis, dims) * group)
  }

  /** The tensor has everything its registration reads: a valid axis and enough ranges. */
  predicate Registrable(d: Data)
  {
    (IsPerChannelType(d.dataType) ==>
      AxisValid(d.perChannelAxis, d.dims) &&
      Iterations(ChannelCount(d.perChannelAxis, d.dims)) <= |d.perChannelsConfigs|) &&
    (d.dataType == Int4Group ==>
      AxisValid(d.perChannelAxis, d.dims) &&
      GroupedRangeCount(d.perChannelAxis, d.group, d.dims) <= |d.perChannelsConfigs|)
  }

  /** Every integer field of the tensor fits the C `int` it is stored in. */
  predicate FieldsInt32(d: Data)
  {
    AllInt32(d.dims) && IsInt32(|d.dims|) &&
    IsInt32(d.perChannelAxis) && IsInt32(d.group) && IsInt32(d.groupCnt)
  }

  /** The type-tagged part of a registration message, after the dimensions. */
  datatype Section =
    | Plain(tag: int, raw: Bytes)
    | PerChannel(tag: int, axis: int, ranges: seq<Range>, raw: Bytes)
    | Grouped(tag: int, axis: int, group: int, groupCnt: int, ranges: seq<Range>, raw: Bytes)
    | Untyped

  /** The decoded content of a registration message. */
  datatype Registration = Registration(config: Bytes, dims: seq<int>, section: Section)

  /** The section a tensor is registered with, by element type. */
  function SectionOf(d: Data): (s: Section)
    requires Registrable(d)
    ensures IsFloatType(d.dataType) <==> s.Plain?
    ensures IsPerChannelType(d.dataType) <==> s.PerChannel?
    ensures d.dataType == Int4Group <==> s.Grouped?
    ensures s.PerChannel? ==> |s.ranges| == Iterations(ChannelCount(d.perChannelAxis, d.dims))
    ensures s.Grouped? ==> |s.ranges| == GroupedRangeCount(d.perChannelAxis, d.group, d.dims)
    ensures !s.Untyped? ==> s.raw == d.cpuData && s.tag == TypeTag(d.dataType)
  {
    var t := d.dataType;
    if IsFloatType(t) then Plain(TypeTag(t), d.cpuData)
    else if IsPerChannelType(t) then
      var k := Iterations(ChannelCount(d.perChannelAxis, d.dims));
      PerChannel(TypeTag(t), d.perChannelAxis, d.perChannelsConfigs[..k], d.cpuData)
    else if t == Int4Group then
      var k := GroupedRangeCount(d.perChannelAxis, d.group, d.dims);
      Grouped(TypeTag(t), d.perChannelAxis, d.group, d.groupCnt, d.perChannelsConfigs[..k], d.cpuData)
    else Untyped
  }

  function EncodeSection(s: Section): Bytes
  {
    match s
    case Plain(tag, raw) => EncodeInt32(tag) + raw
    case PerChannel(tag, axis, ranges, raw) =>
      EncodeInt32(tag) + EncodeInt32(axis) + EncodeRanges(ranges) + raw
    case Grouped(tag, axis, group, groupCnt, ranges, raw) =>
      EncodeInt32(tag) + EncodeInt32(axis) + EncodeInt32(group) + EncodeInt32(groupCnt) +
      EncodeRanges(ranges) + raw
    case Untyped => []
  }

  /** The head every registration message starts with: config length, config, dimension count, dimensions. */
  function RegistrationHead(config: Bytes, dims: seq<int>): Bytes
  {
    EncodeInt32(|config|) + config + EncodeInt32(|dims|) + EncodeInts(dims)
  }

  /** The raw tensor bytes a section ends with: none for an untyped tensor. */
  function SectionRaw(s: Section): Bytes
  {
    if s.Untyped? then [] else s.raw
  }

  /** The fields a section writes before its raw bytes. */
  function SectionFields(s: Section): (f: Bytes)
    ensures EncodeSection(s) == f + SectionRaw(s)
  {
    match s
    case Plain(tag, raw) => EncodeInt32(tag)
    case PerChannel(tag, axis, ranges, raw) =>
      EncodeInt32(tag) + EncodeInt32(axis) + EncodeRanges(ranges)
    case Grouped(tag, axis, group, groupCnt, ranges, raw) =>
      EncodeInt32(tag) + EncodeInt32(axis) + EncodeInt32(group) + EncodeInt32(groupCnt) + EncodeRanges(ranges)
    case Untyped => []
  }

  function EncodeRegistration(r: Registration): Bytes
  {
    RegistrationHead(r.config, r.dims) + EncodeSection(r.section)
  }

  // The fixed text around the string members of the two JSON configs.
  const CONFIG_OPEN: Bytes := Ascii("{\"dataName\": \"")
  const REGISTER_MIDDLE: Bytes := Ascii("\", \"op\": \"registerData\", \"weightType\": \"")
  const REGISTER_CLOSE: Bytes := Ascii("\"}")
  const UNREGISTER_CLOSE: Bytes := Ascii("\", \"op\": \"unregisterData\"}")

  /** The JSON text json11 renders for an object with the given string members, keys in sorted order. */
  function RegisterConfig(name: Bytes, weightType: Bytes): Bytes
  {
    CONFIG_OPEN + name + REGISTER_MIDDLE + weightType + REGISTER_CLOSE
  }

  function UnregisterConfig(name: Bytes): Bytes
  {
    CONFIG_OPEN + name + UNREGISTER_CLOSE
  }

  /** The registration message for tensor `d` in role `weightType`. */
  function RegistrationPayload(d: Data, weightType: Bytes): Bytes
    requires Registrable(d)
  {
    EncodeRegistration(Registration(RegisterConfig(d.name, weightType), d.dims, SectionOf(d)))
  }

  /**
   * Where the raw tensor bytes start in the registration message: after
   * the head and the section's other fields, which is the buffer's size
   * when WriteBytes is reached.
   */
  function RawOffset(d: Data, weightType: Bytes): nat
    requires Registrable(d)
  {
    |RegistrationHead(RegisterConfig(d.name, weightType), d.dims)| + |SectionFields(SectionOf(d))|
  }

  /** The registration message ends with the raw tensor bytes, which start at byte `RawOffset`. */
  lemma PayloadEndsWithRaw(d: Data, weightType: Bytes)
    requires Registrable(d)
    ensures |RegistrationPayload(d, weightType)| == RawOffset(d, weightType) + |SectionRaw(SectionOf(d))|
    ensures RegistrationPayload(d, weightType)[RawOffset(d, weightType)..] == SectionRaw(SectionOf(d))
    ensures !SectionOf(d).Untyped? ==> SectionRaw(SectionOf(d)) == d.cpuData
  {
    var head := RegistrationHead(RegisterConfig(d.name, weightType), d.dims);
    var s := SectionOf(d);
    assert RegistrationPayload(d, weightType) == head + SectionFields(s) + SectionRaw(s);
  }

  /** The unregistration message: just the length-prefixed config. */
  function UnregisterPayload(name: Bytes): (b: Bytes)
    ensures |b| == 4 + |UnregisterConfig(name)|
  {
    EncodeInt32(|UnregisterConfig(name)|) + UnregisterConfig(name)
  }

  /** A tensor whose registration message fits an `int` has an unregistration message that fits one too. */
  lemma UnregisterFitsWhenRegistered(d: Data, weightType: Bytes)
    requires Registrable(d) && IsInt32(|RegistrationPayload(d, weightType)|)
    ensures IsInt32(|UnregisterPayload(d.name)|)
  {
    PayloadEndsWithRaw(d, weightType);
  }

  // ---- The accelerator's side: reading the messages back ----

  function DecodeSection(b: Bytes, dims: seq<int>): Option<Section>
  {
    if b == [] then Some(Untyped)
    else
      var r0 :- ReadInt32(b);
      var tag := r0.0;
      if IsFloatTag(tag) then Some(Plain(tag, r0.1))
      else if IsPerChannelTag(tag) then
        var r1 :- ReadInt32(r0.1);
        var axis := r1.0;
        if !AxisValid(axis, dims) then None
        else
          var r2 :- ReadRanges(r1.1, Iterations(ChannelCount(axis, dims)));
          Some(PerChannel(tag, axis, r2.0, r2.1))
      else if tag == TypeTag(Int4Group) then
        var r1 :- ReadInt32(r0.1);
        var r2 :- ReadInt32(r1.1);
        var r3 :- ReadInt32(r2.1);
        var axis := r1.0;
        if !AxisValid(axis, dims) then None
        else
          var r4 :- ReadRanges(r3.1, GroupedRangeCount(axis, r2.0, dims));
          Some(Grouped(tag, axis, r2.0, r3.0, r4.0, r4.1))
      else None
  }

  function DecodeRegistration(b: Bytes): Option<Registration>
  {
    var r0 :- ReadInt32(b);
    var r1 :- ReadBytes(r0.1, r0.0);
    var r2 :- ReadInt32(r1.1);
    if r2.0 < 0 then None
    else
      var r3 :- ReadInts(r2.1, r2.0);
      var section :- DecodeSection(r3.1, r3.0);
      Some(Registration(r1.0, r3.0, section))
  }

  /** What the accelerator reads from a message that holds only a length-prefixed config. */
  function DecodeConfigMessage(b: Bytes): Option<Bytes>
  {
    var r0 :- ReadInt32(b);
    var r1 :- ReadBytes(r0.1, r0.0);
    if r1.1 == [] then Some(r1.0) else None
  }

  /** A section whose fields are in range and whose range count matches its axis. */
  predicate SectionWellFormed(s: Section, dims: seq<int>)
  {
    match s
    case Plain(tag, _) => IsFloatTag(tag)
    case PerChannel(tag, axis, ranges, _) =>
      IsPerChannelTag(tag) && IsInt32(axis) && AxisValid(axis, dims) &&
      |ranges| == Iterations(ChannelCount(axis, dims))
    case Grouped(tag, axis, group, groupCnt, ranges, _) =>
      tag == TypeTag(Int4Group) && IsInt32(axis) && IsInt32(group) && IsInt32(groupCnt) &&
      AxisValid(axis, dims) && |ranges| == GroupedRangeCount(axis, group, dims)
    case Untyped => true
  }

  predicate WellFormed(r: Registration)
  {
    IsInt32(|r.config|) && IsInt32(|r.dims|) && AllInt32(r.dims) && SectionWellFormed(r.section, r.dims)
  }

  lemma DecodeEncodePerChannel(tag: int, axis: int, ranges: seq<Range>, raw: Bytes, dims: seq<int>)
    requires SectionWellFormed(PerChannel(tag, axis, ranges, raw), dims)
    ensures DecodeSection(EncodeSection(PerChannel(tag, axis, ranges, raw)), dims) == Some(PerChannel(tag, axis, ranges, raw))
  {
    var tail := EncodeRanges(ranges) + raw;
    var b := EncodeSection(PerChannel(tag, axis, ranges, raw));
    assert b == EncodeInt32(tag) + (EncodeInt32(axis) + tail);
    ReadEncodedInt32(tag, EncodeInt32(axis) + tail);
    ReadEncodedInt32(axis, tail);
    ReadEncodedRanges(ranges, raw);
  }

  lemma DecodeEncodeGrouped(tag: int, axis: int, group: int, groupCnt: int, ranges: seq<Range>, raw: Bytes, dims: seq<int>)
    requires SectionWellFormed(Grouped(tag, axis, group, groupCnt, ranges, raw), dims)
    ensures DecodeSection(EncodeSection(Grouped(tag, axis, group, groupCnt, ranges, raw)), dims)
      == Some(Grouped(tag, axis, group, groupCnt, ranges, raw))
  {
    var tail := EncodeRanges(ranges) + raw;
    var t3 := EncodeInt32(groupCnt) + tail;
    var t2 := EncodeInt32(group) + t3;
    var t1 := EncodeInt32(axis) + t2;
    var b := EncodeSection(Grouped(tag, axis, group, groupCnt, ranges, raw));
    assert b == EncodeInt32(tag) + t1;
    ReadEncodedInt32(tag, t1);
    ReadEncodedInt32(axis, t2);
    ReadEncodedInt32(group, t3);
    ReadEncodedInt32(groupCnt, tail);
    ReadEncodedRanges(ranges, raw);
  }

  lemma DecodeEncodeSection(s: Section, dims: seq<int>)
    requires SectionWellFormed(s, dims)
    ensures DecodeSection(EncodeSection(s), dims) == Some(s)
  {
    match s
    case Plain(tag, raw) =>
      ReadEncodedInt32(tag, raw);
    case PerChannel(tag, axis, ranges, raw) =>
      DecodeEncodePerChannel(tag, axis, ranges, raw, dims);
    case Grouped(tag, axis, group, groupCnt, ranges, raw) =>
      DecodeEncodeGrouped(tag, axis, group, groupCnt, ranges, raw, dims);
    case Untyped =>
  }

  /** Reading a well-formed registration message gives back every field that was written. */
  lemma DecodeEncodeRegistration(r: Registration)
    requires WellFormed(r)
    ensures DecodeRegistration(EncodeRegistration(r)) == Some(r)
  {
    var sec := EncodeSection(r.section);
    var b := EncodeRegistration(r);
    assert b == EncodeInt32(|r.config|) + (r.config + (EncodeInt32(|r.dims|) + (EncodeInts(r.dims) + sec)));
    ReadEncodedInt32(|r.config|, r.config + (EncodeInt32(|r.dims|) + (EncodeInts(r.dims) + sec)));
    ReadWrittenBytes(r.config, EncodeInt32(|r.dims|) + (EncodeInts(r.dims) + sec));
    ReadEncodedInt32(|r.dims|, EncodeInts(r.dims) + sec);
    ReadEncodedInts(r.dims, sec);
    DecodeEncodeSection(r.section, r.dims);
  }

  /**
   * The accelerator recovers from a tensor's registration message its config,
   * its shape and its type-tagged section: tag and raw bytes for float types,
   * exactly one range per channel for per-channel types, exactly
   * channels * group ranges for the grouped type, nothing for other types.
   */
  lemma RegistrationRoundTrip(d: Data, weightType: Bytes)
    requires Registrable(d) && FieldsInt32(d)
    requires IsInt32(|RegisterConfig(d.name, weightType)|)
    ensures DecodeRegistration(RegistrationPayload(d, weightType)) ==
      Some(Registration(RegisterConfig(d.name, weightType), d.dims, SectionOf(d)))
  {
    var r := Registration(RegisterConfig(d.name, weightType), d.dims, SectionOf(d));
    TagDeterminesLayout(d.dataType);
    assert WellFormed(r);
    DecodeEncodeRegistration(r);
  }

  /** The accelerator reads back the exact config text from an unregistration message. */
  lemma UnregisterRoundTrip(name: Bytes)
    requires IsInt32(|UnregisterConfig(name)|)
    ensures DecodeConfigMessage(UnregisterPayload(name)) == Some(UnregisterConfig(name))
  {
    var cfg := UnregisterConfig(name);
    ReadEncodedInt32(|cfg|, cfg);
    ReadWrittenBytes(cfg, []);
    assert cfg + [] == cfg;
  }

  /** Different names give different unregistration messages. */
  lemma UnregisterPayloadInjective(a: Bytes, b: Bytes)
    requires UnregisterPayload(a) == UnregisterPayload(b)
    ensures a == b
  {
    var pre, post := CONFIG_OPEN, UNREGISTER_CLOSE;
    var ca, cb := UnregisterConfig(a), UnregisterConfig(b);
    assert ca == pre + a + post;
    assert cb == pre + b + post;
    assert UnregisterPayload(a)[4..] == ca;
    assert UnregisterPayload(b)[4..] == cb;
    assert |a| == |b|;
    assert ca[|pre| .. |pre| + |a|] == a;
    assert cb[|pre| .. |pre| + |b|] == b;
  }
}
