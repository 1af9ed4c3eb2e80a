/**
 The layered snapshot file (runtime/src/snapshot.rs): magic, version, one frame per stratum,
 and a CRC-32 trailer over everything before it.
 */
module Snapshot {
  import opened Prelude
  import opened Crc
  import opened Framing
  import opened Octet
  import opened Capabilities
  import Json

  const MAGIC: seq<Byte> := [0x42, 0x55, 0x41, 0x53, 0x4E, 0x41, 0x50, 0x02]
  const FORMAT_VERSION: nat := 2
  const MAGIC_BYTES: nat := 8
  const HEAD_BYTES: nat := 10
  const TRAILER_BYTES: nat := 4

  const HEADER_TAG: nat := 0
  const VM_TAG: nat := 1
  const CAPABILITY_TAG: nat := 2
  const TRACE_TAG: nat := 3
  const TOOL_TAG: nat := 4
  const SCHEDULER_TAG: nat := 5
  const MEMORY_TAG: nat := 6

  datatype SnapshotHeader = SnapshotHeader(
    executionId: string, timestampUs: nat, formatVersion: nat, snapshotLabel: Option<string>)

  datatype VmStratum = VmStratum(heapBytes: seq<Byte>, jscVersion: string)

  datatype CapabilityStratum = CapabilityStratum(capabilities: CapabilitySet, generation: nat)

  datatype TraceStratum = TraceStratum(ndjson: string, eventCount: nat)

  datatype ToolCallRecord = ToolCallRecord(
    sequence: nat, name: string, argsJson: string, resultJson: string, durationUs: nat, wasError: bool)

  datatype ToolStratum = ToolStratum(callLog: seq<ToolCallRecord>)

  datatype SchedulerStratum = SchedulerStratum(childAgentIds: seq<string>, pendingTaskCount: nat)

  datatype MemoryStratum = MemoryStratum(entries: map<string, Json.Value>, namespace: string)

  datatype LayeredSnapshot = LayeredSnapshot(
    header: Option<SnapshotHeader>,
    vm: Option<VmStratum>,
    capability: Option<CapabilityStratum>,
    trace: Option<TraceStratum>,
    tool: Option<ToolStratum>,
    scheduler: Option<SchedulerStratum>,
    memory: Option<MemoryStratum>)

  const EMPTY_SNAPSHOT := LayeredSnapshot(None, None, None, None, None, None, None)

  datatype SerializeError = SerializeError(message: string)

  datatype RestoreError =
    | TooShort
    | InvalidMagic
    | CrcMismatch(stored: bv32, computed: bv32)
    | UnsupportedVersion(version: nat)
    | StratumOverflow

  // ---------- The payload codec, a parameter ----------

  /** How one kind of payload is written and read; writing may fail, and so may reading. */
  datatype Codec<!T> = Codec(write: T -> Result<seq<Byte>, SerializeError>, read: seq<Byte> -> Option<T>) {
    ghost predicate ReadsBack(x: T) {
      write(x).Success? ==> read(write(x).value) == Some(x)
    }
  }

  /** The header is written as an optional value, so that its absence has bytes of its own. */
  datatype Codecs = Codecs(
    header: Codec<SnapshotHeader>,
    noHeader: seq<Byte>,
    vm: Codec<VmStratum>,
    capability: Codec<CapabilityStratum>,
    trace: Codec<TraceStratum>,
    tool: Codec<ToolStratum>,
    scheduler: Codec<SchedulerStratum>,
    memory: Codec<MemoryStratum>)
  {
    /** Whatever can be written reads back as itself, and a missing header as no header. */
    ghost predicate Invertible() {
      && (forall x :: header.ReadsBack(x))
      && header.read(noHeader) == None
      && (forall x :: vm.ReadsBack(x))
      && (forall x :: capability.ReadsBack(x))
      && (forall x :: trace.ReadsBack(x))
      && (forall x :: tool.ReadsBack(x))
      && (forall x :: scheduler.ReadsBack(x))
      && (forall x :: memory.ReadsBack(x))
    }

    function WriteHeader(h: Option<SnapshotHeader>): Result<seq<Byte>, SerializeError> {
      match h
      case None => Success(noHeader)
      case Some(header') => header.write(header')
    }
  }

  // ---------- Writing ----------

  function Frames<T>(tag: nat, codec: Codec<T>, stratum: Option<T>): Result<seq<Frame>, SerializeError> {
    if stratum.None? then Success([])
    else
      var payload :- codec.write(stratum.value);
      Success([Frame(tag, payload)])
  }

  /** The frames of a snapshot: the header always, then the strata that are present, by tag. */
  function SnapshotFrames(c: Codecs, s: LayeredSnapshot): Result<seq<Frame>, SerializeError> {
    var header :- c.WriteHeader(s.header);
    var vm :- Frames(VM_TAG, c.vm, s.vm);
    var capability :- Frames(CAPABILITY_TAG, c.capability, s.capability);
    var trace :- Frames(TRACE_TAG, c.trace, s.trace);
    var tool :- Frames(TOOL_TAG, c.tool, s.tool);
    var scheduler :- Frames(SCHEDULER_TAG, c.scheduler, s.scheduler);
    var memory :- Frames(MEMORY_TAG, c.memory, s.memory);
    Success([Frame(HEADER_TAG, header)] + vm + capability + trace + tool + scheduler + memory)
  }

  function Seal(body: seq<Byte>): seq<Byte> {
    body + WordBytes(Crc32(body))
  }

  // The trailer is written and read as a word; it is the little-endian number of the other fields.

  lemma ByteAndRest(a: Byte, v: bv32)
    requires v < 0x100_0000
    ensures ((a as bv32) | (v << 8)) as int == ByteValue(a) + 256 * (v as int)
  {
  }

  lemma NestedWord(a: Byte, b: Byte, c: Byte, d: Byte)
    ensures
      var w := (c as bv32) | ((d as bv32) << 8);
      var v := (b as bv32) | (w << 8);
      && w < 0x1_0000 && v < 0x100_0000 && BytesWord(a, b, c, d) == (a as bv32) | (v << 8)
  {
  }

  lemma WidenedValue(d: Byte)
    ensures (d as bv32) as int == ByteValue(d) && (d as bv32) < 0x100
  {
  }

  lemma FourByteValue(a: Byte, b: Byte, c: Byte, d: Byte)
    ensures LittleEndianValue([a, b, c, d])
         == ByteValue(a) + 256 * (ByteValue(b) + 256 * (ByteValue(c) + 256 * ByteValue(d)))
  {
    assert [a, b, c, d][1..] == [b, c, d] && [b, c, d][1..] == [c, d];
    assert [c, d][1..] == [d] && [d][1..] == [];
    assert LittleEndianValue([d]) == ByteValue(d);
    assert LittleEndianValue([c, d]) == ByteValue(c) + 256 * ByteValue(d);
  }

  /** A word put together from its highest byte down, each time one byte below what is there. */
  lemma WordValue(a: Byte, b: Byte, c: Byte, d: Byte, high: bv32, middle: bv32, word: bv32)
    requires high as int == ByteValue(c) + 256 * ByteValue(d)
    requires middle as int == ByteValue(b) + 256 * (high as int)
    requires word as int == ByteValue(a) + 256 * (middle as int)
    ensures word as int == LittleEndianValue([a, b, c, d])
  {
    FourByteValue(a, b, c, d);
  }

  lemma WordIsLittleEndianValue(a: Byte, b: Byte, c: Byte, d: Byte)
    ensures BytesWord(a, b, c, d) as int == LittleEndianValue([a, b, c, d])
  {
    NestedWord(a, b, c, d);
    WidenedValue(d);
    var w := (c as bv32) | ((d as bv32) << 8);
    var v := (b as bv32) | (w << 8);
    ByteAndRest(c, d as bv32);
    ByteAndRest(b, w);
    ByteAndRest(a, v);
    WordValue(a, b, c, d, w, v, BytesWord(a, b, c, d));
  }

  lemma WordBytesAreLittleEndian(v: bv32)
    ensures WordBytes(v) == LittleEndian(v as int, LENGTH_BYTES)
  {
    var s := WordBytes(v);
    WordBytesInvert(v);
    WordIsLittleEndianValue(s[0], s[1], s[2], s[3]);
    LittleEndianInverts(s);
  }

  function Head(version: nat): seq<Byte> {
    MAGIC + LittleEndian(version, TAG_BYTES)
  }

  /** A well-formed file with the given version, frames and spare bytes. */
  function File(version: nat, fs: seq<Frame>, rest: seq<Byte>): seq<Byte> {
    Seal(Head(version) + RawFrames(fs) + rest)
  }

  function Serialized(c: Codecs, s: LayeredSnapshot): Result<seq<Byte>, SerializeError> {
    var fs :- SnapshotFrames(c, s);
    Success(File(FORMAT_VERSION, fs, []))
  }

  class ByteBuffer {
    var bytes: seq<Byte>

    constructor ()
      ensures bytes == []
    {
      bytes := [];
    }

    method Extend(s: seq<Byte>)
      modifies this
      ensures bytes == old(bytes) + s
    {
      bytes := bytes + s;
    }
  }

  method WriteStratumRaw(out: ByteBuffer, tag: nat, payload: seq<Byte>)
    modifies out
    ensures out.bytes == old(out.bytes) + RawFrame(Frame(tag, payload))
  {
    out.Extend(LittleEndian(tag, TAG_BYTES));
    out.Extend(LittleEndian(|payload|, LENGTH_BYTES));
    out.Extend(payload);
  }

  /** What has been written so far: the head of the file and some frames. */
  ghost predicate Holds(bytes: seq<Byte>, head: seq<Byte>, fs: seq<Frame>) {
    bytes == head + RawFrames(fs)
  }

  /** Writes the frame of a stratum that is present, and nothing for one that is not. */
  method WriteStratum<T>(out: ByteBuffer, tag: nat, codec: Codec<T>, stratum: Option<T>,
                         ghost head: seq<Byte>, ghost fs: seq<Frame>)
    returns (r: Result<(), SerializeError>)
    requires Holds(out.bytes, head, fs)
    modifies out
    ensures r.Failure? <==> Frames(tag, codec, stratum).Failure?
    ensures r.Failure? ==> r.error == Frames(tag, codec, stratum).error
    ensures r.Success? ==> Holds(out.bytes, head, fs + Frames(tag, codec, stratum).value)
  {
    if stratum.Some? {
      var payload :- codec.write(stratum.value);
      WriteStratumRaw(out, tag, payload);
      HoldsOneMore(old(out.bytes), head, fs, Frame(tag, payload));
    }
    assert fs + [] == fs;
    r := Success(());
  }

  lemma HoldsOneMore(bytes: seq<Byte>, head: seq<Byte>, fs: seq<Frame>, f: Frame)
    requires Holds(bytes, head, fs)
    ensures Holds(bytes + RawFrame(f), head, fs + [f])
  {
    RawFramesAppend(fs, [f]);
    assert RawFrames([f]) == RawFrame(f) + RawFrames([]) == RawFrame(f);
  }

  method Serialize(c: Codecs, s: LayeredSnapshot) returns (r: Result<seq<Byte>, SerializeError>)
    ensures r == Serialized(c, s)
  {
    var out := new ByteBuffer();
    out.Extend(MAGIC);
    out.Extend(LittleEndian(FORMAT_VERSION, TAG_BYTES));
    ghost var head := Head(FORMAT_VERSION);
    assert out.bytes == head;
    var headerBytes :- c.WriteHeader(s.header);
    WriteStratumRaw(out, HEADER_TAG, headerBytes);
    HoldsOneMore(head, head, [], Frame(HEADER_TAG, headerBytes));
    ghost var fs := [Frame(HEADER_TAG, headerBytes)];
    assert [] + fs == fs;
    var _ :- WriteStratum(out, VM_TAG, c.vm, s.vm, head, fs);
    fs := fs + Frames(VM_TAG, c.vm, s.vm).value;
    var _ :- WriteStratum(out, CAPABILITY_TAG, c.capability, s.capability, head, fs);
    fs := fs + Frames(CAPABILITY_TAG, c.capability, s.capability).value;
    var _ :- WriteStratum(out, TRACE_TAG, c.trace, s.trace, head, fs);
    fs := fs + Frames(TRACE_TAG, c.trace, s.trace).value;
    var _ :- WriteStratum(out, TOOL_TAG, c.tool, s.tool, head, fs);
    fs := fs + Frames(TOOL_TAG, c.tool, s.tool).value;
    var _ :- WriteStratum(out, SCHEDULER_TAG, c.scheduler, s.scheduler, head, fs);
    fs := fs + Frames(SCHEDULER_TAG, c.scheduler, s.scheduler).value;
    var _ :- WriteStratum(out, MEMORY_TAG, c.memory, s.memory, head, fs);
    fs := fs + Frames(MEMORY_TAG, c.memory, s.memory).value;
    SealedFile(out.bytes, FORMAT_VERSION, fs);
    var crc := Crc32Simple(out.bytes);
    out.Extend(WordBytes(crc));
    r := Success(out.bytes);
  }

  lemma SealedFile(bytes: seq<Byte>, version: nat, fs: seq<Frame>)
    requires Holds(bytes, Head(version), fs)
    ensures Seal(bytes) == File(version, fs, [])
  {
    assert Head(version) + RawFrames(fs) + [] == bytes;
  }

  // ---------- What is written, and when ----------

  function WriteError<T>(codec: Codec<T>, part: Option<T>): Option<SerializeError> {
    if part.None? then None
    else
      match codec.write(part.value)
      case Success(_) => None
      case Failure(e) => Some(e)
  }

  /** The errors of writing the parts of a snapshot, by tag; an absent part has none. */
  function WriteErrors(c: Codecs, s: LayeredSnapshot): seq<Option<SerializeError>> {
    [WriteError(c.header, s.header), WriteError(c.vm, s.vm), WriteError(c.capability, s.capability),
     WriteError(c.trace, s.trace), WriteError(c.tool, s.tool), WriteError(c.scheduler, s.scheduler),
     WriteError(c.memory, s.memory)]
  }

  /** The first error there is. */
  function FirstError(errors: seq<Option<SerializeError>>): (e: Option<SerializeError>)
    ensures e.None? <==> forall i :: 0 <= i < |errors| ==> errors[i].None?
    ensures e.Some? ==>
      exists i :: 0 <= i < |errors| && errors[i] == e && (forall j :: 0 <= j < i ==> errors[j].None?)
  {
    if |errors| == 0 then None
    else if errors[0].Some? then errors[0]
    else
      var rest := errors[1..];
      assert forall i :: 0 < i < |errors| ==> errors[i] == rest[i - 1];
      assert forall i :: 0 <= i < |rest| ==> rest[i] == errors[i + 1];
      FirstError(rest)
  }

  function ErrorOf<T>(r: Result<T, SerializeError>): Option<SerializeError> {
    match r
    case Success(_) => None
    case Failure(e) => Some(e)
  }

  lemma FirstErrorStep(errors: seq<Option<SerializeError>>)
    requires |errors| > 0
    ensures FirstError(errors) == if errors[0].Some? then errors[0] else FirstError(errors[1..])
  {
  }

  lemma FirstErrorOfSeven(a: Option<SerializeError>, b: Option<SerializeError>, c: Option<SerializeError>,
                          d: Option<SerializeError>, e: Option<SerializeError>, f: Option<SerializeError>,
                          g: Option<SerializeError>)
    ensures FirstError([a, b, c, d, e, f, g]) ==
      if a.Some? then a else if b.Some? then b else if c.Some? then c else if d.Some? then d
      else if e.Some? then e else if f.Some? then f else g
  {
    var i := if a.Some? then 0 else if b.Some? then 1 else if c.Some? then 2 else if d.Some? then 3
             else if e.Some? then 4 else if f.Some? then 5 else 6;
    var errors := [a, b, c, d, e, f, g];
    assert forall j :: 0 <= j < i ==> errors[j].None?;
    assert errors[i].None? ==> forall j :: 0 <= j < 7 ==> errors[j].None?;
  }

  lemma PartError<T>(tag: nat, codec: Codec<T>, part: Option<T>)
    ensures ErrorOf(Frames(tag, codec, part)) == WriteError(codec, part)
  {
  }

  lemma FramesError(c: Codecs, s: LayeredSnapshot)
    ensures ErrorOf(SnapshotFrames(c, s)) == FirstError(
      [ErrorOf(c.WriteHeader(s.header)), ErrorOf(Frames(VM_TAG, c.vm, s.vm)),
       ErrorOf(Frames(CAPABILITY_TAG, c.capability, s.capability)), ErrorOf(Frames(TRACE_TAG, c.trace, s.trace)),
       ErrorOf(Frames(TOOL_TAG, c.tool, s.tool)), ErrorOf(Frames(SCHEDULER_TAG, c.scheduler, s.scheduler)),
       ErrorOf(Frames(MEMORY_TAG, c.memory, s.memory))])
  {
    FirstErrorOfSeven(
      ErrorOf(c.WriteHeader(s.header)), ErrorOf(Frames(VM_TAG, c.vm, s.vm)),
      ErrorOf(Frames(CAPABILITY_TAG, c.capability, s.capability)), ErrorOf(Frames(TRACE_TAG, c.trace, s.trace)),
      ErrorOf(Frames(TOOL_TAG, c.tool, s.tool)), ErrorOf(Frames(SCHEDULER_TAG, c.scheduler, s.scheduler)),
      ErrorOf(Frames(MEMORY_TAG, c.memory, s.memory)));
  }

  /** Serializing succeeds exactly when every present part can be written, and else fails as the first that cannot. */
  lemma SerializesIffPartsWrite(c: Codecs, s: LayeredSnapshot)
    ensures ErrorOf(Serialized(c, s)) == FirstError(WriteErrors(c, s))
  {
    FramesError(c, s);
    PartError(VM_TAG, c.vm, s.vm);
    PartError(CAPABILITY_TAG, c.capability, s.capability);
    PartError(TRACE_TAG, c.trace, s.trace);
    PartError(TOOL_TAG, c.tool, s.tool);
    PartError(SCHEDULER_TAG, c.scheduler, s.scheduler);
    PartError(MEMORY_TAG, c.memory, s.memory);
  }

  function Written<T>(codec: Codec<T>, part: Option<T>): Option<seq<Byte>> {
    if part.Some? && codec.write(part.value).Success? then Some(codec.write(part.value).value) else None
  }

  /** The payload that a snapshot has under a tag, if any; an absent header still has one. */
  function PayloadOf(c: Codecs, s: LayeredSnapshot, tag: nat): Option<seq<Byte>> {
    match tag
    case 0 => if s.header.None? then Some(c.noHeader) else Written(c.header, s.header)
    case 1 => Written(c.vm, s.vm)
    case 2 => Written(c.capability, s.capability)
    case 3 => Written(c.trace, s.trace)
    case 4 => Written(c.tool, s.tool)
    case 5 => Written(c.scheduler, s.scheduler)
    case 6 => Written(c.memory, s.memory)
    case _ => None
  }

  ghost predicate Rising(fs: seq<Frame>) {
    forall i, j :: 0 <= i < j < |fs| ==> fs[i].tag < fs[j].tag
  }

  /** The frames are those of the parts with tags below the bound, by tag. */
  ghost predicate FramesBelow(c: Codecs, s: LayeredSnapshot, fs: seq<Frame>, bound: nat) {
    Rising(fs) && forall f: Frame :: f in fs <==> f.tag < bound && PayloadOf(c, s, f.tag) == Some(f.payload)
  }

  lemma OneMorePart<T>(c: Codecs, s: LayeredSnapshot, fs: seq<Frame>, tag: nat, codec: Codec<T>, part: Option<T>)
    returns (all: seq<Frame>)
    requires FramesBelow(c, s, fs, tag)
    requires Frames(tag, codec, part).Success? && PayloadOf(c, s, tag) == Written(codec, part)
    ensures all == fs + Frames(tag, codec, part).value && FramesBelow(c, s, all, tag + 1)
  {
    all := fs + Frames(tag, codec, part).value;
    assert forall i :: 0 <= i < |fs| ==> fs[i] in fs;
    if part.Some? {
      assert all[|fs|] == Frame(tag, codec.write(part.value).value);
    }
  }

  lemma HeaderFrame(c: Codecs, s: LayeredSnapshot) returns (fs: seq<Frame>)
    requires c.WriteHeader(s.header).Success?
    ensures fs == [Frame(HEADER_TAG, c.WriteHeader(s.header).value)] && FramesBelow(c, s, fs, VM_TAG)
  {
    fs := [Frame(HEADER_TAG, c.WriteHeader(s.header).value)];
  }

  lemma FramesOfParts(c: Codecs, s: LayeredSnapshot)
    requires SnapshotFrames(c, s).Success?
    ensures FramesBelow(c, s, SnapshotFrames(c, s).value, 7)
  {
    var fs := HeaderFrame(c, s);
    fs := OneMorePart(c, s, fs, VM_TAG, c.vm, s.vm);
    fs := OneMorePart(c, s, fs, CAPABILITY_TAG, c.capability, s.capability);
    fs := OneMorePart(c, s, fs, TRACE_TAG, c.trace, s.trace);
    fs := OneMorePart(c, s, fs, TOOL_TAG, c.tool, s.tool);
    fs := OneMorePart(c, s, fs, SCHEDULER_TAG, c.scheduler, s.scheduler);
    fs := OneMorePart(c, s, fs, MEMORY_TAG, c.memory, s.memory);
  }

  /** What is written: one frame for each present part and for the header, with its text, in the order of tags. */
  lemma SerializedFrames(c: Codecs, s: LayeredSnapshot)
    requires Serialized(c, s).Success?
    ensures exists fs :: FramesBelow(c, s, fs, 7) && Serialized(c, s).value == File(FORMAT_VERSION, fs, [])
  {
    FramesOfParts(c, s);
  }

  /** The first ten bytes of every file of this version: "BUASNAP", 2, and the version in two bytes. */
  lemma FileStart(fs: seq<Frame>, rest: seq<Byte>)
    ensures File(FORMAT_VERSION, fs, rest)[..10] == [0x42, 0x55, 0x41, 0x53, 0x4E, 0x41, 0x50, 0x02, 0x02, 0x00]
  {
    VersionBytes();
    assert File(FORMAT_VERSION, fs, rest)[..10] == Head(FORMAT_VERSION);
  }

  lemma VersionBytes()
    ensures LittleEndian(FORMAT_VERSION, TAG_BYTES) == [0x02, 0x00]
  {
    LittleEndianInverts([0x02, 0x00]);
    assert [0x02 as Byte, 0x00][1..] == [0x00];
    assert LittleEndianValue([0x00]) == 0;
    assert LittleEndianValue([0x02, 0x00]) == 2;
  }

  // ---------- Reading ----------

  function StoredCrc(data: seq<Byte>): bv32
    requires |data| >= TRAILER_BYTES
  {
    var n := |data| - TRAILER_BYTES;
    BytesWord(data[n], data[n + 1], data[n + 2], data[n + 3])
  }

  function Body(data: seq<Byte>): seq<Byte>
    requires |data| >= TRAILER_BYTES
  {
    data[..|data| - TRAILER_BYTES]
  }

  /** One frame read into a snapshot: a known tag sets its field, even to nothing. */
  function Apply(c: Codecs, s: LayeredSnapshot, f: Frame): LayeredSnapshot {
    if f.tag == HEADER_TAG then s.(header := c.header.read(f.payload))
    else if f.tag == VM_TAG then s.(vm := c.vm.read(f.payload))
    else if f.tag == CAPABILITY_TAG then s.(capability := c.capability.read(f.payload))
    else if f.tag == TRACE_TAG then s.(trace := c.trace.read(f.payload))
    else if f.tag == TOOL_TAG then s.(tool := c.tool.read(f.payload))
    else if f.tag == SCHEDULER_TAG then s.(scheduler := c.scheduler.read(f.payload))
    else if f.tag == MEMORY_TAG then s.(memory := c.memory.read(f.payload))
    else s
  }

  function ApplyAll(c: Codecs, fs: seq<Frame>): LayeredSnapshot {
    if |fs| == 0 then EMPTY_SNAPSHOT
    else Apply(c, ApplyAll(c, fs[..|fs| - 1]), fs[|fs| - 1])
  }

  /** What the frames of a region say, if it splits into frames. */
  function Decoded(c: Codecs, split: Option<(seq<Frame>, seq<Byte>)>): Result<LayeredSnapshot, RestoreError> {
    match split
    case None => Failure(StratumOverflow)
    case Some((fs, _)) => Success(ApplyAll(c, fs))
  }

  function Restored(c: Codecs, data: seq<Byte>): Result<LayeredSnapshot, RestoreError> {
    if |data| < HEAD_BYTES + TRAILER_BYTES then Failure(TooShort)
    else if data[..MAGIC_BYTES] != MAGIC then Failure(InvalidMagic)
    else if StoredCrc(data) != Crc32(Body(data)) then
      Failure(CrcMismatch(StoredCrc(data), Crc32(Body(data))))
    else
      var version := LittleEndianValue(data[MAGIC_BYTES..HEAD_BYTES]);
      if version > FORMAT_VERSION then Failure(UnsupportedVersion(version))
      else
        Decoded(c, Split(Body(data)[HEAD_BYTES..]))
  }

  function Prepend(done: seq<Frame>, r: Option<(seq<Frame>, seq<Byte>)>): Option<(seq<Frame>, seq<Byte>)> {
    match r
    case None => None
    case Some((fs, rest)) => Some((done + fs, rest))
  }

  method Deserialize(c: Codecs, data: seq<Byte>) returns (r: Result<LayeredSnapshot, RestoreError>)
    ensures r == Restored(c, data)
  {
    if |data| < 14 {
      return Failure(TooShort);
    }
    if data[..8] != MAGIC {
      return Failure(InvalidMagic);
    }
    var crcOffset := |data| - 4;
    var storedCrc := BytesWord(data[crcOffset], data[crcOffset + 1], data[crcOffset + 2], data[crcOffset + 3]);
    var computed := Crc32Simple(data[..crcOffset]);
    if storedCrc != computed {
      return Failure(CrcMismatch(storedCrc, computed));
    }
    var version := LittleEndianValue(data[8..10]);
    if version > FORMAT_VERSION {
      return Failure(UnsupportedVersion(version));
    }
    r := ReadFrames(c, data, crcOffset);
  }

  /** The loop over the frames, from the end of the head up to the checksum. */
  method ReadFrames(c: Codecs, data: seq<Byte>, crcOffset: nat)
    returns (r: Result<LayeredSnapshot, RestoreError>)
    requires HEAD_BYTES <= crcOffset <= |data|
    ensures r == Decoded(c, Split(data[HEAD_BYTES..crcOffset]))
  {
    var snap := EMPTY_SNAPSHOT;
    var pos := HEAD_BYTES;
    ghost var done: seq<Frame> := [];
    PrependNothing(Split(data[HEAD_BYTES..crcOffset]));
    while pos + 6 <= crcOffset
      invariant HEAD_BYTES <= pos <= crcOffset
      invariant snap == ApplyAll(c, done)
      invariant Split(data[HEAD_BYTES..crcOffset]) == Prepend(done, Split(data[pos..crcOffset]))
    {
      SplitStep(data, pos, crcOffset);
      var tag := LittleEndianValue(data[pos..pos + 2]);
      var len := LittleEndianValue(data[pos + 2..pos + 6]);
      pos := pos + 6;
      if pos + len > crcOffset {
        return Failure(StratumOverflow);
      }
      var payload := data[pos..pos + len];
      pos := pos + len;
      ghost var f := Frame(tag, payload);
      PrependOneMore(done, f, Split(data[pos..crcOffset]));
      assert (done + [f])[..|done|] == done;
      done := done + [f];
      match tag {
        case 0 => snap := snap.(header := c.header.read(payload));
        case 1 => snap := snap.(vm := c.vm.read(payload));
        case 2 => snap := snap.(capability := c.capability.read(payload));
        case 3 => snap := snap.(trace := c.trace.read(payload));
        case 4 => snap := snap.(tool := c.tool.read(payload));
        case 5 => snap := snap.(scheduler := c.scheduler.read(payload));
        case 6 => snap := snap.(memory := c.memory.read(payload));
        case _ =>
      }
    }
    assert done + [] == done;
    r := Success(snap);
  }

  lemma SliceOfSlice<T>(s: seq<T>, a: nat, b: nat, i: nat, j: nat)
    requires a <= b <= |s| && i <= j <= b - a
    ensures s[a..b][i..j] == s[a + i..a + j]
  {
    var t, u := s[a..b][i..j], s[a + i..a + j];
    forall k | 0 <= k < j - i ensures t[k] == u[k] {
      assert t[k] == s[a..b][i + k] == s[a + (i + k)];
      assert u[k] == s[(a + i) + k];
    }
  }

  /** Splitting a slice of the file takes the frame at its start off the slice. */
  lemma SplitStep(data: seq<Byte>, pos: nat, end: nat)
    requires pos + FRAME_HEAD <= end <= |data|
    ensures
      var len := LittleEndianValue(data[pos + 2..pos + 6]);
      Split(data[pos..end]) ==
        if pos + 6 + len > end then None
        else Prepend([Frame(LittleEndianValue(data[pos..pos + 2]), data[pos + 6..pos + 6 + len])],
                     Split(data[pos + 6 + len..end]))
  {
    var region := data[pos..end];
    SliceOfSlice(data, pos, end, 0, 2);
    SliceOfSlice(data, pos, end, 2, 6);
    var len := LengthOf(region);
    if 6 + len <= |region| {
      SliceOfSlice(data, pos, end, 6, 6 + len);
      SliceOfSlice(data, pos, end, 6 + len, |region|);
      assert region[6 + len..] == region[6 + len..|region|];
    }
  }

  lemma PrependNothing(r: Option<(seq<Frame>, seq<Byte>)>)
    ensures Prepend([], r) == r
  {
    if r.Some? {
      assert [] + r.value.0 == r.value.0;
    }
  }

  lemma PrependOneMore(done: seq<Frame>, f: Frame, r: Option<(seq<Frame>, seq<Byte>)>)
    ensures Prepend(done, Prepend([f], r)) == Prepend(done + [f], r)
  {
    if r.Some? {
      assert done + ([f] + r.value.0) == done + [f] + r.value.0;
    }
  }

  // ---------- What a file must be ----------

  /** The payload of the last frame with a tag, if there is one. */
  function LastPayload(fs: seq<Frame>, tag: nat): Option<seq<Byte>> {
    if |fs| == 0 then None
    else if fs[|fs| - 1].tag == tag then Some(fs[|fs| - 1].payload)
    else LastPayload(fs[..|fs| - 1], tag)
  }

  function ReadLast<T>(fs: seq<Frame>, tag: nat, codec: Codec<T>): Option<T> {
    match LastPayload(fs, tag)
    case None => None
    case Some(payload) => codec.read(payload)
  }

  /** Every field is what the last frame with its tag reads as. */
  function FromLastFrames(c: Codecs, fs: seq<Frame>): LayeredSnapshot {
    LayeredSnapshot(
      ReadLast(fs, HEADER_TAG, c.header),
      ReadLast(fs, VM_TAG, c.vm),
      ReadLast(fs, CAPABILITY_TAG, c.capability),
      ReadLast(fs, TRACE_TAG, c.trace),
      ReadLast(fs, TOOL_TAG, c.tool),
      ReadLast(fs, SCHEDULER_TAG, c.scheduler),
      ReadLast(fs, MEMORY_TAG, c.memory))
  }

  /** The last frame of a repeated tag decides its field, and frames of other tags do not matter. */
  lemma {:induction false} LastFrameDecides(c: Codecs, fs: seq<Frame>)
    ensures ApplyAll(c, fs) == FromLastFrames(c, fs)
  {
    if |fs| > 0 {
      LastFrameDecides(c, fs[..|fs| - 1]);
    }
  }

  /** The trailer is right exactly when the checksum of the whole file is the residue. */
  lemma TrailerIsRightIffResidue(data: seq<Byte>)
    requires |data| >= TRAILER_BYTES
    ensures StoredCrc(data) == Crc32(Body(data)) <==> Crc32(data) == RESIDUE
  {
    SealedByTrailer(data);
    ChecksumClosesToResidue(Body(data), StoredCrc(data));
  }

  lemma SealedByTrailer(data: seq<Byte>)
    requires |data| >= TRAILER_BYTES
    ensures data == Body(data) + WordBytes(StoredCrc(data))
  {
    var n := |data| - TRAILER_BYTES;
    BytesWordInverts(data[n], data[n + 1], data[n + 2], data[n + 3]);
    assert data[n..] == [data[n], data[n + 1], data[n + 2], data[n + 3]];
    assert data == data[..n] + data[n..];
  }

  lemma SealStoresTheCrc(body: seq<Byte>)
    ensures Body(Seal(body)) == body && StoredCrc(Seal(body)) == Crc32(body)
  {
    WordBytesInvert(Crc32(body));
    assert Body(Seal(body)) == body;
  }

  /** Where the parts of a file are found. */
  lemma FileLayout(version: nat, fs: seq<Frame>, rest: seq<Byte>)
    ensures
      var data := File(version, fs, rest);
      && |data| >= HEAD_BYTES + TRAILER_BYTES
      && data[..MAGIC_BYTES] == MAGIC
      && StoredCrc(data) == Crc32(Body(data))
      && LittleEndianValue(data[MAGIC_BYTES..HEAD_BYTES]) == version % 0x1_0000
      && Body(data)[HEAD_BYTES..] == RawFrames(fs) + rest
  {
    var le, region := LittleEndian(version, TAG_BYTES), RawFrames(fs) + rest;
    var body := Head(version) + RawFrames(fs) + rest;
    assert body == MAGIC + le + region;
    SealStoresTheCrc(body);
    FieldSizes();
    LittleEndianTruncates(version, TAG_BYTES);
    FourParts(MAGIC, le, region, WordBytes(Crc32(body)));
    assert (MAGIC + le) + region == body;
  }

  lemma FourParts<T>(a: seq<T>, b: seq<T>, c: seq<T>, d: seq<T>)
    ensures
      var s := a + b + c + d;
      && s[..|a|] == a && s[|a|..|a| + |b|] == b
      && (a + b + c)[|a| + |b|..] == c
  {
  }

  /** Restoring a file gives exactly what its last frames say, whatever its spare bytes. */
  lemma RestoredFile(c: Codecs, version: nat, fs: seq<Frame>, rest: seq<Byte>)
    requires version < 0x1_0000 && AllFit(fs) && |rest| < FRAME_HEAD
    ensures Restored(c, File(version, fs, rest)) ==
      if version > FORMAT_VERSION then Failure(UnsupportedVersion(version))
      else Success(FromLastFrames(c, fs))
  {
    FileLayout(version, fs, rest);
    assert version % 0x1_0000 == version;
    TilingIsSplit(fs, rest);
    LastFrameDecides(c, fs);
  }

  /** The files that restore, and what they restore to. */
  ghost predicate FileOf(c: Codecs, data: seq<Byte>, s: LayeredSnapshot) {
    exists version: nat, fs, rest ::
      && version <= FORMAT_VERSION && AllFit(fs) && |rest| < FRAME_HEAD
      && data == File(version, fs, rest)
      && s == FromLastFrames(c, fs)
  }

  /**
   A byte string restores to `s` exactly when it is magic, a version up to 2, whole frames
   whose last ones read as `s`, fewer than six spare bytes and the right checksum.
   */
  lemma RestoresExactlyFiles(c: Codecs, data: seq<Byte>, s: LayeredSnapshot)
    ensures Restored(c, data) == Success(s) <==> FileOf(c, data, s)
  {
    if FileOf(c, data, s) {
      var version: nat, fs, rest :|
        && version <= FORMAT_VERSION && AllFit(fs) && |rest| < FRAME_HEAD
        && data == File(version, fs, rest)
        && s == FromLastFrames(c, fs);
      RestoredFile(c, version, fs, rest);
    }
    if Restored(c, data) == Success(s) {
      RestoredWasFile(c, data);
    }
  }

  lemma RestoredWasFile(c: Codecs, data: seq<Byte>)
    requires Restored(c, data).Success?
    ensures FileOf(c, data, Restored(c, data).value)
  {
    var body := Body(data);
    var version := LittleEndianValue(data[MAGIC_BYTES..HEAD_BYTES]);
    var (fs, rest) := Split(body[HEAD_BYTES..]).value;
    SplitTiles(body[HEAD_BYTES..]);
    LittleEndianInverts(data[MAGIC_BYTES..HEAD_BYTES]);
    assert data[..MAGIC_BYTES] + data[MAGIC_BYTES..HEAD_BYTES] == data[..HEAD_BYTES] == body[..HEAD_BYTES];
    assert body == Head(version) + (RawFrames(fs) + rest);
    assert body == Head(version) + RawFrames(fs) + rest;
    SealedByTrailer(data);
    LastFrameDecides(c, fs);
    assert data == File(version, fs, rest);
  }

  /** The version number in bytes 8 and 9. */
  function VersionOf(data: seq<Byte>): nat
    requires |data| >= 10
  {
    ByteValue(data[8]) + 256 * ByteValue(data[9])
  }

  ghost predicate HasTiling(region: seq<Byte>) {
    exists fs, rest :: Tiles(region, fs, rest)
  }

  /**
   When a byte string is refused, and how: the conditions are tried in this order, and the last
   is that the bytes between the head and the checksum are no row of whole frames.
   */
  lemma RefusalsAreExact(c: Codecs, data: seq<Byte>)
    ensures var r := Restored(c, data); var n := |data|;
      && (r == Failure(TooShort) <==> n < 14)
      && (r == Failure(InvalidMagic) <==> n >= 14 && data[..8] != MAGIC)
      && (n >= 14 && data[..8] == MAGIC ==>
            (r == Failure(CrcMismatch(StoredCrc(data), Crc32(data[..n - 4]))) <==> StoredCrc(data) != Crc32(data[..n - 4])))
      && (n >= 14 && data[..8] == MAGIC && StoredCrc(data) == Crc32(data[..n - 4]) ==>
            && (r == Failure(UnsupportedVersion(VersionOf(data))) <==> VersionOf(data) > 2)
            && (r == Failure(StratumOverflow) <==>
                  VersionOf(data) <= 2 && !HasTiling(data[10..n - 4])))
  {
    if |data| >= 14 {
      VersionIsRead(data);
      assert Body(data)[HEAD_BYTES..] == data[10..|data| - 4];
      var split := Split(data[10..|data| - 4]);
      if split.Some? {
        SplitTiles(data[10..|data| - 4]);
      }
      if HasTiling(data[10..|data| - 4]) {
        var fs, rest :| Tiles(data[10..|data| - 4], fs, rest);
        SplitIsTheTiling(data[10..|data| - 4], fs, rest);
      }
    }
  }

  lemma VersionIsRead(data: seq<Byte>)
    requires |data| >= 10
    ensures LittleEndianValue(data[MAGIC_BYTES..HEAD_BYTES]) == VersionOf(data)
  {
    var v := data[MAGIC_BYTES..HEAD_BYTES];
    assert v[1..][1..] == [];
    assert LittleEndianValue(v[1..]) == ByteValue(v[1]) + 256 * LittleEndianValue(v[1..][1..]);
  }

  lemma ApplyLast(c: Codecs, fs: seq<Frame>, f: Frame)
    ensures ApplyAll(c, fs + [f]) == Apply(c, ApplyAll(c, fs), f)
  {
    assert (fs + [f])[..|fs|] == fs;
  }

  /**
   What one more frame does to a file: its field becomes what the payload reads as, nothing if
   it does not read, whatever it was before; a tag above 6 changes nothing.
   */
  lemma OneMoreFrame(c: Codecs, version: nat, fs: seq<Frame>, rest: seq<Byte>, f: Frame, s: LayeredSnapshot)
    requires version <= 2 && AllFit(fs) && Fits(f) && |rest| < FRAME_HEAD
    requires Restored(c, File(version, fs, rest)) == Success(s)
    ensures var p := f.payload; Restored(c, File(version, fs + [f], rest)) == Success(
      match f.tag
      case 0 => s.(header := c.header.read(p))
      case 1 => s.(vm := c.vm.read(p))
      case 2 => s.(capability := c.capability.read(p))
      case 3 => s.(trace := c.trace.read(p))
      case 4 => s.(tool := c.tool.read(p))
      case 5 => s.(scheduler := c.scheduler.read(p))
      case 6 => s.(memory := c.memory.read(p))
      case _ => s)
  {
    RestoredFile(c, version, fs, rest);
    RestoredFile(c, version, fs + [f], rest);
    LastFrameDecides(c, fs);
    LastFrameDecides(c, fs + [f]);
    ApplyLast(c, fs, f);
  }

  /** A file without frames restores to the snapshot without parts. */
  lemma NoFrames(c: Codecs, version: nat, rest: seq<Byte>)
    requires version <= 2 && |rest| < FRAME_HEAD
    ensures Restored(c, File(version, [], rest)) == Success(LayeredSnapshot(None, None, None, None, None, None, None))
  {
    RestoredFile(c, version, [], rest);
    LastFrameDecides(c, []);
  }

  // ---------- Round trip ----------

  /** Every payload of the snapshot is short enough for its 32-bit length field. */
  ghost predicate PayloadsFit(c: Codecs, s: LayeredSnapshot) {
    SnapshotFrames(c, s).Success? ==> AllFit(SnapshotFrames(c, s).value)
  }

  /** What is serialized restores to the same snapshot, whichever strata are present. */
  lemma RoundTrip(c: Codecs, s: LayeredSnapshot)
    requires c.Invertible() && PayloadsFit(c, s)
    requires Serialized(c, s).Success?
    ensures Restored(c, Serialized(c, s).value) == Success(s)
  {
    var fs := SnapshotFrames(c, s).value;
    RestoredFile(c, FORMAT_VERSION, fs, []);
    FramesReadBack(c, s);
    LastFrameDecides(c, fs);
  }

  /** Reading the frame of a stratum, or none, takes the snapshot `before` to `after`. */
  lemma StratumReadsBack<T>(c: Codecs, fs: seq<Frame>, tag: nat, codec: Codec<T>, stratum: Option<T>,
                            before: LayeredSnapshot, after: LayeredSnapshot)
    returns (all: seq<Frame>)
    requires Frames(tag, codec, stratum).Success? && ApplyAll(c, fs) == before
    requires stratum.Some? ==> codec.ReadsBack(stratum.value)
    requires stratum.None? ==> before == after
    requires forall f: Frame :: f.tag == tag && codec.read(f.payload) == stratum ==> Apply(c, before, f) == after
    ensures all == fs + Frames(tag, codec, stratum).value && ApplyAll(c, all) == after
  {
    all := fs + Frames(tag, codec, stratum).value;
    if stratum.None? {
      assert all == fs;
    } else {
      var f := Frame(tag, codec.write(stratum.value).value);
      assert all[..|all| - 1] == fs && all[|all| - 1] == f;
      assert Apply(c, before, f) == after;
    }
  }

  lemma HeaderReadsBack(c: Codecs, s: LayeredSnapshot)
    requires c.Invertible() && c.WriteHeader(s.header).Success?
    ensures ApplyAll(c, [Frame(HEADER_TAG, c.WriteHeader(s.header).value)]) == EMPTY_SNAPSHOT.(header := s.header)
  {
    var f := Frame(HEADER_TAG, c.WriteHeader(s.header).value);
    assert [f][..0] == [] && (s.header.Some? ==> c.header.ReadsBack(s.header.value));
  }

  lemma FirstFramesReadBack(c: Codecs, s: LayeredSnapshot) returns (fs: seq<Frame>)
    requires c.Invertible() && SnapshotFrames(c, s).Success?
    ensures fs == [Frame(HEADER_TAG, c.WriteHeader(s.header).value)] + Frames(VM_TAG, c.vm, s.vm).value
                + Frames(CAPABILITY_TAG, c.capability, s.capability).value + Frames(TRACE_TAG, c.trace, s.trace).value
    ensures ApplyAll(c, fs) == s.(tool := None, scheduler := None, memory := None)
  {
    HeaderReadsBack(c, s);
    var s0 := EMPTY_SNAPSHOT.(header := s.header);
    var s1 := s0.(vm := s.vm);
    var s2 := s1.(capability := s.capability);
    fs := [Frame(HEADER_TAG, c.WriteHeader(s.header).value)];
    fs := StratumReadsBack(c, fs, VM_TAG, c.vm, s.vm, s0, s1);
    fs := StratumReadsBack(c, fs, CAPABILITY_TAG, c.capability, s.capability, s1, s2);
    fs := StratumReadsBack(c, fs, TRACE_TAG, c.trace, s.trace, s2, s2.(trace := s.trace));
  }

  lemma FramesReadBack(c: Codecs, s: LayeredSnapshot)
    requires c.Invertible() && SnapshotFrames(c, s).Success?
    ensures ApplyAll(c, SnapshotFrames(c, s).value) == s
  {
    var fs := FirstFramesReadBack(c, s);
    var s3 := s.(tool := None, scheduler := None, memory := None);
    var s4 := s3.(tool := s.tool);
    var s5 := s4.(scheduler := s.scheduler);
    fs := StratumReadsBack(c, fs, TOOL_TAG, c.tool, s.tool, s3, s4);
    fs := StratumReadsBack(c, fs, SCHEDULER_TAG, c.scheduler, s.scheduler, s4, s5);
    fs := StratumReadsBack(c, fs, MEMORY_TAG, c.memory, s.memory, s5, s);
  }

  // ---------- Payloads too long for the length field ----------

  lemma {:induction false} LastPayloadFits(fs: seq<Frame>, tag: nat)
    requires AllFit(fs)
    ensures LastPayload(fs, tag).Some? ==> |LastPayload(fs, tag).value| < LENGTH_LIMIT
  {
    if |fs| > 0 {
      assert Fits(fs[|fs| - 1]);
      LastPayloadFits(fs[..|fs| - 1], tag);
    }
  }

  /** What is there reads from some bytes that fit the length field. */
  ghost predicate HasShortReading<T(!new)>(codec: Codec<T>, stratum: Option<T>) {
    stratum.Some? ==> exists p :: |p| < LENGTH_LIMIT && codec.read(p) == stratum
  }

  lemma ReadLastIsShort<T(!new)>(fs: seq<Frame>, tag: nat, codec: Codec<T>)
    requires AllFit(fs)
    ensures HasShortReading(codec, ReadLast(fs, tag, codec))
  {
    LastPayloadFits(fs, tag);
    if ReadLast(fs, tag, codec).Some? {
      assert codec.read(LastPayload(fs, tag).value) == ReadLast(fs, tag, codec);
    }
  }

  /**
   Whatever the codec, a snapshot comes out of a file only if each of its parts can be read
   from fewer than 2^32 bytes: a value with no reading that short cannot be stored at all.
   */
  lemma RestoredPartsHaveShortReadings(c: Codecs, data: seq<Byte>, s: LayeredSnapshot)
    requires Restored(c, data) == Success(s)
    ensures HasShortReading(c.header, s.header) && HasShortReading(c.vm, s.vm)
    ensures HasShortReading(c.capability, s.capability) && HasShortReading(c.trace, s.trace)
    ensures HasShortReading(c.tool, s.tool) && HasShortReading(c.scheduler, s.scheduler)
    ensures HasShortReading(c.memory, s.memory)
  {
    RestoresExactlyFiles(c, data, s);
    var version: nat, fs, rest :|
      && version <= FORMAT_VERSION && AllFit(fs) && |rest| < FRAME_HEAD
      && data == File(version, fs, rest)
      && s == FromLastFrames(c, fs);
    ReadLastIsShort(fs, HEADER_TAG, c.header);
    ReadLastIsShort(fs, VM_TAG, c.vm);
    ReadLastIsShort(fs, CAPABILITY_TAG, c.capability);
    ReadLastIsShort(fs, TRACE_TAG, c.trace);
    ReadLastIsShort(fs, TOOL_TAG, c.tool);
    ReadLastIsShort(fs, SCHEDULER_TAG, c.scheduler);
    ReadLastIsShort(fs, MEMORY_TAG, c.memory);
  }

  // ---------- Forward compatibility ----------

  predicate Known(f: Frame) {
    f.tag <= MEMORY_TAG
  }

  /** The frames with tags this version knows. */
  function KnownFrames(fs: seq<Frame>): (known: seq<Frame>)
    ensures AllFit(fs) ==> AllFit(known)
  {
    if |fs| == 0 then []
    else
      var n := |fs| - 1;
      assert AllFit(fs) ==> AllFit(fs[..n]) && Fits(fs[n]);
      if Known(fs[n]) then KnownFrames(fs[..n]) + [fs[n]] else KnownFrames(fs[..n])
  }

  lemma {:induction false} UnknownFramesAreSkipped(c: Codecs, fs: seq<Frame>)
    ensures ApplyAll(c, KnownFrames(fs)) == ApplyAll(c, fs)
  {
    if |fs| > 0 {
      var n := |fs| - 1;
      UnknownFramesAreSkipped(c, fs[..n]);
      if Known(fs[n]) {
        assert (KnownFrames(fs[..n]) + [fs[n]])[..|KnownFrames(fs[..n])|] == KnownFrames(fs[..n]);
      }
    }
  }

  /** Frames with unknown tags, anywhere in a file, do not change what it restores to. */
  lemma ForwardCompatible(c: Codecs, version: nat, fs: seq<Frame>, rest: seq<Byte>)
    requires version < 0x1_0000 && AllFit(fs) && |rest| < FRAME_HEAD
    ensures Restored(c, File(version, fs, rest)) == Restored(c, File(version, KnownFrames(fs), rest))
  {
    RestoredFile(c, version, fs, rest);
    RestoredFile(c, version, KnownFrames(fs), rest);
    LastFrameDecides(c, fs);
    LastFrameDecides(c, KnownFrames(fs));
    UnknownFramesAreSkipped(c, fs);
  }

  // ---------- Corruption ----------

  /** A file whose trailer is the checksum of the rest, whether or not its content is in order. */
  predicate IsSealed(data: seq<Byte>) {
    |data| >= HEAD_BYTES + TRAILER_BYTES && StoredCrc(data) == Crc32(Body(data))
  }

  /**
   Any change confined to 32 consecutive bits of a sealed file, in the head, a frame, the
   checksum or across them, is refused: as bad magic if the magic is wrong, else by the CRC.
   */
  lemma CorruptionIsRefused(c: Codecs, data: seq<Byte>, bad: seq<Byte>, start: nat)
    requires IsSealed(data)
    requires |bad| == |data| && bad != data && DifferInBurst(data, bad, start)
    ensures Restored(c, bad) == Failure(
      if bad[..MAGIC_BYTES] != MAGIC then InvalidMagic
      else CrcMismatch(StoredCrc(bad), Crc32(Body(bad))))
  {
    TrailerIsRightIffResidue(data);
    TrailerIsRightIffResidue(bad);
    BurstChangesCrc(data, bad, start);
  }

  /** The same for changes within four consecutive bytes. */
  lemma ByteCorruptionIsRefused(c: Codecs, data: seq<Byte>, bad: seq<Byte>, start: nat)
    requires IsSealed(data)
    requires |bad| == |data| && bad != data
    requires forall i :: 0 <= i < |data| && data[i] != bad[i] ==> start <= i < start + 4
    ensures Restored(c, bad).Failure?
  {
    WindowIsBurst(data, bad, start);
    CorruptionIsRefused(c, data, bad, 8 * start);
  }

  /** Every written file is sealed, even one that cannot be restored, and so is every restorable one. */
  lemma FilesAreSealed(c: Codecs, s: LayeredSnapshot, data: seq<Byte>)
    requires Serialized(c, s) == Success(data) || Restored(c, data).Success?
    ensures IsSealed(data)
  {
    if Serialized(c, s) == Success(data) {
      FileLayout(FORMAT_VERSION, SnapshotFrames(c, s).value, []);
    }
  }
}
