/**
 Snapshots with payloads of 2^32 bytes or more. The writer cuts such a length to 32 bits
 (runtime/src/snapshot.rs:326), and the parser loses its place inside the payload. What it
 reads from there on is settled here for payloads that are JSON texts of objects, as the
 program's are.
 */
module Oversize {
  import opened Prelude
  import opened Octet
  import opened Framing
  import opened Snapshot

  // ---------- Texts ----------

  /** JSON text has no raw control characters but white space, and compact JSON has no white space. */
  predicate Printable(b: Byte) {
    ByteValue(b) >= 0x20
  }

  /** How the text of an object or an array may start: white space or an opening bracket. */
  predicate Opens(b: Byte) {
    ByteValue(b) in {0x09, 0x0A, 0x0D, 0x20, 0x5B, 0x7B}
  }

  /** The text of an object with a named member: after the brace come a quote and a name. */
  ghost predicate IsObjectText(w: seq<Byte>) {
    && |w| >= 5
    && (forall i :: 0 <= i < |w| ==> Printable(w[i]))
    && (forall i :: 1 <= i < 5 ==> !Opens(w[i]))
  }

  /** The text is an object's, and stopping short of its closing brace leaves no text. */
  ghost predicate WritesObject<T>(codec: Codec<T>, x: T) {
    codec.write(x).Success? ==>
      && IsObjectText(codec.write(x).value)
      && forall k :: 0 <= k < |codec.write(x).value| ==> codec.read(codec.write(x).value[..k]).None?
  }

  /** Only objects and arrays are read. */
  ghost predicate ReadsBrackets<T>(codec: Codec<T>, p: seq<Byte>) {
    codec.read(p).Some? ==> |p| > 0 && Opens(p[0])
  }

  ghost predicate ObjectCodec<T(!new)>(codec: Codec<T>) {
    (forall x :: WritesObject(codec, x)) && (forall p :: ReadsBrackets(codec, p))
  }

  ghost predicate AllObjects(c: Codecs) {
    && ObjectCodec(c.header) && ObjectCodec(c.vm) && ObjectCodec(c.capability) && ObjectCodec(c.trace)
    && ObjectCodec(c.tool) && ObjectCodec(c.scheduler) && ObjectCodec(c.memory)
  }

  // ---------- The payloads of a snapshot, by tag ----------

  /** The payload reads as the part of a snapshot that has this tag. */
  predicate Reads(c: Codecs, tag: nat, p: seq<Byte>) {
    match tag
    case 0 => c.header.read(p).Some?
    case 1 => c.vm.read(p).Some?
    case 2 => c.capability.read(p).Some?
    case 3 => c.trace.read(p).Some?
    case 4 => c.tool.read(p).Some?
    case 5 => c.scheduler.read(p).Some?
    case 6 => c.memory.read(p).Some?
    case _ => false
  }

  predicate IsPresent(s: LayeredSnapshot, tag: nat) {
    match tag
    case 0 => s.header.Some?
    case 1 => s.vm.Some?
    case 2 => s.capability.Some?
    case 3 => s.trace.Some?
    case 4 => s.tool.Some?
    case 5 => s.scheduler.Some?
    case 6 => s.memory.Some?
    case _ => false
  }

  lemma PresentIffLastReads(c: Codecs, fs: seq<Frame>, tag: nat)
    ensures IsPresent(FromLastFrames(c, fs), tag) <==>
      LastPayload(fs, tag).Some? && Reads(c, tag, LastPayload(fs, tag).value)
  {
  }

  lemma ReadsOnlyBrackets(c: Codecs, tag: nat, p: seq<Byte>)
    requires AllObjects(c) && Reads(c, tag, p)
    ensures |p| > 0 && Opens(p[0])
  {
    assert ReadsBrackets(c.header, p) && ReadsBrackets(c.vm, p) && ReadsBrackets(c.capability, p);
    assert ReadsBrackets(c.trace, p) && ReadsBrackets(c.tool, p) && ReadsBrackets(c.scheduler, p);
    assert ReadsBrackets(c.memory, p);
  }

  /** A frame with the text of a part of the snapshot, no proper prefix of which reads. */
  ghost predicate IsObjectFrame(c: Codecs, f: Frame) {
    && f.tag <= MEMORY_TAG && IsObjectText(f.payload)
    && forall k :: 0 <= k < |f.payload| ==> !Reads(c, f.tag, f.payload[..k])
  }

  /** Tags rise from frame to frame; all frames of present parts hold their texts. */
  ghost predicate InOrder(c: Codecs, s: LayeredSnapshot, fs: seq<Frame>, bound: nat) {
    && |fs| > 0 && fs[0].tag == HEADER_TAG
    && (forall i, j :: 0 <= i < j < |fs| ==> fs[i].tag < fs[j].tag)
    && (forall i :: 0 <= i < |fs| ==> fs[i].tag < bound)
    && (forall i :: 0 <= i < |fs| ==> IsPresent(s, fs[i].tag) || i == 0)
    && (forall i :: 0 <= i < |fs| && IsPresent(s, fs[i].tag) ==> IsObjectFrame(c, fs[i]))
  }

  lemma AddStratum<T(!new)>(c: Codecs, s: LayeredSnapshot, fs: seq<Frame>, tag: nat, codec: Codec<T>, stratum: Option<T>)
    returns (all: seq<Frame>)
    requires InOrder(c, s, fs, tag) && tag <= MEMORY_TAG && ObjectCodec(codec)
    requires Frames(tag, codec, stratum).Success? && stratum.Some? == IsPresent(s, tag)
    requires forall p :: Reads(c, tag, p) == codec.read(p).Some?
    ensures all == fs + Frames(tag, codec, stratum).value && InOrder(c, s, all, tag + 1)
  {
    all := fs + Frames(tag, codec, stratum).value;
    if stratum.Some? {
      assert WritesObject(codec, stratum.value);
      assert IsObjectFrame(c, all[|fs|]);
    }
  }

  lemma HeaderInOrder(c: Codecs, s: LayeredSnapshot)
    requires ObjectCodec(c.header) && c.WriteHeader(s.header).Success?
    ensures InOrder(c, s, [Frame(HEADER_TAG, c.WriteHeader(s.header).value)], VM_TAG)
  {
    if s.header.Some? {
      assert WritesObject(c.header, s.header.value);
    }
  }

  lemma SnapshotFramesInOrder(c: Codecs, s: LayeredSnapshot)
    requires AllObjects(c) && SnapshotFrames(c, s).Success?
    ensures InOrder(c, s, SnapshotFrames(c, s).value, MEMORY_TAG + 1)
  {
    HeaderInOrder(c, s);
    var fs := [Frame(HEADER_TAG, c.WriteHeader(s.header).value)];
    fs := AddStratum(c, s, fs, VM_TAG, c.vm, s.vm);
    fs := AddStratum(c, s, fs, CAPABILITY_TAG, c.capability, s.capability);
    fs := AddStratum(c, s, fs, TRACE_TAG, c.trace, s.trace);
    fs := AddStratum(c, s, fs, TOOL_TAG, c.tool, s.tool);
    fs := AddStratum(c, s, fs, SCHEDULER_TAG, c.scheduler, s.scheduler);
    fs := AddStratum(c, s, fs, MEMORY_TAG, c.memory, s.memory);
  }

  // ---------- Reading from anywhere inside texts and frames ----------

  /** The number a frame head at position `q` would have as its tag. */
  function TagAt(region: seq<Byte>, q: nat): nat
    requires q + 1 < |region|
  {
    ByteValue(region[q]) + 256 * ByteValue(region[q + 1])
  }

  /** Wherever the parser finds this tag, the payload after it does not open an object or array. */
  ghost predicate Harmless(region: seq<Byte>, tag: nat) {
    forall q: nat :: q + FRAME_HEAD < |region| && TagAt(region, q) == tag ==> !Opens(region[q + FRAME_HEAD])
  }

  lemma TagOfIsTagAt(region: seq<Byte>)
    requires |region| >= FRAME_HEAD
    ensures TagOf(region) == TagAt(region, 0)
  {
    var t := region[..2];
    assert t[1..][1..] == [];
    assert LittleEndianValue(t[1..]) == ByteValue(t[1]) + 256 * LittleEndianValue(t[1..][1..]);
  }

  lemma HarmlessSuffix(region: seq<Byte>, tag: nat, k: nat)
    requires Harmless(region, tag) && k <= |region|
    ensures Harmless(region[k..], tag)
  {
    var s := region[k..];
    forall q: nat | q + FRAME_HEAD < |s| && TagAt(s, q) == tag ensures !Opens(s[q + FRAME_HEAD]) {
      assert TagAt(region, k + q) == tag;
    }
  }

  lemma HarmlessText(w: seq<Byte>, rest: seq<Byte>, tag: nat)
    requires tag < 0x20 && Harmless(rest, tag)
    requires forall i :: 0 <= i < |w| ==> Printable(w[i])
    ensures Harmless(w + rest, tag)
  {
    var s := w + rest;
    forall q: nat | q + FRAME_HEAD < |s| ensures TagAt(s, q) == tag ==> !Opens(s[q + FRAME_HEAD]) {
      if q < |w| {
        assert Printable(w[q]);
      } else {
        assert TagAt(rest, q - |w|) == TagAt(s, q);
      }
    }
  }

  lemma PayloadAt(f: Frame, rest: seq<Byte>, k: nat)
    requires k < |f.payload|
    ensures (RawFrame(f) + rest)[FRAME_HEAD + k] == f.payload[k]
  {
  }

  /**
   The bytes 01 00 of a tag may occur inside the length of a frame; the payload they announce
   then starts inside the name of the first member of an object.
   */
  lemma HarmlessHead(f: Frame, rest: seq<Byte>, tag: nat, q: nat)
    requires tag < 0x20 && f.tag < 0x20 && f.tag != tag && IsObjectText(f.payload)
    requires q < FRAME_HEAD && TagAt(RawFrame(f) + rest, q) == tag
    ensures !Opens((RawFrame(f) + rest)[q + FRAME_HEAD])
  {
    PayloadAt(f, rest, 0);
    assert Printable(f.payload[0]);
    if q == 0 {
      HeadReadsBack(f, rest);
      TagOfIsTagAt(RawFrame(f) + rest);
    } else if q < 5 {
      PayloadAt(f, rest, q);
    }
  }

  lemma HarmlessFrame(f: Frame, rest: seq<Byte>, tag: nat)
    requires tag < 0x20 && f.tag < 0x20 && f.tag != tag && IsObjectText(f.payload) && Harmless(rest, tag)
    ensures Harmless(RawFrame(f) + rest, tag)
  {
    var s := RawFrame(f) + rest;
    var head := RawFrame(f)[..FRAME_HEAD];
    HarmlessText(f.payload, rest, tag);
    assert s == head + (f.payload + rest);
    forall q: nat | q + FRAME_HEAD < |s| && TagAt(s, q) == tag ensures !Opens(s[q + FRAME_HEAD]) {
      if q < FRAME_HEAD {
        HarmlessHead(f, rest, tag, q);
      } else {
        assert TagAt(f.payload + rest, q - FRAME_HEAD) == tag;
      }
    }
  }

  lemma {:induction false} HarmlessFrames(fs: seq<Frame>, tag: nat)
    requires tag < 0x20
    requires forall f :: f in fs ==> f.tag < 0x20 && f.tag != tag && IsObjectText(f.payload)
    ensures Harmless(RawFrames(fs), tag)
  {
    if |fs| > 0 {
      HarmlessFrames(fs[1..], tag);
      HarmlessFrame(fs[0], RawFrames(fs[1..]), tag);
    }
  }

  ghost predicate IsShut(p: seq<Byte>) {
    |p| == 0 || !Opens(p[0])
  }

  /** From a harmless region no frame with the tag comes whose payload opens an object or array. */
  lemma {:induction false} HarmlessSplit(region: seq<Byte>, tag: nat)
    requires Harmless(region, tag) && Split(region).Some?
    ensures forall f :: f in Split(region).value.0 && f.tag == tag ==> IsShut(f.payload)
    decreases |region|
  {
    if |region| >= FRAME_HEAD {
      HarmlessSuffix(region, tag, FRAME_HEAD + LengthOf(region));
      HarmlessSplit(AfterHead(region), tag);
      TagOfIsTagAt(region);
      assert Split(region).value.0 == [HeadFrame(region)] + Split(AfterHead(region)).value.0;
    }
  }

  // ---------- What becomes of an oversize payload ----------

  lemma {:induction false} LastPayloadAppend(a: seq<Frame>, b: seq<Frame>, tag: nat)
    ensures LastPayload(a + b, tag) == if LastPayload(b, tag).Some? then LastPayload(b, tag) else LastPayload(a, tag)
  {
    if |b| == 0 {
      assert a + b == a;
    } else {
      LastPayloadAppend(a, b[..|b| - 1], tag);
      assert (a + b)[..|a + b| - 1] == a + b[..|b| - 1];
    }
  }

  lemma {:induction false} LastPayloadIsThere(fs: seq<Frame>, tag: nat)
    requires LastPayload(fs, tag).Some?
    ensures Frame(tag, LastPayload(fs, tag).value) in fs
  {
    if fs[|fs| - 1].tag != tag {
      LastPayloadIsThere(fs[..|fs| - 1], tag);
    }
  }

  /** An oversize frame is read as a short piece of itself, and the rest of it as what follows. */
  lemma SplitOversize(f: Frame, tail: seq<Byte>)
    requires f.tag < 0x1_0000 && |f.payload| >= LENGTH_LIMIT
    ensures var short := |f.payload| % LENGTH_LIMIT;
      ReadsThrough(RawFrame(f) + tail, [Frame(f.tag, f.payload[..short])], f.payload[short..] + tail)
  {
    var region, short := RawFrame(f) + tail, |f.payload| % LENGTH_LIMIT;
    HeadReadsBack(f, tail);
    assert HeadFrame(region).payload == f.payload[..short];
    assert AfterHead(region) == f.payload[short..] + tail;
  }

  /** The part with the tag of an oversize payload is not read, whatever the parser goes on to read. */
  lemma OversizeFrameIsLost(c: Codecs, before: seq<Frame>, f: Frame, after: seq<Frame>)
    requires AllObjects(c) && AllFit(before) && IsObjectFrame(c, f) && |f.payload| >= LENGTH_LIMIT
    requires forall g :: g in after ==> g.tag != f.tag && IsObjectFrame(c, g)
    ensures var all := Split(RawFrames(before) + (RawFrame(f) + RawFrames(after)));
      all.Some? ==> !IsPresent(FromLastFrames(c, all.value.0), f.tag)
  {
    var tail, short := RawFrames(after), |f.payload| % LENGTH_LIMIT;
    var text := f.payload[short..];
    SplitAfterFrames(before, RawFrame(f) + tail);
    SplitOversize(f, tail);
    if Split(text + tail).Some? {
      var piece, others := Frame(f.tag, f.payload[..short]), Split(text + tail).value.0;
      HarmlessFrames(after, f.tag);
      HarmlessText(text, tail, f.tag);
      HarmlessSplit(text + tail, f.tag);
      LastPayloadAppend(before, [piece] + others, f.tag);
      LastPayloadAppend([piece], others, f.tag);
      var all := before + ([piece] + others);
      PresentIffLastReads(c, all, f.tag);
      if LastPayload(others, f.tag).Some? {
        LastPayloadIsThere(others, f.tag);
      }
      if Reads(c, f.tag, LastPayload(all, f.tag).value) {
        ReadsOnlyBrackets(c, f.tag, LastPayload(all, f.tag).value);
      }
    }
  }

  lemma {:induction false} RawFramesAround(fs: seq<Frame>, i: nat)
    requires i < |fs|
    ensures RawFrames(fs) == RawFrames(fs[..i]) + (RawFrame(fs[i]) + RawFrames(fs[i + 1..]))
  {
    assert fs == fs[..i] + fs[i..] && fs[i..][1..] == fs[i + 1..];
    RawFramesAppend(fs[..i], fs[i..]);
  }

  ghost function FirstMisfit(fs: seq<Frame>): (i: nat)
    requires !AllFit(fs)
    ensures i < |fs| && !Fits(fs[i]) && AllFit(fs[..i])
  {
    var n := |fs| - 1;
    if AllFit(fs[..n]) then
      assert Fits(fs[n]) ==> AllFit(fs[..n] + [fs[n]]);
      assert fs == fs[..n] + [fs[n]];
      n
    else
      var i := FirstMisfit(fs[..n]);
      assert fs[..n][..i] == fs[..i];
      i
  }

  /** The first part of a snapshot whose payload is too long is missing from what its file restores to. */
  lemma FirstOversizeIsLost(c: Codecs, s: LayeredSnapshot)
    requires AllObjects(c) && |c.noHeader| < LENGTH_LIMIT
    requires SnapshotFrames(c, s).Success? && !AllFit(SnapshotFrames(c, s).value)
    ensures var fs := SnapshotFrames(c, s).value; var tag := fs[FirstMisfit(fs)].tag;
      && IsPresent(s, tag)
      && (Restored(c, File(FORMAT_VERSION, fs, [])).Success? ==>
            !IsPresent(Restored(c, File(FORMAT_VERSION, fs, [])).value, tag))
  {
    var fs := SnapshotFrames(c, s).value;
    var i := FirstMisfit(fs);
    SnapshotFramesInOrder(c, s);
    RawFramesAround(fs, i);
    OversizeFrameIsLost(c, fs[..i], fs[i], fs[i + 1..]);
    if Restored(c, File(FORMAT_VERSION, fs, [])).Success? {
      RestoredSplits(c, fs);
    }
  }

  lemma RestoredSplits(c: Codecs, fs: seq<Frame>)
    requires Restored(c, File(FORMAT_VERSION, fs, [])).Success?
    ensures Split(RawFrames(fs)).Some?
    ensures Restored(c, File(FORMAT_VERSION, fs, [])) == Success(FromLastFrames(c, Split(RawFrames(fs)).value.0))
  {
    FileLayout(FORMAT_VERSION, fs, []);
    assert RawFrames(fs) + [] == RawFrames(fs);
    LastFrameDecides(c, Split(RawFrames(fs)).value.0);
  }

  /**
   A snapshot survives serialization exactly when every payload is shorter than 2^32 bytes,
   whichever parts it has and however many of them are too long.
   */
  lemma RoundTripIffPayloadsFit(c: Codecs, s: LayeredSnapshot)
    requires c.Invertible() && AllObjects(c) && |c.noHeader| < LENGTH_LIMIT
    requires Serialized(c, s).Success?
    ensures Restored(c, Serialized(c, s).value) == Success(s) <==> PayloadsFit(c, s)
  {
    if PayloadsFit(c, s) {
      RoundTrip(c, s);
    } else {
      FirstOversizeIsLost(c, s);
    }
  }
}
