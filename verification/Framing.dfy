/**
 The frames of the snapshot format (runtime/src/snapshot.rs): a 16-bit tag, a 32-bit payload
 length, both little-endian, then the payload. A region of a file is a row of frames followed
 by fewer than six spare bytes.
 */
module Framing {
  import opened Octet
  import opened Prelude

  const FRAME_HEAD: nat := 6
  const TAG_BYTES: nat := 2
  const LENGTH_BYTES: nat := 4
  const LENGTH_LIMIT: nat := 0x1_0000_0000

  // ---------- Little-endian numbers ----------

  function Power256(k: nat): (p: nat)
    ensures p > 0
  {
    if k == 0 then 1 else 256 * Power256(k - 1)
  }

  /** The `k` low bytes of `n`, least significant first; higher bytes are cut off. */
  function LittleEndian(n: nat, k: nat): (s: seq<Byte>)
    ensures |s| == k
  {
    if k == 0 then [] else [ToByte(n % 256)] + LittleEndian(n / 256, k - 1)
  }

  function LittleEndianValue(s: seq<Byte>): nat {
    if |s| == 0 then 0 else ByteValue(s[0]) + 256 * LittleEndianValue(s[1..])
  }

  lemma ModByParts(n: nat, p: nat)
    requires p > 0
    ensures n % (256 * p) == n % 256 + 256 * (n / 256 % p)
  {
    var q, r := n / 256 / p, n / 256 % p;
    assert n / 256 == q * p + r;
    assert n == q * (256 * p) + (256 * r + n % 256);
    ModIsUnique(n, 256 * p, q, 256 * r + n % 256);
  }

  lemma ModIsUnique(n: nat, p: nat, q: nat, r: nat)
    requires n == q * p + r && r < p
    ensures n % p == r
  {
    var q', r' := n / p, n % p;
    assert n == q' * p + r';
    if q > q' {
      AtLeastOnce(q, q', p);
    } else if q < q' {
      AtLeastOnce(q', q, p);
    }
  }

  lemma AtLeastOnce(a: nat, b: nat, p: nat)
    requires a > b
    ensures a * p >= b * p + p
  {
    assert a * p == b * p + (a - b) * p;
    assert (a - b) * p == p + (a - b - 1) * p;
  }

  lemma {:induction false} LittleEndianTruncates(n: nat, k: nat)
    ensures LittleEndianValue(LittleEndian(n, k)) == n % Power256(k)
  {
    if k > 0 {
      LittleEndianTruncates(n / 256, k - 1);
      ByteValueInverts(n % 256);
      assert LittleEndian(n, k)[1..] == LittleEndian(n / 256, k - 1);
      ModByParts(n, Power256(k - 1));
    }
  }

  lemma DigitAndRest(a: nat, v: nat)
    requires a < 256
    ensures (a + 256 * v) % 256 == a && (a + 256 * v) / 256 == v
  {
  }

  lemma LittleEndianStep(b: Byte, v: nat, k: nat)
    ensures LittleEndian(ByteValue(b) + 256 * v, k + 1) == [b] + LittleEndian(v, k)
  {
    DigitAndRest(ByteValue(b), v);
    ToByteInverts(b);
  }

  lemma {:induction false} LittleEndianInverts(s: seq<Byte>)
    ensures LittleEndian(LittleEndianValue(s), |s|) == s
    ensures LittleEndianValue(s) < Power256(|s|)
  {
    if |s| > 0 {
      LittleEndianInverts(s[1..]);
      LittleEndianStep(s[0], LittleEndianValue(s[1..]), |s| - 1);
    }
  }

  // ---------- Frames ----------

  datatype Frame = Frame(tag: nat, payload: seq<Byte>)

  /** A frame as it is written: tag and length are cut to two and four bytes. */
  function RawFrame(f: Frame): (raw: seq<Byte>)
    ensures |raw| == FRAME_HEAD + |f.payload|
  {
    LittleEndian(f.tag, TAG_BYTES) + LittleEndian(|f.payload|, LENGTH_BYTES) + f.payload
  }

  function RawFrames(fs: seq<Frame>): seq<Byte> {
    if |fs| == 0 then [] else RawFrame(fs[0]) + RawFrames(fs[1..])
  }

  predicate Fits(f: Frame) {
    f.tag < 0x1_0000 && |f.payload| < LENGTH_LIMIT
  }

  predicate AllFit(fs: seq<Frame>) {
    forall i :: 0 <= i < |fs| ==> Fits(fs[i])
  }

  function TagOf(region: seq<Byte>): nat
    requires |region| >= FRAME_HEAD
  {
    LittleEndianValue(region[..2])
  }

  function LengthOf(region: seq<Byte>): nat
    requires |region| >= FRAME_HEAD
  {
    LittleEndianValue(region[2..6])
  }

  /** The frames of a region and the spare bytes after them; None if a payload overruns. */
  function Split(region: seq<Byte>): Option<(seq<Frame>, seq<Byte>)>
    decreases |region|
  {
    if |region| < FRAME_HEAD then Some(([], region))
    else
      var end := FRAME_HEAD + LengthOf(region);
      if end > |region| then None
      else
        match Split(region[end..])
        case None => None
        case Some((fs, rest)) => Some(([Frame(TagOf(region), region[FRAME_HEAD..end])] + fs, rest))
  }

  /** A row of frames, each within the limits, then fewer spare bytes than a frame head. */
  ghost predicate Tiles(region: seq<Byte>, fs: seq<Frame>, rest: seq<Byte>) {
    AllFit(fs) && |rest| < FRAME_HEAD && region == RawFrames(fs) + rest
  }

  lemma FieldSizes()
    ensures Power256(TAG_BYTES) == 0x1_0000 && Power256(LENGTH_BYTES) == LENGTH_LIMIT
  {
    assert Power256(1) == 256 && Power256(2) == 256 * Power256(1);
    assert Power256(3) == 256 * Power256(2) && Power256(4) == 256 * Power256(3);
  }

  /** What is read back at the start of a written frame. */
  lemma HeadReadsBack(f: Frame, tail: seq<Byte>)
    ensures TagOf(RawFrame(f) + tail) == f.tag % 0x1_0000
    ensures LengthOf(RawFrame(f) + tail) == |f.payload| % LENGTH_LIMIT
  {
    var region := RawFrame(f) + tail;
    FieldSizes();
    assert region[..2] == LittleEndian(f.tag, TAG_BYTES);
    assert region[2..6] == LittleEndian(|f.payload|, LENGTH_BYTES);
    LittleEndianTruncates(f.tag, TAG_BYTES);
    LittleEndianTruncates(|f.payload|, LENGTH_BYTES);
  }

  /** The bytes of a frame: tag low and high, four of the length from the lowest, then the payload. */
  lemma RawFrameBytes(f: Frame)
    ensures ByteValue(RawFrame(f)[0]) == f.tag % 256 && ByteValue(RawFrame(f)[1]) == f.tag / 256 % 256
    ensures ByteValue(RawFrame(f)[2]) == |f.payload| % 256 && ByteValue(RawFrame(f)[3]) == |f.payload| / 256 % 256
    ensures ByteValue(RawFrame(f)[4]) == |f.payload| / 256 / 256 % 256
    ensures ByteValue(RawFrame(f)[5]) == |f.payload| / 256 / 256 / 256 % 256
    ensures RawFrame(f)[6..] == f.payload
  {
    LittleEndianAt(f.tag, TAG_BYTES);
    LittleEndianAt(f.tag / 256, 1);
    LittleEndianAt(|f.payload|, LENGTH_BYTES);
    LittleEndianAt(|f.payload| / 256, 3);
    LittleEndianAt(|f.payload| / 256 / 256, 2);
    LittleEndianAt(|f.payload| / 256 / 256 / 256, 1);
  }

  lemma LittleEndianAt(n: nat, k: nat)
    requires k > 0
    ensures ByteValue(LittleEndian(n, k)[0]) == n % 256 && LittleEndian(n, k)[1..] == LittleEndian(n / 256, k - 1)
  {
    ByteValueInverts(n % 256);
  }

  /** The first frame of a region, where a whole frame is there. */
  function HeadFrame(region: seq<Byte>): Frame
    requires |region| >= FRAME_HEAD && FRAME_HEAD + LengthOf(region) <= |region|
  {
    Frame(TagOf(region), region[FRAME_HEAD..FRAME_HEAD + LengthOf(region)])
  }

  function AfterHead(region: seq<Byte>): seq<Byte>
    requires |region| >= FRAME_HEAD && FRAME_HEAD + LengthOf(region) <= |region|
  {
    region[FRAME_HEAD + LengthOf(region)..]
  }

  lemma FieldsWereWritten(region: seq<Byte>)
    requires |region| >= FRAME_HEAD
    ensures TagOf(region) < 0x1_0000 && LittleEndian(TagOf(region), TAG_BYTES) == region[..2]
    ensures LengthOf(region) < LENGTH_LIMIT && LittleEndian(LengthOf(region), LENGTH_BYTES) == region[2..6]
  {
    FieldSizes();
    LittleEndianInverts(region[..2]);
    LittleEndianInverts(region[2..6]);
  }

  /** A region that starts with a whole frame starts with the raw bytes of that frame. */
  lemma HeadWasWritten(region: seq<Byte>)
    requires |region| >= FRAME_HEAD && FRAME_HEAD + LengthOf(region) <= |region|
    ensures Fits(HeadFrame(region)) && region == RawFrame(HeadFrame(region)) + AfterHead(region)
  {
    FieldsWereWritten(region);
    InFourParts(region, 2, 6, 6 + LengthOf(region));
  }

  lemma InFourParts<T>(s: seq<T>, a: nat, b: nat, c: nat)
    requires a <= b <= c <= |s|
    ensures s == s[..a] + s[a..b] + s[b..c] + s[c..]
  {
  }

  lemma RawFramesCons(f: Frame, fs: seq<Frame>, rest: seq<Byte>)
    ensures RawFrames([f] + fs) + rest == RawFrame(f) + (RawFrames(fs) + rest)
  {
    assert ([f] + fs)[1..] == fs;
  }

  /** A written frame is the first one read back exactly when it is within the limits. */
  lemma FrameSurvivesIffItFits(f: Frame, tail: seq<Byte>)
    ensures
      var region := RawFrame(f) + tail;
      (FRAME_HEAD + LengthOf(region) <= |region| && HeadFrame(region) == f) <==> Fits(f)
  {
    HeadReadsBack(f, tail);
    PayloadFollows(f, tail);
    var region := RawFrame(f) + tail;
    if FRAME_HEAD + LengthOf(region) <= |region| && HeadFrame(region) == f {
      FieldsWereWritten(region);
    }
  }

  lemma PayloadFollows(f: Frame, tail: seq<Byte>)
    ensures (RawFrame(f) + tail)[FRAME_HEAD..FRAME_HEAD + |f.payload|] == f.payload
  {
  }

  lemma {:induction false} SplitTiles(region: seq<Byte>)
    requires Split(region).Some?
    ensures Tiles(region, Split(region).value.0, Split(region).value.1)
    decreases |region|
  {
    if |region| >= FRAME_HEAD {
      HeadWasWritten(region);
      var f, tail := HeadFrame(region), AfterHead(region);
      SplitTiles(tail);
      var fs, rest := Split(tail).value.0, Split(tail).value.1;
      RawFramesCons(f, fs, rest);
    }
  }

  lemma {:induction false} TilingIsSplit(fs: seq<Frame>, rest: seq<Byte>)
    requires AllFit(fs) && |rest| < FRAME_HEAD
    ensures Split(RawFrames(fs) + rest) == Some((fs, rest))
  {
    var region := RawFrames(fs) + rest;
    if |fs| == 0 {
      assert region == [] + rest == rest;
    } else {
      var f, tail := fs[0], RawFrames(fs[1..]) + rest;
      TilingIsSplit(fs[1..], rest);
      assert fs == [f] + fs[1..];
      RawFramesCons(f, fs[1..], rest);
      FrameSurvivesIffItFits(f, tail);
      assert AfterHead(region) == tail;
    }
  }

  /** Reading the region gives the frames `fs`, then what reading `tail` gives. */
  ghost predicate ReadsThrough(region: seq<Byte>, fs: seq<Frame>, tail: seq<Byte>) {
    && Split(region).Some? == Split(tail).Some?
    && (Split(region).Some? ==> Split(region).value.0 == fs + Split(tail).value.0)
  }

  lemma ReadsThroughBoth(region: seq<Byte>, fs: seq<Frame>, middle: seq<Byte>, gs: seq<Frame>, tail: seq<Byte>)
    requires ReadsThrough(region, fs, middle) && ReadsThrough(middle, gs, tail)
    ensures ReadsThrough(region, fs + gs, tail)
  {
  }

  lemma SplitAfterFrame(f: Frame, tail: seq<Byte>)
    requires Fits(f)
    ensures ReadsThrough(RawFrame(f) + tail, [f], tail)
  {
    var region := RawFrame(f) + tail;
    FrameSurvivesIffItFits(f, tail);
    assert AfterHead(region) == tail;
  }

  /** Whole frames at the start of a region are read first, whatever follows them. */
  lemma {:induction false} SplitAfterFrames(fs: seq<Frame>, tail: seq<Byte>)
    requires AllFit(fs)
    ensures ReadsThrough(RawFrames(fs) + tail, fs, tail)
  {
    if |fs| == 0 {
      assert RawFrames(fs) + tail == tail;
    } else {
      var middle := RawFrames(fs[1..]) + tail;
      SplitAfterFrames(fs[1..], tail);
      SplitAfterFrame(fs[0], middle);
      ReadsThroughBoth(RawFrame(fs[0]) + middle, [fs[0]], middle, fs[1..], tail);
      assert fs == [fs[0]] + fs[1..];
      RawFramesCons(fs[0], fs[1..], tail);
    }
  }

  /** Reading a region finds its one tiling, and fails exactly when it has none. */
  lemma SplitIsTheTiling(region: seq<Byte>, fs: seq<Frame>, rest: seq<Byte>)
    ensures Split(region) == Some((fs, rest)) <==> Tiles(region, fs, rest)
  {
    if Split(region) == Some((fs, rest)) {
      SplitTiles(region);
    }
    if Tiles(region, fs, rest) {
      TilingIsSplit(fs, rest);
    }
  }

  lemma {:induction false} RawFramesAppend(a: seq<Frame>, b: seq<Frame>)
    ensures RawFrames(a + b) == RawFrames(a) + RawFrames(b)
  {
    if |a| == 0 {
      assert a + b == b;
    } else {
      RawFramesAppend(a[1..], b);
      assert a + b == [a[0]] + (a[1..] + b) && a == [a[0]] + a[1..];
      RawFramesCons(a[0], a[1..] + b, []);
      RawFramesCons(a[0], a[1..], RawFrames(b));
    }
  }
}
