/**
 The JSON text of a heap stratum as the snapshot builder makes it
 (runtime/src/snapshot.rs:142-148): the heap as an array of decimal numbers, then the fixed
 engine version. It is an instance of the texts the oversize results are about, and gives
 a snapshot that is written and does not come back.
 */
module VmText {
  import opened Prelude
  import opened Octet
  import opened Framing
  import opened Snapshot
  import opened Oversize

  const JSC_VERSION: string := "JSC/stub-0.1"

  /** `{"heap_bytes":[` */
  const OPENING: seq<Byte> := [0x7B, 0x22, 0x68, 0x65, 0x61, 0x70, 0x5F, 0x62, 0x79, 0x74, 0x65, 0x73, 0x22, 0x3A, 0x5B]
  /** `],"jsc_version":"JSC/stub-0.1"}` */
  const CLOSING: seq<Byte> := [0x5D, 0x2C, 0x22, 0x6A, 0x73, 0x63, 0x5F, 0x76, 0x65, 0x72, 0x73, 0x69, 0x6F, 0x6E, 0x22, 0x3A,
                               0x22, 0x4A, 0x53, 0x43, 0x2F, 0x73, 0x74, 0x75, 0x62, 0x2D, 0x30, 0x2E, 0x31, 0x22, 0x7D]
  const BRACKET: Byte := 0x5D
  const COMMA: Byte := 0x2C

  predicate IsDigit(b: Byte) {
    0x30 <= ByteValue(b) < 0x3A
  }

  function Digit(n: nat): (b: Byte)
    requires n < 10
  {
    ToByte(0x30 + n)
  }

  function Decimal(n: nat): (s: seq<Byte>)
    ensures |s| > 0
  {
    (if n < 10 then [] else Decimal(n / 10)) + [Digit(n % 10)]
  }

  function DecimalValue(s: seq<Byte>): int {
    if |s| == 0 then 0 else 10 * DecimalValue(s[..|s| - 1]) + ByteValue(s[|s| - 1]) - 0x30
  }

  /** The numbers of an array that starts with `heap`, separated by commas, up to the end of the text. */
  function From(heap: seq<Byte>, end: seq<Byte>): seq<Byte>
    decreases |heap|, 0
  {
    if |heap| == 0 then end else Decimal(ByteValue(heap[0])) + After(heap[1..], end)
  }

  /** What follows a number. */
  function After(heap: seq<Byte>, end: seq<Byte>): seq<Byte>
    decreases |heap|, 1
  {
    if |heap| == 0 then end else [COMMA] + From(heap, end)
  }

  function HeapText(heap: seq<Byte>): seq<Byte> {
    OPENING + From(heap, CLOSING)
  }

  // ---------- Its bytes ----------

  lemma DigitIsDigit(n: nat)
    requires n < 10
    ensures ByteValue(Digit(n)) == 0x30 + n && IsDigit(Digit(n))
  {
    ByteValueInverts(0x30 + n);
  }

  lemma {:induction false} DecimalDigits(n: nat, i: nat)
    requires i < |Decimal(n)|
    ensures IsDigit(Decimal(n)[i])
  {
    DigitIsDigit(n % 10);
    if n >= 10 && i < |Decimal(n / 10)| {
      DecimalDigits(n / 10, i);
    }
  }

  lemma {:induction false} DecimalReadsBack(n: nat)
    ensures DecimalValue(Decimal(n)) == n
  {
    DigitIsDigit(n % 10);
    assert Decimal(n)[..|Decimal(n)| - 1] == if n < 10 then [] else Decimal(n / 10);
    if n >= 10 {
      DecimalReadsBack(n / 10);
    }
  }

  ghost predicate AllPrintable(s: seq<Byte>) {
    forall i :: 0 <= i < |s| ==> Printable(s[i])
  }

  lemma {:induction false} FromIsPrintable(heap: seq<Byte>, end: seq<Byte>)
    requires AllPrintable(end) && Printable(COMMA)
    ensures AllPrintable(From(heap, end)) && AllPrintable(After(heap, end))
  {
    if |heap| > 0 {
      var n := ByteValue(heap[0]);
      FromIsPrintable(heap[1..], end);
      forall i | 0 <= i < |Decimal(n)| ensures Printable(Decimal(n)[i]) {
        DecimalDigits(n, i);
      }
    }
  }

  lemma {:induction false} FromIsLong(heap: seq<Byte>, end: seq<Byte>)
    ensures |After(heap, end)| >= 2 * |heap| + |end|
    ensures |From(heap, end)| + 1 >= 2 * |heap| + |end|
  {
    if |heap| > 0 {
      FromIsLong(heap[1..], end);
    }
  }

  // ---------- No text of this kind starts another ----------

  /** Digits up to something that is no digit: the number and the rest are determined. */
  lemma NumberIsDetermined(m: nat, n: nat, r: seq<Byte>, s: seq<Byte>)
    requires |r| > 0 && !IsDigit(r[0]) && |s| > 0 && !IsDigit(s[0])
    requires Decimal(m) + r <= Decimal(n) + s
    ensures m == n && r <= s
  {
    var a, b := Decimal(m), Decimal(n);
    var i := if |a| < |b| then |a| else |b|;
    assert (a + r)[i] == (b + s)[i];
    if |a| < |b| {
      DecimalDigits(n, i);
    } else if |b| < |a| {
      DecimalDigits(m, i);
    } else {
      SameCut(a, r, b, s);
      DecimalReadsBack(m);
      DecimalReadsBack(n);
    }
  }

  lemma SameCut(a: seq<Byte>, r: seq<Byte>, b: seq<Byte>, s: seq<Byte>)
    requires |a| == |b| && a + r <= b + s
    ensures a == b && r <= s
  {
    assert a == (a + r)[..|a|] && b == (b + s)[..|a|];
    assert r == (a + r)[|a|..] && s == (b + s)[|a|..];
  }

  /** The end of the text, told from a number and from a comma by its first byte. */
  ghost predicate Ends(end: seq<Byte>) {
    |end| > 0 && !IsDigit(end[0]) && end[0] != COMMA && !IsDigit(COMMA)
  }

  lemma FromStartsWithDigit(heap: seq<Byte>, end: seq<Byte>)
    requires |heap| > 0
    ensures |From(heap, end)| > 0 && IsDigit(From(heap, end)[0])
  {
    DecimalDigits(ByteValue(heap[0]), 0);
  }

  lemma {:induction false} AfterIsDetermined(h: seq<Byte>, k: seq<Byte>, end: seq<Byte>)
    requires Ends(end) && After(h, end) <= After(k, end)
    ensures h == k
    decreases |h|, 1
  {
    if |h| > 0 && |k| > 0 {
      SameCut([COMMA], From(h, end), [COMMA], From(k, end));
      FromIsDetermined(h, k, end);
    }
  }

  lemma {:induction false} FromIsDetermined(h: seq<Byte>, k: seq<Byte>, end: seq<Byte>)
    requires Ends(end) && From(h, end) <= From(k, end)
    ensures h == k
    decreases |h|, 0
  {
    if |h| > 0 && |k| > 0 {
      NumberIsDetermined(ByteValue(h[0]), ByteValue(k[0]), After(h[1..], end), After(k[1..], end));
      ToByteInverts(h[0]);
      ToByteInverts(k[0]);
      AfterIsDetermined(h[1..], k[1..], end);
      assert h == [h[0]] + h[1..] && k == [k[0]] + k[1..];
    } else if |h| > 0 {
      FromStartsWithDigit(h, end);
    } else if |k| > 0 {
      FromStartsWithDigit(k, end);
    }
  }

  lemma ClosingEnds()
    ensures Ends(CLOSING)
  {
    assert CLOSING[0] == BRACKET;
    ByteValueInverts(0x5D);
    ByteValueInverts(0x2C);
  }

  lemma HeapTextIsDetermined(h: seq<Byte>, k: seq<Byte>)
    requires HeapText(h) <= HeapText(k)
    ensures h == k
  {
    ClosingEnds();
    SameCut(OPENING, From(h, CLOSING), OPENING, From(k, CLOSING));
    FromIsDetermined(h, k, CLOSING);
  }

  lemma HeapTextIsObjectText(heap: seq<Byte>)
    ensures IsObjectText(HeapText(heap))
  {
    OpeningIsPrintable();
    ClosingIsPrintable();
    FromIsPrintable(heap, CLOSING);
    NameDoesNotOpen();
    forall i | 1 <= i < 5 ensures !Opens(HeapText(heap)[i]) {
      assert HeapText(heap)[i] == OPENING[i];
    }
  }

  lemma OpeningIsPrintable()
    ensures AllPrintable(OPENING) && Printable(COMMA)
  {
  }

  lemma ClosingIsPrintable()
    ensures AllPrintable(CLOSING)
  {
  }

  lemma NameDoesNotOpen()
    ensures forall i :: 1 <= i < 5 ==> !Opens(OPENING[i])
  {
  }

  // ---------- The codec of heaps ----------

  ghost predicate IsHeapText(p: seq<Byte>) {
    exists heap :: HeapText(heap) == p
  }

  /** The heap that a text holds. */
  ghost function HeapOf(p: seq<Byte>): (heap: seq<Byte>)
    requires IsHeapText(p)
    ensures HeapText(heap) == p
  {
    var heap :| HeapText(heap) == p;
    heap
  }

  /** Writes the strata the builder makes, and reads what it writes. */
  ghost function HeapCodec(): Codec<VmStratum> {
    Codec((v: VmStratum) => if v.jscVersion == JSC_VERSION then Success(HeapText(v.heapBytes)) else Failure(SerializeError("not built")),
          p => if IsHeapText(p) then Some(VmStratum(HeapOf(p), JSC_VERSION)) else None)
  }

  lemma HeapCodecIsObjectCodec()
    ensures ObjectCodec(HeapCodec()) && forall x :: HeapCodec().ReadsBack(x)
  {
    forall x: VmStratum | x.jscVersion == JSC_VERSION
      ensures HeapCodec().ReadsBack(x) && WritesObject(HeapCodec(), x)
    {
      var text := HeapText(x.heapBytes);
      HeapTextIsObjectText(x.heapBytes);
      assert IsHeapText(text);
      HeapTextIsDetermined(HeapOf(text), x.heapBytes);
      forall k | 0 <= k < |text| ensures HeapCodec().read(text[..k]).None? {
        if IsHeapText(text[..k]) {
          HeapTextIsDetermined(HeapOf(text[..k]), x.heapBytes);
        }
      }
    }
    forall p ensures ReadsBrackets(HeapCodec(), p) {
      if IsHeapText(p) {
        assert p == HeapText(HeapOf(p)) && p[0] == OPENING[0];
        OpeningOpens();
      }
    }
  }

  lemma OpeningOpens()
    ensures Opens(OPENING[0])
  {
  }

  // ---------- Heaps that are lost ----------

  const LOST_HEAP_SIZE: nat := 0x8000_0000

  lemma HeapTextIsLong(heap: seq<Byte>)
    ensures |HeapText(heap)| > 2 * |heap|
  {
    FromIsLong(heap, CLOSING);
  }

  /**
   A snapshot with a heap of 2^31 bytes or more, built and written as the program does and with
   any other strata, is never what its file restores to.
   */
  lemma LargeHeapIsLost(c: Codecs, s: LayeredSnapshot)
    requires c.Invertible() && AllObjects(c) && |c.noHeader| < LENGTH_LIMIT
    requires s.vm.Some? && |s.vm.value.heapBytes| >= LOST_HEAP_SIZE
    requires c.vm.write(s.vm.value) == Success(HeapText(s.vm.value.heapBytes))
    requires Serialized(c, s).Success?
    ensures Restored(c, Serialized(c, s).value) != Success(s)
  {
    var fs, payload := SnapshotFrames(c, s).value, HeapText(s.vm.value.heapBytes);
    HeapTextIsLong(s.vm.value.heapBytes);
    assert fs[1] == Frame(VM_TAG, payload) && !Fits(fs[1]);
    RoundTripIffPayloadsFit(c, s);
  }

  /** A codec for strata that do not occur. */
  function NoCodec<T>(): Codec<T> {
    Codec((x: T) => Failure(SerializeError("not built")), p => None)
  }

  /** Codecs for snapshots with a heap and nothing else; a missing header is written as `null`. */
  ghost function HeapCodecs(): Codecs {
    Codecs(NoCodec(), [0x6E, 0x75, 0x6C, 0x6C], HeapCodec(), NoCodec(), NoCodec(), NoCodec(), NoCodec(), NoCodec())
  }

  lemma HeapCodecsAreObjects()
    ensures HeapCodecs().Invertible() && AllObjects(HeapCodecs())
  {
    HeapCodecIsObjectCodec();
  }

  /** The default snapshot with a heap of 2^31 zero bytes: it is written, and does not come back. */
  lemma OversizePayloadIsLost()
    ensures
      var c := HeapCodecs();
      var zeros := seq(LOST_HEAP_SIZE, _ => 0 as Byte);
      var s := EMPTY_SNAPSHOT.(vm := Some(VmStratum(zeros, JSC_VERSION)));
      && c.Invertible() && AllObjects(c)
      && Serialized(c, s).Success?
      && Restored(c, Serialized(c, s).value) != Success(s)
  {
    HeapCodecsAreObjects();
    var zeros := seq(LOST_HEAP_SIZE, _ => 0 as Byte);
    LargeHeapIsLost(HeapCodecs(), EMPTY_SNAPSHOT.(vm := Some(VmStratum(zeros, JSC_VERSION))));
  }
}
