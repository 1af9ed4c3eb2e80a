/**
 Linear feedback shift registers over any word type, and what they can tell apart.
 A machine is given by its operations; the laws say how they interact. Working over an
 abstract word keeps the inductions free of bit-vector reasoning.
 */
module ShiftRegister {

  function Iterate<W>(f: W -> W, w: W, n: nat): W {
    if n == 0 then w else f(Iterate(f, w, n - 1))
  }

  /** The word after feeding the elements of `s` in order. */
  function Run<A, W>(feed: (W, A) -> W, w: W, s: seq<A>): W {
    if |s| == 0 then w else feed(Run(feed, w, s[..|s| - 1]), s[|s| - 1])
  }

  /** The `n` low bits of `w`, lowest first. */
  function LowBits<W>(odd: W -> bool, half: W -> W, w: W, n: nat): (bits: seq<bool>)
    ensures |bits| == n
  {
    if n == 0 then [] else LowBits(odd, half, w, n - 1) + [odd(Iterate(half, w, n - 1))]
  }

  lemma RunStep<A, W>(feed: (W, A) -> W, w: W, s: seq<A>, k: nat)
    requires k < |s|
    ensures Run(feed, w, s[..k + 1]) == feed(Run(feed, w, s[..k]), s[k])
  {
    assert s[..k + 1][..k] == s[..k];
  }

  lemma {:induction false} RunAppend<A, W>(feed: (W, A) -> W, w: W, p: seq<A>, q: seq<A>)
    ensures Run(feed, w, p + q) == Run(feed, Run(feed, w, p), q)
  {
    if |q| == 0 {
      assert p + q == p;
    } else {
      RunAppend(feed, w, p, q[..|q| - 1]);
      assert (p + q)[..|p + q| - 1] == p + q[..|q| - 1];
    }
  }

  /** A run whose successive words are listed in `t`. */
  lemma RunAlong<A, W>(feed: (W, A) -> W, w: W, s: seq<A>, t: seq<W>)
    requires 0 < |s| == |t| && t[0] == feed(w, s[0])
    requires forall k :: 0 < k < |s| ==> t[k] == feed(t[k - 1], s[k])
    ensures Run(feed, w, s) == t[|s| - 1]
  {
    for k := 0 to |s|
      invariant Run(feed, w, s[..k]) == if k == 0 then w else t[k - 1]
    {
      RunStep(feed, w, s, k);
    }
    assert s[..|s|] == s;
  }

  lemma {:induction false} IterateAppend<W>(f: W -> W, w: W, m: nat, n: nat)
    ensures Iterate(f, w, m + n) == Iterate(f, Iterate(f, w, m), n)
  {
    if n > 0 {
      IterateAppend(f, w, m, n - 1);
    }
  }

  ghost predicate Distributes<W>(f: W -> W, op: (W, W) -> W, a: W, b: W) {
    f(op(a, b)) == op(f(a), f(b))
  }

  lemma {:induction false} IterateDistributes<W(!new)>(f: W -> W, op: (W, W) -> W, a: W, b: W, n: nat)
    requires forall v, w :: Distributes(f, op, v, w)
    ensures Iterate(f, op(a, b), n) == op(Iterate(f, a, n), Iterate(f, b, n))
  {
    if n > 0 {
      IterateDistributes(f, op, a, b, n - 1);
      assert Distributes(f, op, Iterate(f, a, n - 1), Iterate(f, b, n - 1));
    }
  }

  lemma {:induction false} LowBitsAppend<W>(odd: W -> bool, half: W -> W, w: W, m: nat, n: nat)
    ensures LowBits(odd, half, w, m + n)
         == LowBits(odd, half, w, m) + LowBits(odd, half, Iterate(half, w, m), n)
  {
    if n > 0 {
      LowBitsAppend(odd, half, w, m, n - 1);
      IterateAppend(half, w, m, n - 1);
    }
  }

  lemma LowBitsInFourParts<W>(odd: W -> bool, half: W -> W, w: W, n: nat)
    ensures LowBits(odd, half, w, n + n + n + n)
         == LowBits(odd, half, w, n) + LowBits(odd, half, Iterate(half, w, n), n)
          + LowBits(odd, half, Iterate(half, w, n + n), n) + LowBits(odd, half, Iterate(half, w, n + n + n), n)
  {
    LowBitsAppend(odd, half, w, n, n);
    LowBitsAppend(odd, half, w, n + n, n);
    LowBitsAppend(odd, half, w, n + n + n, n);
  }

  // ---------- Bit strings made of eight-bit pieces ----------

  ghost predicate Octets<A(!new)>(piece: A -> seq<bool>) {
    forall a :: |piece(a)| == 8
  }

  function Flatten<A>(piece: A -> seq<bool>, s: seq<A>): seq<bool> {
    if |s| == 0 then [] else Flatten(piece, s[..|s| - 1]) + piece(s[|s| - 1])
  }

  lemma {:induction false} FlattenAt<A(!new)>(piece: A -> seq<bool>, s: seq<A>, i: nat, k: nat)
    requires Octets(piece) && i < |s| && k < 8
    ensures |Flatten(piece, s)| == 8 * |s|
    ensures Flatten(piece, s)[8 * i + k] == piece(s[i])[k]
  {
    FlattenLength(piece, s);
    FlattenLength(piece, s[..|s| - 1]);
    if i < |s| - 1 {
      FlattenAt(piece, s[..|s| - 1], i, k);
    }
  }

  lemma {:induction false} FlattenLength<A(!new)>(piece: A -> seq<bool>, s: seq<A>)
    requires Octets(piece)
    ensures |Flatten(piece, s)| == 8 * |s|
  {
    if |s| > 0 {
      FlattenLength(piece, s[..|s| - 1]);
    }
  }

  lemma FlattenFour<A>(piece: A -> seq<bool>, a: A, b: A, c: A, d: A)
    ensures Flatten(piece, [a, b, c, d]) == piece(a) + piece(b) + piece(c) + piece(d)
  {
    assert [a, b, c, d][..3] == [a, b, c] && [a, b, c][..2] == [a, b];
    assert [a, b][..1] == [a] && [a][..0] == [];
    assert Flatten(piece, [a]) == Flatten(piece, []) + piece(a) == piece(a);
    assert Flatten(piece, [a, b]) == piece(a) + piece(b);
    assert Flatten(piece, [a, b, c]) == piece(a) + piece(b) + piece(c);
  }

  lemma FlattenIsInjective<A(!new)>(piece: A -> seq<bool>, s: seq<A>, t: seq<A>)
    requires Octets(piece) && (forall a, b :: piece(a) == piece(b) ==> a == b)
    requires |s| == |t| && Flatten(piece, s) == Flatten(piece, t)
    ensures s == t
  {
    forall i | 0 <= i < |s| ensures s[i] == t[i] {
      forall k: nat | k < 8 ensures piece(s[i])[k] == piece(t[i])[k] {
        FlattenAt(piece, s, i, k);
        FlattenAt(piece, t, i, k);
      }
      assert piece(s[i]) == piece(t[i]);
    }
  }

  /** Pieces that differ only in four consecutive places differ only in 32 consecutive bits. */
  lemma FlattenWindow<A(!new)>(piece: A -> seq<bool>, s: seq<A>, t: seq<A>, start: nat, i: nat)
    requires Octets(piece) && |s| == |t|
    requires forall j :: 0 <= j < |s| && s[j] != t[j] ==> start <= j < start + 4
    requires i < 8 * |s| && |Flatten(piece, s)| == |Flatten(piece, t)| == 8 * |s|
    requires Flatten(piece, s)[i] != Flatten(piece, t)[i]
    ensures 8 * start <= i < 8 * start + 32
  {
    FlattenAt(piece, s, i / 8, i % 8);
    FlattenAt(piece, t, i / 8, i % 8);
  }

  /** A word's low bit and its half determine it. */
  ghost predicate Determined<W>(odd: W -> bool, half: W -> W, v: W, w: W) {
    odd(v) == odd(w) && half(v) == half(w) ==> v == w
  }

  lemma {:induction false} LowBitsDetermine<W(!new)>(odd: W -> bool, half: W -> W, v: W, w: W, n: nat)
    requires forall a, b :: Determined(odd, half, a, b)
    requires LowBits(odd, half, v, n) == LowBits(odd, half, w, n)
    requires Iterate(half, v, n) == Iterate(half, w, n)
    ensures v == w
  {
    if n > 0 {
      var a, b := Iterate(half, v, n - 1), Iterate(half, w, n - 1);
      assert LowBits(odd, half, v, n)[n - 1] == odd(a) && LowBits(odd, half, w, n)[n - 1] == odd(b);
      assert LowBits(odd, half, v, n)[..n - 1] == LowBits(odd, half, v, n - 1);
      assert LowBits(odd, half, w, n)[..n - 1] == LowBits(odd, half, w, n - 1);
      assert Determined(odd, half, a, b);
      LowBitsDetermine(odd, half, v, w, n - 1);
    }
  }

  datatype Machine<!W> = Machine(
    zero: W,
    xor: (W, W) -> W,
    odd: W -> bool,
    half: W -> W,
    bit: bool -> W,
    mask: bool -> W,
    shift: W -> W,
    feed: (W, bool) -> W)

  // The laws of a machine, each used one instance at a time by asserting the instance.

  ghost predicate Associates<W>(m: Machine<W>, a: W, b: W, c: W) {
    m.xor(m.xor(a, b), c) == m.xor(a, m.xor(b, c))
  }

  ghost predicate Commutes<W>(m: Machine<W>, a: W, b: W) {
    m.xor(a, b) == m.xor(b, a)
  }

  ghost predicate Neutral<W>(m: Machine<W>, a: W) {
    m.xor(m.zero, a) == a == m.xor(a, m.zero)
  }

  ghost predicate Cancels<W>(m: Machine<W>, a: W, b: W) {
    m.xor(a, b) == m.zero <==> a == b
  }

  ghost predicate Halves<W>(m: Machine<W>, a: W, b: W) {
    && m.half(m.xor(a, b)) == m.xor(m.half(a), m.half(b))
    && m.odd(m.xor(a, b)) == (m.odd(a) != m.odd(b))
  }

  ghost predicate OneBit<W>(m: Machine<W>, x: bool) {
    m.half(m.bit(x)) == m.zero && m.odd(m.bit(x)) == x
  }

  ghost predicate BitSum<W>(m: Machine<W>, x: bool, y: bool) {
    m.bit(x != y) == m.xor(m.bit(x), m.bit(y)) && m.mask(x != y) == m.xor(m.mask(x), m.mask(y))
  }

  /** A shift drops the low bit and, if that was set, mixes in the mask; only zero shifts to zero. */
  ghost predicate Shifts<W>(m: Machine<W>, c: W) {
    && m.shift(c) == m.xor(m.half(c), m.mask(m.odd(c)))
    && (m.shift(c) == m.zero ==> c == m.zero)
  }

  ghost predicate Feeds<W>(m: Machine<W>, c: W, x: bool) {
    m.feed(c, x) == m.shift(m.xor(c, m.bit(x)))
  }

  ghost predicate Laws<W(!new)>(m: Machine<W>) {
    && (forall a, b, c :: Associates(m, a, b, c))
    && (forall a, b :: Commutes(m, a, b))
    && (forall a :: Neutral(m, a))
    && (forall a, b :: Cancels(m, a, b))
    && (forall a, b :: Halves(m, a, b))
    && (forall x :: OneBit(m, x))
    && (forall x, y :: BitSum(m, x, y))
    && (forall c :: Shifts(m, c))
    && (forall c, x :: Feeds(m, c, x))
    && m.bit(false) == m.zero
  }

  /** Some bit of `w` at position `k` or higher is set. */
  predicate Above<W(==)>(m: Machine<W>, w: W, k: nat) {
    Iterate(m.half, w, k) != m.zero
  }

  /** A shift that mixes in the mask sets bit `top`; the others only halve. */
  ghost predicate TopOrHalf<W>(m: Machine<W>, top: nat, d: W, x: bool) {
    Above(m, m.feed(d, x), top) || m.feed(d, x) == m.half(d)
  }

  ghost predicate TopLaws<W(!new)>(m: Machine<W>, top: nat) {
    Above(m, m.feed(m.zero, true), top) && forall d, x :: TopOrHalf(m, top, d, x)
  }

  lemma Interchange<W(!new)>(m: Machine<W>, a: W, b: W, c: W, d: W)
    requires Laws(m)
    ensures m.xor(m.xor(a, b), m.xor(c, d)) == m.xor(m.xor(a, c), m.xor(b, d))
  {
    assert Associates(m, a, b, m.xor(c, d)) && Associates(m, a, c, m.xor(b, d));
    assert Associates(m, b, c, d) && Associates(m, c, b, d) && Commutes(m, b, c);
  }

  lemma ShiftIsLinear<W(!new)>(m: Machine<W>, a: W, b: W)
    requires Laws(m)
    ensures m.shift(m.xor(a, b)) == m.xor(m.shift(a), m.shift(b))
  {
    assert Shifts(m, a) && Shifts(m, b) && Shifts(m, m.xor(a, b));
    assert Halves(m, a, b) && BitSum(m, m.odd(a), m.odd(b));
    Interchange(m, m.half(a), m.half(b), m.mask(m.odd(a)), m.mask(m.odd(b)));
  }

  /** Mixing a word in before a shift feeds its low bit and moves the rest down one place. */
  lemma PeelBit<W(!new)>(m: Machine<W>, r: W, y: W)
    requires Laws(m)
    ensures m.shift(m.xor(r, y)) == m.xor(m.feed(r, m.odd(y)), m.half(y))
  {
    var low, mask := m.bit(m.odd(y)), m.mask(m.odd(y));
    ShiftIsLinear(m, r, y);
    ShiftIsLinear(m, r, low);
    assert Shifts(m, y) && Shifts(m, low) && OneBit(m, m.odd(y)) && Neutral(m, mask);
    assert Feeds(m, r, m.odd(y)) && Commutes(m, m.half(y), mask);
    assert Associates(m, m.shift(r), mask, m.half(y));
  }

  lemma DifferenceOfSteps<W(!new)>(m: Machine<W>, a: W, b: W, x: bool, y: bool)
    requires Laws(m)
    ensures m.xor(m.feed(a, x), m.feed(b, y)) == m.feed(m.xor(a, b), x != y)
  {
    ShiftIsLinear(m, m.xor(a, m.bit(x)), m.xor(b, m.bit(y)));
    Interchange(m, a, m.bit(x), b, m.bit(y));
    assert BitSum(m, x, y);
    assert Feeds(m, a, x) && Feeds(m, b, y) && Feeds(m, m.xor(a, b), x != y);
  }

  /** Shifting `n` times with `x` mixed in up front is feeding its `n` low bits one by one. */
  lemma {:induction false} ShiftsAreSerial<W(!new)>(m: Machine<W>, c: W, x: W, n: nat)
    requires Laws(m)
    ensures Iterate(m.shift, m.xor(c, x), n)
         == m.xor(Run(m.feed, c, LowBits(m.odd, m.half, x, n)), Iterate(m.half, x, n))
  {
    if n > 0 {
      ShiftsAreSerial(m, c, x, n - 1);
      PeelBit(m, Run(m.feed, c, LowBits(m.odd, m.half, x, n - 1)), Iterate(m.half, x, n - 1));
      assert LowBits(m.odd, m.half, x, n)[..n - 1] == LowBits(m.odd, m.half, x, n - 1);
    }
  }

  lemma StepKeepsApart<W(!new)>(m: Machine<W>, a: W, b: W, bit: bool)
    requires Laws(m) && a != b
    ensures m.feed(a, bit) != m.feed(b, bit)
  {
    DifferenceOfSteps(m, a, b, bit, bit);
    var d := m.xor(a, b);
    assert Neutral(m, d) && Cancels(m, a, b) && Feeds(m, d, bit != bit) && Shifts(m, d);
    assert Cancels(m, m.feed(a, bit), m.feed(b, bit));
  }

  /** Words that differ still differ after the same further bits. */
  lemma {:induction false} SameBitsKeepApart<W(!new)>(m: Machine<W>, v: W, w: W, bits: seq<bool>)
    requires Laws(m) && v != w
    ensures Run(m.feed, v, bits) != Run(m.feed, w, bits)
  {
    if |bits| > 0 {
      var n := |bits| - 1;
      SameBitsKeepApart(m, v, w, bits[..n]);
      var a, b := Run(m.feed, v, bits[..n]), Run(m.feed, w, bits[..n]);
      StepKeepsApart(m, a, b, bits[n]);
    }
  }

  lemma {:induction false} AboveIsDownward<W(!new)>(m: Machine<W>, w: W, k: nat, l: nat)
    requires Laws(m) && Above(m, w, k + l)
    ensures Above(m, w, k)
  {
    if l > 0 {
      assert OneBit(m, false);
      AboveIsDownward(m, w, k, l - 1);
    }
  }

  /** The highest set bit sinks by at most one place a step. */
  lemma StepSinksByOne<W(!new)>(m: Machine<W>, d: W, b: bool, k: nat, top: nat)
    requires Laws(m) && TopLaws(m, top)
    requires k < top && Above(m, d, k + 1)
    ensures Above(m, m.feed(d, b), k)
  {
    assert TopOrHalf(m, top, d, b);
    if Above(m, m.feed(d, b), top) {
      AboveIsDownward(m, m.feed(d, b), k, top - k);
    } else {
      IterateAppend(m.half, d, 1, k);
      assert Iterate(m.half, d, 0) == d;
    }
  }

  /** After the first differing bit the difference keeps a bit high enough to survive. */
  lemma {:induction false} DifferenceStaysAbove<W(!new)>(m: Machine<W>, top: nat, w: W, x: seq<bool>, y: seq<bool>)
    requires Laws(m) && TopLaws(m, top)
    requires 0 < |x| == |y| <= top + 1 && x[0] != y[0]
    ensures Above(m, m.xor(Run(m.feed, w, x), Run(m.feed, w, y)), top + 1 - |x|)
  {
    var n := |x| - 1;
    var a, b := Run(m.feed, w, x[..n]), Run(m.feed, w, y[..n]);
    DifferenceOfSteps(m, a, b, x[n], y[n]);
    if n == 0 {
      assert Cancels(m, w, w);
    } else {
      DifferenceStaysAbove(m, top, w, x[..n], y[..n]);
      StepSinksByOne(m, m.xor(a, b), x[n] != y[n], top + 1 - |x|, top);
    }
  }

  ghost function FirstDifference(a: seq<bool>, b: seq<bool>): (f: nat)
    requires |a| == |b| && a != b
    ensures f < |a| && a[f] != b[f] && a[..f] == b[..f]
  {
    if a[0] != b[0] then 0 else
      assert a == [a[0]] + a[1..] && b == [b[0]] + b[1..];
      var f := FirstDifference(a[1..], b[1..]);
      assert a[..f + 1] == [a[0]] + a[1..][..f] && b[..f + 1] == [b[0]] + b[1..][..f];
      f + 1
  }

  lemma RunThreeParts<A, W>(feed: (W, A) -> W, w: W, p: seq<A>, x: seq<A>, s: seq<A>)
    ensures Run(feed, w, p + x + s) == Run(feed, Run(feed, Run(feed, w, p), x), s)
  {
    RunAppend(feed, w, p + x, s);
    RunAppend(feed, w, p, x);
  }

  /** Messages that differ in their first bit and are no longer than the register end apart. */
  lemma MiddlesKeepApart<W(!new)>(m: Machine<W>, top: nat, w: W, x: seq<bool>, y: seq<bool>)
    requires Laws(m) && TopLaws(m, top)
    requires 0 < |x| == |y| <= top + 1 && x[0] != y[0]
    ensures Run(m.feed, w, x) != Run(m.feed, w, y)
  {
    DifferenceStaysAbove(m, top, w, x, y);
    var v, v' := Run(m.feed, w, x), Run(m.feed, w, y);
    AboveIsDownward(m, m.xor(v, v'), 0, top + 1 - |x|);
    assert Cancels(m, v, v');
  }

  lemma SplitKeepsApart<W(!new)>(m: Machine<W>, top: nat, w: W, p: seq<bool>, x: seq<bool>, y: seq<bool>, s: seq<bool>)
    requires Laws(m) && TopLaws(m, top)
    requires 0 < |x| == |y| <= top + 1 && x[0] != y[0]
    ensures Run(m.feed, w, p + x + s) != Run(m.feed, w, p + y + s)
  {
    var v := Run(m.feed, w, p);
    RunThreeParts(m.feed, w, p, x, s);
    RunThreeParts(m.feed, w, p, y, s);
    MiddlesKeepApart(m, top, v, x, y);
    SameBitsKeepApart(m, Run(m.feed, v, x), Run(m.feed, v, y), s);
  }

  /** Equal-length strings with all differences in `[start, start + width)` split around them. */
  lemma SplitAroundDifferences(a: seq<bool>, b: seq<bool>, start: nat, width: nat)
    returns (p: seq<bool>, x: seq<bool>, y: seq<bool>, s: seq<bool>)
    requires |a| == |b| && a != b
    requires forall i :: 0 <= i < |a| && a[i] != b[i] ==> start <= i < start + width
    ensures a == p + x + s && b == p + y + s
    ensures 0 < |x| == |y| <= width && x[0] != y[0]
  {
    var f := FirstDifference(a, b);
    var e := if start + width <= |a| then start + width else |a|;
    p, x, y, s := a[..f], a[f..e], b[f..e], a[e..];
    assert b[e..] == s;
    Cut(a, f, e);
    Cut(b, f, e);
  }

  lemma Cut(a: seq<bool>, f: nat, e: nat)
    requires f <= e <= |a|
    ensures a == a[..f] + a[f..e] + a[e..]
  {
  }

  /** Two messages of equal length whose differences lie in `top + 1` consecutive bits end apart. */
  lemma BurstKeepsApart<W(!new)>(m: Machine<W>, top: nat, w: W, a: seq<bool>, b: seq<bool>, start: nat)
    requires Laws(m) && TopLaws(m, top)
    requires |a| == |b| && a != b
    requires forall i :: 0 <= i < |a| && a[i] != b[i] ==> start <= i < start + (top + 1)
    ensures Run(m.feed, w, a) != Run(m.feed, w, b)
  {
    var p, x, y, s := SplitAroundDifferences(a, b, start, top + 1);
    SplitKeepsApart(m, top, w, p, x, y, s);
  }
}
