/** The radix-2 fast Fourier transform: complex arithmetic, the bit-reversal
    permutation, and the butterfly stages.

    Trigonometry is not modelled: the twiddle factor of each stage, `e^(-2 pi i / h)`
    in the source, is supplied by the caller as `twiddle(h)`.  The magnitude
    `sqrt(re^2 + im^2)` is replaced by its square, which orders bins the same way.
 */
module FourierTransform {

  import Utility

  // ---------------------------------------------------------------------------
  // Complex numbers

  datatype Complex = Complex(re: real, im: real)

  const Zero: Complex := Complex(0.0, 0.0)
  const One: Complex := Complex(1.0, 0.0)

  function Add(a: Complex, b: Complex): Complex
  {
    Complex(a.re + b.re, a.im + b.im)
  }

  function Sub(a: Complex, b: Complex): Complex
  {
    Complex(a.re - b.re, a.im - b.im)
  }

  function Mul(a: Complex, b: Complex): Complex
  {
    Complex(a.re * b.re - a.im * b.im, a.re * b.im + a.im * b.re)
  }

  /** The squared modulus `re^2 + im^2`, which is never negative. */
  function Norm2(a: Complex): (n: real)
    ensures n >= 0.0
  {
    Square(a.re);
    Square(a.im);
    a.re * a.re + a.im * a.im
  }

  lemma Square(x: real)
    ensures x * x >= 0.0
  {
    if x < 0.0 {
      MulPositive(-x, -x);
      assert x * x > 0.0;
    } else if x > 0.0 {
      MulPositive(x, x);
    }
  }

  lemma MulPositive(x: real, y: real)
    requires x > 0.0 && y > 0.0
    ensures x * y > 0.0
  {
  }

  /** `One` is the multiplicative identity the rotating twiddle starts from. */
  lemma MulOne(a: Complex)
    ensures Mul(One, a) == a && Mul(a, One) == a
  {
  }

  /** Addition and subtraction undo each other, and a difference is `Zero`
      exactly when the operands are equal. */
  lemma AddSubInverse(a: Complex, b: Complex)
    ensures Sub(Add(a, b), b) == a && Add(Sub(a, b), b) == a
    ensures Add(a, b) == Add(b, a)
    ensures Sub(a, b) == Zero <==> a == b
  {
  }

  /** The product commutes, has `Zero` as its annihilator, and distributes
      over the sum. */
  lemma MulLaws(a: Complex, b: Complex, c: Complex)
    ensures Mul(a, b) == Mul(b, a)
    ensures Mul(Zero, a) == Zero
    ensures Mul(a, Add(b, c)) == Add(Mul(a, b), Mul(a, c))
  {
  }

  /** Sum of a sequence of complex numbers, accumulated from the front. */
  function CSum(s: seq<Complex>): Complex
  {
    if |s| == 0 then Zero else Add(CSum(s[..|s| - 1]), s[|s| - 1])
  }

  lemma {:induction false} CSumAppend(a: seq<Complex>, b: seq<Complex>)
    ensures CSum(a + b) == Add(CSum(a), CSum(b))
    decreases |b|
  {
    if |b| == 0 {
      assert a + b == a;
    } else {
      assert (a + b)[..|a + b| - 1] == a + b[..|b| - 1];
      CSumAppend(a, b[..|b| - 1]);
    }
  }

  /** The sum depends only on the multiset of terms. */
  lemma {:induction false} CSumPermutation(a: seq<Complex>, b: seq<Complex>)
    requires multiset(a) == multiset(b)
    ensures CSum(a) == CSum(b)
    decreases |a|
  {
    if |a| == 0 {
      assert |b| == |multiset(b)| == 0;
    } else {
      var x := a[|a| - 1];
      var a' := a[..|a| - 1];
      assert a == a' + [x];
      assert x in multiset(b);
      var k :| 0 <= k < |b| && b[k] == x;
      Utility.MultisetRemove(b, k);
      CSumPermutation(a', b[..k] + b[k + 1..]);
      CSumRemove(b, k);
    }
  }

  /** Taking one term out of the middle and adding it at the end leaves the sum. */
  lemma CSumRemove(b: seq<Complex>, k: nat)
    requires k < |b|
    ensures CSum(b) == Add(CSum(b[..k] + b[k + 1..]), b[k])
  {
    var x, lo, hi := b[k], b[..k], b[k + 1..];
    var lox := lo + [x];
    assert b == lox + hi;
    CSumAppend(lox, hi);
    CSumSnoc(lo, x);
    CSumAppend(lo, hi);
  }

  lemma CSumSnoc(s: seq<Complex>, x: Complex)
    ensures CSum(s + [x]) == Add(CSum(s), x)
  {
    assert (s + [x])[..|s|] == s;
  }

  // ---------------------------------------------------------------------------
  // Powers of two and bit reversal

  function Pow2(k: nat): (p: nat)
    ensures p >= 1
  {
    if k == 0 then 1 else 2 * Pow2(k - 1)
  }

  predicate IsPowerOfTwo(n: int)
    decreases if n < 0 then 0 else n
  {
    n == 1 || (n >= 2 && n % 2 == 0 && IsPowerOfTwo(n / 2))
  }

  /** The exponent of a power of two. */
  function Log2(n: int): (k: nat)
    requires IsPowerOfTwo(n)
    ensures Pow2(k) == n
    decreases if n < 0 then 0 else n
  {
    if n == 1 then 0 else Log2(n / 2) + 1
  }

  lemma {:induction false} Pow2IsPowerOfTwo(k: nat)
    ensures IsPowerOfTwo(Pow2(k))
  {
    if k > 0 {
      Pow2IsPowerOfTwo(k - 1);
      assert Pow2(k) / 2 == Pow2(k - 1);
    }
  }

  lemma {:induction false} Pow2Monotone(s: nat, k: nat)
    requires s <= k
    ensures Pow2(s) <= Pow2(k)
    decreases k
  {
    if s < k {
      Pow2Monotone(s, k - 1);
    }
  }

  /** `i` with its lowest `b` bits reversed: the lowest bit of i becomes bit b-1. */
  function Rev(i: nat, b: nat): (r: nat)
    ensures r < Pow2(b)
  {
    if b == 0 then 0 else Rev(i / 2, b - 1) + (if i % 2 == 1 then Pow2(b - 1) else 0)
  }

  /** Reversal read from the other end: the top bit of i becomes the lowest bit. */
  lemma {:induction false} RevTopBit(top: bool, lo: nat, b: nat)
    requires lo < Pow2(b)
    ensures Rev((if top then Pow2(b) else 0) + lo, b + 1) == 2 * Rev(lo, b) + (if top then 1 else 0)
  {
    var i := (if top then Pow2(b) else 0) + lo;
    if b > 0 {
      var p := Pow2(b - 1);
      assert Pow2(b) == 2 * p;
      var q := (if top then p else 0) + lo / 2;
      assert i / 2 == q && i % 2 == lo % 2;
      RevTopBit(top, lo / 2, b - 1);
    }
  }

  /** Bit reversal is an involution, so it is a permutation of [0, 2^b). */
  lemma {:induction false} RevInvolution(i: nat, b: nat)
    requires i < Pow2(b)
    ensures Rev(Rev(i, b), b) == i
  {
    if b > 0 {
      var c := b - 1;
      RevTopBit(i % 2 == 1, Rev(i / 2, c), c);
      RevInvolution(i / 2, c);
    }
  }

  /** Reversal fixes the all-ones index 2^b - 1. */
  lemma {:induction false} RevAllOnes(b: nat)
    ensures Rev(Pow2(b) - 1, b) == Pow2(b) - 1
  {
    if b > 0 {
      assert (Pow2(b) - 1) / 2 == Pow2(b - 1) - 1;
      RevAllOnes(b - 1);
    }
  }

  lemma {:induction false} RevZero(b: nat)
    ensures Rev(0, b) == 0
  {
    if b > 0 {
      RevZero(b - 1);
    }
  }

  /** The carry of a reversed-bit increment, as the inner `while (j >= k)` loop runs
      it: clear set bits from the top down, then set the first clear one. */
  function CarryDown(j: nat, k: nat): nat
    requires IsPowerOfTwo(k) && j < 2 * k - 1
    decreases k
  {
    if j >= k then CarryDown(j - k, k / 2) else j + k
  }

  /** Adding one to i is a carry from the top in the reversed representation; the
      reversed index of any i below the all-ones index is not all ones itself. */
  lemma {:induction false} RevIncrement(i: nat, b: nat)
    requires b >= 1 && i + 1 < Pow2(b)
    ensures Rev(i, b) < 2 * Pow2(b - 1) - 1
    ensures IsPowerOfTwo(Pow2(b - 1))
    ensures CarryDown(Rev(i, b), Pow2(b - 1)) == Rev(i + 1, b)
  {
    var half := Pow2(b - 1);
    Pow2IsPowerOfTwo(b - 1);
    if b == 1 {
      assert i == 0;
      RevZero(0);
    } else if i % 2 == 0 {
      assert (i + 1) / 2 == i / 2 && (i + 1) % 2 == 1;
      assert Rev(i / 2, b - 1) < half;
    } else {
      assert (i + 1) / 2 == i / 2 + 1 && (i + 1) % 2 == 0;
      RevIncrement(i / 2, b - 1);
      assert Pow2(b - 1) == 2 * Pow2(b - 2);
      assert half / 2 == Pow2(b - 2);
    }
  }

  /** The bit-reversal permutation of the first `length` entries; the rest stay. */
  function BitReversed(a: seq<Complex>, length: nat): (r: seq<Complex>)
    requires IsPowerOfTwo(length) && length <= |a|
    ensures |r| == |a|
    ensures forall p :: 0 <= p < length ==> r[Rev(p, Log2(length))] == a[p]
    ensures r[length..] == a[length..]
  {
    var b := Log2(length);
    var r := seq(|a|, p requires 0 <= p < |a| => if p < length then a[Rev(p, b)] else a[p]);
    assert r[length..] == a[length..];
    assert forall p :: 0 <= p < length ==> r[Rev(p, b)] == a[p] by {
      forall p | 0 <= p < length
        ensures r[Rev(p, b)] == a[p]
      {
        RevInvolution(p, b);
      }
    }
    r
  }

  /** What position p holds once the pass has handled indices below i: the entry
      from its reversed place when p or its partner lies below i, else its own. */
  function Expected(a: seq<Complex>, length: nat, bits: nat, i: int, p: nat): Complex
    requires length == Pow2(bits) && length <= |a| && p < length
  {
    if p < i || Rev(p, bits) < i then a[Rev(p, bits)] else a[p]
  }

  ghost predicate ReversedBelow(a: seq<Complex>, r: seq<Complex>, length: nat, bits: nat, i: int)
    requires length == Pow2(bits) && length <= |a|
  {
    && |r| == |a|
    && (forall p :: 0 <= p < length ==> r[p] == Expected(a, length, bits, i, p))
    && (forall p :: length <= p < |a| ==> r[p] == a[p])
  }

  /** One step of the pass: exchange positions i and j when i < j. */
  function SwapIfBelow(r: seq<Complex>, i: int, j: int): (r': seq<Complex>)
    requires 0 <= i < |r| && 0 <= j < |r|
    ensures multiset(r') == multiset(r)
  {
    if i < j then Utility.Swap(r, i, j) else r
  }

  lemma ReversedBelowStart(a: seq<Complex>, length: nat, bits: nat)
    requires length == Pow2(bits) && length <= |a|
    ensures ReversedBelow(a, a, length, bits, 1)
  {
    RevZero(bits);
    forall p | 0 <= p < length && Rev(p, bits) < 1
      ensures p == 0
    {
      RevInvolution(p, bits);
    }
  }

  /** The step at a single position p; j is the reversal of i. */
  lemma ReversedBelowStepAt(a: seq<Complex>, r: seq<Complex>, length: nat, bits: nat, i: nat, p: nat)
    requires length == Pow2(bits) && length <= |a| && |r| == |a| && i < length && p < length
    requires Rev(Rev(i, bits), bits) == i && Rev(Rev(p, bits), bits) == p
    requires r[p] == Expected(a, length, bits, i, p)
    requires r[i] == Expected(a, length, bits, i, i)
    requires r[Rev(i, bits)] == Expected(a, length, bits, i, Rev(i, bits))
    ensures SwapIfBelow(r, i, Rev(i, bits))[p] == Expected(a, length, bits, i + 1, p)
  {
    var j := Rev(i, bits);
    if p == i {
      assert Expected(a, length, bits, i + 1, p) == a[j];
    } else if i < j && p == j {
      assert Expected(a, length, bits, i + 1, p) == a[i];
    } else {
      assert SwapIfBelow(r, i, j)[p] == r[p];
      assert Rev(p, bits) != i || p < i;
    }
  }

  lemma ReversedBelowStep(a: seq<Complex>, r: seq<Complex>, length: nat, bits: nat, i: nat)
    requires length == Pow2(bits) && length <= |a| && i < length
    requires ReversedBelow(a, r, length, bits, i)
    ensures ReversedBelow(a, SwapIfBelow(r, i, Rev(i, bits)), length, bits, i + 1)
  {
    var j := Rev(i, bits);
    RevInvolution(i, bits);
    var r' := SwapIfBelow(r, i, j);
    forall p | 0 <= p < length
      ensures r'[p] == Expected(a, length, bits, i + 1, p)
    {
      RevInvolution(p, bits);
      ReversedBelowStepAt(a, r, length, bits, i, p);
    }
  }

  lemma ReversedBelowEnd(a: seq<Complex>, r: seq<Complex>, length: nat, bits: nat, i: nat)
    requires IsPowerOfTwo(length) && bits == Log2(length) && length <= |a|
    requires (i == 1 && length == 1) || (length >= 2 && i == length - 1)
    requires ReversedBelow(a, r, length, bits, i)
    ensures r == BitReversed(a, length)
  {
    var target := BitReversed(a, length);
    forall p | 0 <= p < |a|
      ensures r[p] == target[p]
    {
      if p < length {
        ReversedBelowEndAt(a, r[p], length, bits, i, p);
      }
    }
  }

  /** Once the pass is over only the last index is unhandled, and it is its own
      reversal. */
  lemma ReversedBelowEndAt(a: seq<Complex>, v: Complex, length: nat, bits: nat, i: nat, p: nat)
    requires IsPowerOfTwo(length) && bits == Log2(length) && length <= |a| && p < length
    requires (i == 1 && length == 1) || (length >= 2 && i == length - 1)
    requires v == Expected(a, length, bits, i, p)
    ensures v == a[Rev(p, bits)]
  {
    if p >= i {
      assert p == length - 1 == Pow2(bits) - 1;
      RevAllOnes(bits);
    }
  }

  /** The inner carry loop of the bit-reversal pass: it adds one to j read with
      its bits reversed, where `half` is the weight of j's top bit. */
  method ReversedIncrement(j0: nat, half: nat) returns (j: nat)
    requires IsPowerOfTwo(half) && j0 < 2 * half - 1
    ensures j == CarryDown(j0, half)
  {
    j := j0;
    var k := half;
    while j >= k
      invariant IsPowerOfTwo(k) && j < 2 * k - 1
      invariant CarryDown(j, k) == CarryDown(j0, half)
      decreases k
    {
      j := j - k;
      k := k / 2;
    }
    if j < k {
      j := j + k;
    }
  }

  /** The in-place bit-reversal pass: i counts up while j tracks the reversal of i by
      a reversed-bit increment, and each pair is exchanged once, when i < j. */
  method BinaryIndexReverse(a: seq<Complex>, length: nat) returns (r: seq<Complex>)
    requires IsPowerOfTwo(length) && length <= |a|
    ensures r == BitReversed(a, length)
    ensures multiset(r) == multiset(a)
  {
    var bits := Log2(length);
    r := a;
    var i := 1;
    var j := length / 2;
    RevZero(bits);
    ReversedBelowStart(a, length, bits);
    while i < length - 1
      invariant 1 <= i && (length >= 2 ==> i <= length - 1) && (length == 1 ==> i == 1)
      invariant j == Rev(i, bits) as int
      invariant multiset(r) == multiset(a)
      invariant ReversedBelow(a, r, length, bits, i)
    {
      r, j := ReverseStep(a, r, length, bits, i, j);
      i := i + 1;
    }
    ReversedBelowEnd(a, r, length, bits, i);
  }

  /** One turn of the pass at index i, whose reversal is j: exchange the pair when
      i < j, then advance j to the reversal of i + 1. */
  method ReverseStep(a: seq<Complex>, r: seq<Complex>, length: nat, bits: nat, i: nat, j: nat)
    returns (r': seq<Complex>, j': nat)
    requires IsPowerOfTwo(length) && bits == Log2(length) && length <= |a| && 1 <= i < length - 1
    requires j == Rev(i, bits) && multiset(r) == multiset(a)
    requires ReversedBelow(a, r, length, bits, i)
    ensures j' == Rev(i + 1, bits) && multiset(r') == multiset(a)
    ensures ReversedBelow(a, r', length, bits, i + 1)
  {
    ReversedBelowStep(a, r, length, bits, i);
    r' := SwapIfBelow(r, i, j);
    RevIncrement(i, bits);
    assert length / 2 == Pow2(bits - 1);
    j' := ReversedIncrement(j, length / 2);
  }

  /** The pass moves entries only among the first `length` positions. */
  lemma BitReversedPermutes(a: seq<Complex>, length: nat)
    requires IsPowerOfTwo(length) && length <= |a|
    ensures multiset(BitReversed(a, length)) == multiset(a)
    ensures multiset(BitReversed(a, length)[..length]) == multiset(a[..length])
  {
    var bits := Log2(length);
    var r := a;
    var i := 1;
    RevZero(bits);
    ReversedBelowStart(a, length, bits);
    while i < length - 1
      invariant 1 <= i && (length >= 2 ==> i <= length - 1) && (length == 1 ==> i == 1)
      invariant multiset(r) == multiset(a)
      invariant ReversedBelow(a, r, length, bits, i)
    {
      ReversedBelowStep(a, r, length, bits, i);
      r := SwapIfBelow(r, i, Rev(i, bits));
      i := i + 1;
    }
    ReversedBelowEnd(a, r, length, bits, i);
    Utility.PrefixMultiset(r, a, length);
  }

  // ---------------------------------------------------------------------------
  // Butterfly stages

  /** The twiddle after r steps: `One` rotated r times by w. */
  function Power(w: Complex, r: nat): Complex
  {
    if r == 0 then One else Mul(Power(w, r - 1), w)
  }

  /** A length of a whole number of blocks of size h. */
  predicate IsMultiple(n: nat, h: nat)
    requires h >= 1
    decreases n
  {
    n == 0 || (n >= h && IsMultiple(n - h, h))
  }

  lemma {:induction false} MultipleOfOne(n: nat)
    ensures IsMultiple(n, 1)
  {
    if n > 0 {
      MultipleOfOne(n - 1);
    }
  }

  lemma {:induction false} MultipleDoubles(n: nat, h: nat)
    requires h >= 1 && IsMultiple(n, h)
    ensures IsMultiple(2 * n, 2 * h)
    decreases n
  {
    if n > 0 {
      MultipleDoubles(n - h, h);
    }
  }

  lemma {:induction false} MultipleHalves(n: nat, h: nat)
    requires h >= 1 && IsMultiple(n, 2 * h)
    ensures IsMultiple(n, h)
    decreases n
  {
    if n > 0 {
      MultipleHalves(n - 2 * h, h);
    }
  }

  /** A power of two is a whole number of blocks of any smaller power of two. */
  lemma {:induction false} PowersAreMultiples(s: nat, k: nat)
    requires s <= k
    ensures IsMultiple(Pow2(k), Pow2(s))
    decreases s
  {
    if s == 0 {
      MultipleOfOne(Pow2(k));
    } else {
      PowersAreMultiples(s - 1, k - 1);
      MultipleDoubles(Pow2(k - 1), Pow2(s - 1));
    }
  }

  /** The stage sizes the outer loop visits: h = 2, 4, ... up to length fit it. */
  lemma StageFits(length: nat, h: nat)
    requires IsPowerOfTwo(length) && IsPowerOfTwo(h) && 2 <= h <= length
    ensures IsMultiple(length, h) && h % 2 == 0 && h / 2 >= 1
    ensures IsPowerOfTwo(2 * h)
  {
    var s, k := Log2(h), Log2(length);
    if s > k {
      Pow2Monotone(k + 1, s);
    }
    PowersAreMultiples(s, k);
    PowerOfTwoDoubles(h);
  }

  lemma PowerOfTwoDoubles(n: int)
    requires IsPowerOfTwo(n)
    ensures IsPowerOfTwo(2 * n) && (n >= 2 ==> n % 2 == 0 && n / 2 >= 1)
  {
    assert (2 * n) / 2 == n && (2 * n) % 2 == 0;
  }

  /** The butterflies of one block of 2 * half entries: entry t (t < half) pairs with
      entry t + half under the twiddle `wn^t`. */
  function Butterfly(block: seq<Complex>, half: nat, wn: Complex): (r: seq<Complex>)
    requires |block| == 2 * half
    ensures |r| == |block|
    ensures forall t :: 0 <= t < 2 * half ==> r[t] == ButterflyAt(block, half, wn, t)
  {
    seq(2 * half, t requires 0 <= t < 2 * half => ButterflyAt(block, half, wn, t))
  }

  function ButterflyAt(block: seq<Complex>, half: nat, wn: Complex, t: nat): Complex
    requires |block| == 2 * half && t < 2 * half
  {
    if t < half then Add(block[t], Mul(Power(wn, t), block[t + half]))
    else Sub(block[t - half], Mul(Power(wn, t - half), block[t]))
  }

  /** One stage: every block of 2 * half consecutive entries gets its butterflies. */
  function Stage(p: seq<Complex>, half: nat, wn: Complex): (r: seq<Complex>)
    requires half >= 1 && IsMultiple(|p|, 2 * half)
    ensures |r| == |p|
    decreases |p|
  {
    if |p| == 0 then []
    else Stage(p[..|p| - 2 * half], half, wn) + Butterfly(p[|p| - 2 * half..], half, wn)
  }

  /** The stages of size h, 2h, ... up to length, applied to the first length entries. */
  function Stages(a: seq<Complex>, length: nat, h: nat, twiddle: nat -> Complex): (r: seq<Complex>)
    requires IsPowerOfTwo(length) && length <= |a| && IsPowerOfTwo(h) && h >= 2
    ensures |r| == |a| && r[length..] == a[length..]
    decreases if h <= length then length - h + 1 else 0
  {
    if h > length then a
    else
      StageFits(length, h);
      var a' := Stage(a[..length], h / 2, twiddle(h)) + a[length..];
      Stages(a', length, 2 * h, twiddle)
  }

  /** The transform of the first length entries: bit reversal, then every stage. */
  function Transformed(x: seq<Complex>, length: nat, twiddle: nat -> Complex): (y: seq<Complex>)
    requires IsPowerOfTwo(length) && length <= |x|
    ensures |y| == |x| && y[length..] == x[length..]
  {
    Stages(BitReversed(x, length), length, 2, twiddle)
  }

  /** The inner loop over one block: the butterflies of positions j .. j + 2 * half,
      with w rotated by wn after each. */
  method ButterflyBlock(a: seq<Complex>, j: nat, half: nat, wn: Complex) returns (b: seq<Complex>)
    requires j + 2 * half <= |a|
    ensures b == a[..j] + Butterfly(a[j..j + 2 * half], half, wn) + a[j + 2 * half..]
  {
    ghost var block := a[j..j + 2 * half];
    b := a;
    var w := One;
    var k := j;
    while k < j + half
      invariant j <= k <= j + half
      invariant w == Power(wn, k - j)
      invariant |b| == |a|
      invariant forall q :: 0 <= q < j ==> b[q] == a[q]
      invariant forall q :: j + 2 * half <= q < |a| ==> b[q] == a[q]
      invariant forall q :: j <= q < j + half ==>
        b[q] == if q < k then ButterflyAt(block, half, wn, q - j) else block[q - j]
      invariant forall q :: j + half <= q < j + 2 * half ==>
        b[q] == if q < k + half then ButterflyAt(block, half, wn, q - j) else block[q - j]
    {
      var u := b[k];
      var t := Mul(w, b[k + half]);
      assert ButterflyAt(block, half, wn, k - j) == Add(u, t);
      assert ButterflyAt(block, half, wn, k - j + half) == Sub(u, t);
      b := b[k := Add(u, t)][k + half := Sub(u, t)];
      w := Mul(w, wn);
      k := k + 1;
    }
    BlockAssembled(a, b, j, half, wn);
  }

  lemma BlockAssembled(a: seq<Complex>, b: seq<Complex>, j: nat, half: nat, wn: Complex)
    requires j + 2 * half <= |a| == |b|
    requires forall q :: 0 <= q < j ==> b[q] == a[q]
    requires forall q :: j + 2 * half <= q < |a| ==> b[q] == a[q]
    requires forall q :: j <= q < j + 2 * half ==> b[q] == ButterflyAt(a[j..j + 2 * half], half, wn, q - j)
    ensures b == a[..j] + Butterfly(a[j..j + 2 * half], half, wn) + a[j + 2 * half..]
  {
    var done := Butterfly(a[j..j + 2 * half], half, wn);
    assert forall q :: 0 <= q < |b| ==> b[q] == (a[..j] + done + a[j + 2 * half..])[q];
  }

  /** Stage of one more block: the butterflies of that block are appended. */
  lemma StageExtends(a: seq<Complex>, j: nat, half: nat, wn: Complex)
    requires half >= 1 && IsMultiple(j, 2 * half) && j + 2 * half <= |a|
    ensures IsMultiple(j + 2 * half, 2 * half)
    ensures Stage(a[..j + 2 * half], half, wn) == Stage(a[..j], half, wn) + Butterfly(a[j..j + 2 * half], half, wn)
  {
    var p := a[..j + 2 * half];
    assert p[..j] == a[..j] && p[j..] == a[j..j + 2 * half];
  }

  /** The middle loop of one stage: block after block of h entries, from the front. */
  method ApplyStage(a: seq<Complex>, length: nat, h: nat, wn: Complex) returns (b: seq<Complex>)
    requires length <= |a| && h >= 2 && h % 2 == 0 && IsMultiple(length, h)
    ensures b == Stage(a[..length], h / 2, wn) + a[length..]
  {
    var half := h / 2;
    assert 2 * half == h;
    b := a;
    var j := 0;
    while j < length
      invariant 0 <= j <= length && IsMultiple(j, 2 * half) && IsMultiple(length - j, 2 * half)
      invariant b == Stage(a[..j], half, wn) + a[j..]
    {
      b := StageStep(a, b, length, half, j, wn);
      j := j + 2 * half;
    }
  }

  /** One turn of the middle loop: the butterflies of the block at j. */
  method StageStep(a: seq<Complex>, b: seq<Complex>, length: nat, half: nat, j: nat, wn: Complex)
    returns (b': seq<Complex>)
    requires length <= |a| && half >= 1 && j < length
    requires IsMultiple(j, 2 * half) && IsMultiple(length - j, 2 * half)
    requires b == Stage(a[..j], half, wn) + a[j..]
    ensures j + 2 * half <= length && IsMultiple(j + 2 * half, 2 * half)
    ensures IsMultiple(length - (j + 2 * half), 2 * half)
    ensures b' == Stage(a[..j + 2 * half], half, wn) + a[j + 2 * half..]
  {
    b' := ButterflyBlock(b, j, half, wn);
    StageExtends(a, j, half, wn);
    JoinBlock(Stage(a[..j], half, wn), a[j..], b, b', half, wn);
    assert a[j..][..2 * half] == a[j..j + 2 * half] && a[j..][2 * half..] == a[j + 2 * half..];
  }

  /** Butterflies applied to the block that follows a finished prefix. */
  lemma JoinBlock(done: seq<Complex>, rest: seq<Complex>, b: seq<Complex>, b': seq<Complex>,
                  half: nat, wn: Complex)
    requires b == done + rest && 2 * half <= |rest|
    requires b' == b[..|done|] + Butterfly(b[|done|..|done| + 2 * half], half, wn) + b[|done| + 2 * half..]
    ensures b' == (done + Butterfly(rest[..2 * half], half, wn)) + rest[2 * half..]
  {
    Utility.ConcatParts(done, rest, 2 * half);
  }

  /** The whole transform, in place on the first `length` entries: the bit-reversal
      pass, then stages of size h = 2, 4, ..., length. */
  method FFT(x: seq<Complex>, length: nat, twiddle: nat -> Complex) returns (a: seq<Complex>)
    requires IsPowerOfTwo(length) && length <= |x|
    ensures a == Transformed(x, length, twiddle)
  {
    a := BinaryIndexReverse(x, length);
    var h := 2;
    while h <= length
      invariant IsPowerOfTwo(h) && h >= 2 && |a| == |x|
      invariant Stages(a, length, h, twiddle) == Transformed(x, length, twiddle)
      decreases length + 1 - h
    {
      StageFits(length, h);
      a := ApplyStage(a, length, h, twiddle(h));
      h := 2 * h;
    }
  }

  // ---------------------------------------------------------------------------
  // The DC bin

  /** Each block of g entries of p starts with the sum of the matching block of ref. */
  ghost predicate HeadsAreSums(p: seq<Complex>, ref: seq<Complex>, g: nat)
    requires g >= 1 && |p| == |ref| && IsMultiple(|p|, g)
    decreases |p|
  {
    |p| == 0 ||
    (p[|p| - g] == CSum(ref[|p| - g..]) && HeadsAreSums(p[..|p| - g], ref[..|p| - g], g))
  }

  lemma {:induction false} HeadsStart(p: seq<Complex>)
    ensures IsMultiple(|p|, 1) && HeadsAreSums(p, p, 1)
    decreases |p|
  {
    MultipleOfOne(|p|);
    if |p| > 0 {
      var n := |p|;
      HeadsStart(p[..n - 1]);
      assert p[n - 1..][..0] == [];
    }
  }

  /** A stage turns block heads that are sums of half-blocks into heads that are
      sums of whole blocks: the first butterfly of a block uses the twiddle One. */
  lemma {:induction false} StageHeads(p: seq<Complex>, ref: seq<Complex>, half: nat, wn: Complex)
    requires half >= 1 && |p| == |ref| && IsMultiple(|p|, 2 * half) && IsMultiple(|p|, half)
    requires HeadsAreSums(p, ref, half)
    ensures HeadsAreSums(Stage(p, half, wn), ref, 2 * half)
    decreases |p|
  {
    if |p| > 0 {
      var m := |p| - 2 * half;
      HeadsLastBlock(p, ref, half, m);
      StageHeads(p[..m], ref[..m], half, wn);
      StageHeadsStep(p, ref, half, wn, m);
    }
  }

  /** The inductive step: heads of the last block, starting at m, from its two
      half-heads. */
  lemma StageHeadsStep(p: seq<Complex>, ref: seq<Complex>, half: nat, wn: Complex, m: nat)
    requires half >= 1 && |p| == |ref| && IsMultiple(|p|, 2 * half) && m + 2 * half == |p|
    requires IsMultiple(m, 2 * half) && HeadsAreSums(Stage(p[..m], half, wn), ref[..m], 2 * half)
    requires p[m] == CSum(ref[m..m + half]) && p[m + half] == CSum(ref[m + half..])
    ensures HeadsAreSums(Stage(p, half, wn), ref, 2 * half)
  {
    StageLastHead(p, half, wn, m);
    HeadsExtend(Stage(p, half, wn), Stage(p[..m], half, wn), p, ref, half, m);
  }

  /** The sum of a suffix is the sum of its two pieces around j. */
  lemma CSumSplit(s: seq<Complex>, i: nat, j: nat)
    requires i <= j <= |s|
    ensures CSum(s[i..]) == Add(CSum(s[i..j]), CSum(s[j..]))
  {
    assert s[i..] == s[i..j] + s[j..];
    CSumAppend(s[i..j], s[j..]);
  }

  /** Heads of whole blocks before the last block, which starts at m, and a last
      head that adds the two half-heads of p there. */
  lemma HeadsExtend(s: seq<Complex>, head: seq<Complex>, p: seq<Complex>, ref: seq<Complex>, half: nat, m: nat)
    requires half >= 1 && m + 2 * half == |s| == |ref| == |p| && IsMultiple(m, 2 * half)
    requires s[..m] == head && HeadsAreSums(head, ref[..m], 2 * half)
    requires s[m] == Add(p[m], p[m + half])
    requires p[m] == CSum(ref[m..m + half]) && p[m + half] == CSum(ref[m + half..])
    ensures HeadsAreSums(s, ref, 2 * half)
  {
    CSumSplit(ref, m, m + half);
  }

  /** Unfolding half-block heads twice: the two heads of the last whole block, which
      starts at m, and the heads before it. */
  lemma HeadsLastBlock(p: seq<Complex>, ref: seq<Complex>, half: nat, m: nat)
    requires half >= 1 && |p| == |ref| && IsMultiple(|p|, half)
    requires HeadsAreSums(p, ref, half) && m + 2 * half == |p|
    ensures IsMultiple(m, half) && HeadsAreSums(p[..m], ref[..m], half)
    ensures p[m] == CSum(ref[m..m + half]) && p[m + half] == CSum(ref[m + half..])
  {
    var p1, r1 := p[..m + half], ref[..m + half];
    HeadsUnfold(p, ref, half, m + half);
    HeadsUnfold(p1, r1, half, m);
    PrefixParts(p, m, m + half);
    PrefixParts(ref, m, m + half);
  }

  /** One unfolding of HeadsAreSums on a non-empty sequence whose last block starts
      at k. */
  lemma HeadsUnfold(p: seq<Complex>, ref: seq<Complex>, g: nat, k: nat)
    requires g >= 1 && |p| == |ref| == k + g && IsMultiple(|p|, g) && HeadsAreSums(p, ref, g)
    ensures IsMultiple(k, g) && p[k] == CSum(ref[k..])
    ensures HeadsAreSums(p[..k], ref[..k], g)
  {
  }

  /** The pieces of the prefix s[..j] below and from i. */
  lemma PrefixParts<T>(s: seq<T>, i: nat, j: nat)
    requires i < j <= |s|
    ensures s[..j][..i] == s[..i] && s[..j][i..] == s[i..j] && s[..j][i] == s[i]
  {
  }

  /** The last block of a stage, starting at m: the stage of what comes before it,
      then a head that adds the block's two half-heads. */
  lemma StageLastHead(p: seq<Complex>, half: nat, wn: Complex, m: nat)
    requires half >= 1 && IsMultiple(|p|, 2 * half) && m + 2 * half == |p|
    ensures Stage(p, half, wn)[..m] == Stage(p[..m], half, wn)
    ensures Stage(p, half, wn)[m] == Add(p[m], p[m + half])
  {
    MulOne(p[m + half]);
    assert Stage(p, half, wn)[m] == ButterflyAt(p[m..], half, wn, 0);
  }

  /** Two powers of two with length < h <= 2 * length differ by exactly a factor two. */
  lemma NextPower(length: nat, h: nat)
    requires IsPowerOfTwo(length) && IsPowerOfTwo(h) && length < h <= 2 * length
    ensures h == 2 * length
  {
    var s, k := Log2(h), Log2(length);
    if s <= k {
      Pow2Monotone(s, k);
    }
    Pow2Monotone(k + 1, s);
  }

  lemma {:induction false} StagesHeads(a: seq<Complex>, ref: seq<Complex>, length: nat, h: nat, twiddle: nat -> Complex)
    requires IsPowerOfTwo(length) && length <= |a| && IsPowerOfTwo(h) && 2 <= h <= 2 * length
    requires |ref| == length && IsMultiple(length, h / 2) && HeadsAreSums(a[..length], ref, h / 2)
    ensures Stages(a, length, h, twiddle)[0] == CSum(ref)
    decreases if h <= length then length - h + 1 else 0
  {
    if h > length {
      NextPower(length, h);
      assert ref[0..] == ref;
    } else {
      StagesUnfold(a, length, h, twiddle);
      var a' := Stage(a[..length], h / 2, twiddle(h)) + a[length..];
      StageKeepsHeads(a, ref, length, h, twiddle);
      assert (2 * h) / 2 == h;
      StagesHeads(a', ref, length, 2 * h, twiddle);
    }
  }

  /** The stage of size h turns half-block heads of the first length entries into
      whole-block heads. */
  lemma StageKeepsHeads(a: seq<Complex>, ref: seq<Complex>, length: nat, h: nat, twiddle: nat -> Complex)
    requires IsPowerOfTwo(length) && length <= |a| && IsPowerOfTwo(h) && 2 <= h <= length
    requires |ref| == length && IsMultiple(length, h / 2) && HeadsAreSums(a[..length], ref, h / 2)
    ensures IsMultiple(length, h) && IsMultiple(length, 2 * (h / 2))
    ensures HeadsAreSums((Stage(a[..length], h / 2, twiddle(h)) + a[length..])[..length], ref, h)
  {
    StageFits(length, h);
    var stage := Stage(a[..length], h / 2, twiddle(h));
    MultipleHalves(length, h / 2);
    StageHeads(a[..length], ref, h / 2, twiddle(h));
    assert (stage + a[length..])[..length] == stage;
  }

  /** One step of the stage recursion. */
  lemma StagesUnfold(a: seq<Complex>, length: nat, h: nat, twiddle: nat -> Complex)
    requires IsPowerOfTwo(length) && length <= |a| && IsPowerOfTwo(h) && 2 <= h <= length
    ensures IsMultiple(length, 2 * (h / 2)) && h / 2 >= 1
    ensures Stages(a, length, h, twiddle)
      == Stages(Stage(a[..length], h / 2, twiddle(h)) + a[length..], length, 2 * h, twiddle)
  {
    StageFits(length, h);
  }

  /** Bin 0 of the transform is the plain sum of the transformed entries, whatever the
      twiddle factors: the DC component. */
  lemma DCComponent(x: seq<Complex>, length: nat, twiddle: nat -> Complex)
    requires IsPowerOfTwo(length) && length <= |x|
    ensures length >= 1
    ensures Transformed(x, length, twiddle)[0] == CSum(x[..length])
  {
    TransformedHead(x, length, twiddle);
    BitReversedSum(x, length);
  }

  lemma TransformedHead(x: seq<Complex>, length: nat, twiddle: nat -> Complex)
    requires IsPowerOfTwo(length) && 1 <= length <= |x|
    ensures Transformed(x, length, twiddle)[0] == CSum(BitReversed(x, length)[..length])
  {
    var r := BitReversed(x, length);
    var ref := r[..length];
    assert IsMultiple(length, 1) && HeadsAreSums(ref, ref, 1) by {
      HeadsStart(ref);
    }
    StagesHeads(r, ref, length, 2, twiddle);
  }

  lemma BitReversedSum(x: seq<Complex>, length: nat)
    requires IsPowerOfTwo(length) && length <= |x|
    ensures CSum(BitReversed(x, length)[..length]) == CSum(x[..length])
  {
    BitReversedPermutes(x, length);
    CSumPermutation(BitReversed(x, length)[..length], x[..length]);
  }
}
