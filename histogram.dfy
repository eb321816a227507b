/** The passage-length histogram: `np.zeros(20, dtype=np.int32)` indexed by
    `int(math.log2(len(passage)))`, clamped to the last slot. */
module Histogram {

  /** Number of slots in `length_counts`. */
  const Buckets: nat := 20

  /** numpy's `int32` counter. */
  newtype Int32 = x: int | -0x8000_0000 <= x < 0x8000_0000

  /** Two's-complement reduction of an unbounded integer to 32 bits. */
  function Wrap32(x: int): (r: Int32)
  {
    ((x + 0x8000_0000) % 0x1_0000_0000 - 0x8000_0000) as Int32
  }

  /** The wrapped value is the one `int32` value congruent to `x` modulo 2^32. */
  lemma Wrap32Congruent(x: int, y: Int32)
    ensures Wrap32(x) == y <==> (y as int - x) % 0x1_0000_0000 == 0
  {
    var m := (x + 0x8000_0000) % 0x1_0000_0000;
    var q := (x + 0x8000_0000) / 0x1_0000_0000;
    assert x + 0x8000_0000 == q * 0x1_0000_0000 + m;
    assert Wrap32(x) as int - x == -q * 0x1_0000_0000;
    if (y as int - x) % 0x1_0000_0000 == 0 {
      var k := (y as int - x) / 0x1_0000_0000;
      assert y as int + 0x8000_0000 == (q + k) * 0x1_0000_0000 + m;
      assert 0 <= y as int + 0x8000_0000 < 0x1_0000_0000;
      assert q + k == 0;
    }
  }

  /** `length_counts[lndx] += 1` on an `int32` slot: wraps around at the top. */
  function Inc(x: Int32): (r: Int32)
    ensures r as int == Wrap32(x as int + 1) as int
    ensures x < 0x7fff_ffff ==> r == x + 1
  {
    if x == 0x7fff_ffff then -0x8000_0000 else x + 1
  }

  /** Wrapping is compatible with counting one more. */
  lemma IncWrap32(x: int)
    ensures Inc(Wrap32(x)) == Wrap32(x + 1)
  {
    var m := (x + 0x8000_0000) % 0x1_0000_0000;
    var q := (x + 0x8000_0000) / 0x1_0000_0000;
    assert x + 0x8000_0000 == q * 0x1_0000_0000 + m;
    if m == 0xffff_ffff {
      assert x + 1 + 0x8000_0000 == (q + 1) * 0x1_0000_0000;
    } else {
      assert x + 1 + 0x8000_0000 == q * 0x1_0000_0000 + (m + 1);
    }
  }

  lemma Wrap32InRange(x: int)
    requires -0x8000_0000 <= x < 0x8000_0000
    ensures Wrap32(x) as int == x
  {
  }

  function Pow2(n: nat): (r: nat)
    ensures r >= 1
  {
    if n == 0 then 1 else 2 * Pow2(n - 1)
  }

  /** `int(math.log2(n))` for a positive integer `n`. */
  function Log2(n: nat): (r: nat)
    requires n >= 1
    ensures Pow2(r) <= n < Pow2(r + 1)
  {
    if n == 1 then 0 else 1 + Log2(n / 2)
  }

  /** Slot of a passage of `len` characters (lines 79-81). */
  function Bucket(len: nat): (b: nat)
    requires len >= 1
    ensures b < Buckets
    ensures b < Buckets - 1 ==> Pow2(b) <= len < Pow2(b + 1)
    ensures b == Buckets - 1 ==> Pow2(b) <= len
  {
    var lndx := Log2(len);
    if lndx >= Buckets then
      Pow2Monotone(Buckets - 1, lndx);
      Buckets - 1
    else lndx
  }

  lemma {:induction false} Pow2Monotone(m: nat, n: nat)
    requires m <= n
    ensures Pow2(m) <= Pow2(n)
    decreases n
  {
    if m < n {
      Pow2Monotone(m, n - 1);
    }
  }

  predicate NonEmpty(cs: seq<string>) {
    forall i :: 0 <= i < |cs| ==> cs[i] != []
  }

  /** The slots after counting each of the passages `cs`, in order. */
  function Tally(h: seq<Int32>, cs: seq<string>): (r: seq<Int32>)
    requires |h| == Buckets && NonEmpty(cs)
    ensures |r| == Buckets
  {
    if cs == [] then h
    else
      var t := Tally(h, cs[..|cs| - 1]);
      var b := Bucket(|cs[|cs| - 1]|);
      t[b := Inc(t[b])]
  }

  /** How many of the passages `cs` fall into slot `b`. */
  function CountInBucket(cs: seq<string>, b: nat): (n: nat)
    requires NonEmpty(cs)
    ensures n <= |cs|
  {
    if cs == [] then 0
    else CountInBucket(cs[..|cs| - 1], b) + (if Bucket(|cs[|cs| - 1]|) == b then 1 else 0)
  }

  /** Each passage increments exactly its own slot: after tallying, slot `b`
      has grown (modulo 2^32) by the number of passages in it, and by
      nothing else. */
  lemma {:induction false} TallyAt(h: seq<Int32>, cs: seq<string>, b: nat)
    requires |h| == Buckets && NonEmpty(cs) && b < Buckets
    ensures Tally(h, cs)[b] == Wrap32(h[b] as int + CountInBucket(cs, b))
    decreases |cs|
  {
    if cs == [] {
      Wrap32InRange(h[b] as int);
    } else {
      var cs' := cs[..|cs| - 1];
      var n := CountInBucket(cs', b);
      TallyAt(h, cs', b);
      if Bucket(|cs[|cs| - 1]|) == b {
        IncWrap32(h[b] as int + n);
      }
    }
  }

  /** Tallying two runs of passages one after the other. */
  lemma {:induction false} TallyAppend(h: seq<Int32>, cs: seq<string>, ds: seq<string>)
    requires |h| == Buckets && NonEmpty(cs) && NonEmpty(ds)
    ensures NonEmpty(cs + ds)
    ensures Tally(h, cs + ds) == Tally(Tally(h, cs), ds)
    decreases |ds|
  {
    if ds == [] {
      assert cs + ds == cs;
    } else {
      var ds' := ds[..|ds| - 1];
      assert (cs + ds)[..|cs + ds| - 1] == cs + ds';
      TallyAppend(h, cs, ds');
    }
  }

  function Sum(h: seq<Int32>): (n: int) {
    if h == [] then 0 else Sum(h[..|h| - 1]) + h[|h| - 1] as int
  }

  /** Slots that are all zero sum to zero. */
  lemma {:induction false} SumZeros(h: seq<Int32>)
    requires forall b :: 0 <= b < |h| ==> h[b] == 0
    ensures Sum(h) == 0
    decreases |h|
  {
    if h != [] {
      SumZeros(h[..|h| - 1]);
    }
  }

  lemma {:induction false} SumIncrement(h: seq<Int32>, b: nat)
    requires b < |h| && h[b] < 0x7fff_ffff
    ensures Sum(h[b := h[b] + 1]) == Sum(h) + 1
    decreases |h|
  {
    var h' := h[b := h[b] + 1];
    if b < |h| - 1 {
      assert h'[..|h'| - 1] == h[..|h| - 1][b := h[b] + 1];
      SumIncrement(h[..|h| - 1], b);
    } else {
      assert h'[..|h'| - 1] == h[..|h| - 1];
    }
  }

  /** Below the overflow bound, counting one more passage is a plain
      increment of its slot. */
  lemma TallyLast(h: seq<Int32>, cs: seq<string>)
    requires |h| == Buckets && NonEmpty(cs) && cs != []
    requires var b := Bucket(|cs[|cs| - 1]|); h[b] as int + CountInBucket(cs, b) < 0x8000_0000
    ensures var t := Tally(h, cs[..|cs| - 1]); var b := Bucket(|cs[|cs| - 1]|);
      t[b] < 0x7fff_ffff && Tally(h, cs) == t[b := t[b] + 1]
  {
    var cs' := cs[..|cs| - 1];
    var b := Bucket(|cs[|cs| - 1]|);
    var t := Tally(h, cs');
    TallyAt(h, cs', b);
    assert CountInBucket(cs, b) == CountInBucket(cs', b) + 1;
    Wrap32InRange(h[b] as int + CountInBucket(cs', b));
    assert t[b] < 0x7fff_ffff;
    assert Tally(h, cs) == t[b := Inc(t[b])];
  }

  /** As long as no slot overflows, the slots grow in total by exactly the
      number of passages counted. */
  lemma {:induction false} TallySum(h: seq<Int32>, cs: seq<string>)
    requires |h| == Buckets && NonEmpty(cs)
    requires forall b :: 0 <= b < Buckets ==> h[b] as int + CountInBucket(cs, b) < 0x8000_0000
    ensures Sum(Tally(h, cs)) == Sum(h) + |cs|
    decreases |cs|
  {
    if cs != [] {
      var cs' := cs[..|cs| - 1];
      forall c | 0 <= c < Buckets
        ensures h[c] as int + CountInBucket(cs', c) < 0x8000_0000
      {
        assert CountInBucket(cs', c) <= CountInBucket(cs, c);
      }
      TallySum(h, cs');
      TallyLast(h, cs);
      SumIncrement(Tally(h, cs'), Bucket(|cs[|cs| - 1]|));
    }
  }
}
