/**
 The bit aggregator (adc_trng_gen_rnd): 32 successive bias-corrector bits
 packed into one 32-bit seed word, the first bit in the most significant position.
 */
module BitAggregator {
  import opened Samples
  import opened BiasCorrector

  /** Bits per seed word, and so bias-corrector calls per word. */
  const WORD_BITS: nat := 32

  /** 2 to the power n. */
  function Pow2(n: nat): (r: nat)
    ensures r >= 1
  {
    if n == 0 then 1 else 2 * Pow2(n - 1)
  }

  /** A 32-bit word is below 2^32. */
  lemma WordFitsUint32()
    ensures Pow2(WORD_BITS) == UINT32_LIMIT
  {
    assert Pow2(4) == 16;
    Pow2Add(4, 4);
    assert Pow2(8) == 256;
    Pow2Add(8, 8);
    assert Pow2(16) == 0x1_0000;
    Pow2Add(16, 16);
  }

  lemma {:induction false} Pow2Add(a: nat, b: nat)
    ensures Pow2(a + b) == Pow2(a) * Pow2(b)
  {
    if a > 0 {
      Pow2Add(a - 1, b);
    }
  }

  /** The aggregator's packing, as the source's loop computes it: the first bit is
      shifted to position |bits| - 1, the next one to the position below, and so on.
      The shifted bits occupy distinct positions, so OR-ing them adds them. */
  function PackMsbFirst(bits: seq<Bit>): (word: nat)
    ensures word < Pow2(|bits|)
  {
    if |bits| == 0 then 0
    else (if bits[0] == 1 then Pow2(|bits| - 1) else 0) + PackMsbFirst(bits[1..])
  }

  /** Reading a word back as n bits, most significant first: the last element is
      bit 0 (the remainder by 2) and the ones before it are the bits of word / 2. */
  function UnpackMsbFirst(word: nat, n: nat): (bits: seq<Bit>)
    ensures |bits| == n
  {
    if n == 0 then [] else UnpackMsbFirst(word / 2, n - 1) + [word % 2]
  }

  /** Placing bit b above a value x < 2^m puts b first in the (m+1)-bit reading. */
  lemma {:induction false} UnpackTopBit(b: Bit, x: nat, m: nat)
    requires x < Pow2(m)
    ensures UnpackMsbFirst((if b == 1 then Pow2(m) else 0) + x, m + 1) == [b] + UnpackMsbFirst(x, m)
  {
    var top := if b == 1 then Pow2(m) else 0;
    if m == 0 {
      assert x == 0;
      assert UnpackMsbFirst(top + x, 1) == UnpackMsbFirst((top + x) / 2, 0) + [(top + x) % 2];
    } else {
      var half := if b == 1 then Pow2(m - 1) else 0;
      assert top == 2 * half;
      assert (top + x) / 2 == half + x / 2;
      assert (top + x) % 2 == x % 2;
      UnpackTopBit(b, x / 2, m - 1);
    }
  }

  /** Round trip: unpacking the packed word gives the bits back, in order. */
  lemma {:induction false} UnpackPack(bits: seq<Bit>)
    ensures UnpackMsbFirst(PackMsbFirst(bits), |bits|) == bits
  {
    if |bits| > 0 {
      UnpackPack(bits[1..]);
      UnpackTopBit(bits[0], PackMsbFirst(bits[1..]), |bits| - 1);
    }
  }

  /** Division by 2 and then by 2^m is division by 2^(m+1). */
  lemma HalveThenDivide(a: nat, m: nat)
    ensures (a / 2) / Pow2(m) == a / Pow2(m + 1)
  {
    var d := Pow2(m);
    var q := (a / 2) / d;
    var r := (a / 2) % d;
    assert a == 2 * (a / 2) + a % 2;
    assert a / 2 == q * d + r;
    assert a == q * (2 * d) + (2 * r + a % 2);
    assert 2 * r + a % 2 < 2 * d;
    DivisionUnique(a, 2 * d, q, 2 * r + a % 2);
  }

  /** The quotient is the only q with a == q * d + r and 0 <= r < d. */
  lemma DivisionUnique(a: nat, d: nat, q: nat, r: nat)
    requires 0 < d && r < d && a == q * d + r
    ensures a / d == q
  {
    var k: int := a / d - q;
    assert k * d == r - a % d by {
      assert (a / d) * d - q * d == k * d;
    }
    MultipleSign(k, d);
  }

  /** A non-zero multiple of d is at least d away from zero. */
  lemma MultipleSign(k: int, d: nat)
    ensures k >= 1 ==> k * d >= d
    ensures k <= -1 ==> k * d + d <= 0
  {
  }

  /** Entry k of the n-bit reading of a word is the word's bit n - 1 - k. */
  lemma {:induction false} UnpackBitAt(word: nat, n: nat, k: nat)
    requires k < n
    ensures UnpackMsbFirst(word, n)[k] == (word / Pow2(n - 1 - k)) % 2
  {
    if k < n - 1 {
      UnpackBitAt(word / 2, n - 1, k);
      HalveThenDivide(word, n - 2 - k);
    }
  }

  /** The cursor after n advances from slot o. */
  function Advance(o: nat, n: nat): (r: nat)
    requires o < SNUM
    ensures r < SNUM
  {
    if n == 0 then o else NextSlot(Advance(o, n - 1))
  }

  /** Up to one full turn, n advances land n slots on, wrapping round once at most. */
  lemma {:induction false} AdvanceWraps(o: nat, n: nat)
    requires o < SNUM && n <= SNUM
    ensures Advance(o, n) == if o + n < SNUM then o + n else o + n - SNUM
  {
    if n > 0 {
      AdvanceWraps(o, n - 1);
    }
  }

  /** Result of n successive extractions. */
  datatype BitsStep = BitsStep(bits: seq<Bit>, win: Window, pos: nat)

  /** n successive calls of the bias corrector, threading the window and read
      position. (The measure names p as well as n, so that a call with the literal
      word length is unfolded step by step rather than all at once.) */
  function GenBits(w: Window, s: seq<Sample>, p: nat, n: nat): (r: BitsStep)
    requires Valid(w) && |Accepted(s, p)| >= n
    ensures Valid(r.win) && |r.bits| == n
    ensures |Accepted(s, r.pos)| == |Accepted(s, p)| - n
    decreases n, p
  {
    if n == 0 then BitsStep([], w, p)
    else
      var q := GenBits(w, s, p, n - 1);
      var b := GenBit(q.win, s, q.pos);
      BitsStep(q.bits + [b.bit], b.win, b.pos)
  }

  /** n extractions move the cursor n slots on. */
  lemma {:induction false} GenBitsCursor(w: Window, s: seq<Sample>, p: nat, n: nat)
    requires Valid(w) && |Accepted(s, p)| >= n
    ensures GenBits(w, s, p, n).win.oldest == Advance(w.oldest, n)
  {
    if n > 0 {
      GenBitsCursor(w, s, p, n - 1);
    }
  }

  /** n extractions consume exactly the first n accepted readings of the stream. */
  lemma {:induction false} GenBitsAccepted(w: Window, s: seq<Sample>, p: nat, n: nat)
    requires Valid(w) && |Accepted(s, p)| >= n
    ensures Accepted(s, GenBits(w, s, p, n).pos) == Accepted(s, p)[n..]
  {
    if n > 0 {
      var q := GenBits(w, s, p, n - 1);
      GenBitsAccepted(w, s, p, n - 1);
      GenBitAccepted(q.win, s, q.pos);
      assert Accepted(s, p)[n - 1..][1..] == Accepted(s, p)[n..];
    }
  }

  /** The reading the extraction after n extractions consumes is accepted reading n. */
  lemma {:induction false} GenBitsNext(w: Window, s: seq<Sample>, p: nat, n: nat)
    requires Valid(w) && |Accepted(s, p)| > n
    ensures Accepted(s, GenBits(w, s, p, n).pos)[0] == Accepted(s, p)[n]
  {
    GenBitsAccepted(w, s, p, n);
  }

  /** The bits of m <= n extractions are the first m bits of n extractions:
      later extractions only append. */
  lemma {:induction false} GenBitsPrefix(w: Window, s: seq<Sample>, p: nat, n: nat, m: nat)
    requires Valid(w) && |Accepted(s, p)| >= n && m <= n
    ensures GenBits(w, s, p, m).bits == GenBits(w, s, p, n).bits[..m]
    decreases n
  {
    if m < n {
      var q := GenBits(w, s, p, n - 1);
      GenBitsPrefix(w, s, p, n - 1, m);
      assert GenBits(w, s, p, n).bits[..n - 1] == q.bits;
      assert GenBits(w, s, p, n).bits[..m] == q.bits[..m];
    }
  }

  /** Bit k of n extractions is bit k of any shorter run that produces it: later
      extractions never change a bit already produced. */
  lemma {:induction false} GenBitsStable(w: Window, s: seq<Sample>, p: nat, n: nat, m: nat, k: nat)
    requires Valid(w) && |Accepted(s, p)| >= n && k < m <= n
    ensures GenBits(w, s, p, n).bits[k] == GenBits(w, s, p, m).bits[k]
  {
    GenBitsPrefix(w, s, p, n, m);
  }

  /** Bit k of k + 1 extractions is the one the last extraction produces, from
      the window and position the first k extractions leave. */
  lemma {:induction false} GenBitsLast(w: Window, s: seq<Sample>, p: nat, k: nat)
    requires Valid(w) && |Accepted(s, p)| > k
    ensures GenBits(w, s, p, k + 1).bits[k] == GenBit(GenBits(w, s, p, k).win, s, GenBits(w, s, p, k).pos).bit
  {
    var q := GenBits(w, s, p, k);
    assert GenBits(w, s, p, k + 1).bits == q.bits + [GenBit(q.win, s, q.pos).bit];
  }

  /** Bit k of n extractions is the bit the (k+1)-th extraction produces, from the
      window and position the first k extractions leave. */
  lemma {:induction false} GenBitsBitAt(w: Window, s: seq<Sample>, p: nat, n: nat, k: nat)
    requires Valid(w) && |Accepted(s, p)| >= n && k < n
    ensures GenBits(w, s, p, n).bits[k] == GenBit(GenBits(w, s, p, k).win, s, GenBits(w, s, p, k).pos).bit
  {
    GenBitsStable(w, s, p, n, k + 1, k);
    GenBitsLast(w, s, p, k);
  }

  /** n <= SNUM extractions shift the window queue by n: its first SNUM - n
      entries are the old queue's last ones, followed by the first n accepted readings.
      After SNUM extractions every slot has been replaced exactly once, in FIFO order. */
  lemma {:induction false} GenBitsFifo(w: Window, s: seq<Sample>, p: nat, n: nat)
    requires Valid(w) && |Accepted(s, p)| >= n && n <= SNUM
    ensures Fifo(GenBits(w, s, p, n).win) == Fifo(w)[n..] + Accepted(s, p)[..n]
  {
    if n > 0 {
      var q := GenBits(w, s, p, n - 1);
      var b := GenBit(q.win, s, q.pos);
      assert GenBits(w, s, p, n).win == b.win;
      GenBitsAccepted(w, s, p, n - 1);
      GenBitsFifo(w, s, p, n - 1);
      GenBitFifo(q.win, s, q.pos);
      var a := Accepted(s, p);
      assert Accepted(s, q.pos)[0] == a[n - 1];
      QueueShift(Fifo(w), a, n);
    }
  }

  /** Sequence step of the queue argument: dropping the head and appending the
      next accepted reading moves the split point by one. */
  lemma QueueShift(q: seq<Sample>, a: seq<Sample>, n: nat)
    requires 0 < n <= |q| && n <= |a|
    ensures (q[n - 1..] + a[..n - 1])[1..] + [a[n - 1]] == q[n..] + a[..n]
  {
    assert (q[n - 1..] + a[..n - 1])[1..] == q[n..] + a[..n - 1];
    assert a[..n] == a[..n - 1] + [a[n - 1]];
  }

  /** A window whose slots all hold v, fed only accepted readings equal to v,
      keeps every slot at v. */
  lemma {:induction false} ConstantStreamKeepsWindow(w: Window, s: seq<Sample>, p: nat, n: nat, v: Sample)
    requires Valid(w) && |Accepted(s, p)| >= n
    requires forall k :: 0 <= k < SNUM ==> w.vals[k] == v
    requires forall k :: 0 <= k < n ==> Accepted(s, p)[k] == v
    ensures forall k :: 0 <= k < SNUM ==> GenBits(w, s, p, n).win.vals[k] == v
  {
    if n > 0 {
      ConstantStreamKeepsWindow(w, s, p, n - 1, v);
      var q := GenBits(w, s, p, n - 1);
      assert GenBits(w, s, p, n).win == GenBit(q.win, s, q.pos).win;
      GenBitsNext(w, s, p, n - 1);
      ConstantWindowStays(q.win, s, q.pos, v);
    }
  }

  /** Such a window yields 1 on every extraction: the non-strict comparison
      favours 1 when the reading equals the average. */
  lemma {:induction false} ConstantStreamGivesOnes(w: Window, s: seq<Sample>, p: nat, n: nat, v: Sample)
    requires Valid(w) && |Accepted(s, p)| >= n
    requires forall k :: 0 <= k < SNUM ==> w.vals[k] == v
    requires forall k :: 0 <= k < n ==> Accepted(s, p)[k] == v
    ensures forall k :: 0 <= k < n ==> GenBits(w, s, p, n).bits[k] == 1
  {
    if n > 0 {
      ConstantStreamGivesOnes(w, s, p, n - 1, v);
      ConstantStreamKeepsWindow(w, s, p, n - 1, v);
      var q := GenBits(w, s, p, n - 1);
      GenBitsNext(w, s, p, n - 1);
      ConstantWindowGivesOne(q.win, s, q.pos, v);
      GenBitsLast(w, s, p, n - 1);
      GenBitsPrefix(w, s, p, n, n - 1);
      OnesExtended(q.bits, GenBits(w, s, p, n).bits);
    }
  }

  /** A run of 1 bits extended by a 1 bit is a run of 1 bits. */
  lemma OnesExtended(a: seq<Bit>, b: seq<Bit>)
    requires |b| == |a| + 1 && b[..|a|] == a && b[|a|] == 1
    requires forall k :: 0 <= k < |a| ==> a[k] == 1
    ensures forall k :: 0 <= k < |b| ==> b[k] == 1
  {
    forall k | 0 <= k < |b|
      ensures b[k] == 1
    {
      if k < |a| {
        assert b[k] == b[..|a|][k];
      }
    }
  }

  /** A word's worth of extractions turns the cursor once round the window. */
  lemma {:induction false} FullTurnCursor(w: Window, s: seq<Sample>, p: nat)
    requires Valid(w) && |Accepted(s, p)| >= WORD_BITS
    ensures GenBits(w, s, p, WORD_BITS).win.oldest == w.oldest
  {
    GenBitsCursor(w, s, p, WORD_BITS);
    AdvanceWraps(w.oldest, WORD_BITS);
  }

  lemma EmptyPrefix(e: seq<Sample>, a: seq<Sample>)
    requires |e| == 0
    ensures e + a == a
  {
  }

  /** A word's worth of extractions replaces every slot: the queue is then
      exactly the 32 accepted readings. */
  lemma {:induction false} FullTurnQueue(w: Window, s: seq<Sample>, p: nat)
    requires Valid(w) && |Accepted(s, p)| >= WORD_BITS
    ensures Fifo(GenBits(w, s, p, WORD_BITS).win) == Accepted(s, p)[..WORD_BITS]
  {
    GenBitsFifo(w, s, p, WORD_BITS);
    EmptyPrefix(Fifo(w)[WORD_BITS..], Accepted(s, p)[..WORD_BITS]);
  }

  /** 32 packed bits, which always fit the source's uint32_t. */
  function SeedWord(bits: seq<Bit>): (word: uint32)
    requires |bits| == WORD_BITS
    ensures UnpackMsbFirst(word, WORD_BITS) == bits
  {
    WordFitsUint32();
    UnpackPack(bits);
    PackMsbFirst(bits)
  }

  /** Result of one seed-word extraction. */
  datatype WordStep = WordStep(word: uint32, win: Window, pos: nat)

  /** adc_trng_gen_rnd: 32 extractions in a row, the first one's bit ending up
      in the most significant position of the word. Exactly 32 accepted readings
      are consumed and the cursor comes back to where it was. */
  function GenRnd(w: Window, s: seq<Sample>, p: nat): (r: WordStep)
    requires Valid(w) && |Accepted(s, p)| >= WORD_BITS
    ensures Valid(r.win) && r.win.oldest == w.oldest
    ensures |Accepted(s, r.pos)| == |Accepted(s, p)| - WORD_BITS
    ensures UnpackMsbFirst(r.word, WORD_BITS) == GenBits(w, s, p, WORD_BITS).bits
  {
    var g := GenBits(w, s, p, WORD_BITS);
    FullTurnCursor(w, s, p);
    WordStep(SeedWord(g.bits), g.win, g.pos)
  }

  /** The k-th extraction of a word decides bit 31 - k of the seed word. */
  lemma {:induction false} GenRndBitPosition(w: Window, s: seq<Sample>, p: nat, k: nat)
    requires Valid(w) && |Accepted(s, p)| >= WORD_BITS && k < WORD_BITS
    ensures (GenRnd(w, s, p).word / Pow2(WORD_BITS - 1 - k)) % 2 == GenBits(w, s, p, WORD_BITS).bits[k]
  {
    UnpackBitAt(GenRnd(w, s, p).word, WORD_BITS, k);
  }

  /** After a word the window holds the 32 readings it consumed, in arrival
      order from the cursor, and the stream continues with the next accepted one. */
  lemma {:induction false} GenRndWindow(w: Window, s: seq<Sample>, p: nat)
    requires Valid(w) && |Accepted(s, p)| >= WORD_BITS
    ensures Fifo(GenRnd(w, s, p).win) == Accepted(s, p)[..WORD_BITS]
    ensures Accepted(s, GenRnd(w, s, p).pos) == Accepted(s, p)[WORD_BITS..]
  {
    FullTurnQueue(w, s, p);
    GenBitsAccepted(w, s, p, WORD_BITS);
  }
}
