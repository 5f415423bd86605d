/**
 The bias corrector (adc_trng_gen_bit): a circular window of the last SNUM
 accepted readings, their running sum and an eviction cursor. Each extraction
 draws the first in-band reading, compares it with the window average taken
 before the update, then replaces the oldest reading with it.
 */
module BiasCorrector {
  import opened Samples

  const UINT32_LIMIT: nat := 0x1_0000_0000

  /** The running sum is a C uint32_t; the model proves it never wraps. */
  type uint32 = x: nat | x < UINT32_LIMIT

  /** A debiased output bit. */
  type Bit = b: nat | b <= 1

  /** The static state adc_val, val_sum and oldest. */
  datatype Window = Window(vals: seq<Sample>, sum: uint32, oldest: nat)

  /** Reference total of a sequence of readings. */
  function Sum(s: seq<Sample>): nat
  {
    if |s| == 0 then 0 else s[0] + Sum(s[1..])
  }

  /** The window invariant: SNUM slots, the cursor on a slot, and the running
      sum equal to the total of the slots. */
  predicate Valid(w: Window)
  {
    |w.vals| == SNUM && w.oldest < SNUM && w.sum == Sum(w.vals)
  }

  /** A total of readings that are all at most m is at most |s| * m. */
  lemma {:induction false} SumAtMost(s: seq<Sample>, m: nat)
    requires forall k :: 0 <= k < |s| ==> s[k] <= m
    ensures Sum(s) <= |s| * m
  {
    if |s| > 0 {
      SumAtMost(s[1..], m);
    }
  }

  /** A total of readings that all equal v is |s| * v. */
  lemma {:induction false} SumOfConstant(s: seq<Sample>, v: nat)
    requires forall k :: 0 <= k < |s| ==> s[k] == v
    ensures Sum(s) == |s| * v
  {
    if |s| > 0 {
      SumOfConstant(s[1..], v);
    }
  }

  /** Twelve-bit readings keep any window total far below the uint32 range. */
  lemma SumFitsUint32(s: seq<Sample>)
    requires |s| == SNUM
    ensures Sum(s) <= SNUM * ADC_MASK < UINT32_LIMIT
  {
    SumAtMost(s, ADC_MASK);
  }

  /** Appending a reading adds it to the total: the reference total is also the
      running total accumulated from the front. */
  lemma {:induction false} SumSnoc(s: seq<Sample>, x: Sample)
    ensures Sum(s + [x]) == Sum(s) + x
  {
    if |s| > 0 {
      assert (s + [x])[1..] == s[1..] + [x];
      SumSnoc(s[1..], x);
    } else {
      assert (s + [x])[1..] == [];
    }
  }

  /** Overwriting one slot changes the total by the new value minus the old one,
      and the old value never exceeds the total (so the subtraction cannot underflow). */
  lemma {:induction false} SumUpdate(s: seq<Sample>, i: nat, x: Sample)
    requires i < |s|
    ensures s[i] <= Sum(s)
    ensures Sum(s[i := x]) == Sum(s) - s[i] + x
  {
    if i == 0 {
      assert s[i := x][1..] == s[1..];
    } else {
      SumUpdate(s[1..], i - 1, x);
      assert s[i := x][1..] == s[1..][i - 1 := x];
    }
  }

  /** The zero-initialised static storage before any initialisation. */
  function PowerOnWindow(): (w: Window)
    ensures Valid(w) && w.oldest == 0
    ensures forall k :: 0 <= k < SNUM ==> w.vals[k] == 0
  {
    var zeros: seq<Sample> := seq(SNUM, _ => 0);
    SumOfConstant(zeros, 0);
    Window(zeros, 0, 0)
  }

  /** The cursor advance: the slot after o, wrapping from the last slot to the first. */
  function NextSlot(o: nat): (r: nat)
    requires o < SNUM
    ensures r < SNUM
  {
    if o + 1 == SNUM then 0 else o + 1
  }

  /** The advance is the source's (oldest + 1) % SNUM. */
  lemma NextSlotIsModulo(o: nat)
    requires o < SNUM
    ensures NextSlot(o) == (o + 1) % SNUM
  {
  }

  /** Slot k places after slot o, wrapping round the window. */
  function Slot(o: nat, k: nat): (r: nat)
    requires o < SNUM && k < SNUM
    ensures r < SNUM
  {
    if o + k < SNUM then o + k else o + k - SNUM
  }

  /** Result of one extraction: the bit, the updated window and the new read position. */
  datatype BitStep = BitStep(bit: Bit, win: Window, pos: nat)

  /** One call of the bias corrector on window w, reading stream s from position p. */
  function GenBit(w: Window, s: seq<Sample>, p: nat): (r: BitStep)
    requires Valid(w) && |Accepted(s, p)| > 0
    ensures Valid(r.win)
    ensures var i := NextInBand(s, p);
      && r.pos == i + 1
      && (r.bit == 1 <==> Sum(w.vals) / SNUM >= s[i])
      && r.win.vals == w.vals[w.oldest := s[i]]
      && r.win.oldest == NextSlot(w.oldest)
    ensures |Accepted(s, r.pos)| == |Accepted(s, p)| - 1
  {
    var i := NextInBand(s, p);
    var newVal := s[i];
    var average := w.sum / SNUM;
    var bit: Bit := if average >= newVal then 1 else 0;
    SumUpdate(w.vals, w.oldest, newVal);
    SumFitsUint32(w.vals[w.oldest := newVal]);
    var evicted: uint32 := w.sum - w.vals[w.oldest];
    var sum': uint32 := evicted + newVal;
    BitStep(bit, Window(w.vals[w.oldest := newVal], sum', NextSlot(w.oldest)), i + 1)
  }

  /** One extraction consumes exactly the first accepted reading of the stream. */
  lemma {:induction false} GenBitAccepted(w: Window, s: seq<Sample>, p: nat)
    requires Valid(w) && |Accepted(s, p)| > 0
    ensures Accepted(s, GenBit(w, s, p).pos) == Accepted(s, p)[1..]
  {
    var i := NextInBand(s, p);
    assert GenBit(w, s, p).pos == i + 1;
    AcceptedAfterNext(s, p);
  }

  /** The window read as a queue, oldest reading first. */
  function Fifo(w: Window): (q: seq<Sample>)
    requires Valid(w)
    ensures |q| == SNUM
  {
    w.vals[w.oldest..] + w.vals[..w.oldest]
  }

  /** Entry k of the queue is the slot k places after the cursor. */
  lemma FifoIndex(w: Window, k: nat)
    requires Valid(w) && k < SNUM
    ensures Fifo(w)[k] == w.vals[Slot(w.oldest, k)]
  {
  }

  /** One extraction is a queue step: the head of the queue (the slot under the
      cursor) is evicted and the accepted reading is appended at the tail. */
  lemma {:induction false} GenBitFifo(w: Window, s: seq<Sample>, p: nat)
    requires Valid(w) && |Accepted(s, p)| > 0
    ensures Fifo(w)[0] == w.vals[w.oldest]
    ensures Fifo(GenBit(w, s, p).win) == Fifo(w)[1..] + [Accepted(s, p)[0]]
  {
    var r := GenBit(w, s, p);
    var q := Fifo(w);
    FifoIndex(w, 0);
    var q' := Fifo(r.win);
    var x := Accepted(s, p)[0];
    var o := w.oldest;
    forall k | 0 <= k < SNUM
      ensures q'[k] == (q[1..] + [x])[k]
    {
      FifoIndex(r.win, k);
      if k < SNUM - 1 {
        FifoIndex(w, k + 1);
        assert Slot(r.win.oldest, k) == Slot(o, k + 1) != o;
      } else {
        assert Slot(r.win.oldest, k) == o;
      }
    }
    assert q' == q[1..] + [x];
  }

  /** When every slot and the accepted reading hold the same value, the
      non-strict comparison yields 1. */
  lemma {:induction false} ConstantWindowGivesOne(w: Window, s: seq<Sample>, p: nat, v: Sample)
    requires Valid(w) && |Accepted(s, p)| > 0
    requires forall k :: 0 <= k < SNUM ==> w.vals[k] == v
    requires Accepted(s, p)[0] == v
    ensures GenBit(w, s, p).bit == 1
  {
    SumOfConstant(w.vals, v);
  }

  /** When every slot and the accepted reading hold the same value, the window
      still holds only that value afterwards. */
  lemma {:induction false} ConstantWindowStays(w: Window, s: seq<Sample>, p: nat, v: Sample)
    requires Valid(w) && |Accepted(s, p)| > 0
    requires forall k :: 0 <= k < SNUM ==> w.vals[k] == v
    requires Accepted(s, p)[0] == v
    ensures forall k :: 0 <= k < SNUM ==> GenBit(w, s, p).win.vals[k] == v
  {
    assert GenBit(w, s, p).win.vals == w.vals[w.oldest := v];
  }

  /** A reading above every slot of the window exceeds the average, so yields 0. */
  lemma {:induction false} ReadingAboveWindowGivesZero(w: Window, s: seq<Sample>, p: nat)
    requires Valid(w) && |Accepted(s, p)| > 0
    requires forall k :: 0 <= k < SNUM ==> w.vals[k] < Accepted(s, p)[0]
    ensures GenBit(w, s, p).bit == 0
  {
    var x := Accepted(s, p)[0];
    SumAtMost(w.vals, x - 1);
  }
}
