/**
 The one-shot initialiser (init_adc_init), window part: guarded by a static
 flag, it fills the window with SNUM raw readings (no band filter), sets the
 running sum and the cursor, raises the flag and throws one seed word away.
 The converter's clock, divider and control setup is not modelled.
 */
module EntropyInit {
  import opened Samples
  import opened BiasCorrector
  import opened BitAggregator

  /** The collector's static state: the init flag and the window. */
  datatype Collector = Collector(initialized: bool, win: Window)

  /** The state at power-on: flag clear, static storage zero. */
  function PowerOn(): (c: Collector)
    ensures !c.initialized && Valid(c.win)
  {
    Collector(false, PowerOnWindow())
  }

  /** Readings an initialisation starting at position p needs: none once the flag
      is set; otherwise SNUM raw readings for the fill, then 32 accepted ones for
      the discarded word. */
  predicate CanInit(c: Collector, s: seq<Sample>, p: nat)
  {
    c.initialized || (p + SNUM <= |s| && |Accepted(s, p + SNUM)| >= WORD_BITS)
  }

  /** Result of one call: the new state and the new read position. */
  datatype InitStep = InitStep(state: Collector, pos: nat)

  /** val_sum after the fill loop has added the first i raw readings, one
      uint32_t addition at a time from 0: it is their total and never wraps.
      (The measure names raw as well as i, so that a call with the literal window
      size is unfolded step by step rather than all at once.) */
  function FillSum(raw: seq<Sample>, i: nat): (acc: uint32)
    requires |raw| == SNUM && i <= SNUM
    ensures acc == Sum(raw[..i]) && acc <= i * ADC_MASK
    decreases i, raw
  {
    if i == 0 then 0
    else
      var prev := FillSum(raw, i - 1);
      assert raw[..i] == raw[..i - 1] + [raw[i - 1]];
      SumSnoc(raw[..i - 1], raw[i - 1]);
      assert (i - 1) * ADC_MASK + ADC_MASK == i * ADC_MASK;
      prev + raw[i - 1]
  }

  /** The window the fill loop leaves: the raw readings in slot order, the
      accumulated val_sum, and the cursor on slot 0. The accumulated sum is the
      window total, so the window is consistent. */
  function Fill(raw: seq<Sample>): (w: Window)
    requires |raw| == SNUM
    ensures Valid(w) && w.vals == raw && w.oldest == 0
  {
    assert raw[..SNUM] == raw;
    Window(raw, FillSum(raw, SNUM), 0)
  }

  /** init_adc_init. Once the flag is set a call changes nothing and reads
      nothing. A first call sets the flag and leaves the cursor on slot 0 with the
      window holding, in slot order, the 32 accepted readings that followed the raw
      fill: the discarded word has pushed every raw reading out again. */
  function Init(c: Collector, s: seq<Sample>, p: nat): (r: InitStep)
    requires Valid(c.win) && CanInit(c, s, p)
    ensures r.state.initialized && Valid(r.state.win)
    ensures c.initialized ==> r == InitStep(c, p)
    ensures !c.initialized ==>
      && r.state.win.oldest == 0
      && r.state.win.vals == Accepted(s, p + SNUM)[..WORD_BITS]
      && Accepted(s, r.pos) == Accepted(s, p + SNUM)[WORD_BITS..]
  {
    if c.initialized then InitStep(c, p)
    else
      var filled := Fill(s[p..p + SNUM]);
      var dropped := GenRnd(filled, s, p + SNUM);
      GenRndWindow(filled, s, p + SNUM);
      assert dropped.win.vals == Fifo(dropped.win);
      InitStep(Collector(true, dropped.win), dropped.pos)
  }

  /** A second call is the identity: whatever the first call read, calling again
      from where it stopped reads nothing and changes nothing. */
  lemma {:induction false} InitIdempotent(c: Collector, s: seq<Sample>, p: nat)
    requires Valid(c.win) && CanInit(c, s, p)
    ensures var r := Init(c, s, p);
      CanInit(r.state, s, r.pos) && Init(r.state, s, r.pos) == r
  {
  }
}
