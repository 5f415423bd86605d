/**
 The crypto accelerator's shared interrupt line (CRYPTO_IRQHandler) and the
 completion flag that a harvest waits on.

 The pseudo-random engine and the AES engine raise the same interrupt; the
 handler tells the two sources apart by their pending bits and records the
 completion in one of two flags. The registers behind the pending bits are
 modelled as booleans.

 The second half of the module follows one completion flag across harvests as
 a sequence of events (start, engine finished, interrupt, AES finished) to show
 when the harvest's wait can stop before the engine has produced its block.
 The wait itself, being a spin on a volatile in another execution context, is
 not modelled: a harvest's wait stops as soon as the flag reads set.
 */
module CryptoIrq {

  /** The two pending bits the handler inspects and the two completion flags
      (g_PRNG_done, g_AES_done) it writes. */
  datatype IrqState = IrqState(prngPending: bool, aesPending: bool, prngDone: bool, aesDone: bool)

  /** CRYPTO_IRQHandler: a pending pseudo-random-engine completion is handled
      first and alone; only without one is a pending AES completion handled. */
  function HandleIrq(f: IrqState): (r: IrqState)
    ensures r.prngDone == (f.prngDone || f.prngPending)
    ensures r.aesDone == (f.aesDone || (f.aesPending && !f.prngPending))
    ensures !r.prngPending
    ensures r.aesPending == (f.aesPending && f.prngPending)
  {
    if f.prngPending then f.(prngDone := true, prngPending := false)
    else if f.aesPending then f.(aesDone := true, aesPending := false)
    else f
  }

  /** One invocation services exactly one source: it never raises both flags,
      an AES completion never raises the pseudo-random engine's flag, and with
      nothing pending it changes nothing. */
  lemma HandleIrqOneSource(f: IrqState)
    ensures var r := HandleIrq(f);
      && !((r.prngDone && !f.prngDone) && (r.aesDone && !f.aesDone))
      && (!f.prngPending ==> r.prngDone == f.prngDone)
      && (f.prngPending ==> r.aesDone == f.aesDone && r.aesPending == f.aesPending)
      && (!f.prngPending && !f.aesPending ==> r == f)
  {
  }

  /** Two invocations service both sources in priority order: afterwards nothing
      is pending and each flag records whether its engine had completed. */
  lemma HandleIrqTwiceDrains(f: IrqState)
    ensures var r := HandleIrq(HandleIrq(f));
      && !r.prngPending && !r.aesPending
      && r.prngDone == (f.prngDone || f.prngPending)
      && r.aesDone == (f.aesDone || f.aesPending)
  {
  }

  /** The completion flag across harvests: the interrupt state and whether the
      pseudo-random engine is still generating a block. */
  datatype Engine = Engine(irq: IrqState, generating: bool)

  /** Events seen by the completion flag: a harvest starts the engine, the engine
      finishes (raising its pending bit), the interrupt is taken, or the AES engine
      finishes (raising its own pending bit). */
  datatype Event = Start | Finish | Interrupt | AesFinish

  /** Static storage at power-on: both flags clear, nothing pending or generating.
      The power-on state keeps the flag discipline and no wait can stop early in it. */
  function PowerOnEngine(): (e: Engine)
    ensures Honest(e) && !EarlyExit(e)
    ensures !e.generating && !e.irq.prngPending
  {
    Engine(IrqState(false, false, false, false), false)
  }

  /** The harvest's wait stops (the flag reads set) while the engine is still
      generating, so the block would be read before it exists. */
  predicate EarlyExit(e: Engine)
  {
    e.generating && e.irq.prngDone
  }

  /** trng_get as written: the engine is seeded and started; the completion flag
      is left as the previous harvest left it, so the wait that follows stops at
      once exactly when an earlier completion is still recorded. */
  function StartAsWritten(e: Engine): (r: Engine)
    ensures r.generating && r.irq == e.irq
    ensures EarlyExit(r) <==> e.irq.prngDone
  {
    e.(generating := true)
  }

  /** trng_get with the flag cleared before the engine is started: whatever the
      previous harvest left, the wait that follows cannot stop at once, and the
      discipline holds afterwards exactly when no completion was still pending. */
  function StartCorrected(e: Engine): (r: Engine)
    ensures r.generating && !EarlyExit(r)
    ensures Honest(r) <==> !e.irq.prngPending
    ensures r.irq.(prngDone := e.irq.prngDone) == e.irq
  {
    e.(generating := true, irq := e.irq.(prngDone := false))
  }

  /** One event. A harvest is started only when no block is being generated and no
      completion is waiting to be serviced; the engine finishes only while generating.
      Generation starts only on a start and ends only when the engine finishes,
      raising its pending bit; the flag is set only by an interrupt that finds that
      bit, and cleared only by a corrected start. */
  function Step(e: Engine, ev: Event, corrected: bool): (r: Engine)
    ensures r.generating && !e.generating ==> ev == Start && !e.irq.prngPending
    ensures !r.generating && e.generating ==> ev == Finish && r.irq.prngPending
    ensures r.irq.prngDone && !e.irq.prngDone ==> ev == Interrupt && e.irq.prngPending
    ensures !r.irq.prngDone && e.irq.prngDone ==> ev == Start && corrected
    ensures ev == Start && (e.generating || e.irq.prngPending) ==> r == e
  {
    match ev
    case Start =>
      if e.generating || e.irq.prngPending then e
      else if corrected then StartCorrected(e) else StartAsWritten(e)
    case Finish =>
      if e.generating then e.(generating := false, irq := e.irq.(prngPending := true)) else e
    case Interrupt => e.(irq := HandleIrq(e.irq))
    case AesFinish => e.(irq := e.irq.(aesPending := true))
  }

  /** The state after a sequence of events. */
  function Run(e: Engine, evs: seq<Event>, corrected: bool): (r: Engine)
    decreases |evs|
  {
    if |evs| == 0 then e else Run(Step(e, evs[0], corrected), evs[1..], corrected)
  }

  /** The flag discipline: a set or pending completion always belongs to a block
      that has been generated. */
  predicate Honest(e: Engine)
  {
    (e.irq.prngDone || e.irq.prngPending) ==> !e.generating
  }

  /** As written, the second harvest's wait stops at once: the first harvest's
      completion is still recorded when the engine is started again. */
  lemma AsWrittenSecondHarvestExitsEarly()
    ensures Honest(PowerOnEngine())
    ensures EarlyExit(Run(PowerOnEngine(), [Start, Finish, Interrupt, Start], false))
  {
    var e0 := PowerOnEngine();
    var e1 := Step(e0, Start, false);
    var e2 := Step(e1, Finish, false);
    var e3 := Step(e2, Interrupt, false);
    var e4 := Step(e3, Start, false);
    assert e3.irq.prngDone && !e3.generating && !e3.irq.prngPending;
    assert EarlyExit(e4);
    assert Run(e0, [Start, Finish, Interrupt, Start], false) == e4 by {
      assert [Start, Finish, Interrupt, Start][1..] == [Finish, Interrupt, Start];
      assert [Finish, Interrupt, Start][1..] == [Interrupt, Start];
      assert [Interrupt, Start][1..] == [Start];
    }
  }

  /** With the flag cleared at start, every event keeps the discipline. */
  lemma StepCorrectedHonest(e: Engine, ev: Event)
    requires Honest(e)
    ensures Honest(Step(e, ev, true))
  {
  }

  /** With the flag cleared at start, no sequence of events from an honest state
      (power-on among them) ever lets a wait stop before its block exists. */
  lemma {:induction false} CorrectedNeverExitsEarly(e: Engine, evs: seq<Event>)
    requires Honest(e)
    ensures Honest(Run(e, evs, true))
    ensures !EarlyExit(Run(e, evs, true))
    decreases |evs|
  {
    if |evs| > 0 {
      StepCorrectedHonest(e, evs[0]);
      CorrectedNeverExitsEarly(Step(e, evs[0], true), evs[1..]);
    }
  }
}
