# M487 hardware entropy collector, modelled in Dafny

This project models the entropy source of the Nuvoton NuMaker-IoT-M487 port
(`entropy_hardware_poll.c`). The source has five parts:

- **Bias corrector** (`adc_trng_gen_bit`). It reads 12-bit band-gap conversions
  from the analog-to-digital converter. It discards every reading outside the band
  [1439, 1539] and compares the accepted reading with the average of a 32-slot
  window of earlier readings: the bit is 1 when the average is at least the reading.
  The reading then replaces the oldest slot of the window.
- **Bit aggregator** (`adc_trng_gen_rnd`). It packs 32 corrector bits into a seed
  word, the first bit in the most significant position.
- **Initialiser** (`init_adc_init`). It is guarded by a static flag. It fills the
  window with 32 raw readings, sets the running sum and the cursor, and throws one
  seed word away.
- **Harvest and poll** (`trng_get`, `mbedtls_hardware_poll`). A harvest seeds the
  crypto accelerator's pseudo-random engine with one seed word and reads back one
  32-byte block. The poll fills a buffer of any length with whole blocks and, for a
  partial remainder, the leading bytes of one more block.
- **Interrupt handler** (`CRYPTO_IRQHandler`). The pseudo-random engine and the
  AES engine share one interrupt line. The handler records which of them finished.

Modules, in dependency order:

| file | module | contents |
|---|---|---|
| samples.dfy | `Samples` | readings, the band, the readings the retry loop accepts |
| bias_corrector.dfy | `BiasCorrector` | the window, its running sum, one bit extraction |
| bit_aggregator.dfy | `BitAggregator` | 32 extractions, MSB-first packing into a seed word |
| entropy_init.dfy | `EntropyInit` | the collector state and the one-shot initialiser |
| entropy_poll.dfy | `EntropyPoll` | harvest, consecutive harvests, the poll |
| crypto_irq.dfy | `CryptoIrq` | the interrupt handler and the completion flag across harvests |

The model makes these choices:

- The converter is a finite sequence of readings plus a read position. Each
  conversion consumes the reading at the position.
- The retry loop of the corrector never ends on a run with no in-band reading. The
  model therefore asks that enough in-band readings follow: a `requires` on the
  number of accepted readings.
- The band limits are computed in floating point in the source: (1.2 / 3.3) × 4095 ± 50,
  truncated to `int`. They are the constants 1439 and 1539 here, and
  `Samples.BandLimits` states that these are the two expressions, evaluated
  exactly, truncated. Both ends are inclusive, because the loop rejects only readings
  strictly above or below them.
- The running sum `val_sum` is a 32-bit unsigned integer. The model types it as
  such and proves that it never wraps.
- The pseudo-random engine is an arbitrary function from seed word to 32-byte block
  (`EntropyPoll.Prng`). Every property of the poll holds for all such functions.

All source cells below refer to the one file
`tests/nuvoton/numaker-iot-m487/numaker_iot_m487_eth/common/application_code/nuvoton_code/entropy_hardware_poll.c`.

## Model

| member | source | states |
|---|---|---|
| `Samples.BandLimits` | tests/nuvoton/numaker-iot-m487/numaker_iot_m487_eth/common/application_code/nuvoton_code/entropy_hardware_poll.c:45-46 | the limits 1439 and 1539 are (1.2 / 3.3) × 4095 − 50 and (1.2 / 3.3) × 4095 + 50, each truncated to an integer |
| `Samples.InBand` | tests/nuvoton/numaker-iot-m487/numaker_iot_m487_eth/common/application_code/nuvoton_code/entropy_hardware_poll.c:48-50 | the loop retries only on a reading above the upper or below the lower limit, so a reading is accepted exactly when it lies in [1439, 1539], both ends included |
| `Samples.Accepted` | tests/nuvoton/numaker-iot-m487/numaker_iot_m487_eth/common/application_code/nuvoton_code/entropy_hardware_poll.c:48-50 | the readings the retry loop would hand on from a position, in stream order; its meaning is stated by the lemmas in the next rows |
| `Samples.AcceptedInBand` | tests/nuvoton/numaker-iot-m487/numaker_iot_m487_eth/common/application_code/nuvoton_code/entropy_hardware_poll.c:45-50 | every reading the retry loop hands on lies within [1439, 1539] |
| `Samples.AcceptedCountsInBand` | tests/nuvoton/numaker-iot-m487/numaker_iot_m487_eth/common/application_code/nuvoton_code/entropy_hardware_poll.c:45-50 | the accepted readings number exactly the in-band positions: the filter drops out-of-band readings and nothing else |
| `Samples.NothingAcceptedIffAllOutOfBand` | tests/nuvoton/numaker-iot-m487/numaker_iot_m487_eth/common/application_code/nuvoton_code/entropy_hardware_poll.c:48-50 | no reading is accepted from a position exactly when every later reading is out of band, the stream on which the loop would spin forever |
| `Samples.NextInBand` | tests/nuvoton/numaker-iot-m487/numaker_iot_m487_eth/common/application_code/nuvoton_code/entropy_hardware_poll.c:48-50 | the loop stops at an in-band reading, which is the first accepted one; one accepted reading fewer remains |
| `Samples.NextInBandSkipsOutOfBand` | tests/nuvoton/numaker-iot-m487/numaker_iot_m487_eth/common/application_code/nuvoton_code/entropy_hardware_poll.c:48-50 | every reading the loop skips before stopping is out of band |
| `Samples.AcceptedAfterNext` | tests/nuvoton/numaker-iot-m487/numaker_iot_m487_eth/common/application_code/nuvoton_code/entropy_hardware_poll.c:48-50 | after the loop stops, the remaining accepted readings are the old ones minus the first, in order |
| `BiasCorrector.SumFitsUint32` | tests/nuvoton/numaker-iot-m487/numaker_iot_m487_eth/common/application_code/nuvoton_code/entropy_hardware_poll.c:26-27 | 32 twelve-bit readings total at most 32 × 4095, below 2^32, so `val_sum` cannot wrap |
| `BiasCorrector.SumUpdate` | tests/nuvoton/numaker-iot-m487/numaker_iot_m487_eth/common/application_code/nuvoton_code/entropy_hardware_poll.c:62-63 | the evicted slot never exceeds the total, so the subtraction cannot underflow; afterwards the total is old total − evicted + new |
| `BiasCorrector.PowerOnWindow` | tests/nuvoton/numaker-iot-m487/numaker_iot_m487_eth/common/application_code/nuvoton_code/entropy_hardware_poll.c:26-28 | the zero static storage is already a consistent window: all slots 0, sum 0, cursor 0 |
| `BiasCorrector.NextSlot` | tests/nuvoton/numaker-iot-m487/numaker_iot_m487_eth/common/application_code/nuvoton_code/entropy_hardware_poll.c:65 | the cursor advance stays within [0, 32) |
| `BiasCorrector.NextSlotIsModulo` | tests/nuvoton/numaker-iot-m487/numaker_iot_m487_eth/common/application_code/nuvoton_code/entropy_hardware_poll.c:65 | the advance equals (oldest + 1) % 32 |
| `BiasCorrector.GenBit` | tests/nuvoton/numaker-iot-m487/numaker_iot_m487_eth/common/application_code/nuvoton_code/entropy_hardware_poll.c:41-68 | the window stays consistent; the reading used is the first in-band one; the bit is 1 exactly when the old average is at least that reading; that reading replaces slot `oldest` and the cursor moves to the next slot |
| `BiasCorrector.GenBitAccepted` | tests/nuvoton/numaker-iot-m487/numaker_iot_m487_eth/common/application_code/nuvoton_code/entropy_hardware_poll.c:48-50 | one extraction consumes exactly the first accepted reading |
| `BiasCorrector.GenBitFifo` | tests/nuvoton/numaker-iot-m487/numaker_iot_m487_eth/common/application_code/nuvoton_code/entropy_hardware_poll.c:61-65 | read as a queue from the cursor, the window loses its oldest reading and gains the new one at the tail |
| `BiasCorrector.ConstantWindowGivesOne` | tests/nuvoton/numaker-iot-m487/numaker_iot_m487_eth/common/application_code/nuvoton_code/entropy_hardware_poll.c:52-57 | a reading equal to every slot yields 1 (the comparison is non-strict) |
| `BiasCorrector.ReadingAboveWindowGivesZero` | tests/nuvoton/numaker-iot-m487/numaker_iot_m487_eth/common/application_code/nuvoton_code/entropy_hardware_poll.c:52-57 | a reading above every slot yields 0 |
| `BitAggregator.PackMsbFirst` | tests/nuvoton/numaker-iot-m487/numaker_iot_m487_eth/common/application_code/nuvoton_code/entropy_hardware_poll.c:76-78 | the packed bits fit in as many bits as were packed |
| `BitAggregator.UnpackPack` | tests/nuvoton/numaker-iot-m487/numaker_iot_m487_eth/common/application_code/nuvoton_code/entropy_hardware_poll.c:76-78 | reading the packed word back most significant bit first gives the bits in extraction order |
| `BitAggregator.UnpackBitAt` | tests/nuvoton/numaker-iot-m487/numaker_iot_m487_eth/common/application_code/nuvoton_code/entropy_hardware_poll.c:77-78 | entry k of the n-bit reading of a word is the word's bit n − 1 − k |
| `BitAggregator.GenRndBitPosition` | tests/nuvoton/numaker-iot-m487/numaker_iot_m487_eth/common/application_code/nuvoton_code/entropy_hardware_poll.c:77-78 | the k-th of the 32 extractions decides bit 31 − k of the seed word |
| `BitAggregator.SeedWord` | tests/nuvoton/numaker-iot-m487/numaker_iot_m487_eth/common/application_code/nuvoton_code/entropy_hardware_poll.c:74-81 | 32 packed bits fit the `uint32_t` result and read back as those bits |
| `BitAggregator.AdvanceWraps` | tests/nuvoton/numaker-iot-m487/numaker_iot_m487_eth/common/application_code/nuvoton_code/entropy_hardware_poll.c:65 | up to 32 cursor advances move the cursor that many slots on, wrapping once at most |
| `BitAggregator.GenBits` | tests/nuvoton/numaker-iot-m487/numaker_iot_m487_eth/common/application_code/nuvoton_code/entropy_hardware_poll.c:77-78 | n extractions give n bits, keep the window consistent and consume n accepted readings |
| `BitAggregator.GenBitsCursor` | tests/nuvoton/numaker-iot-m487/numaker_iot_m487_eth/common/application_code/nuvoton_code/entropy_hardware_poll.c:65 | n extractions move the cursor n slots on |
| `BitAggregator.GenBitsAccepted` | tests/nuvoton/numaker-iot-m487/numaker_iot_m487_eth/common/application_code/nuvoton_code/entropy_hardware_poll.c:77-78 | n extractions consume exactly the first n accepted readings, in order |
| `BitAggregator.GenBitsNext` | tests/nuvoton/numaker-iot-m487/numaker_iot_m487_eth/common/application_code/nuvoton_code/entropy_hardware_poll.c:77-78 | the extraction after n extractions reads accepted reading n |
| `BitAggregator.GenBitsPrefix` | tests/nuvoton/numaker-iot-m487/numaker_iot_m487_eth/common/application_code/nuvoton_code/entropy_hardware_poll.c:77-78 | the bits of m extractions are the first m bits of any longer run: later extractions only append |
| `BitAggregator.GenBitsLast` | tests/nuvoton/numaker-iot-m487/numaker_iot_m487_eth/common/application_code/nuvoton_code/entropy_hardware_poll.c:77-78 | bit k of k + 1 extractions is the one the last extraction produces from the window and position the first k leave |
| `BitAggregator.GenBitsBitAt` | tests/nuvoton/numaker-iot-m487/numaker_iot_m487_eth/common/application_code/nuvoton_code/entropy_hardware_poll.c:77-78 | bit k of any run of n extractions is the bit the (k+1)-th extraction produces from the window and position the first k leave |
| `BitAggregator.GenBitsFifo` | tests/nuvoton/numaker-iot-m487/numaker_iot_m487_eth/common/application_code/nuvoton_code/entropy_hardware_poll.c:61-65 | up to 32 extractions shift the window queue: old readings leave from the head, the accepted ones join at the tail in order |
| `BitAggregator.ConstantStreamKeepsWindow` | tests/nuvoton/numaker-iot-m487/numaker_iot_m487_eth/common/application_code/nuvoton_code/entropy_hardware_poll.c:61-65 | a window full of v fed only readings equal to v stays full of v |
| `BitAggregator.ConstantStreamGivesOnes` | tests/nuvoton/numaker-iot-m487/numaker_iot_m487_eth/common/application_code/nuvoton_code/entropy_hardware_poll.c:52-57 | such a window yields only 1 bits |
| `BitAggregator.FullTurnCursor` | tests/nuvoton/numaker-iot-m487/numaker_iot_m487_eth/common/application_code/nuvoton_code/entropy_hardware_poll.c:77-78 | a word's 32 extractions bring the cursor back to where it started |
| `BitAggregator.FullTurnQueue` | tests/nuvoton/numaker-iot-m487/numaker_iot_m487_eth/common/application_code/nuvoton_code/entropy_hardware_poll.c:77-78 | after a word's 32 extractions the window holds exactly the 32 readings consumed, oldest at the cursor |
| `BitAggregator.GenRnd` | tests/nuvoton/numaker-iot-m487/numaker_iot_m487_eth/common/application_code/nuvoton_code/entropy_hardware_poll.c:71-82 | the seed word's bits, most significant first, are the 32 corrector bits in order; 32 accepted readings are consumed; the cursor returns to its start |
| `BitAggregator.GenRndWindow` | tests/nuvoton/numaker-iot-m487/numaker_iot_m487_eth/common/application_code/nuvoton_code/entropy_hardware_poll.c:71-82 | after a word the window queue is the 32 readings consumed, and the stream continues with the next accepted reading |
| `EntropyInit.PowerOn` | tests/nuvoton/numaker-iot-m487/numaker_iot_m487_eth/common/application_code/nuvoton_code/entropy_hardware_poll.c:86 | at power-on the flag is clear and the static window is consistent |
| `EntropyInit.FillSum` | tests/nuvoton/numaker-iot-m487/numaker_iot_m487_eth/common/application_code/nuvoton_code/entropy_hardware_poll.c:112-117 | after i rounds of the fill loop, `val_sum` (added to one reading at a time from 0 as a 32-bit unsigned integer) is the total of the first i raw readings and at most i × 4095, so it never wraps |
| `EntropyInit.Fill` | tests/nuvoton/numaker-iot-m487/numaker_iot_m487_eth/common/application_code/nuvoton_code/entropy_hardware_poll.c:112-118 | the fill stores the 32 raw readings unfiltered in slot order and leaves a consistent window: the accumulated `val_sum` is the window total, and the cursor is on slot 0 |
| `EntropyInit.Init` | tests/nuvoton/numaker-iot-m487/numaker_iot_m487_eth/common/application_code/nuvoton_code/entropy_hardware_poll.c:84-121 | once the flag is set, a call changes nothing and reads nothing; a first call sets the flag and reads 32 raw readings then one word; it leaves the cursor on slot 0 and the window holding the 32 accepted readings after the raw ones |
| `EntropyInit.InitIdempotent` | tests/nuvoton/numaker-iot-m487/numaker_iot_m487_eth/common/application_code/nuvoton_code/entropy_hardware_poll.c:86-89 | calling the initialiser again from where it stopped changes nothing |
| `EntropyPoll.Harvest` | tests/nuvoton/numaker-iot-m487/numaker_iot_m487_eth/common/application_code/nuvoton_code/entropy_hardware_poll.c:135-169 | the block is the engine's block for the seed; the seed's bits are the next 32 corrector bits, most significant first; one word of accepted readings is consumed |
| `EntropyPoll.HarvestMany` | tests/nuvoton/numaker-iot-m487/numaker_iot_m487_eth/common/application_code/nuvoton_code/entropy_hardware_poll.c:195-205 | n harvests in a row give n seeds and consume 32 n accepted readings, each seeded from the window the previous one left |
| `EntropyPoll.Blocks` | tests/nuvoton/numaker-iot-m487/numaker_iot_m487_eth/common/application_code/nuvoton_code/entropy_hardware_poll.c:195-205 | the blocks of n seeds laid end to end take 32 n bytes |
| `EntropyPoll.BlocksAt` | tests/nuvoton/numaker-iot-m487/numaker_iot_m487_eth/common/application_code/nuvoton_code/entropy_hardware_poll.c:196-197 | block j of the concatenation sits at bytes [32 j, 32 j + 32) |
| `EntropyPoll.HarvestCount` | tests/nuvoton/numaker-iot-m487/numaker_iot_m487_eth/common/application_code/nuvoton_code/entropy_hardware_poll.c:195-205 | the number of harvests is len / 32 rounded up: enough blocks to cover len, with none wasted (0 for len 0) |
| `EntropyPoll.HarvestCountIsCeiling` | tests/nuvoton/numaker-iot-m487/numaker_iot_m487_eth/common/application_code/nuvoton_code/entropy_hardware_poll.c:195-205 | the number of harvests equals (len + 31) / 32 |
| `EntropyPoll.PollLayout` | tests/nuvoton/numaker-iot-m487/numaker_iot_m487_eth/common/application_code/nuvoton_code/entropy_hardware_poll.c:195-205 | in the first len bytes, every whole block is block j at bytes [32 j, 32 j + 32), and a partial last block contributes its leading bytes |
| `EntropyPoll.FillBlocks` | tests/nuvoton/numaker-iot-m487/numaker_iot_m487_eth/common/application_code/nuvoton_code/entropy_hardware_poll.c:195-200 | the loop stops with fewer than 32 bytes missing, having harvested once per whole block and written the blocks in harvest order |
| `EntropyPoll.FillBuffer` | tests/nuvoton/numaker-iot-m487/numaker_iot_m487_eth/common/application_code/nuvoton_code/entropy_hardware_poll.c:190-206 | the loop and the tail write the first len bytes of the harvested blocks, in order, report len as written, and harvest exactly len / 32 rounded up times |
| `EntropyPoll.Poll` | tests/nuvoton/numaker-iot-m487/numaker_iot_m487_eth/common/application_code/nuvoton_code/entropy_hardware_poll.c:176-210 | returns 0 with olen = len; initialises the collector; harvests len / 32 rounded up times (none for len 0); whole blocks land unmodified at [32 j, 32 j + 32); a tail receives the leading bytes of the last block |
| `CryptoIrq.HandleIrq` | tests/nuvoton/numaker-iot-m487/numaker_iot_m487_eth/common/application_code/nuvoton_code/entropy_hardware_poll.c:125-131 | a pending engine completion sets the engine's flag and clears its pending bit; only without one does a pending AES completion set the AES flag |
| `CryptoIrq.HandleIrqOneSource` | tests/nuvoton/numaker-iot-m487/numaker_iot_m487_eth/common/application_code/nuvoton_code/entropy_hardware_poll.c:125-131 | one invocation sets at most one flag; an AES completion never sets the engine's flag; with nothing pending nothing changes |
| `CryptoIrq.HandleIrqTwiceDrains` | tests/nuvoton/numaker-iot-m487/numaker_iot_m487_eth/common/application_code/nuvoton_code/entropy_hardware_poll.c:125-131 | two invocations service both sources in priority order, leaving nothing pending |
| `CryptoIrq.PowerOnEngine` | tests/nuvoton/numaker-iot-m487/numaker_iot_m487_eth/common/application_code/nuvoton_code/entropy_hardware_poll.c:19 | the power-on state, with the flag clear and nothing pending or generating, keeps the flag discipline, and no wait can stop early in it |
| `CryptoIrq.StartAsWritten` | tests/nuvoton/numaker-iot-m487/numaker_iot_m487_eth/common/application_code/nuvoton_code/entropy_hardware_poll.c:155-158 | starting the engine leaves the completion flag as the previous harvest left it, so the wait that follows stops at once exactly when an earlier completion is still recorded |
| `CryptoIrq.StartCorrected` | tests/nuvoton/numaker-iot-m487/numaker_iot_m487_eth/common/application_code/nuvoton_code/entropy_hardware_poll.c:155-158 | starting the engine with the flag cleared never lets the wait stop at once, keeps the discipline exactly when no completion is pending, and changes nothing else |
| `CryptoIrq.Step` | tests/nuvoton/numaker-iot-m487/numaker_iot_m487_eth/common/application_code/nuvoton_code/entropy_hardware_poll.c:123-158 | generation starts only on a harvest's start with no completion pending and ends only when the engine finishes, raising its pending bit; the flag is set only by an interrupt that finds that bit, and cleared only by a corrected start |
| `CryptoIrq.AsWrittenSecondHarvestExitsEarly` | tests/nuvoton/numaker-iot-m487/numaker_iot_m487_eth/common/application_code/nuvoton_code/entropy_hardware_poll.c:155-158 | as written, the second harvest of a boot finds the flag set while the engine is still generating |
| `CryptoIrq.StepCorrectedHonest` | tests/nuvoton/numaker-iot-m487/numaker_iot_m487_eth/common/application_code/nuvoton_code/entropy_hardware_poll.c:123-160 | with the flag cleared at start, every event keeps a set or pending completion tied to a finished block |
| `CryptoIrq.CorrectedNeverExitsEarly` | tests/nuvoton/numaker-iot-m487/numaker_iot_m487_eth/common/application_code/nuvoton_code/entropy_hardware_poll.c:123-160 | with the flag cleared at start, no sequence of events lets a harvest's wait end before its block exists |

## Left out

- Register I/O is not modelled: the converter trigger and status poll, clock enable and divider, converter control, sampling time, protected-register unlock. A reading is an element of the reading sequence.
- The pseudo-random engine's register protocol is not modelled (`PRNG_Open`, `PRNG_Start`, `PRNG_Read`, interrupt enable and disable). The engine is the function parameter `prng`, and the 256-bit key-size selector is fixed by the 32-byte block.
- The busy-wait on the completion flag is not modelled as a loop. A harvest's wait ends when the flag reads set (`CryptoIrq.EarlyExit`).
- Concurrency between the foreground and the interrupt context is left out. Interrupt handling is an event in a sequential trace, and the flag's `volatile` visibility is taken for granted.
- Livelock is not modelled. The retry loop never returns on a run without in-band readings; the corrector, initialiser and poll instead require enough accepted readings to follow. `Samples.NothingAcceptedIffAllOutOfBand` characterises the runs excluded.
- Double-precision rounding in the band computation is not modelled. `Samples.BandLimits` evaluates (1.2 / 3.3) × 4095 ± 50 exactly; the exact values lie about 0.09 above the integers 1539 and 1439, far beyond any rounding error, so truncation gives the same limits.
- The shift `adc_trng_gen_bit() << i` is done on a signed `int`, and with i = 31 and a 1 bit it is undefined behaviour in C. It is modelled as the intended unsigned bit placement.
- The `#if 0` branch of `mbedtls_hardware_poll` (a tick counter as entropy) and `numaker_ulRand` are compiled out or outside the poll path, so they are not modelled.
- `PRNG_Read` stores the block word by word through a `uint32_t` pointer cast from the caller's buffer. The byte order and the buffer's alignment are not modelled: a block is an opaque sequence of 32 bytes.
- The poll's `data` argument is ignored by the source and is omitted.
- No claim is made about the statistical quality of the bits.
- `mbedtls_hardware_poll` calls `init_adc_init()` even for `len == 0` (line 194), so a first zero-length poll reads 32 raw readings and one word. `EntropyPoll.Poll` does the same and then harvests nothing.
- `trng_get` never clears `g_PRNG_done`, which is written only at line 126. `EntropyPoll.Harvest` models a harvest whose block is read after it exists; the difference is recorded under Findings.
- CryptoIrq.Step: ignores a start while a block is being generated or an engine completion is still pending. The source has no such guard: the guard stands in for the corrected harvest's wait having seen the previous completion serviced, and `CryptoIrq.CorrectedNeverExitsEarly` depends on it. A start that overtook a pending completion would let the following interrupt set the flag while the new block is generated.

## Findings

| source | as written | input that shows it | evidently intended | confidence | as-written member | corrected member |
|---|---|---|---|---|---|---|
| tests/nuvoton/numaker-iot-m487/numaker_iot_m487_eth/common/application_code/nuvoton_code/entropy_hardware_poll.c:155-158 | `g_PRNG_done` is set by the interrupt handler (line 126) and never cleared, so from the second harvest of a boot on, the wait at line 158 ends at once and `PRNG_Read` may read the block before the engine has produced it | two harvests in one boot: start, engine finishes, interrupt, start again | clear `g_PRNG_done` before `PRNG_Start`, so the wait ends only on the completion of the current generation | not executed; the event model shows the flag set while generating, while whether the read then returns a stale block depends on engine timing | `CryptoIrq.AsWrittenSecondHarvestExitsEarly` | `CryptoIrq.CorrectedNeverExitsEarly` |
