/**
 The harvest (trng_get) and the entropy poll (mbedtls_hardware_poll).

 A harvest draws one seed word from the bit aggregator and hands it to the
 crypto accelerator's pseudo-random engine, which returns one 32-byte block.
 The accelerator is modelled as an arbitrary function from seed word to block;
 its register protocol and the completion wait are not part of this module.

 The poll fills a caller buffer of any length: whole blocks go straight into
 the buffer, and a final partial block is harvested into a temporary buffer of
 which only the missing bytes are copied.
 */
module EntropyPoll {
  import opened Samples
  import opened BiasCorrector
  import opened BitAggregator
  import opened EntropyInit

  /** Bytes in one engine output block (PRNG_KEY_SIZE, a 256-bit key). */
  const BLOCK_SIZE: nat := 32

  type byte = x: nat | x < 256

  type Block = b: seq<byte> | |b| == BLOCK_SIZE witness seq(32, _ => 0)

  /** The pseudo-random engine: seeded with a word, it yields one block. */
  type Prng = uint32 -> Block

  /** Result of one harvest: the block, the seed it came from, and the collector
      window and read position afterwards. */
  datatype HarvestStep = HarvestStep(block: Block, seed: uint32, win: Window, pos: nat)

  /** trng_get: one seed word from the aggregator, then the engine's block for it.
      The seed's bits, most significant first, are the next 32 corrector bits,
      and one full word of accepted readings is consumed. */
  function Harvest(w: Window, s: seq<Sample>, p: nat, prng: Prng): (r: HarvestStep)
    requires Valid(w) && |Accepted(s, p)| >= WORD_BITS
    ensures r.block == prng(r.seed)
    ensures UnpackMsbFirst(r.seed, WORD_BITS) == GenBits(w, s, p, WORD_BITS).bits
    ensures Valid(r.win) && r.win.oldest == w.oldest
    ensures |Accepted(s, r.pos)| == |Accepted(s, p)| - WORD_BITS
  {
    var g := GenRnd(w, s, p);
    HarvestStep(prng(g.word), g.word, g.win, g.pos)
  }

  /** Seeds of n harvests in a row, with the collector window and read position after them. */
  datatype Harvests = Harvests(seeds: seq<uint32>, win: Window, pos: nat)

  /** n harvests in a row, each seeded from the state the previous one left. */
  function HarvestMany(w: Window, s: seq<Sample>, p: nat, prng: Prng, n: nat): (r: Harvests)
    requires Valid(w) && |Accepted(s, p)| >= WORD_BITS * n
    ensures |r.seeds| == n
    ensures Valid(r.win) && r.win.oldest == w.oldest
    ensures |Accepted(s, r.pos)| == |Accepted(s, p)| - WORD_BITS * n
  {
    if n == 0 then Harvests([], w, p)
    else
      var q := HarvestMany(w, s, p, prng, n - 1);
      var h := Harvest(q.win, s, q.pos, prng);
      Harvests(q.seeds + [h.seed], h.win, h.pos)
  }

  /** One more harvest continues from the state the previous ones left. */
  lemma {:induction false} HarvestManySnoc(w: Window, s: seq<Sample>, p: nat, prng: Prng, n: nat)
    requires Valid(w) && |Accepted(s, p)| >= WORD_BITS * n
    requires |Accepted(s, HarvestMany(w, s, p, prng, n).pos)| >= WORD_BITS
    ensures |Accepted(s, p)| >= WORD_BITS * (n + 1)
    ensures var q := HarvestMany(w, s, p, prng, n);
      var h := Harvest(q.win, s, q.pos, prng);
      HarvestMany(w, s, p, prng, n + 1) == Harvests(q.seeds + [h.seed], h.win, h.pos)
  {
  }

  /** The engine's blocks for the given seeds, laid end to end in order. */
  function Blocks(prng: Prng, seeds: seq<uint32>): (out: seq<byte>)
    ensures |out| == BLOCK_SIZE * |seeds|
  {
    if |seeds| == 0 then [] else Blocks(prng, seeds[..|seeds| - 1]) + prng(seeds[|seeds| - 1])
  }

  /** Appending a seed appends its block. */
  lemma {:induction false} BlocksSnoc(prng: Prng, seeds: seq<uint32>, x: uint32)
    ensures Blocks(prng, seeds + [x]) == Blocks(prng, seeds) + prng(x)
  {
    assert (seeds + [x])[..|seeds|] == seeds;
  }

  /** Cutting the blocks of one more seed inside its block keeps the earlier
      blocks whole and takes the leading bytes of the new one. */
  lemma {:induction false} TailBytes(prng: Prng, seeds: seq<uint32>, x: uint32, m: nat, cut: nat)
    requires m <= BLOCK_SIZE && cut == |Blocks(prng, seeds)| + m
    ensures Blocks(prng, seeds + [x])[..cut] == Blocks(prng, seeds) + prng(x)[..m]
  {
    BlocksSnoc(prng, seeds, x);
  }

  /** Block j of the concatenation sits at bytes [32 j, 32 j + 32). */
  lemma {:induction false} BlocksAt(prng: Prng, seeds: seq<uint32>, j: nat)
    requires j < |seeds|
    ensures BLOCK_SIZE * j + BLOCK_SIZE <= |Blocks(prng, seeds)|
    ensures Blocks(prng, seeds)[BLOCK_SIZE * j..BLOCK_SIZE * j + BLOCK_SIZE] == prng(seeds[j])
  {
    var n := |seeds|;
    var front := seeds[..n - 1];
    assert Blocks(prng, seeds) == Blocks(prng, front) + prng(seeds[n - 1]);
    if j < n - 1 {
      BlocksAt(prng, front, j);
      assert front[j] == seeds[j];
    }
  }

  /** Number of harvests a poll of len bytes performs: one per whole block and
      one more for a partial tail. It is len / 32 rounded up: zero for len 0. */
  function HarvestCount(len: nat): (n: nat)
    ensures len <= BLOCK_SIZE * n
    ensures n > 0 ==> BLOCK_SIZE * (n - 1) < len
  {
    if len >= BLOCK_SIZE then 1 + HarvestCount(len - BLOCK_SIZE)
    else if len > 0 then 1
    else 0
  }

  /** The harvest count is the block count rounded up. */
  lemma HarvestCountIsCeiling(len: nat)
    ensures HarvestCount(len) == (len + BLOCK_SIZE - 1) / BLOCK_SIZE
  {
  }

  /** One whole block less to write means one harvest, and one word of readings, less. */
  lemma HarvestCountStep(r: nat)
    requires r >= BLOCK_SIZE
    ensures HarvestCount(r) == 1 + HarvestCount(r - BLOCK_SIZE)
    ensures WORD_BITS * HarvestCount(r) == WORD_BITS + WORD_BITS * HarvestCount(r - BLOCK_SIZE)
  {
  }

  /** Where the bytes of a poll come from: bytes [32 j, 32 j + 32) of the first len
      bytes of the concatenated blocks are block j whenever that block fits whole,
      and a partial last block contributes its leading bytes. */
  lemma {:induction false} PollLayout(prng: Prng, seeds: seq<uint32>, len: nat)
    requires |seeds| == HarvestCount(len)
    ensures |Blocks(prng, seeds)[..len]| == len
    ensures forall j :: 0 <= j < |seeds| && BLOCK_SIZE * j + BLOCK_SIZE <= len ==>
      Blocks(prng, seeds)[..len][BLOCK_SIZE * j..BLOCK_SIZE * j + BLOCK_SIZE] == prng(seeds[j])
    ensures 0 < |seeds| && len < BLOCK_SIZE * |seeds| ==>
      Blocks(prng, seeds)[..len][BLOCK_SIZE * (|seeds| - 1)..]
        == prng(seeds[|seeds| - 1])[..len - BLOCK_SIZE * (|seeds| - 1)]
  {
    var all := Blocks(prng, seeds);
    forall j | 0 <= j < |seeds| && BLOCK_SIZE * j + BLOCK_SIZE <= len
      ensures all[..len][BLOCK_SIZE * j..BLOCK_SIZE * j + BLOCK_SIZE] == prng(seeds[j])
    {
      BlocksAt(prng, seeds, j);
    }
    if 0 < |seeds| && len < BLOCK_SIZE * |seeds| {
      var last := |seeds| - 1;
      BlocksAt(prng, seeds, last);
      assert all[..len][BLOCK_SIZE * last..] == all[BLOCK_SIZE * last..BLOCK_SIZE * last + BLOCK_SIZE][..len - BLOCK_SIZE * last];
    }
  }

  /** The loop of the poll: while at least a whole block is missing, a harvest
      goes straight into the buffer. It stops with fewer than 32 bytes missing,
      having harvested once per whole block. */
  method FillBlocks(w0: Window, s: seq<Sample>, p0: nat, prng: Prng, len: nat)
    returns (out: seq<byte>, remaining: nat, seeds: seq<uint32>, w: Window, pos: nat)
    requires Valid(w0) && |Accepted(s, p0)| >= WORD_BITS * HarvestCount(len)
    ensures remaining < BLOCK_SIZE && |out| + remaining == len
    ensures |seeds| + HarvestCount(remaining) == HarvestCount(len)
    ensures |Accepted(s, pos)| >= WORD_BITS * HarvestCount(remaining)
    ensures var h := HarvestMany(w0, s, p0, prng, |seeds|);
      seeds == h.seeds && w == h.win && pos == h.pos
    ensures out == Blocks(prng, seeds)
  {
    w := w0;
    pos := p0;
    remaining := len;
    out := [];
    seeds := [];
    while remaining >= BLOCK_SIZE
      invariant |out| + remaining == len
      invariant |seeds| + HarvestCount(remaining) == HarvestCount(len)
      invariant |Accepted(s, pos)| >= WORD_BITS * HarvestCount(remaining)
      invariant var h := HarvestMany(w0, s, p0, prng, |seeds|);
        seeds == h.seeds && w == h.win && pos == h.pos
      invariant out == Blocks(prng, seeds)
      decreases remaining
    {
      HarvestCountStep(remaining);
      var step := Harvest(w, s, pos, prng);
      ghost var done := |seeds|;
      HarvestManySnoc(w0, s, p0, prng, done);
      BlocksSnoc(prng, seeds, step.seed);
      out := out + step.block;
      seeds := seeds + [step.seed];
      w := step.win;
      pos := step.pos;
      remaining := remaining - BLOCK_SIZE;
      assert |seeds| == done + 1;
    }
  }

  /** The poll from a given collector window and read position: the whole blocks,
      then a non-empty remainder harvested into a temporary block of which only
      the missing bytes are copied. */
  method FillBuffer(w0: Window, s: seq<Sample>, p0: nat, prng: Prng, len: nat)
    returns (out: seq<byte>, olen: nat, seeds: seq<uint32>, w: Window, pos: nat)
    requires Valid(w0) && |Accepted(s, p0)| >= WORD_BITS * HarvestCount(len)
    ensures olen == len && |seeds| == HarvestCount(len)
    ensures var h := HarvestMany(w0, s, p0, prng, |seeds|);
      seeds == h.seeds && w == h.win && pos == h.pos
    ensures out == Blocks(prng, seeds)[..len]
  {
    var remaining;
    out, remaining, seeds, w, pos := FillBlocks(w0, s, p0, prng, len);
    var curLength := |out|;
    if remaining > 0 {
      var tmp := Harvest(w, s, pos, prng);
      ghost var done := |seeds|;
      HarvestManySnoc(w0, s, p0, prng, done);
      TailBytes(prng, seeds, tmp.seed, remaining, len);
      out := out + tmp.block[..remaining];
      seeds := seeds + [tmp.seed];
      w := tmp.win;
      pos := tmp.pos;
      curLength := curLength + remaining;
      assert |seeds| == done + 1;
    }
    olen := curLength;
  }

  /** mbedtls_hardware_poll: always returns 0 and reports len bytes written. It
      initialises the collector if needed, then performs HarvestCount(len)
      harvests (none for len 0); whole blocks land unmodified at bytes
      [32 j, 32 j + 32), and a partial tail receives the leading bytes of the last block. */
  method Poll(c: Collector, s: seq<Sample>, p: nat, prng: Prng, len: nat)
    returns (ret: int, out: seq<byte>, olen: nat, seeds: seq<uint32>, c': Collector, pos: nat)
    requires Valid(c.win) && CanInit(c, s, p)
    requires |Accepted(s, Init(c, s, p).pos)| >= WORD_BITS * HarvestCount(len)
    ensures ret == 0 && olen == len && |out| == len
    ensures |seeds| == HarvestCount(len)
    ensures c'.initialized && Valid(c'.win)
    ensures forall j :: 0 <= j < |seeds| && BLOCK_SIZE * j + BLOCK_SIZE <= len ==>
      out[BLOCK_SIZE * j..BLOCK_SIZE * j + BLOCK_SIZE] == prng(seeds[j])
    ensures 0 < |seeds| && len < BLOCK_SIZE * |seeds| ==>
      out[BLOCK_SIZE * (|seeds| - 1)..] == prng(seeds[|seeds| - 1])[..len - BLOCK_SIZE * (|seeds| - 1)]
    ensures var i := Init(c, s, p); var h := HarvestMany(i.state.win, s, i.pos, prng, |seeds|);
      seeds == h.seeds && c'.win == h.win && pos == h.pos
  {
    var i := Init(c, s, p);
    var w;
    out, olen, seeds, w, pos := FillBuffer(i.state.win, s, i.pos, prng, len);
    c' := Collector(true, w);
    ret := 0;
    PollLayout(prng, seeds, len);
  }
}
