/**
 The sample source of the M487 entropy collector: 12-bit band-gap readings
 from the analog-to-digital converter, and the acceptance band that the bias
 corrector applies before a reading may influence anything.

 The converter itself is not modelled; a run of the hardware is represented
 by the finite sequence of readings it would deliver, and the collector keeps
 a read position into it: every conversion consumes the reading at the
 position and moves it on by one.
 */
module Samples {

  /** Number of samples kept in the bias corrector's window (SNUM). */
  const SNUM: nat := 32

  /** Readings are masked to the converter's 12 result bits. */
  const ADC_MASK: nat := 0xFFF

  /** Acceptance band around the band-gap code (1.2 V / 3.3 V) * 4095 ~ 1489.09,
      plus and minus 50 codes, truncated to integers. Both ends are inclusive. */
  const BAND_LOWER: nat := 1439
  const BAND_UPPER: nat := 1539

  /** One converter reading after the 12-bit mask. */
  type Sample = x: nat | x <= ADC_MASK

  /** The band limits are the band-gap code computed in floating point, plus
      and minus 50, each truncated toward zero on conversion to int; both are
      positive, so truncation is the floor. */
  lemma BandLimits()
    ensures BAND_LOWER == ((1.2 / 3.3) * 4095.0 - 50.0).Floor
    ensures BAND_UPPER == ((1.2 / 3.3) * 4095.0 + 50.0).Floor
  {
  }

  /** The retry loop of the bias corrector keeps drawing while a reading is
      above the upper or below the lower limit. */
  predicate InBand(x: Sample) {
    BAND_LOWER <= x <= BAND_UPPER
  }

  /** The readings of s from position p on that the retry loop would accept,
      in stream order. */
  function Accepted(s: seq<Sample>, p: nat): seq<Sample>
    decreases |s| - p
  {
    if p >= |s| then []
    else if InBand(s[p]) then [s[p]] + Accepted(s, p + 1)
    else Accepted(s, p + 1)
  }

  /** Every accepted reading lies in the band. */
  lemma {:induction false} AcceptedInBand(s: seq<Sample>, p: nat)
    ensures forall k :: 0 <= k < |Accepted(s, p)| ==> InBand(Accepted(s, p)[k])
    decreases |s| - p
  {
    if p < |s| {
      AcceptedInBand(s, p + 1);
    }
  }

  /** Every in-band reading from p on is accepted: the band filter drops
      out-of-band readings and nothing else, so the accepted readings number
      exactly the in-band positions. */
  lemma {:induction false} AcceptedCountsInBand(s: seq<Sample>, p: nat)
    ensures |Accepted(s, p)| == |set k | p <= k < |s| && InBand(s[k])|
    decreases |s| - p
  {
    if p < |s| {
      AcceptedCountsInBand(s, p + 1);
      var later := set k | p + 1 <= k < |s| && InBand(s[k]);
      var here := set k | p <= k < |s| && InBand(s[k]);
      if InBand(s[p]) {
        assert here == later + {p};
      } else {
        assert here == later;
      }
    }
  }

  /** A stream yields no accepted reading from p exactly when every reading from
      p on is out of band: this is the stream on which the retry loop would spin forever. */
  lemma {:induction false} NothingAcceptedIffAllOutOfBand(s: seq<Sample>, p: nat)
    ensures |Accepted(s, p)| == 0 <==> forall k :: p <= k < |s| ==> !InBand(s[k])
    decreases |s| - p
  {
    if p < |s| {
      NothingAcceptedIffAllOutOfBand(s, p + 1);
    }
  }

  /** Position of the reading the retry loop stops at when started at p: an
      in-band one, holding the first accepted reading, with one accepted reading
      fewer remaining after it. */
  function NextInBand(s: seq<Sample>, p: nat): (i: nat)
    requires |Accepted(s, p)| > 0
    ensures p <= i < |s| && InBand(s[i])
    ensures Accepted(s, p)[0] == s[i]
    ensures |Accepted(s, i + 1)| == |Accepted(s, p)| - 1
    decreases |s| - p
  {
    if InBand(s[p]) then p else NextInBand(s, p + 1)
  }

  /** The retry loop stops at the first in-band reading: every reading it skips
      is out of band. */
  lemma {:induction false} NextInBandSkipsOutOfBand(s: seq<Sample>, p: nat)
    requires |Accepted(s, p)| > 0
    ensures forall j :: p <= j < NextInBand(s, p) ==> !InBand(s[j])
    decreases |s| - p
  {
    if !InBand(s[p]) {
      NextInBandSkipsOutOfBand(s, p + 1);
    }
  }

  /** The accepted readings after the stopping point are the remaining ones, in order. */
  lemma {:induction false} AcceptedAfterNext(s: seq<Sample>, p: nat)
    requires |Accepted(s, p)| > 0
    ensures Accepted(s, NextInBand(s, p) + 1) == Accepted(s, p)[1..]
    decreases |s| - p
  {
    if !InBand(s[p]) {
      AcceptedAfterNext(s, p + 1);
    }
  }
}
