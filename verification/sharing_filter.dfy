/**
 * The sharing filter object: its switches, its set of extra dead strips,
 * and the in-place filter pass over every sector of every ring.
 */
module SharingFilter {
  import opened Geometry
  import opened Signals
  import opened SharingSpec

  /**
   * The input event: whether its signals are angle corrected, the signal of
   * each strip, and the cosine of each strip's incidence angle.
   */
  datatype Esd = Esd(angleCorrected: bool, mult: StripAddress -> Signal, cosTheta: StripAddress -> AngleFactor)

  /** The low and high cuts at the pseudo-rapidity of each strip. */
  datatype Cuts = Cuts(low: StripAddress -> real, high: StripAddress -> real)

  /** What the filter reads about the strips of sector s of ring (d, ring). */
  function SectorStrips(input: Esd, cuts: Cuts, dead: set<StripAddress>, d: nat, ring: Ring, s: nat): (strips: seq<Strip>)
    ensures |strips| == NumStrips(ring)
    ensures forall t: nat :: t < |strips| ==> (strips[t].dead <==> StripAddress(d, ring, s, t) in dead)
  {
    seq(NumStrips(ring), (t: nat) =>
      var a := StripAddress(d, ring, s, t);
      Strip(input.mult(a), input.cosTheta(a), a in dead, cuts.low(a), cuts.high(a)))
  }

  /** The addresses of the half-open rectangle [s1, s2) x [t1, t2) of ring r of detector d that exist. */
  function DeadRect(d: nat, r: char, s1: int, s2: int, t1: int, t2: int): (rect: set<StripAddress>)
    ensures forall a :: a in rect ==> ValidStrip(a) && a.det == d && a.ring == RingOf(r)
    ensures forall s: nat, t: nat :: StripAddress(d, RingOf(r), s, t) in rect <==>
      s1 <= s < s2 && t1 <= t < t2 && ValidStrip(StripAddress(d, RingOf(r), s, t))
  {
    set s: nat, t: nat | s1 <= s < s2 && t1 <= t < t2 && ValidStrip(StripAddress(d, RingOf(r), s, t))
      :: StripAddress(d, RingOf(r), s, t)
  }

  /** Marking strip (s, t) extends the partial row [t1, t) of sector s by one strip. */
  lemma DeadRowGrows(dead0: set<StripAddress>, d: nat, r: char, s: nat, t1: nat, t: nat,
                     before: set<StripAddress>, after: set<StripAddress>)
    requires t1 <= t
    requires before == dead0 + DeadRect(d, r, s, s + 1, t1, t)
    requires after == if ValidStrip(StripAddress(d, RingOf(r), s, t))
      then before + {StripAddress(d, RingOf(r), s, t)}
      else before
    ensures after == dead0 + DeadRect(d, r, s, s + 1, t1, t + 1)
  {
    assert DeadRect(d, r, s, s + 1, t1, t + 1) == DeadRect(d, r, s, s + 1, t1, t) +
      (if ValidStrip(StripAddress(d, RingOf(r), s, t)) then {StripAddress(d, RingOf(r), s, t)} else {});
  }

  /** Adding the row of sector s to the rectangle [s1, s) gives the rectangle [s1, s + 1). */
  lemma DeadRectExtends(dead0: set<StripAddress>, prev: set<StripAddress>, dead: set<StripAddress>,
                        d: nat, r: char, s1: nat, s: nat, t1: nat, t2: int)
    requires s1 <= s
    requires prev == dead0 + DeadRect(d, r, s1, s, t1, t2)
    requires dead == prev + DeadRect(d, r, s, s + 1, t1, t2)
    ensures dead == dead0 + DeadRect(d, r, s1, s + 1, t1, t2)
  {
    assert DeadRect(d, r, s1, s + 1, t1, t2) == DeadRect(d, r, s1, s, t1, t2) + DeadRect(d, r, s, s + 1, t1, t2);
  }

  /** Where a counting loop stops: at its bound, or at its start when the range is empty. */
  lemma DeadRectEnds(d: nat, r: char, s1: int, s: int, s2: int, t1: int, t: int, t2: int)
    requires s2 <= s && (s == s2 || (s == s1 && s1 >= s2))
    requires t2 <= t && (t == t2 || (t == t1 && t1 >= t2))
    ensures DeadRect(d, r, s1, s, t1, t) == DeadRect(d, r, s1, s2, t1, t2)
  {
  }

  /** Adding the rectangle [s1, s2) x [t1, t2) marks exactly its existing strips. */
  lemma DeadRectMarks(dead0: set<StripAddress>, dead: set<StripAddress>, d: nat, r: char, s1: int, s2: int, t1: int, t2: int)
    requires dead == dead0 + DeadRect(d, r, s1, s2, t1, t2)
    ensures forall s: nat, t: nat :: StripAddress(d, RingOf(r), s, t) in dead <==>
      StripAddress(d, RingOf(r), s, t) in dead0 || (s1 <= s < s2 && t1 <= t < t2 && ValidStrip(StripAddress(d, RingOf(r), s, t)))
  {
  }

  /** The filtered value of strip a is in its output slot. */
  ghost predicate Filtered(cfg: Config, dead: set<StripAddress>, input: Esd, cuts: Cuts, out: seq<Signal>, a: StripAddress)
    requires ValidStrip(a) && |out| == TotalStrips
  {
    out[OutputIndex(a)] == SectorOutput(cfg, SectorStrips(input, cuts, dead, a.det, a.ring, a.sec))[a.str]
  }

  /**
   * After the first s sectors of ring (d, ring): their strips hold their
   * filtered values and every other strip's slot is as in out0.
   */
  ghost predicate SectorsDone(cfg: Config, dead: set<StripAddress>, input: Esd, cuts: Cuts, d: nat, ring: Ring, s: nat,
                              out0: seq<Signal>, out: seq<Signal>)
  {
    |out0| == |out| == TotalStrips &&
    forall a :: ValidStrip(a) ==>
      if a.det == d && a.ring == ring && a.sec < s then Filtered(cfg, dead, input, cuts, out, a)
      else out[OutputIndex(a)] == out0[OutputIndex(a)]
  }

  /**
   * Filtering sector s of ring (d, ring) into its slots fills the slots of
   * that sector's strips and leaves the slot of every other strip alone.
   */
  lemma SectorFilled(cfg: Config, dead: set<StripAddress>, input: Esd, cuts: Cuts, d: nat, ring: Ring, s: nat,
                     out0: seq<Signal>, before: seq<Signal>, after: seq<Signal>)
    requires ValidRing(d, ring) && s < NumSectors(ring)
    requires SectorsDone(cfg, dead, input, cuts, d, ring, s, out0, before)
    requires |after| == TotalStrips
    requires after[SectorBase(d, ring, s)..SectorBase(d, ring, s) + NumStrips(ring)] ==
      SectorOutput(cfg, SectorStrips(input, cuts, dead, d, ring, s))
    requires forall k :: 0 <= k < |after| && !(SectorBase(d, ring, s) <= k < SectorBase(d, ring, s) + NumStrips(ring)) ==>
      after[k] == before[k]
    ensures SectorsDone(cfg, dead, input, cuts, d, ring, s + 1, out0, after)
  {
    var base := SectorBase(d, ring, s);
    forall a | ValidStrip(a)
      ensures if a.det == d && a.ring == ring && a.sec < s + 1 then Filtered(cfg, dead, input, cuts, after, a)
        else after[OutputIndex(a)] == out0[OutputIndex(a)]
    {
      if base <= OutputIndex(a) < base + NumStrips(ring) {
        SectorSlots(a, d, ring, s);
        assert after[OutputIndex(a)] == after[base..base + NumStrips(ring)][a.str];
      } else if a.det == d && a.ring == ring && a.sec == s {
        assert false;
      }
    }
  }

  /**
   * One strip of the sector pass, on the output as a sequence: writing the
   * strip's own value at base + t, and possibly the pending sum at the slot
   * before it, extends the sector's filtered prefix by one strip.
   */
  lemma SectorPrefixGrows(prev: seq<Signal>, cur: seq<Signal>, base: nat, t: nat,
                          run: seq<Signal>, emit: Signal, flush: bool, e: real)
    requires |prev| == |cur| && base + t < |cur|
    requires prev[base..base + t] == run
    requires flush ==> t > 0
    requires cur[base + t] == emit
    requires t > 0 ==> cur[base + t - 1] == (if flush then Val(e) else prev[base + t - 1])
    requires forall k :: 0 <= k < |cur| && k != base + t && !(t > 0 && k == base + t - 1) ==> cur[k] == prev[k]
    ensures cur[base..base + t + 1] == (if flush then run[t - 1 := Val(e)] else run) + [emit]
  {
    var want := (if flush then run[t - 1 := Val(e)] else run) + [emit];
    forall k | 0 <= k < t + 1
      ensures cur[base..base + t + 1][k] == want[k]
    {
      if k < t && !(k == t - 1) {
        assert prev[base..base + t][k] == prev[base + k];
      } else if k == t - 1 && !flush {
        assert prev[base..base + t][k] == prev[base + k];
      }
    }
  }

  /**
   * Whether the filter's detector-by-detector, inner-before-outer walk has
   * reached strip a before ring q of detector d.
   */
  predicate RingDone(a: StripAddress, d: nat, q: nat)
  {
    a.det < d || (a.det == d && (if a.ring == Inner then 0 else 1) < q)
  }

  /** Every strip the walk has passed before ring q of detector d holds its filtered value. */
  ghost predicate RingsDone(cfg: Config, dead: set<StripAddress>, input: Esd, cuts: Cuts, d: nat, q: nat, out: seq<Signal>)
  {
    |out| == TotalStrips &&
    forall a :: ValidStrip(a) && RingDone(a, d, q) ==> Filtered(cfg, dead, input, cuts, out, a)
  }

  /** Filtering ring q of detector d moves the walk on by one ring. */
  lemma RingFilled(cfg: Config, dead: set<StripAddress>, input: Esd, cuts: Cuts, d: nat, q: nat,
                   before: seq<Signal>, after: seq<Signal>)
    requires 1 <= d <= 3 && q < (if d == 1 then 1 else 2)
    requires RingsDone(cfg, dead, input, cuts, d, q, before)
    requires SectorsDone(cfg, dead, input, cuts, d, if q == 0 then Inner else Outer,
                         NumSectors(if q == 0 then Inner else Outer), before, after)
    ensures RingsDone(cfg, dead, input, cuts, d, q + 1, after)
  {
    var ring := if q == 0 then Inner else Outer;
    forall a | ValidStrip(a) && RingDone(a, d, q + 1)
      ensures Filtered(cfg, dead, input, cuts, after, a)
    {
      if !(a.det == d && a.ring == ring) {
        assert after[OutputIndex(a)] == before[OutputIndex(a)];
      }
    }
  }

  /** Once the walk has passed every ring of detector d, it has passed everything before detector d + 1. */
  lemma DetectorFilled(cfg: Config, dead: set<StripAddress>, input: Esd, cuts: Cuts, d: nat, out: seq<Signal>)
    requires 1 <= d <= 3
    requires RingsDone(cfg, dead, input, cuts, d, if d == 1 then 1 else 2, out)
    ensures RingsDone(cfg, dead, input, cuts, d + 1, 0, out)
  {
    forall a | ValidStrip(a) && RingDone(a, d + 1, 0)
      ensures Filtered(cfg, dead, input, cuts, out, a)
    {
      assert RingDone(a, d, if d == 1 then 1 else 2);
    }
  }

  class SharingFilter {
    var correctAngles: bool
    var threeStripSharing: bool
    var invalidIsEmpty: bool
    /** The extra dead strips. */
    var xtraDead: set<StripAddress>

    /** Only addresses of existing strips are ever marked dead. */
    ghost predicate Valid()
      reads this
    {
      forall a :: a in xtraDead ==> ValidStrip(a)
    }

    constructor ()
      ensures Valid()
      ensures !correctAngles && threeStripSharing && !invalidIsEmpty && xtraDead == {}
    {
      correctAngles := false;
      threeStripSharing := true;
      invalidIsEmpty := false;
      xtraDead := {};
    }

    /** The switches for filtering an ESD. */
    function Cfg(esdAngleCorrected: bool): Config
      reads this
    {
      Config(correctAngles, threeStripSharing, invalidIsEmpty, esdAngleCorrected)
    }

    /**
     * Marks strip t of sector s of ring r in detector d dead. Addresses
     * outside the geometry are refused and change nothing.
     */
    method AddDead(d: nat, r: char, s: nat, t: nat)
      requires Valid()
      modifies this`xtraDead
      ensures Valid()
      ensures xtraDead == if ValidStrip(StripAddress(d, RingOf(r), s, t))
        then old(xtraDead) + {StripAddress(d, RingOf(r), s, t)}
        else old(xtraDead)
      ensures IsDead(d, r, s, t) <==> ValidStrip(StripAddress(d, RingOf(r), s, t))
    {
      if d < 1 || d > 3 {
        return;
      }
      var inner := r == 'I' || r == 'i';
      if d == 1 && !inner {
        return;
      }
      if (inner && s >= 20) || (!inner && s >= 40) {
        return;
      }
      if (inner && t >= 512) || (!inner && t >= 256) {
        return;
      }
      xtraDead := xtraDead + {StripAddress(d, RingOf(r), s, t)};
    }

    /** Marks strips t1..t2 (inclusive) of sector s dead, through AddDead: the inner loop of AddDeadRegion. */
    method AddDeadRow(d: nat, r: char, s: nat, t1: nat, t2: nat)
      requires Valid()
      modifies this`xtraDead
      ensures Valid()
      ensures xtraDead == old(xtraDead) + DeadRect(d, r, s, s + 1, t1, t2 + 1)
    {
      ghost var dead0 := xtraDead;
      var t := t1;
      while t <= t2
        invariant Valid()
        invariant t1 <= t && (t <= t2 + 1 || t == t1)
        invariant xtraDead == dead0 + DeadRect(d, r, s, s + 1, t1, t)
      {
        ghost var before := xtraDead;
        AddDead(d, r, s, t);
        DeadRowGrows(dead0, d, r, s, t1, t, before, xtraDead);
        t := t + 1;
      }
      DeadRectEnds(d, r, s, s + 1, s + 1, t1, t, t2 + 1);
    }

    /** Marks every strip of the inclusive rectangle [s1, s2] x [t1, t2] dead, through AddDead. */
    method AddDeadRegion(d: nat, r: char, s1: nat, s2: nat, t1: nat, t2: nat)
      requires Valid()
      modifies this`xtraDead
      ensures Valid()
      ensures xtraDead == old(xtraDead) + DeadRect(d, r, s1, s2 + 1, t1, t2 + 1)
      ensures forall s: nat, t: nat :: IsDead(d, r, s, t) <==>
        old(IsDead(d, r, s, t)) || (s1 <= s <= s2 && t1 <= t <= t2 && ValidStrip(StripAddress(d, RingOf(r), s, t)))
    {
      ghost var dead0 := xtraDead;
      var s := s1;
      while s <= s2
        invariant Valid()
        invariant s1 <= s && (s <= s2 + 1 || s == s1)
        invariant xtraDead == dead0 + DeadRect(d, r, s1, s, t1, t2 + 1)
      {
        ghost var prev := xtraDead;
        AddDeadRow(d, r, s, t1, t2);
        DeadRectExtends(dead0, prev, xtraDead, d, r, s1, s, t1, t2 + 1);
        s := s + 1;
      }
      DeadRectEnds(d, r, s1, s, s2 + 1, t1, t2 + 1, t2 + 1);
      DeadRectMarks(dead0, xtraDead, d, r, s1, s2 + 1, t1, t2 + 1);
    }

    /** Whether strip t of sector s of ring r in detector d was marked dead. */
    function IsDead(d: nat, r: char, s: nat, t: nat): (dead: bool)
      reads this
      requires Valid()
      ensures dead ==> ValidStrip(StripAddress(d, RingOf(r), s, t))
    {
      StripAddress(d, RingOf(r), s, t) in xtraDead
    }

    /**
     * The decision for a strip with a live, non-zero signal m, given the
     * look-aheads next and nextNext: emit a pending pair (extended to three
     * strips when the next qualifies), skip a strip used by the previous
     * cluster, or start a pair or a single. skip means the strip's output
     * stays zero; otherwise etot is the energy it emits before angle correction.
     */
    method MergeStrip(ghost cfg: Config, m: real, next: real, nextNext: real, s: Strip,
                      eTotal0: real, used0: bool, twoLow0: bool)
      returns (skip: bool, etot: real, eTotal: real, used: bool, twoLow: bool)
      requires cfg.threeStripSharing == threeStripSharing && cfg.correctAngles == correctAngles
      ensures Merge(cfg, State(eTotal0, used0, twoLow0), m, next, nextNext, s) ==
        Outcome(if skip then Val(0.0) else Val(Emit(cfg, etot, s.cosTheta)), false, State(eTotal, used, twoLow))
    {
      eTotal, used, twoLow := eTotal0, used0, twoLow0;
      var low, high := s.lowCut, s.highCut;
      var thisValid := m > low;
      var nextValid := next > low;
      var thisSmall := m < high;
      var nextSmall := next < high;
      skip, etot := false, 0.0;

      if eTotal > 0.0 {
        // a pair is pending: extend it with the next strip if that qualifies
        if threeStripSharing && nextValid && (nextSmall || twoLow) {
          eTotal := eTotal + next;
          used := true;
          twoLow := false;
        } else {
          used := false;
        }
        etot := eTotal;
        eTotal := -1.0;
      } else {
        // consumed by the previous cluster
        if used {
          used := false;
          skip := true;
          return;
        }
        if thisValid {
          etot := m;
        }
        if thisValid && nextValid && (thisSmall || nextSmall) {
          if thisSmall && nextSmall {
            twoLow := true;
          }
          if m > next && nextNext < low {
            etot := m + next;
            used := true;
          } else {
            etot := 0.0;
            eTotal := m + next;
          }
        }
      }
    }

    /**
     * Reads strip t and its two look-aheads. mult is the strip's signal, read
     * as zero when invalid signals count as empty, and invalid when the strip
     * is invalid or dead; a look-ahead past the sector's end or on an invalid
     * signal reads zero, and the second one reads zero without three-strip sharing.
     */
    method ReadStrip(ghost cfg: Config, strips: seq<Strip>, esdAngleCorrected: bool, t: nat)
      returns (mult: Signal, multNext: real, multNextNext: real)
      requires cfg == Cfg(esdAngleCorrected)
      requires t < |strips|
      ensures mult == Effective(cfg, strips, t)
      ensures multNext == Ahead(cfg, strips, t + 1)
      ensures multNextNext == AheadTwo(cfg, strips, t)
    {
      var n := |strips|;
      mult := SignalInStrip(strips[t].raw, strips[t].cosTheta, esdAngleCorrected, correctAngles);
      var next := if t < n - 1 then SignalInStrip(strips[t + 1].raw, strips[t + 1].cosTheta, esdAngleCorrected, correctAngles) else Val(0.0);
      var nextNext := if t < n - 2 then SignalInStrip(strips[t + 2].raw, strips[t + 2].cosTheta, esdAngleCorrected, correctAngles) else Val(0.0);
      if next == Invalid { next := Val(0.0); }
      if nextNext == Invalid { nextNext := Val(0.0); }
      if !threeStripSharing { nextNext := Val(0.0); }
      multNext, multNextNext := next.v, nextNext.v;

      // an invalid signal from older reconstructions counts as empty when asked,
      // but a strip in the dead set stays invalid
      if mult == Invalid && invalidIsEmpty {
        mult := Val(0.0);
      }
      if mult == Invalid || strips[t].dead {
        mult := Invalid;
      }
    }

    /**
     * The work of the sector pass at strip t, from the state carried in
     * (eTotal0, used0, twoLow0): reads the strip and its two look-aheads,
     * writes the strip's output, possibly writes a pending sum back to
     * strip t - 1, and returns the state for strip t + 1.
     */
    method FilterStrip(ghost cfg: Config, strips: seq<Strip>, esdAngleCorrected: bool, t: nat,
                       out: array<Signal>, base: nat, eTotal0: real, used0: bool, twoLow0: bool)
      returns (eTotal: real, used: bool, twoLow: bool)
      requires cfg == Cfg(esdAngleCorrected)
      requires t < |strips| && base + |strips| <= out.Length
      modifies out
      ensures Step(cfg, State(eTotal0, used0, twoLow0), strips, t).after == State(eTotal, used, twoLow)
      ensures out[base + t] == Step(cfg, State(eTotal0, used0, twoLow0), strips, t).emit
      ensures t > 0 ==>
        out[base + t - 1] == (if Step(cfg, State(eTotal0, used0, twoLow0), strips, t).flush then Val(eTotal0) else old(out[base + t - 1]))
      ensures forall k :: 0 <= k < out.Length && k != base + t && !(t > 0 && k == base + t - 1) ==> out[k] == old(out[k])
    {
      ghost var st := State(eTotal0, used0, twoLow0);
      eTotal, used, twoLow := eTotal0, used0, twoLow0;
      out[base + t] := Val(0.0);
      var mult, multNext, multNextNext := ReadStrip(cfg, strips, esdAngleCorrected, t);
      if mult == Invalid {
        out[base + t] := Invalid;
      }

      // no signal or a dead strip: flush a pending sum and reset, so nothing merges across it
      if mult == Invalid || mult == Val(0.0) {
        StepEmpty(cfg, st, strips, t);
        if eTotal > 0.0 && t > 0 {
          out[base + t - 1] := Val(eTotal);
        }
        eTotal := -1.0;
        used := false;
        twoLow := false;
        return;
      }

      StepLive(cfg, st, strips, t);
      var skip, etot;
      skip, etot, eTotal, used, twoLow := MergeStrip(cfg, mult.v, multNext, multNextNext, strips[t], eTotal, used, twoLow);
      if skip {
        return;
      }

      var mergedEnergy := etot;
      if !correctAngles {
        mergedEnergy := AngleCorrect(mergedEnergy, strips[t].cosTheta);
      }
      out[base + t] := Val(mergedEnergy);
    }

    /**
     * Filters one sector, writing its outputs to out[base..base + |strips|]:
     * a single left-to-right pass with a look-ahead of two strips.
     */
    method FilterSector(strips: seq<Strip>, esdAngleCorrected: bool, out: array<Signal>, base: nat)
      requires base + |strips| <= out.Length
      modifies out
      ensures out[base..base + |strips|] == SectorOutput(Cfg(esdAngleCorrected), strips)
      ensures forall k :: 0 <= k < out.Length && !(base <= k < base + |strips|) ==> out[k] == old(out[k])
    {
      ghost var cfg := Cfg(esdAngleCorrected);
      // `used' flags that the current strip was consumed by the previous cluster
      var used := false;
      // `eTotal' holds the sum of a pair waiting for its third strip
      var eTotal := -1.0;
      // `twoLow' flags two consecutive strips between the cuts
      var twoLow := false;
      for t := 0 to |strips|
        invariant out[base..base + t] == Run(cfg, strips, t).0
        invariant State(eTotal, used, twoLow) == Run(cfg, strips, t).1
        invariant forall k :: 0 <= k < out.Length && !(base <= k < base + t) ==> out[k] == old(out[k])
      {
        RunNext(cfg, strips, t);
        ghost var prev := out[..];
        eTotal, used, twoLow := FilterStrip(cfg, strips, esdAngleCorrected, t, out, base, eTotal, used, twoLow);
        SectorPrefixGrows(prev, out[..], base, t, Run(cfg, strips, t).0, At(cfg, strips, t).emit,
                          At(cfg, strips, t).flush, Before(cfg, strips, t).eTotal);
      }
    }

    /** Filters sector s of ring (d, ring): one pass of the sector loop of FilterRing. */
    method FilterRingSector(input: Esd, cuts: Cuts, d: nat, ring: Ring, s: nat, output: array<Signal>,
                            ghost out0: seq<Signal>)
      requires ValidRing(d, ring) && s < NumSectors(ring) && output.Length == TotalStrips
      requires SectorsDone(Cfg(input.angleCorrected), xtraDead, input, cuts, d, ring, s, out0, output[..])
      modifies output
      ensures SectorsDone(Cfg(input.angleCorrected), xtraDead, input, cuts, d, ring, s + 1, out0, output[..])
    {
      var strips := SectorStrips(input, cuts, xtraDead, d, ring, s);
      var base := SectorBase(d, ring, s);
      ghost var before := output[..];
      FilterSector(strips, input.angleCorrected, output, base);
      SectorFilled(Cfg(input.angleCorrected), xtraDead, input, cuts, d, ring, s, out0, before, output[..]);
    }

    /** Filters every sector of ring (d, ring), sector after sector. */
    method FilterRing(input: Esd, cuts: Cuts, d: nat, ring: Ring, output: array<Signal>)
      requires ValidRing(d, ring) && output.Length == TotalStrips
      modifies output
      ensures SectorsDone(Cfg(input.angleCorrected), xtraDead, input, cuts, d, ring, NumSectors(ring), old(output[..]), output[..])
    {
      ghost var out0 := output[..];
      var nsec := if ring == Inner then 20 else 40;
      for s := 0 to nsec
        invariant SectorsDone(Cfg(input.angleCorrected), xtraDead, input, cuts, d, ring, s, out0, output[..])
      {
        FilterRingSector(input, cuts, d, ring, s, output, out0);
      }
    }

    /**
     * Filters a whole event into output, one slot per strip: every sector of
     * every ring, detector by detector, inner ring before outer ring.
     */
    method Filter(input: Esd, cuts: Cuts, output: array<Signal>) returns (ok: bool)
      requires output.Length == TotalStrips
      modifies output
      ensures ok
      ensures forall a :: ValidStrip(a) ==> Filtered(Cfg(input.angleCorrected), xtraDead, input, cuts, output[..], a)
    {
      ghost var cfg := Cfg(input.angleCorrected);
      for d := 1 to 4
        invariant RingsDone(cfg, xtraDead, input, cuts, d, 0, output[..])
      {
        var nRings := if d == 1 then 1 else 2;
        for q := 0 to nRings
          invariant RingsDone(cfg, xtraDead, input, cuts, d, q, output[..])
        {
          var r := if q == 0 then 'I' else 'O';
          ghost var before := output[..];
          FilterRing(input, cuts, d, RingOf(r), output);
          RingFilled(cfg, xtraDead, input, cuts, d, q, before, output[..]);
        }
        DetectorFilled(cfg, xtraDead, input, cuts, d, output[..]);
      }
      ok := true;
    }
  }
}
