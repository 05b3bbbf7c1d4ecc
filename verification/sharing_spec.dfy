/**
 * The strip-merging state machine of the sharing filter, for one sector,
 * as functions. Strips are scanned from first to last; between strips the
 * scan carries a pending two/three-strip sum (eTotal, -1 when none), a flag
 * that the current strip was consumed by the previous cluster (used), and a
 * flag that two consecutive strips lay between the cuts (twoLow). Each step
 * decides the output of its own strip and may write a pending sum back to
 * the strip before it.
 */
module SharingSpec {
  import opened Signals

  /**
   * The filter's switches: correctAngles (work on angle-corrected signals),
   * threeStripSharing, invalidIsEmpty (read an invalid ESD signal as zero),
   * and whether the ESD being filtered already holds angle-corrected values.
   */
  datatype Config = Config(
    correctAngles: bool,
    threeStripSharing: bool,
    invalidIsEmpty: bool,
    esdAngleCorrected: bool)

  /**
   * What the filter reads about one strip: its ESD signal, the cosine of its
   * incidence angle, whether it is in the extra dead set, and the low and high
   * cuts at its pseudo-rapidity.
   */
  datatype Strip = Strip(raw: Signal, cosTheta: AngleFactor, dead: bool, lowCut: real, highCut: real)

  datatype State = State(eTotal: real, used: bool, twoLow: bool)

  /** The state at the start of every sector. */
  const Start := State(-1.0, false, false)

  /**
   * One step: the value left in the strip's own output, whether the pending
   * sum is written back to the previous strip, and the state for the next strip.
   */
  datatype Outcome = Outcome(emit: Signal, flush: bool, after: State)

  /** The signal of strip t in the filter's angle convention. */
  function Mult(cfg: Config, strips: seq<Strip>, t: nat): Signal
    requires t < |strips|
  {
    SignalInStrip(strips[t].raw, strips[t].cosTheta, cfg.esdAngleCorrected, cfg.correctAngles)
  }

  /** A look-ahead signal: zero past the end of the sector or where the signal is invalid. */
  function Ahead(cfg: Config, strips: seq<Strip>, j: nat): real
  {
    if j < |strips| then
      match Mult(cfg, strips, j)
      case Invalid => 0.0
      case Val(v) => v
    else 0.0
  }

  /** The second look-ahead, which is zero when three-strip sharing is off. */
  function AheadTwo(cfg: Config, strips: seq<Strip>, t: nat): real
  {
    if cfg.threeStripSharing then Ahead(cfg, strips, t + 2) else 0.0
  }

  /** The strip's signal after reading invalid as empty (if asked) and marking dead strips invalid. */
  function Effective(cfg: Config, strips: seq<Strip>, t: nat): Signal
    requires t < |strips|
  {
    var m := Mult(cfg, strips, t);
    if strips[t].dead then Invalid
    else if m.Invalid? && cfg.invalidIsEmpty then Val(0.0)
    else m
  }

  /** A strip that holds nothing to merge: invalid, dead or zero. */
  predicate Empty(cfg: Config, strips: seq<Strip>, t: nat)
    requires t < |strips|
  {
    Effective(cfg, strips, t).Invalid? || Effective(cfg, strips, t) == Val(0.0)
  }

  /** The value written for a merged energy: angle corrected unless the filter already works on corrected signals. */
  function Emit(cfg: Config, e: real, c: AngleFactor): real
  {
    if cfg.correctAngles then e else AngleCorrect(e, c)
  }

  /** The two-strip pair condition: both above the low cut and at least one below the high cut. */
  predicate PairCond(m: real, next: real, s: Strip)
  {
    m > s.lowCut && next > s.lowCut && (m < s.highCut || next < s.highCut)
  }

  /** The condition for extending a pending pair with the next strip. */
  predicate TripleCond(cfg: Config, st: State, next: real, s: Strip)
  {
    cfg.threeStripSharing && next > s.lowCut && (next < s.highCut || st.twoLow)
  }

  /** One step on a strip with a non-zero, valid, live signal m. */
  function Merge(cfg: Config, st: State, m: real, next: real, nextNext: real, s: Strip): (o: Outcome)
    ensures !o.flush && o.emit.Val?
    ensures st.eTotal > 0.0 ==> o.after.eTotal < 0.0
    ensures st.eTotal <= 0.0 && st.used ==> o.emit == Val(0.0) && !o.after.used
    ensures o.after.eTotal > 0.0 ==> !o.after.used && o.emit == Val(0.0)
  {
    if st.eTotal > 0.0 then
      // a pair is pending: this strip emits it, extended by the next strip when that qualifies
      if TripleCond(cfg, st, next, s) then
        Outcome(Val(Emit(cfg, st.eTotal + next, s.cosTheta)), false, State(-1.0, true, false))
      else
        Outcome(Val(Emit(cfg, st.eTotal, s.cosTheta)), false, State(-1.0, false, st.twoLow))
    else if st.used then
      // consumed by the previous cluster
      Outcome(Val(0.0), false, st.(used := false))
    else if PairCond(m, next, s) then
      var twoLow := st.twoLow || (m < s.highCut && next < s.highCut);
      if m > next && nextNext < s.lowCut then
        Outcome(Val(Emit(cfg, m + next, s.cosTheta)), false, State(st.eTotal, true, twoLow))
      else
        Outcome(Val(Emit(cfg, 0.0, s.cosTheta)), false, State(m + next, st.used, twoLow))
    else
      Outcome(Val(Emit(cfg, if m > s.lowCut then m else 0.0, s.cosTheta)), false, st)
  }

  /** The step at strip t of a sector, from state st. */
  function Step(cfg: Config, st: State, strips: seq<Strip>, t: nat): (o: Outcome)
    requires t < |strips|
    ensures o.flush ==> t > 0 && st.eTotal > 0.0
    ensures o.emit.Invalid? <==> Effective(cfg, strips, t).Invalid?
    ensures o.after.eTotal > 0.0 ==> !Empty(cfg, strips, t)
  {
    var mult := Effective(cfg, strips, t);
    if Empty(cfg, strips, t) then
      Outcome(mult, st.eTotal > 0.0 && t > 0, Start)
    else
      Merge(cfg, st, mult.v, Ahead(cfg, strips, t + 1), AheadTwo(cfg, strips, t), strips[t])
  }

  /** The output of the first k strips after k steps, and the state carried to strip k. */
  function Run(cfg: Config, strips: seq<Strip>, k: nat): (r: (seq<Signal>, State))
    requires k <= |strips|
    ensures |r.0| == k
    ensures r.1.eTotal > 0.0 ==> k > 0 && !Empty(cfg, strips, k - 1) && !r.1.used
    ensures forall i :: 0 <= i < k ==> (r.0[i].Invalid? <==> Effective(cfg, strips, i).Invalid?)
  {
    if k == 0 then ([], Start)
    else
      var (out, st) := Run(cfg, strips, k - 1);
      var o := Step(cfg, st, strips, k - 1);
      var out' := if o.flush then out[k - 2 := Val(st.eTotal)] else out;
      (out' + [o.emit], o.after)
  }

  /** The filtered sector. */
  function SectorOutput(cfg: Config, strips: seq<Strip>): (out: seq<Signal>)
    ensures |out| == |strips|
  {
    Run(cfg, strips, |strips|).0
  }

  /** The state in which strip t is processed. */
  function Before(cfg: Config, strips: seq<Strip>, t: nat): State
    requires t <= |strips|
  {
    Run(cfg, strips, t).1
  }

  /** The step taken at strip t. */
  function At(cfg: Config, strips: seq<Strip>, t: nat): Outcome
    requires t < |strips|
  {
    Step(cfg, Before(cfg, strips, t), strips, t)
  }

  /** One more step of the run: strip t's own output appended, the pending sum possibly written back. */
  lemma RunNext(cfg: Config, strips: seq<Strip>, t: nat)
    requires t < |strips|
    ensures At(cfg, strips, t).flush ==> t > 0
    ensures Run(cfg, strips, t + 1).1 == At(cfg, strips, t).after
    ensures Run(cfg, strips, t + 1).0 ==
      (if At(cfg, strips, t).flush
       then Run(cfg, strips, t).0[t - 1 := Val(Before(cfg, strips, t).eTotal)]
       else Run(cfg, strips, t).0) + [At(cfg, strips, t).emit]
  {
  }

  /** The step at a live strip is the merge decision on its signal and look-aheads. */
  lemma StepLive(cfg: Config, st: State, strips: seq<Strip>, t: nat)
    requires t < |strips| && !Empty(cfg, strips, t)
    ensures Effective(cfg, strips, t).Val?
    ensures Step(cfg, st, strips, t) ==
      Merge(cfg, st, Effective(cfg, strips, t).v, Ahead(cfg, strips, t + 1), AheadTwo(cfg, strips, t), strips[t])
  {
  }

  /** The step at an empty strip leaves its signal, flushes a pending sum and restarts. */
  lemma StepEmpty(cfg: Config, st: State, strips: seq<Strip>, t: nat)
    requires t < |strips| && Empty(cfg, strips, t)
    ensures Step(cfg, st, strips, t) == Outcome(Effective(cfg, strips, t), st.eTotal > 0.0 && t > 0, Start)
  {
  }

  // ---------------------------------------------------------------------
  // Where the final output of a strip comes from

  /** Steps after t + 1 never touch the output of strip t. */
  lemma {:induction false} LaterStepsKeep(cfg: Config, strips: seq<Strip>, t: nat, k: nat)
    requires t + 2 <= k <= |strips|
    ensures Run(cfg, strips, k).0[t] == Run(cfg, strips, t + 2).0[t]
  {
    if k > t + 2 {
      LaterStepsKeep(cfg, strips, t, k - 1);
    }
  }

  /**
   * The output of strip t is what its own step left there, unless the next
   * step finds the strip after it empty and writes the pending sum back.
   */
  lemma OutputAt(cfg: Config, strips: seq<Strip>, t: nat)
    requires t < |strips|
    ensures SectorOutput(cfg, strips)[t] ==
      if t + 1 < |strips| && At(cfg, strips, t + 1).flush
      then Val(Before(cfg, strips, t + 1).eTotal)
      else At(cfg, strips, t).emit
  {
    var n := |strips|;
    assert Run(cfg, strips, t + 1).0[t] == At(cfg, strips, t).emit;
    if t + 1 < n {
      LaterStepsKeep(cfg, strips, t, n);
    }
  }

  /** A strip's output is left alone by the next step whenever no sum is pending after it. */
  lemma SettledAt(cfg: Config, strips: seq<Strip>, t: nat)
    requires t < |strips|
    requires Before(cfg, strips, t + 1).eTotal <= 0.0
    ensures SectorOutput(cfg, strips)[t] == At(cfg, strips, t).emit
  {
    OutputAt(cfg, strips, t);
  }

  /** A pending sum never coexists with a used flag. */
  lemma PendingIsNeverUsed(cfg: Config, strips: seq<Strip>, k: nat)
    requires k <= |strips|
    ensures Before(cfg, strips, k).eTotal > 0.0 ==> !Before(cfg, strips, k).used
  {
  }

  // ---------------------------------------------------------------------
  // The per-strip rules

  /**
   * An empty strip (zero, invalid or dead) outputs zero or the invalid
   * marker, and resets the state, so no cluster is merged across it.
   */
  lemma EmptyStripOutput(cfg: Config, strips: seq<Strip>, t: nat)
    requires t < |strips| && Empty(cfg, strips, t)
    ensures SectorOutput(cfg, strips)[t] ==
      if strips[t].dead || (Mult(cfg, strips, t).Invalid? && !cfg.invalidIsEmpty) then Invalid else Val(0.0)
    ensures Before(cfg, strips, t + 1) == Start
  {
    SettledAt(cfg, strips, t);
  }

  /**
   * An invalid signal is the invalid marker in the output, unless invalid is
   * read as empty and the strip is not dead, in which case it is zero.
   */
  lemma InvalidSignalOutput(cfg: Config, strips: seq<Strip>, t: nat)
    requires t < |strips| && Mult(cfg, strips, t).Invalid?
    ensures SectorOutput(cfg, strips)[t] ==
      if cfg.invalidIsEmpty && !strips[t].dead then Val(0.0) else Invalid
  {
    EmptyStripOutput(cfg, strips, t);
  }

  /** A dead strip always outputs the invalid marker. */
  lemma DeadStripOutput(cfg: Config, strips: seq<Strip>, t: nat)
    requires t < |strips| && strips[t].dead
    ensures SectorOutput(cfg, strips)[t] == Invalid
  {
    EmptyStripOutput(cfg, strips, t);
  }

  /** A live strip consumed by the previous cluster, with no sum pending, outputs zero and only clears the flag. */
  lemma UsedStripOutput(cfg: Config, strips: seq<Strip>, t: nat)
    requires t < |strips| && !Empty(cfg, strips, t)
    requires Before(cfg, strips, t).eTotal <= 0.0 && Before(cfg, strips, t).used
    ensures SectorOutput(cfg, strips)[t] == Val(0.0)
    ensures Before(cfg, strips, t + 1) == Before(cfg, strips, t).(used := false)
  {
    SettledAt(cfg, strips, t);
  }

  /**
   * Immediate two-strip merge: with no sum pending, a pair whose first strip
   * is the larger and whose second look-ahead is below the low cut is
   * emitted at once at the first strip, and the second is marked used;
   * twoLow is kept, and set when both strips are below the high cut.
   */
  lemma ImmediatePair(cfg: Config, strips: seq<Strip>, t: nat)
    requires t < |strips| && !Empty(cfg, strips, t)
    requires Before(cfg, strips, t).eTotal <= 0.0 && !Before(cfg, strips, t).used
    requires PairCond(Effective(cfg, strips, t).v, Ahead(cfg, strips, t + 1), strips[t])
    requires Effective(cfg, strips, t).v > Ahead(cfg, strips, t + 1)
    requires AheadTwo(cfg, strips, t) < strips[t].lowCut
    ensures SectorOutput(cfg, strips)[t] ==
      Val(Emit(cfg, Effective(cfg, strips, t).v + Ahead(cfg, strips, t + 1), strips[t].cosTheta))
    ensures Before(cfg, strips, t + 1) ==
      State(Before(cfg, strips, t).eTotal, true,
            Before(cfg, strips, t).twoLow ||
              (Effective(cfg, strips, t).v < strips[t].highCut && Ahead(cfg, strips, t + 1) < strips[t].highCut))
  {
    SettledAt(cfg, strips, t);
  }

  /**
   * A live strip that finds a pair sum pending outputs that sum, not its own
   * signal, extended by the next strip (which is then marked used) exactly
   * when the triple condition holds, and clears the pending sum. Only the
   * triple clears twoLow; a plain double keeps it.
   */
  lemma PendingSumOutput(cfg: Config, strips: seq<Strip>, t: nat)
    requires t < |strips| && !Empty(cfg, strips, t)
    requires Before(cfg, strips, t).eTotal > 0.0
    ensures SectorOutput(cfg, strips)[t] ==
      Val(Emit(cfg,
               Before(cfg, strips, t).eTotal +
                 (if TripleCond(cfg, Before(cfg, strips, t), Ahead(cfg, strips, t + 1), strips[t])
                  then Ahead(cfg, strips, t + 1) else 0.0),
               strips[t].cosTheta))
    ensures Before(cfg, strips, t + 1).used <==> TripleCond(cfg, Before(cfg, strips, t), Ahead(cfg, strips, t + 1), strips[t])
    ensures Before(cfg, strips, t + 1).eTotal < 0.0
    ensures Before(cfg, strips, t + 1).twoLow ==
      (!TripleCond(cfg, Before(cfg, strips, t), Ahead(cfg, strips, t + 1), strips[t]) && Before(cfg, strips, t).twoLow)
  {
    SettledAt(cfg, strips, t);
    var e := Before(cfg, strips, t).eTotal;
    if !TripleCond(cfg, Before(cfg, strips, t), Ahead(cfg, strips, t + 1), strips[t]) {
      assert e + 0.0 == e;
    }
  }

  /**
   * Deferred merge: when a pair forms but is not merged at once, its first
   * strip outputs zero and the sum is carried. The next strip, when live,
   * emits that sum (not its own signal), extended by the strip after it,
   * which is then marked used, when the triple condition holds. When the
   * next strip is empty (with a non-zero signal: dead) the carried sum is
   * written back at the first strip as it stands, not through Emit, so
   * without the angle correction Emit applies when correctAngles is off.
   * When the strip is the last of the sector the sum is never emitted.
   * With a non-negative low cut the next strip always exists, and it is
   * empty only when it is dead.
   */
  lemma DeferredPair(cfg: Config, strips: seq<Strip>, t: nat)
    requires t < |strips| && !Empty(cfg, strips, t)
    requires Before(cfg, strips, t).eTotal <= 0.0 && !Before(cfg, strips, t).used
    requires PairCond(Effective(cfg, strips, t).v, Ahead(cfg, strips, t + 1), strips[t])
    requires !(Effective(cfg, strips, t).v > Ahead(cfg, strips, t + 1) && AheadTwo(cfg, strips, t) < strips[t].lowCut)
    ensures Before(cfg, strips, t + 1).eTotal == Effective(cfg, strips, t).v + Ahead(cfg, strips, t + 1)
    ensures Before(cfg, strips, t + 1).twoLow ==
      (Before(cfg, strips, t).twoLow ||
       (Effective(cfg, strips, t).v < strips[t].highCut && Ahead(cfg, strips, t + 1) < strips[t].highCut))
    ensures strips[t].lowCut >= 0.0 ==> t + 1 < |strips| && Before(cfg, strips, t + 1).eTotal > 0.0
    ensures t + 1 == |strips| ==> SectorOutput(cfg, strips)[t] == Val(0.0)
    ensures t + 1 < |strips| && Ahead(cfg, strips, t + 1) != 0.0 ==> (Empty(cfg, strips, t + 1) <==> strips[t + 1].dead)
    ensures t + 1 < |strips| ==>
      SectorOutput(cfg, strips)[t] ==
        if Before(cfg, strips, t + 1).eTotal > 0.0 && Empty(cfg, strips, t + 1)
        then Val(Before(cfg, strips, t + 1).eTotal)
        else Val(0.0)
    ensures t + 1 < |strips| && Before(cfg, strips, t + 1).eTotal > 0.0 && !Empty(cfg, strips, t + 1) ==>
      SectorOutput(cfg, strips)[t + 1] ==
        Val(Emit(cfg,
                 Before(cfg, strips, t + 1).eTotal +
                   (if TripleCond(cfg, Before(cfg, strips, t + 1), Ahead(cfg, strips, t + 2), strips[t + 1])
                    then Ahead(cfg, strips, t + 2) else 0.0),
                 strips[t + 1].cosTheta)) &&
      (Before(cfg, strips, t + 2).used <==>
        TripleCond(cfg, Before(cfg, strips, t + 1), Ahead(cfg, strips, t + 2), strips[t + 1]))
  {
    OutputAt(cfg, strips, t);
    if t + 1 < |strips| {
      if Empty(cfg, strips, t + 1) {
        StepEmpty(cfg, Before(cfg, strips, t + 1), strips, t + 1);
      } else if Before(cfg, strips, t + 1).eTotal > 0.0 {
        StepLive(cfg, Before(cfg, strips, t + 1), strips, t + 1);
        PendingSumOutput(cfg, strips, t + 1);
      } else {
        StepLive(cfg, Before(cfg, strips, t + 1), strips, t + 1);
      }
    }
  }

  /**
   * A single: with no sum pending, not used and no pair formed, a strip
   * above the low cut keeps its own signal and one at or below it outputs zero.
   */
  lemma SingleStrip(cfg: Config, strips: seq<Strip>, t: nat)
    requires t < |strips| && !Empty(cfg, strips, t)
    requires Before(cfg, strips, t).eTotal <= 0.0 && !Before(cfg, strips, t).used
    requires !PairCond(Effective(cfg, strips, t).v, Ahead(cfg, strips, t + 1), strips[t])
    ensures SectorOutput(cfg, strips)[t] ==
      if Effective(cfg, strips, t).v > strips[t].lowCut
      then Val(Emit(cfg, Effective(cfg, strips, t).v, strips[t].cosTheta))
      else Val(0.0)
    ensures Before(cfg, strips, t + 1) == Before(cfg, strips, t)
  {
    SettledAt(cfg, strips, t);
  }

  /** With no sum pending, a live strip at or below the low cut outputs zero. */
  lemma BelowLowCut(cfg: Config, strips: seq<Strip>, t: nat)
    requires t < |strips| && !Empty(cfg, strips, t)
    requires Before(cfg, strips, t).eTotal <= 0.0
    requires Effective(cfg, strips, t).v <= strips[t].lowCut
    ensures SectorOutput(cfg, strips)[t] == Val(0.0)
  {
    if Before(cfg, strips, t).used {
      UsedStripOutput(cfg, strips, t);
    } else {
      SingleStrip(cfg, strips, t);
    }
  }

  /**
   * Without three-strip sharing a pending pair is emitted exactly as it is
   * and never consumes the strip after it; the second look-ahead reads zero.
   */
  lemma NoTripleWithoutSharing(cfg: Config, strips: seq<Strip>, t: nat)
    requires !cfg.threeStripSharing
    requires t < |strips| && !Empty(cfg, strips, t)
    requires Before(cfg, strips, t).eTotal > 0.0
    ensures SectorOutput(cfg, strips)[t] ==
      Val(Emit(cfg, Before(cfg, strips, t).eTotal, strips[t].cosTheta))
    ensures !Before(cfg, strips, t + 1).used
    ensures AheadTwo(cfg, strips, t) == 0.0
  {
    SettledAt(cfg, strips, t);
  }
}
