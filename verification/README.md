# FMD sharing filter, modelled in Dafny

This models the signal-sharing correction of the ALICE Forward Multiplicity Detector (FMD) analysis, `AliFMDSharingFilter`.
A charged particle crossing the silicon at an angle can deposit its energy in two or three neighbouring strips.
The filter walks every strip of every sector of every ring (FMD1 inner; FMD2 and FMD3 inner and outer).
It merges such shared signals back into one strip and leaves zero in the strips it consumed.
Strips marked dead, and strips with an invalid signal, are passed on as the invalid marker. The exception is an invalid signal on a strip not marked dead when the switch that reads invalid signals as empty is set: that strip outputs zero.

The project has four files:

- `geometry.dfy`: the detector geometry (rings, 20×512 inner and 40×256 outer sectors), the ring-container lookup `GetRingHistos`, and a flat output layout with one slot per strip.
- `signals.dfy`: strip signals (`Invalid | Val(real)`; the ESD's `kInvalidMult` is the `Invalid` constructor), angle correction, and `SignalInStrip`, which brings a signal into the convention the filter works in.
- `sharing_spec.dfy`: the per-sector merging state machine as functions. It carries the state `eTotal`, `used` and `twoLow`, and has two look-aheads and the back-write of a pending sum. `Run` is the reference semantics of one sector, and the lemmas state what the output of each strip is.
- `sharing_filter.dfy`: the filter object as a class. It holds the switches and the extra dead set, with `AddDead`, `AddDeadRegion` and `IsDead`. The imperative filter pass writes an output array in place, strip by strip, sector by sector and ring by ring. Each level is proved equal to the reference semantics.

The strip's incidence angle enters only through cos θ, which is an input. It lies in (0, 1] for every FMD strip, since θ is reduced into (−π/2, π/2) for negative pseudo-rapidity.
The low and high cuts at each strip's pseudo-rapidity are inputs as well.

Some behaviours of the code are kept as written, and the lemmas state them:

- A pending pair that is flushed because the next strip is empty or dead is written back as the sum as it stands (`AliFMDSharingFilter.cxx:470-471`). With angle correction off (`fCorrectAngles` false), every other emitted value is angle corrected at `:575-576`, but this one is not. With it on, the signals are already corrected and nothing differs.
- With a negative low cut, a pair can form with a zero or missing neighbour. At a sector's last strip, the deferred sum is then never emitted. Before an empty strip, it is written back as above.
- The look-aheads read the next strips' ESD signals even when those strips are in the extra dead set. Only the current strip is checked against the dead set.
- `twoLow` is cleared only by a triple or an empty strip, so it carries over from one pair into later clusters of the same sector.
- The cuts applied to the look-ahead strips are those at the current strip's pseudo-rapidity.

## Model

| member | source | states |
|---|---|---|
| Geometry.RingChar | PWGLF/FORWARD/analysis2/AliFMDSharingFilter.cxx:400 | the character the filter's loop uses for a ring ('I' or 'O') is read back, as at :235, as that same ring |
| Geometry.GetRingHistos | PWGLF/FORWARD/analysis2/AliFMDSharingFilter.cxx:204-225 | a container is found exactly for detectors 1..3; its index is below 5 and names that detector, and that detector's ring for FMD2/FMD3; FMD1 always answers index 0 |
| Geometry.RingHistosFollowConstructorOrder | PWGLF/FORWARD/analysis2/AliFMDSharingFilter.cxx:108-112 | each of the five rings the constructor adds is found again at its own position by the lookup |
| Signals.AngleCorrect | PWGLF/FORWARD/analysis2/AliFMDSharingFilter.cxx:666-682 | correction by cos θ keeps zero, keeps the sign, and never increases a non-negative signal |
| Signals.DeAngleCorrect | PWGLF/FORWARD/analysis2/AliFMDSharingFilter.cxx:684-700 | de-correction is the inverse of correction: correcting its result gives back the input |
| Signals.AngleCorrectionRoundTrip | PWGLF/FORWARD/analysis2/AliFMDSharingFilter.cxx:666-700 | correcting then de-correcting is the identity (the other order is `DeAngleCorrect`'s contract) |
| Signals.SignalInStrip | PWGLF/FORWARD/analysis2/AliFMDSharingFilter.cxx:602-638 | invalid stays invalid and only invalid is invalid; zero stays zero; a signal already in the asked-for convention is unchanged; otherwise it is corrected or de-corrected as asked, keeping its sign |
| SharingSpec.Merge | PWGLF/FORWARD/analysis2/AliFMDSharingFilter.cxx:482-565 | a live strip never writes back and never outputs the invalid marker; a pending sum is always consumed at the next live strip; a used strip with nothing pending outputs zero and clears the flag; a sum left pending comes with a zero output and without the used flag |
| SharingSpec.Run | PWGLF/FORWARD/analysis2/AliFMDSharingFilter.cxx:405-588 | one output per processed strip; the invalid marker appears exactly at the strips whose signal is invalid (and not read as empty) or which are dead, even after write-backs; a sum carried to the next strip always comes from a live strip and never together with the used flag |
| SharingSpec.Step | PWGLF/FORWARD/analysis2/AliFMDSharingFilter.cxx:454-477 | a strip's own output is the invalid marker exactly when its signal is invalid (and not read as empty) or it is dead; a pending sum is written back only when one is pending and the strip is not the first |
| SharingSpec.LaterStepsKeep | PWGLF/FORWARD/analysis2/AliFMDSharingFilter.cxx:470-471 | the back-write reaches only the previous strip: no step after strip t + 1 changes strip t's output |
| SharingSpec.OutputAt | PWGLF/FORWARD/analysis2/AliFMDSharingFilter.cxx:416-588 | a strip's final output is its own step's value, unless the next strip is empty with a sum pending, in which case it is that sum |
| SharingSpec.PendingIsNeverUsed | PWGLF/FORWARD/analysis2/AliFMDSharingFilter.cxx:503-557 | a pending sum and the used flag are never set together |
| SharingSpec.EmptyStripOutput | PWGLF/FORWARD/analysis2/AliFMDSharingFilter.cxx:460-477 | a zero, invalid or dead strip outputs the invalid marker (dead, or invalid not read as empty) or zero, and the next strip starts from the initial state, so nothing merges across it |
| SharingSpec.InvalidSignalOutput | PWGLF/FORWARD/analysis2/AliFMDSharingFilter.cxx:454-464 | an invalid signal outputs zero when invalid-is-empty is set and the strip is not dead, and the invalid marker otherwise |
| SharingSpec.DeadStripOutput | PWGLF/FORWARD/analysis2/AliFMDSharingFilter.cxx:457-464 | a strip in the dead set always outputs the invalid marker |
| SharingSpec.UsedStripOutput | PWGLF/FORWARD/analysis2/AliFMDSharingFilter.cxx:531 | a live strip consumed by the previous cluster, with no sum pending, outputs zero, and the next state differs only in the cleared used flag |
| SharingSpec.ImmediatePair | PWGLF/FORWARD/analysis2/AliFMDSharingFilter.cxx:538-552 | with no sum pending, a pair (both above the low cut, one below the high cut) whose first strip is larger and whose second look-ahead is below the low cut is emitted at once as the sum; the next state keeps the sum, marks the next strip used, and sets twoLow when both strips are below the high cut, keeping it otherwise |
| SharingSpec.PendingSumOutput | PWGLF/FORWARD/analysis2/AliFMDSharingFilter.cxx:503-526 | a live strip that finds a sum pending outputs that sum, not its own signal, extended by the next strip (then marked used) exactly when three-strip sharing is on and the next is above the low cut and below the high cut or twoLow is set; the pending sum is cleared, and twoLow is cleared by the triple and kept otherwise |
| SharingSpec.DeferredPair | PWGLF/FORWARD/analysis2/AliFMDSharingFilter.cxx:538-557 | otherwise the pair's sum is carried along with the updated twoLow, and the strip outputs zero. With a non-negative low cut there is always a next strip and the sum is positive. If the next strip is empty (for a non-zero neighbour: dead), the sum is written back at the first strip as it stands. If the next strip is live, it outputs the sum as PendingSumOutput states. At the sector's last strip the output stays zero and the sum is lost |
| SharingSpec.SingleStrip | PWGLF/FORWARD/analysis2/AliFMDSharingFilter.cxx:533-564 | with no sum pending, not used and no pair, a strip keeps its own (corrected) signal when above the low cut and outputs zero otherwise; the state is unchanged |
| SharingSpec.BelowLowCut | PWGLF/FORWARD/analysis2/AliFMDSharingFilter.cxx:534 | with no sum pending, a live strip at or below the low cut outputs zero |
| SharingSpec.NoTripleWithoutSharing | PWGLF/FORWARD/analysis2/AliFMDSharingFilter.cxx:422-426 | without three-strip sharing the second look-ahead reads zero, and a pending pair is emitted as it is without consuming the next strip (the test at :509) |
| SharingFilter.SharingFilter.constructor | PWGLF/FORWARD/analysis2/AliFMDSharingFilter.cxx:79-96 | angle correction off, three-strip sharing on, invalid-is-empty off, no dead strips |
| SharingFilter.SharingFilter.AddDead | PWGLF/FORWARD/analysis2/AliFMDSharingFilter.cxx:229-251 | an address outside the geometry (detector, FMD1 outer ring, sector, strip) changes nothing; otherwise exactly that address is added and then reads as dead; the ring is inner exactly for 'I' or 'i' and outer for any other character |
| SharingFilter.SharingFilter.AddDeadRow | PWGLF/FORWARD/analysis2/AliFMDSharingFilter.cxx:275-276 | the inner loop adds exactly the existing strips t1..t2 of sector s |
| SharingFilter.SharingFilter.AddDeadRegion | PWGLF/FORWARD/analysis2/AliFMDSharingFilter.cxx:269-276 | exactly the existing strips of the inclusive rectangle are added; a strip reads as dead afterwards exactly when it did before or lies in the rectangle |
| SharingFilter.SharingFilter.IsDead | PWGLF/FORWARD/analysis2/AliFMDSharingFilter.cxx:289-292 | only addresses of existing strips ever read as dead |
| SharingFilter.SharingFilter.ReadStrip | PWGLF/FORWARD/analysis2/AliFMDSharingFilter.cxx:421-464 | the strip's signal and its two look-aheads are those of the reference semantics: invalid read as zero when asked, dead made invalid, look-aheads zero past the end, on invalid, and (second) without three-strip sharing |
| SharingFilter.SharingFilter.MergeStrip | PWGLF/FORWARD/analysis2/AliFMDSharingFilter.cxx:482-565 | the branch taken on a live strip gives the same output and next state as the reference merge decision |
| SharingFilter.SharingFilter.FilterStrip | PWGLF/FORWARD/analysis2/AliFMDSharingFilter.cxx:416-588 | one pass of the strip loop writes the strip's output and the possible back-write to the previous strip as the reference step does, returns its next state, and touches no other slot |
| SharingFilter.SharingFilter.FilterSector | PWGLF/FORWARD/analysis2/AliFMDSharingFilter.cxx:405-589 | the sector's output slots hold exactly the reference output of the sector, and no other slot changes |
| SharingFilter.SharingFilter.FilterRingSector | PWGLF/FORWARD/analysis2/AliFMDSharingFilter.cxx:405-589 | one more sector of the ring holds its reference output, and every slot outside the ring's finished sectors keeps its value |
| SharingFilter.SharingFilter.FilterRing | PWGLF/FORWARD/analysis2/AliFMDSharingFilter.cxx:399-590 | every strip of the ring holds its sector's reference output, and every other strip's slot is unchanged |
| SharingFilter.SharingFilter.Filter | PWGLF/FORWARD/analysis2/AliFMDSharingFilter.cxx:371-598 | after the event, every strip of every ring holds the reference output of its sector, and the filter reports success |

## Left out

- Histogram filling (`fBefore`, `fAfter`, `fSum`, single/double/triple and neighbour histograms), the `RingHistos` class and the single/double/triple counters: these are diagnostics, not part of the output. `GetRingHistos` is modelled as the index of the container.
- `SetupForData`, `Terminate`, `CreateOutputObjects`, `Print`, the copy constructor, assignment, debug output and the `Warning` messages `AddDead` prints when it refuses a strip (`AliFMDSharingFilter.cxx:232-245`): set-up and reporting through the analysis framework.
- The `fRecalculateEta` branch (`AliFMDSharingFilter.cxx:433-446`): it calls `AliForwardUtil::GetEtaFromStrip`, which is not part of this model. The switch is off by default.
- Copying η into the output for sector 0 (`:431`) and clearing the output (`:388`): the model's output is one slot per strip and every slot is written.
- Signals.AngleCorrect: the trigonometry from η to cos θ is not modelled; cos θ is an input in (0, 1]. Floating-point rounding is not modelled either: values are exact reals, and the source's single-precision `Float_t` signals are not distinguished from its `Double_t` sums.
- `GetLowCut`/`GetHighCut`: they delegate to `AliFMDMultCuts`, which is not part of this model; the cuts are inputs per strip.
- `AddDead(const Char_t* script)` (`:280-285`): it runs a ROOT macro.
- `AliFMDStripIndex::Pack` and the `TBits` bit set: the dead set is a set of strip addresses. The ring character is normalised as the filter itself reads it ('I' or 'i' inner, anything else outer). `Pack` is not part of this model, so a ring character other than 'I', 'i' or 'O' may be encoded differently there.
- The placement of strips in `AliESDFMD` is not part of this model. The output is a flat array of 5 × 10240 slots, ring after ring in container order and sector after sector; this layout is a modelling device.
