/** Optional values, for lookups that can miss. */
module Wrappers {
  datatype Option<T> = None | Some(value: T)
}

/**
 * The geometry of the Forward Multiplicity Detector as the sharing filter
 * sees it: three detectors FMD1..FMD3, an inner ring in each and an outer
 * ring in FMD2 and FMD3; inner rings have 20 sectors of 512 strips, outer
 * rings 40 sectors of 256 strips.
 */
module Geometry {
  import opened Wrappers

  datatype Ring = Inner | Outer

  /** A ring given as a character: 'I' or 'i' is the inner ring, anything else the outer one. */
  function RingOf(r: char): Ring
  {
    if r == 'I' || r == 'i' then Inner else Outer
  }

  /** The character the filter's own loops use for a ring. */
  function RingChar(ring: Ring): (r: char)
    ensures RingOf(r) == ring
  {
    if ring == Inner then 'I' else assert RingOf('O') == Outer; 'O'
  }

  function NumSectors(ring: Ring): nat
  {
    if ring == Inner then 20 else 40
  }

  function NumStrips(ring: Ring): nat
  {
    if ring == Inner then 512 else 256
  }

  /** Every ring holds the same number of strips. */
  const StripsPerRing: nat := 10240

  /** The rings in the order the filter's constructor creates their histogram containers. */
  const RingOrder: seq<(nat, Ring)> := [(1, Inner), (2, Inner), (2, Outer), (3, Inner), (3, Outer)]

  const TotalStrips: nat := 5 * StripsPerRing

  datatype StripAddress = StripAddress(det: nat, ring: Ring, sec: nat, str: nat)

  /** A ring that exists: FMD1 has only its inner ring. */
  predicate ValidRing(d: nat, ring: Ring)
  {
    1 <= d <= 3 && (d == 1 ==> ring == Inner)
  }

  predicate ValidStrip(a: StripAddress)
  {
    ValidRing(a.det, a.ring) && a.sec < NumSectors(a.ring) && a.str < NumStrips(a.ring)
  }

  /**
   * The index of the ring histogram container for detector d and ring r,
   * or None when d is not a detector number. FMD1 answers 0 whatever the ring.
   */
  function GetRingHistos(d: nat, r: char): (idx: Option<nat>)
    ensures idx.Some? <==> 1 <= d <= 3
    ensures idx.Some? ==> idx.value < |RingOrder| && RingOrder[idx.value].0 == d
    ensures idx.Some? && d != 1 ==> RingOrder[idx.value].1 == RingOf(r)
    ensures d == 1 ==> idx == Some(0)
  {
    var inner := r == 'I' || r == 'i';
    var i: int :=
      if d == 1 then 0
      else if d == 2 then 1 + (if inner then 0 else 1)
      else if d == 3 then 3 + (if inner then 0 else 1)
      else -1;
    if i < 0 || i >= |RingOrder| then None else Some(i)
  }

  /** Every ring created by the constructor is found again at its own position. */
  lemma RingHistosFollowConstructorOrder(i: nat)
    requires i < |RingOrder|
    ensures GetRingHistos(RingOrder[i].0, RingChar(RingOrder[i].1)) == Some(i)
    ensures ValidRing(RingOrder[i].0, RingOrder[i].1)
  {
  }

  /** The container index of an existing ring, as the filter looks it up. */
  function RingIndex(d: nat, ring: Ring): (i: nat)
    requires ValidRing(d, ring)
    ensures i < |RingOrder| && RingOrder[i] == (d, ring)
  {
    GetRingHistos(d, RingChar(ring)).value
  }

  /** The first output slot of sector s of a ring; sector after sector, ring after ring. */
  function SectorBase(d: nat, ring: Ring, s: nat): nat
    requires ValidRing(d, ring)
  {
    RingIndex(d, ring) * StripsPerRing + (if ring == Inner then s * 512 else s * 256)
  }

  /** The output slot of a strip. */
  function OutputIndex(a: StripAddress): (k: nat)
    requires ValidStrip(a)
    ensures SectorBase(a.det, a.ring, a.sec) <= k < SectorBase(a.det, a.ring, a.sec) + NumStrips(a.ring)
    ensures k < TotalStrips
  {
    SectorBase(a.det, a.ring, a.sec) + a.str
  }

  /** Sector s of the ring fits in the output, and whole sectors never overlap. */
  lemma SectorSlots(a: StripAddress, d: nat, ring: Ring, s: nat)
    requires ValidStrip(a) && ValidRing(d, ring) && s < NumSectors(ring)
    requires SectorBase(d, ring, s) <= OutputIndex(a) < SectorBase(d, ring, s) + NumStrips(ring)
    ensures a.det == d && a.ring == ring && a.sec == s
    ensures OutputIndex(a) == SectorBase(d, ring, s) + a.str
  {
    assert RingIndex(a.det, a.ring) == RingIndex(d, ring);
  }

  /** Distinct strips get distinct output slots. */
  lemma OutputIndexInjective(a: StripAddress, b: StripAddress)
    requires ValidStrip(a) && ValidStrip(b) && OutputIndex(a) == OutputIndex(b)
    ensures a == b
  {
    SectorSlots(a, b.det, b.ring, b.sec);
  }
}
