/** Element lanes and the placed positions that stand for them (src/fpga/Tile.cpp, src/fpga/Element.h). */
module ElementBits {

  datatype ElementType = Lut5 | Lut1 | Muxf7 | Muxf8 | Carry | Fd

  const ELEMENT_BITMAP_BITS: int := 16

  /** Division and remainder as the source language has them: they truncate toward zero. */
  function TruncatedDiv(a: int, b: int): int
    requires b > 0
  {
    if a >= 0 then a / b else -(-a / b)
  }

  function TruncatedRem(a: int, b: int): int
    requires b > 0
  {
    if a >= 0 then a % b else -(-a % b)
  }

  /** The position that a lane is placed at. */
  function PlacedPos(t: ElementType, bit: nat): nat {
    match t
    case Fd => bit / 8 * 128 + (if bit % 8 >= 4 then 64 else 0) + bit % 8 % 4 * 4
    case Carry => bit / 4 * 128 + 2
    case Muxf7 => bit / 4 * 128 + bit % 4 * 4 + 1
    case Muxf8 => bit / 4 * 128 + 1
    case _ => bit / 4 * 128 + bit % 4 * 4 + 3
  }

  function SiteIndex(pos: int): int {
    if pos >= 0 then pos / 128 else 0
  }

  function BelIndex(pos: int): int {
    TruncatedDiv(TruncatedRem(if pos >= 128 then pos % 128 else pos, 64), 4)
  }

  /** The source subtracts sites one by one. */
  method BelIndexFromPlacedPos(pos: int) returns (bel: int)
    ensures bel == BelIndex(pos)
  {
    var p := pos;
    ghost var sites := 0;
    while p >= 128
      invariant pos == p + 128 * sites && (pos < 128 ==> p == pos) && (pos >= 128 ==> p >= 0)
    {
      p := p - 128;
      sites := sites + 1;
    }
    WholeSites(pos, p, sites);
    bel := TruncatedDiv(TruncatedRem(p, 64), 4);
  }

  lemma WholeSites(pos: int, p: int, sites: int)
    requires pos == p + 128 * sites && p < 128 && (pos < 128 ==> p == pos) && (pos >= 128 ==> p >= 0)
    ensures p == if pos >= 128 then pos % 128 else pos
  {
  }

  /** The lane that a position decodes to, or -1. */
  function ElementBit(t: ElementType, pos: int): (bit: int)
    ensures -1 <= bit < ELEMENT_BITMAP_BITS
  {
    var site, bel := SiteIndex(pos), BelIndex(pos);
    if bel < 0 || bel > 3 then -1
    else if t == Fd then
      var bit := site * 8 + (if TruncatedRem(pos, 128) >= 64 then 4 else 0) + bel;
      if bit < ELEMENT_BITMAP_BITS then bit else -1
    else if site * 4 + bel >= ELEMENT_BITMAP_BITS then -1
    else
      var anchor := match t case Muxf8 => 0 case Carry => 0 case Muxf7 => if bel < 2 then 0 else 2 case _ => bel;
      site * 4 + anchor
  }

  /**
   The lanes that a loaded site has: every lane for tables and registers, but one carry and one wide mux a
   site, and two narrow muxes.
   */
  predicate Canonical(t: ElementType, bit: nat) {
    match t
    case Muxf7 => bit % 2 == 0
    case Muxf8 => bit % 4 == 0
    case Carry => bit % 4 == 0
    case _ => true
  }

  /** The canonical lane at or below a lane. */
  function Anchor(t: ElementType, bit: nat): int {
    match t
    case Muxf7 => bit - bit % 2
    case Muxf8 => bit - bit % 4
    case Carry => bit - bit % 4
    case _ => bit
  }

  /**
   Placing and decoding gives the lane back exactly for canonical lanes; any other lane is taken for the one
   below that is.
   */
  lemma LaneRoundTrip(t: ElementType, bit: nat)
    requires bit < ELEMENT_BITMAP_BITS
    ensures ElementBit(t, PlacedPos(t, bit)) == bit <==> Canonical(t, bit)
    ensures ElementBit(t, PlacedPos(t, bit)) == Anchor(t, bit)
  {
    AnchorIsCanonical(t, bit);
    if t == Fd {
      RegisterLane(bit, bit / 8, bit % 8);
    } else {
      LogicLane(t, bit, bit / 4, bit % 4);
    }
  }

  lemma AnchorIsCanonical(t: ElementType, bit: nat)
    ensures 0 <= Anchor(t, bit) <= bit && Canonical(t, Anchor(t, bit)) && (Anchor(t, bit) == bit <==> Canonical(t, bit))
  {
  }

  lemma DecodeParts(pos: int, site: nat, offset: nat)
    requires pos == site * 128 + offset && offset < 128
    ensures SiteIndex(pos) == site && BelIndex(pos) == offset % 64 / 4 && TruncatedRem(pos, 128) == offset
  {
    assert pos / 128 == site && pos % 128 == offset;
    if pos < 128 {
      assert site == 0;
    }
  }

  lemma RegisterLane(bit: nat, site: nat, lane: nat)
    requires bit < ELEMENT_BITMAP_BITS && bit == site * 8 + lane && lane < 8
    ensures ElementBit(Fd, PlacedPos(Fd, bit)) == bit
  {
    assert bit / 8 == site && bit % 8 == lane;
    var offset := (if lane >= 4 then 64 else 0) + lane % 4 * 4;
    DecodeParts(PlacedPos(Fd, bit), site, offset);
    assert offset % 64 / 4 == lane % 4 && (offset >= 64 <==> lane >= 4);
  }

  lemma LogicLane(t: ElementType, bit: nat, site: nat, bel: nat)
    requires bit < ELEMENT_BITMAP_BITS && t != Fd && bit == site * 4 + bel && bel < 4
    ensures ElementBit(t, PlacedPos(t, bit)) == Anchor(t, bit)
  {
    assert bit / 4 == site && bit % 4 == bel && bit % 2 == bel % 2;
    DecodeParts(PlacedPos(t, bit), site, PlacedPos(t, bit) - site * 128);
  }

  /** Positions below zero mean "not placed"; still, those that are just below a multiple of 64 decode to lane 0. */
  lemma UnplacedDecodes(t: ElementType, pos: int)
    requires pos < 0
    ensures ElementBit(t, pos) == if -pos % 64 < 4 then 0 else -1
  {
  }
}
