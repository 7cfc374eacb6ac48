/** Packing cells into the element lanes of a tile (src/fpga/Tile.cpp, src/fpga/Tile.h, utils/referable.h). */
module ElementPacking {
  import opened Common
  import opened ElementBits

  datatype CellKind = FdCell | CarryCell | Muxf8Cell | MuxCell | InvCell | Lut1Cell | Lut6Cell | OtherCell

  /** One position of a tile: a bit in the mask of an element type. */
  datatype Slot = Slot(element: ElementType, bit: int)

  datatype Element = Element(element: ElementType, bitmapPos: nat)

  const SPARSE_LOAD_MAX: nat := 50

  function TypeOf(kind: CellKind, cntInputs: int): ElementType {
    match kind
    case FdCell => Fd
    case CarryCell => Carry
    case Muxf8Cell => Muxf8
    case MuxCell => Muxf7
    case InvCell => Lut5
    case _ => if kind == Lut1Cell || cntInputs == 1 then Lut1 else Lut5
  }

  predicate IsLut(t: ElementType) {
    t == Lut5 || t == Lut1
  }

  function Paired(t: ElementType): ElementType {
    if t == Lut1 then Lut5 else Lut1
  }

  function SlotsOf(elements: seq<Element>): set<Slot> {
    set e | e in elements && e.bitmapPos < ELEMENT_BITMAP_BITS :: Slot(e.element, e.bitmapPos)
  }

  function Bits(mask: set<Slot>, t: ElementType): set<int> {
    set s | s in mask && s.element == t :: s.bit
  }

  /**
   What a cell takes at a lane: its own slot, and for a full six-input table the paired slot too, where there
   is one.
   */
  function Claims(slots: set<Slot>, t: ElementType, full: bool, bit: int): set<Slot> {
    if bit < 0 || bit >= ELEMENT_BITMAP_BITS then {}
    else if t == Lut5 && full && Slot(Lut1, bit) in slots then {Slot(t, bit), Slot(Lut1, bit)}
    else {Slot(t, bit)}
  }

  class Inst {
    const hasCell: bool
    const kind: CellKind
    const cntInputs: int
    var tile: Tile?
    var pos: int
    var coord: Coord

    constructor (hasCell: bool, kind: CellKind, cntInputs: int)
      ensures tile == null && this.hasCell == hasCell && this.kind == kind && this.cntInputs == cntInputs
    {
      this.hasCell, this.kind, this.cntInputs := hasCell, kind, cntInputs;
      tile, pos, coord := null, -1, Coord(-1, -1);
    }

    function Type(): ElementType {
      TypeOf(kind, cntInputs)
    }

    predicate Full() {
      kind == Lut6Cell || cntInputs >= 6
    }

    function Claimed(slots: set<Slot>): set<Slot>
      reads this`pos
    {
      if hasCell then Claims(slots, Type(), Full(), ElementBit(Type(), pos)) else {}
    }
  }

  /** The claims of all residents. */
  ghost function AllClaims(slots: set<Slot>, insts: seq<Inst>): set<Slot>
    reads insts`pos
  {
    if insts == [] then {} else AllClaims(slots, insts[..|insts| - 1]) + insts[|insts| - 1].Claimed(slots)
  }

  ghost predicate ClaimsDisjoint(slots: set<Slot>, insts: seq<Inst>)
    reads insts`pos
  {
    forall i, j :: 0 <= i < j < |insts| ==> insts[i].Claimed(slots) !! insts[j].Claimed(slots)
  }

  lemma {:induction false} ClaimedBySomeone(slots: set<Slot>, insts: seq<Inst>)
    ensures forall s :: s in AllClaims(slots, insts) <==> exists p :: p in insts && s in p.Claimed(slots)
  {
    if insts != [] {
      var front, last := insts[..|insts| - 1], insts[|insts| - 1];
      ClaimedBySomeone(slots, front);
      assert insts == front + [last];
    }
  }

  lemma ClaimsOfMore(slots: set<Slot>, insts: seq<Inst>, inst: Inst)
    ensures AllClaims(slots, insts + [inst]) == AllClaims(slots, insts) + inst.Claimed(slots)
  {
    assert (insts + [inst])[..|insts|] == insts;
  }

  lemma DisjointGrows(slots: set<Slot>, insts: seq<Inst>, inst: Inst)
    requires ClaimsDisjoint(slots, insts) && inst.Claimed(slots) !! AllClaims(slots, insts)
    ensures ClaimsDisjoint(slots, insts + [inst])
  {
    ClaimedBySomeone(slots, insts);
    var more := insts + [inst];
    forall i, j | 0 <= i < j < |more|
      ensures more[i].Claimed(slots) !! more[j].Claimed(slots)
    {
      if j == |insts| {
        assert more[i] in insts;
        assert more[i].Claimed(slots) <= AllClaims(slots, insts);
      }
    }
  }

  /** The list after the source's removal: the last entry moves to the freed place. */
  function SwapRemoved<T>(s: seq<T>, at: nat): seq<T>
    requires at < |s|
  {
    if at == |s| - 1 then s[..at] else s[at := s[|s| - 1]][..|s| - 1]
  }

  lemma SwapRemovedMembers<T>(s: seq<T>, at: nat)
    requires at < |s| && NoDup(s)
    ensures NoDup(SwapRemoved(s, at)) && forall x :: x in SwapRemoved(s, at) <==> x in s && x != s[at]
  {
    var t, last := SwapRemoved(s, at), |s| - 1;
    assert forall i :: 0 <= i < last ==> t[i] == if i == at then s[last] else s[i];
    forall x | x in s && x != s[at]
      ensures x in t
    {
      var i :| 0 <= i < |s| && s[i] == x;
      assert t[if i == last then at else i] == x;
    }
  }

  lemma DisjointShrinks(slots: set<Slot>, insts: seq<Inst>, at: nat)
    requires at < |insts| && ClaimsDisjoint(slots, insts)
    ensures ClaimsDisjoint(slots, SwapRemoved(insts, at))
  {
    var less, last := SwapRemoved(insts, at), |insts| - 1;
    forall i, j | 0 <= i < j < last
      ensures less[i].Claimed(slots) !! less[j].Claimed(slots)
    {
      var i', j' := if i == at then last else i, if j == at then last else j;
      assert less[i] == insts[i'] && less[j] == insts[j'] && i' != j';
    }
  }

  // ---------------------------------------------------------------------------
  // Counting.
  // ---------------------------------------------------------------------------

  lemma OneMoreBit(a: set<int>, bit: int)
    ensures |a + {bit}| <= |a| + 1
  {
    if bit in a {
      assert a + {bit} == a;
    }
  }

  // ---------------------------------------------------------------------------
  // The tile.
  // ---------------------------------------------------------------------------

  class Tile {
    const coord: Coord
    const sparse: bool
    const tileType: Option<seq<Element>>
    var elementsPos: set<Slot>
    var elementsFree: set<Slot>
    var elementsInitialized: bool
    var peers: seq<Inst>

    constructor (coord: Coord, sparse: bool, tileType: Option<seq<Element>>)
      ensures Valid() && peers == [] && !elementsInitialized
      ensures this.coord == coord && this.sparse == sparse && this.tileType == tileType
    {
      this.coord, this.sparse, this.tileType := coord, sparse, tileType;
      elementsPos, elementsFree, elementsInitialized, peers := {}, {}, false, [];
      new;
      assert Bits(Slots() * {}, Lut5) == {};
    }

    function Slots(): set<Slot> {
      if tileType.Some? then SlotsOf(tileType.value) else {}
    }

    /** The positions of one type that may be used: all, or half of them beside a sparse routing crossbar. */
    function PackingCapacity(positions: nat): nat {
      if sparse then positions * SPARSE_LOAD_MAX / 100 else positions
    }

    /** How many positions of a type the residents take. */
    ghost function Load(t: ElementType): nat
      reads this`peers, peers`pos
    {
      |Bits(Slots() * AllClaims(Slots(), peers), t)|
    }

    ghost predicate CanonicalLanes() {
      forall s :: s in Slots() ==> Canonical(s.element, s.bit)
    }

    ghost predicate WithinQuota()
      reads this`peers, peers`pos
    {
      sparse ==> forall t :: Load(t) <= PackingCapacity(|Bits(Slots(), t)|)
    }

    /** No two residents claim one slot, and a sparse tile is at most half full. */
    ghost predicate Settled()
      reads this`peers, peers`pos, peers`tile
    {
      NoDup(peers) && (forall p :: p in peers ==> p.tile == this) &&
      (CanonicalLanes() ==> ClaimsDisjoint(Slots(), peers)) && WithinQuota()
    }

    /** The masks, when they are marked valid, are what the residents leave free. */
    ghost predicate Valid()
      reads this, peers`pos, peers`tile
    {
      Settled() &&
      (elementsInitialized ==>
        tileType.Some? && elementsPos == Slots() && elementsFree == Slots() - AllClaims(Slots(), peers))
    }

    // -------------------------------------------------------------------------
    // The masks.
    // -------------------------------------------------------------------------

    method ReserveElementBit(t: ElementType, bit: int, full: bool)
      modifies this`elementsFree
      ensures elementsFree == old(elementsFree) - Claims(elementsPos, t, full, bit)
    {
      if bit < 0 || bit >= ELEMENT_BITMAP_BITS {
        return;
      }
      elementsFree := elementsFree - {Slot(t, bit)};
      if t == Lut5 && full && Slot(Lut1, bit) in elementsPos {
        elementsFree := elementsFree - {Slot(Lut1, bit)};
      }
    }

    /** Occupancy from scratch. */
    method RefreshOccupancy()
      modifies this`elementsFree
      ensures elementsFree == elementsPos - AllClaims(elementsPos, peers)
    {
      elementsFree := elementsPos;
      for i := 0 to |peers|
        invariant elementsFree == elementsPos - AllClaims(elementsPos, peers[..i])
      {
        var p := peers[i];
        assert peers[..i + 1] == peers[..i] + [p];
        ClaimsOfMore(elementsPos, peers[..i], p);
        if p.hasCell {
          ReserveElementBit(p.Type(), ElementBit(p.Type(), p.pos), p.Full());
        }
      }
      assert peers[..|peers|] == peers;
    }

    method EnsureElementState()
      requires Valid()
      modifies this`elementsPos, this`elementsFree, this`elementsInitialized
      ensures Valid() && (tileType.Some? ==> elementsInitialized)
      ensures old(elementsInitialized) ==>
                elementsInitialized && elementsPos == old(elementsPos) && elementsFree == old(elementsFree)
      ensures tileType == None ==> elementsFree == old(elementsFree)
    {
      if elementsInitialized || tileType == None {
        return;
      }
      elementsPos := {};
      for i := 0 to |tileType.value|
        invariant elementsPos == SlotsOf(tileType.value[..i])
      {
        var element := tileType.value[i];
        if element.bitmapPos < ELEMENT_BITMAP_BITS {
          elementsPos := elementsPos + {Slot(element.element, element.bitmapPos)};
        }
        OneMoreElement(tileType.value, i);
      }
      assert tileType.value[..|tileType.value|] == tileType.value;
      RefreshOccupancy();
      elementsInitialized := true;
    }

    /** The quota that is left, counting the claims of all residents. */
    ghost function FreeCount(t: ElementType): nat
      reads this`peers, peers`pos
    {
      var capacity := PackingCapacity(|Bits(Slots(), t)|);
      if tileType == None || capacity <= Load(t) then 0 else capacity - Load(t)
    }

    method FreeElementCount(t: ElementType) returns (count: nat)
      requires Valid()
      modifies this`elementsPos, this`elementsFree, this`elementsInitialized
      ensures Valid() && count == FreeCount(t) && (tileType.Some? ==> elementsInitialized)
      ensures old(elementsInitialized) ==>
                elementsInitialized && elementsPos == old(elementsPos) && elementsFree == old(elementsFree)
    {
      EnsureElementState();
      if !elementsInitialized {
        return 0;
      }
      var capacity := PackingCapacity(|Bits(elementsPos, t)|);
      assert elementsPos - elementsFree == Slots() * AllClaims(Slots(), peers);
      var used := |Bits(elementsPos - elementsFree, t)|;
      count := if capacity > used then capacity - used else 0;
    }

    // -------------------------------------------------------------------------
    // What a position accepts.
    // -------------------------------------------------------------------------

    /** The quota allows the cell here. */
    ghost predicate HostOk(inst: Inst, pos: int)
      reads this`peers, peers`pos, inst`tile, inst`pos
    {
      tileType.Some? &&
      (sparse && !(inst.tile == this && inst.pos == pos) ==>
        FreeCount(inst.Type()) > 0 && (TakesPair(inst, ElementBit(inst.Type(), pos)) ==> FreeCount(Lut1) > 0))
    }

    predicate TakesPair(inst: Inst, bit: int) {
      inst.Type() == Lut5 && inst.Full() && 0 <= bit < ELEMENT_BITMAP_BITS && Slot(Lut1, bit) in Slots()
    }

    /** Two tables may share a lane only if neither is a full six-input table. */
    ghost predicate OverlayOk(inst: Inst, bit: int)
      reads this`peers, peers`pos
    {
      IsLut(inst.Type()) && Slot(Paired(inst.Type()), bit) in Slots() * AllClaims(Slots(), peers) ==>
        var owner := OwnerAt(peers, Paired(inst.Type()), bit);
        owner.Some? && !inst.Full() && !owner.value.Full()
    }

    ghost predicate IsFree(t: ElementType, bit: int)
      reads this`peers, peers`pos
    {
      Slot(t, bit) in Slots() && Slot(t, bit) !in AllClaims(Slots(), peers)
    }

    /** A lane that the search may take: free, within quota, and compatible with the table beside it. */
    ghost predicate Candidate(inst: Inst, bit: nat)
      reads this`peers, peers`pos, inst`tile, inst`pos
    {
      IsFree(inst.Type(), bit) && HostOk(inst, PlacedPos(inst.Type(), bit)) && OverlayOk(inst, bit)
    }

    /** A position that may be asked for by number. */
    ghost predicate LegalAt(inst: Inst, pos: int)
      reads this`peers, peers`pos, inst`tile, inst`pos
    {
      var bit := ElementBit(inst.Type(), pos);
      bit >= 0 && IsFree(inst.Type(), bit) && HostOk(inst, pos) && OverlayOk(inst, bit)
    }

    /** The resident that owns a slot: of its type, or a full table that takes the paired slot. */
    method ElementInstAt(t: ElementType, bit: int) returns (owner: Option<Inst>)
      requires Valid()
      ensures owner == OwnerAt(peers, t, bit)
    {
      for i := 0 to |peers|
        invariant OwnerAt(peers, t, bit) == OwnerAt(peers[i..], t, bit)
      {
        var p := peers[i];
        assert peers[i..][0] == p && peers[i..][1..] == peers[i + 1..];
        if p.tile == this && p.hasCell && ElementBit(t, p.pos) == bit {
          if t == Lut1 && p.Type() == Lut5 && p.Full() {
            return Some(p);
          }
          if p.Type() == t {
            return Some(p);
          }
        }
      }
      assert peers[|peers|..] == [];
      return None;
    }

    method CanHost(inst: Inst, pos: int) returns (ok: bool)
      requires Valid() && elementsInitialized
      modifies this`elementsPos, this`elementsFree, this`elementsInitialized
      ensures Valid() && elementsInitialized && elementsPos == old(elementsPos) && elementsFree == old(elementsFree)
      ensures ok <==> HostOk(inst, pos)
    {
      if sparse && !(inst.tile == this && inst.pos == pos) {
        var own := FreeElementCount(inst.Type());
        if own == 0 {
          return false;
        }
        var bit := ElementBit(inst.Type(), pos);
        if inst.Type() == Lut5 && inst.Full() && bit >= 0 && bit < ELEMENT_BITMAP_BITS &&
          Slot(Lut1, bit) in elementsPos {
          var pairs := FreeElementCount(Lut1);
          if pairs == 0 {
            return false;
          }
        }
      }
      return true;
    }

    /** `veto` stands for the remaining rules about chains, clocks and input wires. */
    method NeighborsCompatible(inst: Inst, bit: int, veto: bool) returns (ok: bool)
      requires Valid() && elementsInitialized
      ensures ok <==> !veto && OverlayOk(inst, bit)
    {
      if veto {
        return false;
      }
      if IsLut(inst.Type()) {
        var paired := Paired(inst.Type());
        if Slot(paired, bit) in elementsPos && Slot(paired, bit) !in elementsFree {
          var owner := ElementInstAt(paired, bit);
          if owner == None {
            return false;
          }
          if inst.Full() || owner.value.Full() {
            return false;
          }
        }
      }
      return true;
    }

    /** The lowest lane that accepts the cell, as a position, or -1. */
    method TryElementPlacement(inst: Inst, veto: int -> bool) returns (pos: int)
      requires Valid() && inst.tile != this
      modifies this`elementsPos, this`elementsFree, this`elementsInitialized
      ensures Valid() && (pos >= 0 ==> elementsInitialized)
      ensures old(elementsInitialized) ==>
                elementsInitialized && elementsPos == old(elementsPos) && elementsFree == old(elementsFree)
      ensures IsFirst(inst, veto, pos)
    {
      EnsureElementState();
      if tileType == None || !elementsInitialized {
        return -1;
      }
      var t := inst.Type();
      if Bits(elementsFree, t) == {} {
        assert forall bit: nat :: IsFree(t, bit) ==> bit in Bits(elementsFree, t);
        return -1;
      }
      if sparse {
        var count := FreeElementCount(t);
        if count == 0 {
          return -1;
        }
      }
      pos := SearchLanes(inst, veto);
    }

    method SearchLanes(inst: Inst, veto: int -> bool) returns (pos: int)
      requires Valid() && elementsInitialized
      modifies this`elementsPos, this`elementsFree, this`elementsInitialized
      ensures Valid() && elementsInitialized && elementsPos == old(elementsPos) && elementsFree == old(elementsFree)
      ensures IsFirst(inst, veto, pos)
    {
      for bit := 0 to ELEMENT_BITMAP_BITS
        invariant Valid() && elementsInitialized && elementsPos == old(elementsPos) && elementsFree == old(elementsFree)
        invariant NoneBelow(inst, veto, bit)
      {
        var ok := TryLane(inst, bit, veto(bit));
        if ok {
          assert IsFirstLane(inst, veto, bit);
          return PlacedPos(inst.Type(), bit);
        }
      }
      return -1;
    }

    method TryLane(inst: Inst, bit: nat, veto: bool) returns (ok: bool)
      requires Valid() && elementsInitialized
      modifies this`elementsPos, this`elementsFree, this`elementsInitialized
      ensures Valid() && elementsInitialized && elementsPos == old(elementsPos) && elementsFree == old(elementsFree)
      ensures ok <==> Candidate(inst, bit) && !veto
    {
      if Slot(inst.Type(), bit) !in elementsFree {
        return false;
      }
      var host := CanHost(inst, PlacedPos(inst.Type(), bit));
      if !host {
        return false;
      }
      ok := NeighborsCompatible(inst, bit, veto);
    }

    ghost predicate NoneBelow(inst: Inst, veto: int -> bool, bound: nat)
      reads this`peers, peers`pos, inst`tile, inst`pos
    {
      forall b: nat :: b < bound && !veto(b) ==> !Candidate(inst, b)
    }

    /** The position of the first candidate that is not vetoed; -1 if there is none. */
    ghost predicate IsFirst(inst: Inst, veto: int -> bool, pos: int)
      reads this`peers, peers`pos, inst`tile, inst`pos
    {
      if pos < 0 then pos == -1 && NoneBelow(inst, veto, ELEMENT_BITMAP_BITS)
      else exists bit: nat :: IsFirstLane(inst, veto, bit) && pos == PlacedPos(inst.Type(), bit)
    }

    ghost predicate IsFirstLane(inst: Inst, veto: int -> bool, bit: nat)
      reads this`peers, peers`pos, inst`tile, inst`pos
    {
      bit < ELEMENT_BITMAP_BITS && Candidate(inst, bit) && !veto(bit) && NoneBelow(inst, veto, bit)
    }

    /** What the cell would claim at a position. */
    function ClaimsAt(inst: Inst, pos: int): set<Slot> {
      Claims(Slots(), inst.Type(), inst.Full(), ElementBit(inst.Type(), pos))
    }

    /** The cell becomes a resident and its claims are taken from the masks. */
    method Commit(inst: Inst, pos: int)
      requires Valid() && elementsInitialized && inst.tile == null && inst.hasCell
      requires HostOk(inst, pos) && (CanonicalLanes() ==> ClaimsAt(inst, pos) !! AllClaims(Slots(), peers))
      modifies this`elementsFree, this`elementsInitialized, this`peers, inst`pos, inst`coord, inst`tile
      ensures Valid() && elementsInitialized && elementsPos == old(elementsPos)
      ensures elementsFree == old(elementsFree) - ClaimsAt(inst, pos)
      ensures peers == old(peers) + [inst] && inst.tile == this && inst.pos == pos && inst.coord == coord
    {
      ghost var before := AllClaims(Slots(), peers);
      Assign(inst, pos);
      ReserveClaims(inst, before);
    }

    method ReserveClaims(inst: Inst, ghost before: set<Slot>)
      requires Settled() && tileType.Some? && elementsPos == Slots() && elementsFree == Slots() - before
      requires AllClaims(Slots(), peers) == before + ClaimsAt(inst, inst.pos)
      modifies this`elementsFree, this`elementsInitialized
      ensures Valid() && elementsInitialized && elementsFree == old(elementsFree) - ClaimsAt(inst, inst.pos)
    {
      ReserveElementBit(inst.Type(), ElementBit(inst.Type(), inst.pos), inst.Full());
      elementsInitialized := true;
    }

    method Assign(inst: Inst, pos: int)
      requires Valid() && inst.tile == null && inst.hasCell
      requires HostOk(inst, pos) && (CanonicalLanes() ==> ClaimsAt(inst, pos) !! AllClaims(Slots(), peers))
      modifies this`elementsInitialized, this`peers, inst`pos, inst`coord, inst`tile
      ensures Valid() && !elementsInitialized
      ensures peers == old(peers) + [inst] && inst.tile == this && inst.pos == pos && inst.coord == coord
      ensures AllClaims(Slots(), peers) == old(AllClaims(Slots(), peers)) + ClaimsAt(inst, pos)
    {
      ghost var residents, before := peers, AllClaims(Slots(), peers);
      QuotaAfter(inst, pos);
      inst.pos := pos;
      inst.coord := coord;
      inst.tile := this;
      peers := peers + [inst];
      elementsInitialized := false;
      OneMoreResident(residents, before, inst, pos);
    }

    /** A candidate of the search claims only what is free, where the lanes are canonical. */
    lemma CandidateIsFree(inst: Inst, bit: nat)
      requires Valid() && bit < ELEMENT_BITMAP_BITS && Candidate(inst, bit) && CanonicalLanes()
      ensures ClaimsAt(inst, PlacedPos(inst.Type(), bit)) !! AllClaims(Slots(), peers)
    {
      LaneRoundTrip(inst.Type(), bit);
      assert Slot(inst.Type(), bit) in Slots();
    }

    lemma LegalIsFree(inst: Inst, pos: int)
      requires Valid() && LegalAt(inst, pos)
      ensures ClaimsAt(inst, pos) !! AllClaims(Slots(), peers)
    {
    }

    /** Places the cell at the first lane that accepts it. */
    method TryAdd(inst: Inst, veto: int -> bool) returns (pos: int)
      requires Valid() && inst.tile == null
      modifies this`elementsPos, this`elementsFree, this`elementsInitialized, this`peers, inst`pos, inst`coord
      modifies inst`tile
      ensures Valid()
      ensures if inst.hasCell then old(IsFirst(inst, veto, pos)) else pos == -1
      ensures pos >= 0 ==>
                peers == old(peers) + [inst] && inst.tile == this && inst.pos == pos && inst.coord == coord &&
                  elementsInitialized
      ensures pos < 0 ==>
                peers == old(peers) && inst.tile == null && inst.pos == old(inst.pos) && inst.coord == old(inst.coord)
    {
      if !inst.hasCell {
        return -1;
      }
      pos := TryElementPlacement(inst, veto);
      if pos < 0 {
        return;
      }
      ghost var bit: nat :| IsFirstLane(inst, veto, bit) && pos == PlacedPos(inst.Type(), bit);
      if CanonicalLanes() {
        CandidateIsFree(inst, bit);
      }
      Commit(inst, pos);
    }

    /** The position that `TryAdd` would choose, without choosing it. */
    method PeekAdd(inst: Inst, veto: int -> bool) returns (pos: int)
      requires Valid()
      modifies this`elementsPos, this`elementsFree, this`elementsInitialized
      ensures Valid()
      ensures if inst.hasCell && inst.tile == null then IsFirst(inst, veto, pos) else pos == -1
    {
      if !inst.hasCell || inst.tile != null {
        return -1;
      }
      pos := TryElementPlacement(inst, veto);
    }

    method ElementPlacementAtLegal(inst: Inst, pos: int, veto: bool) returns (ok: bool)
      requires Valid()
      modifies this`elementsPos, this`elementsFree, this`elementsInitialized
      ensures Valid() && (ok ==> elementsInitialized) && (ok <==> LegalAt(inst, pos) && !veto)
      ensures old(elementsInitialized) ==>
                elementsInitialized && elementsPos == old(elementsPos) && elementsFree == old(elementsFree)
      ensures tileType == None ==> elementsFree == old(elementsFree)
    {
      EnsureElementState();
      var bit := ElementBit(inst.Type(), pos);
      if tileType == None || !elementsInitialized || bit < 0 || bit >= ELEMENT_BITMAP_BITS ||
         Slot(inst.Type(), bit) !in elementsPos || Slot(inst.Type(), bit) !in elementsFree {
        return false;
      }
      ok := NeighborsCompatible(inst, bit, veto);
      if ok {
        ok := CanHost(inst, pos);
      }
    }

    /** Places the cell at a chosen position, under the same rules. */
    method TryAddAt(inst: Inst, pos: int, veto: bool) returns (placed: int)
      requires Valid() && inst.tile == null
      modifies this`elementsPos, this`elementsFree, this`elementsInitialized, this`peers, inst`pos, inst`coord
      modifies inst`tile
      ensures Valid()
      ensures placed == if inst.hasCell && old(LegalAt(inst, pos)) && !veto then pos else -1
      ensures inst.hasCell && old(LegalAt(inst, pos)) && !veto ==>
                peers == old(peers) + [inst] && inst.tile == this && inst.pos == pos && inst.coord == coord &&
                  elementsInitialized
      ensures !(inst.hasCell && old(LegalAt(inst, pos)) && !veto) ==>
                peers == old(peers) && inst.tile == null && inst.pos == old(inst.pos) && inst.coord == old(inst.coord)
    {
      if !inst.hasCell {
        return -1;
      }
      var ok := ElementPlacementAtLegal(inst, pos, veto);
      if !ok {
        return -1;
      }
      LegalIsFree(inst, pos);
      Commit(inst, pos);
      return pos;
    }

    /** Removes the cell from the residents, as the source's back references do. */
    method Detach(inst: Inst)
      requires Settled() && inst in peers
      modifies this`peers, inst`tile
      ensures Settled() && inst.tile == null
      ensures exists at :: 0 <= at < |old(peers)| && old(peers)[at] == inst && peers == SwapRemoved(old(peers), at)
      ensures forall p :: p in peers <==> p in old(peers) && p != inst
    {
      var at := 0;
      while at < |peers| - 1 && peers[at] != inst
        invariant 0 <= at < |peers| && inst !in peers[..at]
      {
        assert peers[..at + 1] == peers[..at] + [peers[at]];
        at := at + 1;
      }
      assert at == |peers| - 1 ==> peers == peers[..at] + [peers[at]];
      OneResidentLess(at);
      peers := SwapRemoved(peers, at);
      inst.tile := null;
    }

    /** Takes the newest resident off the tile and puts back the mask that was remembered before it came. */
    method Withdraw(inst: Inst, freeBefore: set<Slot>)
      requires Valid() && elementsInitialized && peers != [] && peers[|peers| - 1] == inst
      requires freeBefore == Slots() - AllClaims(Slots(), peers[..|peers| - 1])
      modifies this`elementsFree, this`elementsInitialized, this`peers, inst`tile
      ensures Valid() && elementsInitialized && elementsFree == freeBefore && inst.tile == null
      ensures peers == old(peers)[..|old(peers)| - 1] && inst !in peers
    {
      ghost var front := peers[..|peers| - 1];
      Detach(inst);
      assert peers == front;
      elementsFree := freeBefore;
      elementsInitialized := true;
    }

    /** Takes a cell off the tile and refreshes the occupancy if it was known. */
    method Unassign(inst: Inst) returns (ok: bool)
      requires Valid() && (inst.tile == this ==> inst in peers)
      modifies this`elementsFree, this`elementsInitialized, this`peers, inst`pos, inst`tile
      ensures Valid() && elementsInitialized == old(elementsInitialized)
      ensures ok <==> old(inst.tile) == this && inst.hasCell
      ensures ok ==> inst.tile == null && inst.pos == -1 && forall p :: p in peers <==> p in old(peers) && p != inst
      ensures !ok ==>
                peers == old(peers) && inst.tile == old(inst.tile) && inst.pos == old(inst.pos) &&
                  elementsFree == old(elementsFree)
    {
      if inst.tile != this || !inst.hasCell {
        return false;
      }
      var hadElementState := elementsInitialized;
      Remove(inst);
      if hadElementState {
        RefreshOccupancy();
        elementsInitialized := true;
      }
      return true;
    }

    method Remove(inst: Inst)
      requires Valid() && inst in peers
      modifies this`elementsInitialized, this`peers, inst`pos, inst`tile
      ensures Settled() && !elementsInitialized && inst.tile == null && inst.pos == -1
      ensures forall p :: p in peers <==> p in old(peers) && p != inst
    {
      Detach(inst);
      inst.pos := -1;
      elementsInitialized := false;
    }

    /** With one resident less, claims stay disjoint and the load does not grow. */
    lemma OneResidentLess(at: nat)
      requires Settled() && at < |peers|
      ensures var less := SwapRemoved(peers, at);
              NoDup(less) && (forall p :: p in less <==> p in peers && p != peers[at]) &&
              (CanonicalLanes() ==> ClaimsDisjoint(Slots(), less)) &&
              (sparse ==>
                forall t :: |Bits(Slots() * AllClaims(Slots(), less), t)| <= PackingCapacity(|Bits(Slots(), t)|))
    {
      var less := SwapRemoved(peers, at);
      SwapRemovedMembers(peers, at);
      if CanonicalLanes() {
        DisjointShrinks(Slots(), peers, at);
      }
      ClaimedBySomeone(Slots(), less);
      ClaimedBySomeone(Slots(), peers);
      forall t | sparse
        ensures |Bits(Slots() * AllClaims(Slots(), less), t)| <= PackingCapacity(|Bits(Slots(), t)|)
      {
        SubsetSize(Bits(Slots() * AllClaims(Slots(), less), t), Bits(Slots() * AllClaims(Slots(), peers), t));
        assert Load(t) <= PackingCapacity(|Bits(Slots(), t)|);
      }
    }

    lemma OneMoreResident(residents: seq<Inst>, before: set<Slot>, inst: Inst, pos: int)
      requires NoDup(residents) && inst !in residents && (forall p :: p in residents ==> p.tile == this)
      requires peers == residents + [inst] && inst.hasCell && inst.pos == pos && inst.tile == this
      requires AllClaims(Slots(), residents) == before
      requires CanonicalLanes() ==> ClaimsDisjoint(Slots(), residents) && ClaimsAt(inst, pos) !! before
      requires sparse ==>
                 forall t :: |Bits(Slots() * (before + ClaimsAt(inst, pos)), t)| <= PackingCapacity(|Bits(Slots(), t)|)
      ensures NoDup(peers) && (forall p :: p in peers ==> p.tile == this)
      ensures AllClaims(Slots(), peers) == before + ClaimsAt(inst, pos)
      ensures (CanonicalLanes() ==> ClaimsDisjoint(Slots(), peers)) && WithinQuota()
    {
      ClaimsOfMore(Slots(), residents, inst);
      if CanonicalLanes() {
        DisjointGrows(Slots(), residents, inst);
      }
    }

    /** The quota still holds when the claims of an accepted cell are added. */
    lemma QuotaAfter(inst: Inst, pos: int)
      requires Valid() && inst.tile == null && HostOk(inst, pos)
      ensures sparse ==>
                forall t ::
                  |Bits(Slots() * (AllClaims(Slots(), peers) + ClaimsAt(inst, pos)), t)| <=
                    PackingCapacity(|Bits(Slots(), t)|)
    {
      var bit, claimed := ElementBit(inst.Type(), pos), AllClaims(Slots(), peers);
      forall t | sparse
        ensures |Bits(Slots() * (claimed + ClaimsAt(inst, pos)), t)| <= PackingCapacity(|Bits(Slots(), t)|)
      {
        if t == inst.Type() || (t == Lut1 && TakesPair(inst, bit)) {
          LoadGrows(Slots(), claimed, ClaimsAt(inst, pos), t, bit);
        } else {
          LoadStays(Slots(), claimed, ClaimsAt(inst, pos), t);
        }
      }
    }
  }

  /**
   The search takes a lane from the mask but claims the lane that its position decodes to.
   The two are the same exactly for canonical lanes, the only ones that loading makes.
   */
  lemma SearchClaimsItsLane(slots: set<Slot>, t: ElementType, full: bool, bit: nat)
    requires bit < ELEMENT_BITMAP_BITS
    ensures Slot(t, bit) in Claims(slots, t, full, ElementBit(t, PlacedPos(t, bit))) <==> Canonical(t, bit)
  {
    LaneRoundTrip(t, bit);
  }

  lemma LoadGrows(slots: set<Slot>, claimed: set<Slot>, extra: set<Slot>, t: ElementType, bit: int)
    requires forall s :: s in extra && s.element == t ==> s.bit == bit
    ensures |Bits(slots * (claimed + extra), t)| <= |Bits(slots * claimed, t)| + 1
  {
    var before, after := Bits(slots * claimed, t), Bits(slots * (claimed + extra), t);
    assert after <= before + {bit};
    SubsetSize(after, before + {bit});
    OneMoreBit(before, bit);
  }

  lemma LoadStays(slots: set<Slot>, claimed: set<Slot>, extra: set<Slot>, t: ElementType)
    requires forall s :: s in extra ==> s.element != t
    ensures Bits(slots * (claimed + extra), t) == Bits(slots * claimed, t)
  {
  }

  predicate Owns(p: Inst, t: ElementType, bit: int)
    reads p`pos
  {
    p.hasCell && ElementBit(t, p.pos) == bit && (p.Type() == t || (t == Lut1 && p.Type() == Lut5 && p.Full()))
  }

  ghost function OwnerAt(insts: seq<Inst>, t: ElementType, bit: int): Option<Inst>
    reads insts`pos
  {
    if insts == [] then None else if Owns(insts[0], t, bit) then Some(insts[0]) else OwnerAt(insts[1..], t, bit)
  }

  lemma {:induction false} OwnerIsFirst(insts: seq<Inst>, t: ElementType, bit: int, p: Inst)
    requires p in insts && Owns(p, t, bit)
    ensures OwnerAt(insts, t, bit).Some?
  {
    if !Owns(insts[0], t, bit) {
      assert insts == [insts[0]] + insts[1..];
      OwnerIsFirst(insts[1..], t, bit, p);
    }
  }

  /** A table slot that is not free always has an owner, so the lookup of a paired table cannot fail. */
  lemma ClaimedTableHasOwner(slots: set<Slot>, insts: seq<Inst>, t: ElementType, bit: int)
    requires IsLut(t) && Slot(t, bit) in AllClaims(slots, insts)
    ensures OwnerAt(insts, t, bit).Some?
  {
    ClaimedBySomeone(slots, insts);
    var p :| p in insts && Slot(t, bit) in p.Claimed(slots);
    assert ElementBit(Lut5, p.pos) == ElementBit(Lut1, p.pos);
    OwnerIsFirst(insts, t, bit, p);
  }

  function SlotsOfElement(e: Element): set<Slot> {
    if e.bitmapPos < ELEMENT_BITMAP_BITS then {Slot(e.element, e.bitmapPos)} else {}
  }

  lemma OneMoreElement(elements: seq<Element>, i: nat)
    requires i < |elements|
    ensures SlotsOf(elements[..i + 1]) ==
            SlotsOf(elements[..i]) + SlotsOfElement(elements[i])
  {
    assert elements[..i + 1] == elements[..i] + [elements[i]];
    var more := SlotsOf(elements[..i]) + SlotsOfElement(elements[i]);
    forall s
      ensures s in SlotsOf(elements[..i + 1]) <==> s in more
    {
    }
  }
}
