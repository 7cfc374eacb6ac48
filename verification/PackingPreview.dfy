/** Trial packing that can be taken back (src/fpga/Tile.cpp, src/fpga/Element.h). */
module PackingPreview {
  import opened Common
  import opened ElementBits
  import opened ElementPacking

  datatype Placement = Placement(tile: Tile?, pos: int, coord: Coord)

  datatype Reservation = Reservation(inst: Inst, original: Placement, freeBefore: set<Slot>, pos: int)

  datatype Choice = Choice(inst: Inst, pos: int)

  /** All that a preview may change: the free mask, the residents, and where each cell of interest is. */
  datatype Snapshot = Snapshot(free: set<Slot>, residents: seq<Inst>, placed: map<Inst, Placement>)

  function PlacementOf(inst: Inst): Placement
    reads inst`tile, inst`pos, inst`coord
  {
    Placement(inst.tile, inst.pos, inst.coord)
  }

  /** `after` is `before` with one more reservation. */
  ghost predicate Reserves(before: Snapshot, r: Reservation, after: Snapshot) {
    r.inst in before.placed && before.placed[r.inst] == r.original && r.original.tile == null &&
      before.free == r.freeBefore &&
    after.residents == before.residents + [r.inst] &&
    after.placed.Keys == before.placed.Keys && forall p :: p in before.placed && p != r.inst ==>
      after.placed[p] == before.placed[p]
  }

  /** Each state is followed by the next one through one reservation. */
  ghost predicate IsRecord(states: seq<Snapshot>, reservations: seq<Reservation>) {
    |states| == |reservations| + 1 && forall k :: 0 <= k < |reservations| ==> StepAt(states, reservations, k)
  }

  ghost predicate StepAt(states: seq<Snapshot>, reservations: seq<Reservation>, k: nat)
    requires k < |reservations| < |states|
  {
    Reserves(states[k], reservations[k], states[k + 1])
  }

  lemma RecordGrows(states: seq<Snapshot>, reservations: seq<Reservation>, r: Reservation, after: Snapshot)
    requires IsRecord(states, reservations) && Reserves(states[|reservations|], r, after)
    ensures IsRecord(states + [after], reservations + [r])
  {
    var longer, stack := states + [after], reservations + [r];
    forall k | 0 <= k < |stack|
      ensures StepAt(longer, stack, k)
    {
      assert k < |reservations| ==> StepAt(states, reservations, k);
    }
  }

  lemma RecordShrinks(states: seq<Snapshot>, reservations: seq<Reservation>)
    requires IsRecord(states, reservations) && reservations != []
    ensures var n := |reservations| - 1;
            IsRecord(states[..n + 1], reservations[..n]) && Reserves(states[n], reservations[n], states[n + 1])
  {
    var n := |reservations| - 1;
    assert StepAt(states, reservations, n);
    var shorter, stack := states[..n + 1], reservations[..n];
    forall k | 0 <= k < n
      ensures StepAt(shorter, stack, k)
    {
      assert StepAt(states, reservations, k);
    }
  }

  /** The reserved cells are the last residents, and each reservation remembers what was free before it. */
  ghost predicate Stacked(slots: set<Slot>, residents: seq<Inst>, reservations: seq<Reservation>)
    reads residents`pos
  {
    |reservations| <= |residents| &&
    forall k {:trigger PlaceOf(residents, reservations, k)} :: 0 <= k < |reservations| ==>
      OnStack(slots, residents, reservations[k], PlaceOf(residents, reservations, k))
  }

  ghost function PlaceOf(residents: seq<Inst>, reservations: seq<Reservation>, k: nat): nat
    requires k < |reservations| <= |residents|
  {
    |residents| - |reservations| + k
  }

  ghost predicate OnStack(slots: set<Slot>, residents: seq<Inst>, r: Reservation, n: nat)
    reads residents`pos
  {
    n < |residents| && residents[n] == r.inst && r.freeBefore == slots - AllClaims(slots, residents[..n])
  }

  lemma StackGrows(slots: set<Slot>, residents: seq<Inst>, reservations: seq<Reservation>, r: Reservation)
    requires Stacked(slots, residents, reservations) && r.freeBefore == slots - AllClaims(slots, residents)
    ensures Stacked(slots, residents + [r.inst], reservations + [r])
  {
    var more, stack := residents + [r.inst], reservations + [r];
    forall k | 0 <= k < |stack|
      ensures OnStack(slots, more, stack[k], PlaceOf(more, stack, k))
    {
      var n := PlaceOf(more, stack, k);
      if k < |reservations| {
        assert OnStack(slots, residents, reservations[k], PlaceOf(residents, reservations, k));
      }
      assert more[..n] == residents[..n];
      assert residents[..|residents|] == residents;
    }
  }

  lemma StackShrinks(slots: set<Slot>, residents: seq<Inst>, reservations: seq<Reservation>)
    requires Stacked(slots, residents, reservations) && reservations != []
    ensures var n, k := |residents| - 1, |reservations| - 1;
            OnStack(slots, residents, reservations[k], n) && Stacked(slots, residents[..n], reservations[..k])
  {
    var n, last := |residents| - 1, |reservations| - 1;
    assert OnStack(slots, residents, reservations[last], PlaceOf(residents, reservations, last));
    forall k | 0 <= k < last
      ensures OnStack(slots, residents[..n], reservations[..last][k], PlaceOf(residents[..n], reservations[..last], k))
    {
      assert OnStack(slots, residents, reservations[k], PlaceOf(residents, reservations, k));
      assert residents[..n][..n - last + k] == residents[..n - last + k];
    }
  }

  /** One reservation more on the stack. */
  ghost predicate Extends(stack: seq<Reservation>, states: seq<Snapshot>, more: seq<Reservation>,
                          longer: seq<Snapshot>, inst: Inst, pos: int)
  {
    |more| == |stack| + 1 && |longer| == |states| + 1 && more[..|stack|] == stack && longer[..|states|] == states &&
    more[|stack|].inst == inst && more[|stack|].pos == pos
  }

  lemma PrefixOfPrefix<T>(s: seq<T>, n: nat)
    requires 0 < n <= |s|
    ensures s[..n][..n - 1] == s[..n - 1] && s[..n][n - 1] == s[n - 1]
  {
  }

  /** The position of the lowest of these lanes; -1 if there is none. */
  ghost predicate IsLowest(open: set<nat>, t: ElementType, pos: int) {
    if pos < 0 then pos == -1 && open == {}
    else exists bit :: bit in open && pos == PlacedPos(t, bit) && NoLaneBelow(open, bit)
  }

  ghost predicate NoLaneBelow(open: set<nat>, bit: nat) {
    forall b :: b in open ==> bit <= b
  }

  lemma LaneIsLowest(open: set<nat>, t: ElementType, bit: nat)
    requires bit in open && NoLaneBelow(open, bit)
    ensures IsLowest(open, t, PlacedPos(t, bit))
  {
  }

  lemma NoLaneBelowNext(open: set<nat>, bit: nat)
    requires NoLaneBelow(open, bit) && bit !in open
    ensures NoLaneBelow(open, bit + 1)
  {
  }

  lemma NoLane(open: set<nat>, t: ElementType)
    requires NoLaneBelow(open, ELEMENT_BITMAP_BITS) && forall b :: b in open ==> b < ELEMENT_BITMAP_BITS
    ensures IsLowest(open, t, -1)
  {
  }

  class Preview {
    const tile: Tile
    ghost const cells: set<Inst>                // the cells that the preview may be asked about
    const originalPos: set<Slot>
    const originalFree: set<Slot>
    const originalInitialized: bool
    var reservations: seq<Reservation>
    ghost var states: seq<Snapshot>             // the states in which the stack got each depth, up to now

    /** The snapshot is what the tile and the cells hold. */
    ghost predicate Matches(s: Snapshot)
      reads tile`elementsFree, tile`peers, cells`tile, cells`pos, cells`coord
    {
      s.free == tile.elementsFree && s.residents == tile.peers && s.placed.Keys == cells &&
      forall p :: p in cells ==> s.placed[p] == PlacementOf(p)
    }

    /** The tile and the cells are in this state, with these reservations as the newest residents. */
    ghost predicate Holds(stack: seq<Reservation>, s: Snapshot)
      reads tile, tile.peers`pos, tile.peers`tile, cells`tile, cells`pos, cells`coord
    {
      tile.Valid() && (tile.tileType.Some? ==> tile.elementsInitialized) && (stack != [] ==> tile.tileType.Some?) &&
      Stacked(tile.Slots(), tile.peers, stack) && Matches(s)
    }

    ghost predicate Valid()
      reads this`reservations, this`states, tile, tile.peers`pos, tile.peers`tile, cells`tile, cells`pos, cells`coord
    {
      IsRecord(states, reservations) && Holds(reservations, states[|reservations|]) &&
      (originalInitialized ==> tile.tileType.Some? && originalPos == tile.Slots() && originalFree == states[0].free)
    }

    constructor (tile: Tile, ghost cells: set<Inst>)
      requires tile.Valid()
      modifies tile`elementsPos, tile`elementsFree, tile`elementsInitialized
      ensures Valid() && this.tile == tile && this.cells == cells && reservations == []
      ensures originalPos == old(tile.elementsPos) && originalFree == old(tile.elementsFree)
      ensures originalInitialized == old(tile.elementsInitialized)
      ensures Matches(Snapshot(tile.elementsFree, old(tile.peers), old(map p | p in cells :: PlacementOf(p))))
    {
      this.tile, this.cells := tile, cells;
      originalPos, originalFree, originalInitialized := tile.elementsPos, tile.elementsFree, tile.elementsInitialized;
      reservations, states := [], [];
      new;
      tile.EnsureElementState();
      states := [Snapshot(tile.elementsFree, tile.peers, map p | p in cells :: PlacementOf(p))];
    }

    ghost predicate Allowed(inst: Inst, pos: int, veto: bool)
      reads tile`peers, tile.peers`pos, inst`tile, inst`pos
    {
      inst.hasCell && inst.tile == null && tile.LegalAt(inst, pos) && !veto
    }

    /** Reserves a chosen position, or changes nothing. */
    method ReserveAt(inst: Inst, pos: int, veto: bool) returns (placed: int)
      requires Valid() && inst in cells
      modifies this`reservations, this`states
      modifies tile`elementsPos, tile`elementsFree, tile`elementsInitialized, tile`peers, inst`pos, inst`coord
      modifies inst`tile
      ensures Valid() && placed == if old(Allowed(inst, pos, veto)) then pos else -1
      ensures old(Allowed(inst, pos, veto)) ==>
                Extends(old(reservations), old(states), reservations, states, inst, pos) && Placed(inst, pos)
      ensures !old(Allowed(inst, pos, veto)) ==>
                states == old(states) && reservations == old(reservations) &&
                tile.peers == old(tile.peers) && PlacementOf(inst) == old(PlacementOf(inst))
    {
      if !inst.hasCell || inst.tile != null {
        return -1;
      }
      var ok := tile.ElementPlacementAtLegal(inst, pos, veto);
      if !ok {
        return -1;
      }
      Push(inst, pos);
      return pos;
    }

    ghost predicate Placed(inst: Inst, pos: int)
      reads inst`tile, inst`pos, inst`coord
    {
      inst.tile == tile && inst.pos == pos && inst.coord == tile.coord
    }

    method Push(inst: Inst, pos: int)
      requires Valid() && inst in cells && tile.elementsInitialized && Allowed(inst, pos, false)
      modifies this`reservations, this`states
      modifies tile`elementsFree, tile`elementsInitialized, tile`peers, inst`pos, inst`coord, inst`tile
      ensures Valid() && Extends(old(reservations), old(states), reservations, states, inst, pos) && Placed(inst, pos)
    {
      var reservation;
      ghost var after;
      reservation, after := PutOn(inst, pos, states[|reservations|], reservations);
      RecordGrows(states, reservations, reservation, after);
      reservations, states := reservations + [reservation], states + [after];
    }

    /** The cell is placed on the tile; the reservation remembers what it changes. */
    method PutOn(inst: Inst, pos: int, ghost before: Snapshot, ghost stack: seq<Reservation>)
      returns (r: Reservation, ghost after: Snapshot)
      requires Holds(stack, before) && tile.elementsInitialized && inst in cells && Allowed(inst, pos, false)
      modifies tile`elementsFree, tile`elementsInitialized, tile`peers, inst`pos, inst`coord, inst`tile
      ensures Holds(stack + [r], after) && Reserves(before, r, after) && Placed(inst, pos) && r.inst == inst
      ensures r.pos == pos
    {
      r := Reservation(inst, PlacementOf(inst), tile.elementsFree, pos);
      tile.LegalIsFree(inst, pos);
      tile.Commit(inst, pos);
      after := Snapshot(tile.elementsFree, tile.peers, before.placed[inst := PlacementOf(inst)]);
      StackGrows(tile.Slots(), before.residents, stack, r);
    }

    /** The lanes that are free and whose position `ReserveAt` accepts. */
    ghost function OpenLanes(inst: Inst, veto: int -> bool): (lanes: set<nat>)
      reads tile`peers, tile.peers`pos, inst`tile, inst`pos
      ensures forall b :: b in lanes ==> b < ELEMENT_BITMAP_BITS
    {
      set b: nat | b < ELEMENT_BITMAP_BITS && tile.IsFree(inst.Type(), b) &&
        Allowed(inst, PlacedPos(inst.Type(), b), veto(b))
    }

    /** Reserves the lowest lane that accepts the cell. */
    method Reserve(inst: Inst, veto: int -> bool) returns (pos: int)
      requires Valid() && inst in cells
      modifies this`reservations, this`states
      modifies tile`elementsPos, tile`elementsFree, tile`elementsInitialized, tile`peers, inst`pos, inst`coord
      modifies inst`tile
      ensures Valid() && IsLowest(old(OpenLanes(inst, veto)), inst.Type(), pos)
      ensures pos >= 0 ==> Extends(old(reservations), old(states), reservations, states, inst, pos) && Placed(inst, pos)
      ensures pos < 0 ==> states == old(states) && reservations == old(reservations)
    {
      if !inst.hasCell || inst.tile != null {
        assert OpenLanes(inst, veto) == {};
        return -1;
      }
      EnsureMasks();
      pos := ReserveFirstLane(inst, veto);
    }

    method EnsureMasks()
      requires Valid()
      modifies tile`elementsPos, tile`elementsFree, tile`elementsInitialized
      ensures Valid()
    {
      tile.EnsureElementState();
    }

    method ReserveFirstLane(inst: Inst, veto: int -> bool) returns (pos: int)
      requires Valid() && inst in cells
      modifies this`reservations, this`states
      modifies tile`elementsPos, tile`elementsFree, tile`elementsInitialized, tile`peers, inst`pos, inst`coord
      modifies inst`tile
      ensures Valid() && IsLowest(old(OpenLanes(inst, veto)), inst.Type(), pos)
      ensures pos >= 0 ==> Extends(old(reservations), old(states), reservations, states, inst, pos) && Placed(inst, pos)
      ensures pos < 0 ==> states == old(states) && reservations == old(reservations)
    {
      ghost var open := OpenLanes(inst, veto);
      for bit := 0 to ELEMENT_BITMAP_BITS
        invariant Valid() && states == old(states) && reservations == old(reservations)
        invariant OpenLanes(inst, veto) == open && NoLaneBelow(open, bit)
      {
        var placed := ReserveLane(inst, bit, veto, open);
        if placed {
          LaneIsLowest(open, inst.Type(), bit);
          return PlacedPos(inst.Type(), bit);
        }
        NoLaneBelowNext(open, bit);
      }
      NoLane(open, inst.Type());
      return -1;
    }

    method ReserveLane(inst: Inst, bit: nat, veto: int -> bool, ghost open: set<nat>) returns (placed: bool)
      requires Valid() && inst in cells && bit < ELEMENT_BITMAP_BITS && open == OpenLanes(inst, veto)
      modifies this`reservations, this`states
      modifies tile`elementsPos, tile`elementsFree, tile`elementsInitialized, tile`peers, inst`pos, inst`coord
      modifies inst`tile
      ensures Valid()
      ensures placed <==> bit in open
      ensures placed ==>
                Extends(old(reservations), old(states), reservations, states, inst, PlacedPos(inst.Type(), bit)) &&
                Placed(inst, PlacedPos(inst.Type(), bit))
      ensures !placed ==>
                states == old(states) && reservations == old(reservations) && OpenLanes(inst, veto) == open
    {
      if !tile.elementsInitialized || Slot(inst.Type(), bit) !in tile.elementsFree {
        return false;
      }
      var pos := ReserveAt(inst, PlacedPos(inst.Type(), bit), veto(bit));
      placed := pos >= 0;
    }

    function Checkpoint(): nat
      reads this
    {
      |reservations|
    }

    /** Takes back reservations until the stack has the given depth, and with it the state of that time. */
    method Rollback(checkpoint: nat)
      requires Valid() && checkpoint <= |reservations|
      modifies this`reservations, this`states, tile`elementsFree, tile`elementsInitialized, tile`peers
      modifies cells`pos, cells`coord, cells`tile
      ensures Valid() && reservations == old(reservations)[..checkpoint] && states == old(states)[..checkpoint + 1]
      ensures Matches(old(states)[checkpoint])
    {
      while |reservations| > checkpoint
        invariant Valid() && checkpoint <= |reservations| <= |old(reservations)|
        invariant reservations == old(reservations)[..|reservations|] && states == old(states)[..|reservations| + 1]
      {
        PrefixOfPrefix(old(reservations), |reservations|);
        PrefixOfPrefix(old(states), |reservations| + 1);
        Pop();
      }
    }

    method Pop()
      requires Valid() && |reservations| > 0
      modifies this`reservations, this`states, tile`elementsFree, tile`elementsInitialized, tile`peers
      modifies cells`pos, cells`coord, cells`tile
      ensures Valid() && |reservations| == |old(reservations)| - 1
      ensures reservations == old(reservations)[..|reservations|] && states == old(states)[..|reservations| + 1]
    {
      var top := |reservations| - 1;
      RecordShrinks(states, reservations);
      TakeBack(reservations[top], states[top], states[top + 1], reservations);
      Shorten(top);
    }

    method Shorten(depth: nat)
      requires depth < |reservations| && |states| == |reservations| + 1
      requires IsRecord(states[..depth + 1], reservations[..depth]) && Holds(reservations[..depth], states[depth])
      requires originalInitialized ==>
                 tile.tileType.Some? && originalPos == tile.Slots() && originalFree == states[0].free
      modifies this`reservations, this`states
      ensures Valid() && reservations == old(reservations)[..depth] && states == old(states)[..depth + 1]
    {
      reservations, states := reservations[..depth], states[..depth + 1];
    }

    /** The cell leaves the tile and is again where it was; the masks are again what they were. */
    method TakeBack(r: Reservation, ghost before: Snapshot, ghost after: Snapshot, ghost stack: seq<Reservation>)
      requires Holds(stack, after) && stack != [] && stack[|stack| - 1] == r && Reserves(before, r, after)
      modifies tile`elementsFree, tile`elementsInitialized, tile`peers, r.inst`pos, r.inst`coord, r.inst`tile
      ensures Holds(stack[..|stack| - 1], before)
    {
      StackShrinks(tile.Slots(), tile.peers, stack);
      tile.Withdraw(r.inst, r.freeBefore);
      r.inst.coord := r.original.coord;
      r.inst.pos := r.original.pos;
    }

    /**
     Reserves all members in the given order, each at the first lane that accepts it, and lists the
     choices; or, as soon as a member does not fit, takes back this pack and nothing else.
     */
    method ReservePack(insts: seq<Inst>, choices: seq<Choice>, veto: (nat, int) -> bool)
      returns (ok: bool, more: seq<Choice>)
      requires Valid() && forall inst :: inst in insts ==> inst in cells
      modifies this`reservations, this`states
      modifies tile`elementsPos, tile`elementsFree, tile`elementsInitialized, tile`peers, cells`pos, cells`coord
      modifies cells`tile
      ensures Valid()
      ensures ok ==> ExtendsBy(old(reservations), old(states), reservations, states, insts)
      ensures ok ==> AddsChoices(choices, more, reservations, |old(reservations)|)
      ensures !ok ==> more == choices && reservations == old(reservations) && states == old(states)
    {
      var start := Checkpoint();
      for k := 0 to |insts|
        invariant Valid() && ExtendsBy(old(reservations), old(states), reservations, states, insts[..k])
      {
        assert insts[k] in insts;
        assert insts[..k + 1] == insts[..k] + [insts[k]];
        ok := ReserveMember(insts[k], bit => veto(k, bit), start, old(reservations), old(states), insts[..k]);
        if !ok {
          return false, choices;
        }
      }
      assert insts[..|insts|] == insts;
      more := ListChoices(choices, reservations, start);
      return true, more;
    }

    /** One more member of a pack; if it does not fit, the whole pack so far is taken back. */
    method ReserveMember(inst: Inst, veto: int -> bool, start: nat, ghost stack: seq<Reservation>,
                         ghost known: seq<Snapshot>, ghost insts: seq<Inst>)
      returns (ok: bool)
      requires Valid() && inst in cells && start == |stack| && |known| == |stack| + 1
      requires ExtendsBy(stack, known, reservations, states, insts)
      modifies this`reservations, this`states
      modifies tile`elementsPos, tile`elementsFree, tile`elementsInitialized, tile`peers, cells`pos, cells`coord
      modifies cells`tile
      ensures Valid()
      ensures ok ==> ExtendsBy(stack, known, reservations, states, insts + [inst])
      ensures !ok ==> reservations == stack && states == known
    {
      var pos := Reserve(inst, veto);
      if pos < 0 {
        Rollback(start);
        return false;
      }
      ExtendsOneMore(stack, known, old(reservations), old(states), reservations, states, insts, inst, pos);
      return true;
    }

    /** The end of the preview: all reservations are taken back, and the tile's masks are as they were found. */
    method Close()
      requires Valid()
      modifies this`reservations, this`states
      modifies tile`elementsPos, tile`elementsFree, tile`elementsInitialized, tile`peers, cells`pos, cells`coord
      modifies cells`tile
      ensures tile.Valid() && tile.elementsPos == originalPos && tile.elementsFree == originalFree
      ensures tile.elementsInitialized == originalInitialized && tile.peers == old(states)[0].residents
      ensures forall p :: p in cells ==> p in old(states)[0].placed && PlacementOf(p) == old(states)[0].placed[p]
    {
      Rollback(0);
      RestoreMasks(states[0]);
    }

    method RestoreMasks(ghost first: Snapshot)
      requires Holds([], first)
      requires originalInitialized ==> tile.tileType.Some? && originalPos == tile.Slots() && originalFree == first.free
      modifies tile`elementsPos, tile`elementsFree, tile`elementsInitialized
      ensures tile.Valid() && tile.elementsPos == originalPos && tile.elementsFree == originalFree
      ensures tile.elementsInitialized == originalInitialized
    {
      tile.elementsPos, tile.elementsFree, tile.elementsInitialized := originalPos, originalFree, originalInitialized;
    }
  }

  /** The choices of the reservations from a depth on, appended in order. */
  method ListChoices(choices: seq<Choice>, stack: seq<Reservation>, depth: nat) returns (more: seq<Choice>)
    requires depth <= |stack|
    ensures AddsChoices(choices, more, stack, depth)
  {
    more := choices;
    for i := depth to |stack|
      invariant AddsChoices(choices, more, stack[..i], depth)
    {
      more := more + [Choice(stack[i].inst, stack[i].pos)];
    }
    assert stack[..|stack|] == stack;
  }

  ghost predicate AddsChoices(choices: seq<Choice>, more: seq<Choice>, stack: seq<Reservation>, depth: nat) {
    depth <= |stack| && |more| == |choices| + |stack| - depth && more[..|choices|] == choices &&
    forall i :: depth <= i < |stack| ==> more[|choices| + i - depth] == Choice(stack[i].inst, stack[i].pos)
  }

  /** Reservations for these cells, in this order, on top of the earlier ones. */
  ghost predicate ExtendsBy(stack: seq<Reservation>, states: seq<Snapshot>, more: seq<Reservation>,
                            longer: seq<Snapshot>, insts: seq<Inst>)
  {
    |more| == |stack| + |insts| && |longer| == |states| + |insts| && more[..|stack|] == stack &&
      longer[..|states|] == states &&
    forall k :: 0 <= k < |insts| ==> more[|stack| + k].inst == insts[k]
  }

  lemma ExtendsOneMore(stack: seq<Reservation>, states: seq<Snapshot>, more: seq<Reservation>, longer: seq<Snapshot>,
                       most: seq<Reservation>, longest: seq<Snapshot>, insts: seq<Inst>, inst: Inst, pos: int)
    requires ExtendsBy(stack, states, more, longer, insts) && Extends(more, longer, most, longest, inst, pos)
    ensures ExtendsBy(stack, states, most, longest, insts + [inst])
  {
    SamePrefix(stack, more, most);
    SamePrefix(states, longer, longest);
    forall k | 0 <= k < |insts|
      ensures most[|stack| + k].inst == insts[k]
    {
      assert most[..|more|][|stack| + k] == more[|stack| + k];
    }
  }

  lemma SamePrefix<T>(s: seq<T>, t: seq<T>, u: seq<T>)
    requires |s| <= |t| <= |u| && t[..|s|] == s && u[..|t|] == t
    ensures u[..|s|] == s
  {
    assert u[..|s|] == u[..|t|][..|s|];
  }
}
