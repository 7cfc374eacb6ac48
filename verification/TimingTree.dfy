/**
 Netlists as the timing builder sees them, launch-to-endpoint chains, and the trees they unfold to
 (src/clocks/Timings.cpp).
 */
module TimingTree {
  import opened Common
  import opened EdgeSeparation

  /** An output connection and an input connection; `port` is the index that selects the delay. */
  datatype Output = Output(inst: nat, port: nat, isGlobal: bool)

  datatype InputPin = InputPin(conn: nat, port: nat)

  /** An instance: its input connections in order, and for each clock pin the declared clock that reaches it, if any. */
  datatype TimedInst = TimedInst(kind: nat, blackbox: bool, clocked: bool, buffer: bool, inputs: seq<InputPin>,
    clockPins: seq<Option<nat>>)

  /** Times are counted in ticks of 1 fs. */
  const MAX_MIN_TIME: int := 100_000_000_000      // 100000 ns
  const MAX_MIN_LENGTH: int := 1_000_000_000

  datatype Netlist = Netlist(
    insts: seq<TimedInst>,
    drivers: map<nat, Output>,
    periods: seq<nat>,
    asynchronous: set<(nat, nat)>,
    delay: (nat, nat, nat) -> int)
  {
    ghost predicate Valid() {
      (forall c :: c in drivers ==> drivers[c].inst < |insts|) &&
      (forall k :: 0 <= k < |periods| ==> periods[k] > 0) &&
      (forall i, k :: 0 <= i < |insts| && 0 <= k < |insts[i].clockPins| && insts[i].clockPins[k].Some? ==>
        insts[i].clockPins[k].value < |periods|)
    }

    function DriverOf(pin: InputPin): Option<Output> {
      if pin.conn in drivers then Some(drivers[pin.conn]) else None
    }

    /** The instance drives the timing path at all: it is a primitive and the output is no global port. */
    predicate Traced(out: Output)
      requires out.inst < |insts|
    {
      insts[out.inst].blackbox && !out.isGlobal
    }

    /** Where tracing stops: registers and buffers. */
    predicate IsLeaf(i: nat)
      requires i < |insts|
    {
      insts[i].clocked || insts[i].buffer
    }

    /** The one clock of a register: some clock pin has it and no other pin has another. */
    ghost predicate IsLaunchClock(i: nat, clock: nat)
      requires i < |insts|
    {
      Some(clock) in insts[i].clockPins && forall c :: c in insts[i].clockPins ==> c == None || c == Some(clock)
    }

    /** The launch offset of a leaf for a capture clock; a leaf without one cannot start a chain. */
    ghost predicate IsLaunch(i: nat, capture: nat, offset: int)
      requires Valid() && i < |insts| && capture < |periods|
    {
      if insts[i].clocked then
        exists launch: nat :: IsLaunchClock(i, launch) && (launch, capture) !in asynchronous &&
          offset == periods[capture] - Gcd(periods[launch], periods[capture])
      else offset == 0
    }

    /** The launch offset of a leaf, if it has one. */
    ghost function LaunchOf(i: nat, capture: nat): (launch: Option<int>)
      requires Valid() && i < |insts| && capture < |periods|
      ensures launch.Some? <==> exists offset :: IsLaunch(i, capture, offset)
      ensures launch.Some? ==> IsLaunch(i, capture, launch.value)
    {
      if exists offset :: IsLaunch(i, capture, offset) then
        var offset :| IsLaunch(i, capture, offset);
        Some(offset)
      else None
    }

    function Arc(from: InputPin, to: Output): int
      requires to.inst < |insts|
    {
      delay(insts[to.inst].kind, from.port, to.port)
    }

    ghost predicate NonNegative() {
      forall kind, i, o :: delay(kind, i, o) >= 0
    }

    /** A combinational output: an instance that is neither a register nor a buffer. */
    predicate IsGate(out: Output)
      requires out.inst < |insts|
    {
      Traced(out) && !IsLeaf(out.inst)
    }

    /** No combinational cycle: along every connection between gates the rank falls. */
    ghost predicate RanksGates(rank: nat -> nat)
      requires Valid()
    {
      forall from: Output, pin: InputPin, to: Output :: GateFeeds(from, pin, to) ==> rank(from.inst) < rank(to.inst)
    }

    ghost predicate GateFeeds(from: Output, pin: InputPin, to: Output)
      requires Valid()
    {
      to.inst < |insts| && IsGate(to) && pin in insts[to.inst].inputs && DriverOf(pin) == Some(from) && IsGate(from)
    }
  }

  // ---------------------------------------------------------------------------
  // Chains.
  // ---------------------------------------------------------------------------

  /** An accepted chain, from the endpoint's data pin back to a pin that a launching leaf drives. */
  ghost predicate IsChain(net: Netlist, capture: nat, chain: seq<InputPin>)
    requires net.Valid() && capture < |net.periods|
  {
    chain != [] && net.DriverOf(chain[0]).Some? && net.Traced(net.DriverOf(chain[0]).value) &&
    var i := net.DriverOf(chain[0]).value.inst;
    if |chain| == 1 then net.IsLeaf(i) && net.LaunchOf(i, capture).Some?
    else !net.IsLeaf(i) && chain[1] in net.insts[i].inputs && IsChain(net, capture, chain[1..])
  }

  /** A chain is measured in time, or in the number of instances it passes. */
  datatype Measure = Time | Length {
    function StartValue(offset: int): int {
      if Time? then offset else 0
    }

    function StepValue(delay: int): int {
      if Time? then delay else 1
    }

    /** The value that the search for a minimum starts from. */
    function Cap(): int {
      if Time? then MAX_MIN_TIME else MAX_MIN_LENGTH + 1
    }
  }

  /** Launch offset plus the sum of the instance delays; or the number of gates. */
  ghost function Cost(net: Netlist, capture: nat, chain: seq<InputPin>, m: Measure): int
    requires net.Valid() && capture < |net.periods| && IsChain(net, capture, chain)
  {
    var out := net.DriverOf(chain[0]).value;
    if |chain| == 1 then m.StartValue(net.LaunchOf(out.inst, capture).value)
    else Cost(net, capture, chain[1..], m) + m.StepValue(net.Arc(chain[1], out))
  }

  lemma {:induction false} LengthOfChain(net: Netlist, capture: nat, chain: seq<InputPin>)
    requires net.Valid() && capture < |net.periods| && IsChain(net, capture, chain)
    ensures Cost(net, capture, chain, Length) == |chain| - 1
  {
    if |chain| > 1 {
      LengthOfChain(net, capture, chain[1..]);
    }
  }

  lemma LaunchIsUnique(net: Netlist, i: nat, capture: nat, a: int, b: int)
    requires net.Valid() && i < |net.insts| && capture < |net.periods|
    requires net.IsLaunch(i, capture, a) && net.IsLaunch(i, capture, b)
    ensures a == b && 0 <= a
  {
    if net.insts[i].clocked {
      var p: nat :| net.IsLaunchClock(i, p) && a == net.periods[capture] - Gcd(net.periods[p], net.periods[capture]);
      var q: nat :| net.IsLaunchClock(i, q) && b == net.periods[capture] - Gcd(net.periods[q], net.periods[capture]);
      assert Some(p) in net.insts[i].clockPins;
      SeparationWithinPeriod(net.periods[p], net.periods[capture]);
    }
  }

  // ---------------------------------------------------------------------------
  // Trees: what the recursion builds, without any sharing.
  // ---------------------------------------------------------------------------

  datatype Tree = Leaf(offset: int) | Gate(branches: seq<Branch>)

  datatype Branch = Branch(pin: InputPin, delay: int, tree: Tree)

  ghost function Unlocked(net: Netlist, locked: set<nat>): set<nat> {
    set i: nat | i < |net.insts| && i !in locked
  }

  /** The unshared recursion: every cone is built again for every pin that reads it. */
  ghost function Build(net: Netlist, capture: nat, pin: InputPin, locked: set<nat>): Option<Tree>
    requires net.Valid() && capture < |net.periods|
    decreases |Unlocked(net, locked)|, 1, 0
  {
    if net.DriverOf(pin).None? || !net.Traced(net.DriverOf(pin).value) then None
    else
      var out := net.DriverOf(pin).value;
      if out.inst in locked then None
      else if net.IsLeaf(out.inst) then
        if net.LaunchOf(out.inst, capture).Some? then Some(Leaf(net.LaunchOf(out.inst, capture).value)) else None
      else
        LockingShrinks(net, locked, out.inst);
        var branches := Branches(net, capture, out, net.insts[out.inst].inputs, locked + {out.inst});
        if branches == [] then None else Some(Gate(branches))
  }

  ghost function Branches(net: Netlist, capture: nat, out: Output, inputs: seq<InputPin>, locked: set<nat>): seq<Branch>
    requires net.Valid() && capture < |net.periods| && out.inst < |net.insts|
    decreases |Unlocked(net, locked)|, 2, |inputs|
  {
    if inputs == [] then []
    else
      var pin := inputs[|inputs| - 1];
      var rest := Branches(net, capture, out, inputs[..|inputs| - 1], locked);
      match Build(net, capture, pin, locked)
      case None => rest
      case Some(tree) => rest + [Branch(pin, net.Arc(pin, out), tree)]
  }

  lemma LockingShrinks(net: Netlist, locked: set<nat>, i: nat)
    requires i < |net.insts| && i !in locked
    ensures |Unlocked(net, locked + {i})| < |Unlocked(net, locked)|
  {
    assert Unlocked(net, locked) == Unlocked(net, locked + {i}) + {i};
  }

  // ---------------------------------------------------------------------------
  // Without cycles the locks never matter.
  // ---------------------------------------------------------------------------

  /** All locked instances are gates, after the gate that drives the pin. */
  ghost predicate LocksAbove(net: Netlist, rank: nat -> nat, pin: InputPin, locked: set<nat>)
    requires net.Valid()
  {
    (forall i :: i in locked && i < |net.insts| ==> !net.IsLeaf(i)) &&
    (net.DriverOf(pin).Some? && net.IsGate(net.DriverOf(pin).value) ==>
      forall i :: i in locked ==> rank(net.DriverOf(pin).value.inst) < rank(i))
  }

  ghost function RankOfPin(net: Netlist, rank: nat -> nat, pin: InputPin): nat
    requires net.Valid()
  {
    if net.DriverOf(pin).Some? && net.IsGate(net.DriverOf(pin).value) then rank(net.DriverOf(pin).value.inst) + 1 else 0
  }

  lemma LocksStayAbove(net: Netlist, rank: nat -> nat, pin: InputPin, out: Output, input: InputPin, locked: set<nat>)
    requires net.Valid() && net.RanksGates(rank) && LocksAbove(net, rank, pin, locked)
    requires net.DriverOf(pin) == Some(out) && net.IsGate(out) && input in net.insts[out.inst].inputs
    ensures LocksAbove(net, rank, input, locked + {out.inst})
    ensures RankOfPin(net, rank, input) < RankOfPin(net, rank, pin)
  {
    if net.DriverOf(input).Some? && net.IsGate(net.DriverOf(input).value) {
      assert net.GateFeeds(net.DriverOf(input).value, input, out);
    }
  }

  /** Without cycles the locks of the recursion never cut anything off. */
  lemma {:induction false} LocksDoNotMatter(net: Netlist, rank: nat -> nat, capture: nat, pin: InputPin,
                                            locked: set<nat>, others: set<nat>)
    requires net.Valid() && capture < |net.periods| && net.RanksGates(rank)
    requires LocksAbove(net, rank, pin, locked) && LocksAbove(net, rank, pin, others)
    ensures Build(net, capture, pin, locked) == Build(net, capture, pin, others)
    decreases RankOfPin(net, rank, pin), 0
  {
    if net.DriverOf(pin).Some? && net.IsGate(net.DriverOf(pin).value) {
      var out := net.DriverOf(pin).value;
      assert out.inst !in locked && out.inst !in others;
      BranchesDoNotMatter(net, rank, capture, pin, out, net.insts[out.inst].inputs, locked, others);
    }
  }

  lemma {:induction false} BranchesDoNotMatter(net: Netlist, rank: nat -> nat, capture: nat, pin: InputPin,
                                               out: Output, inputs: seq<InputPin>, locked: set<nat>, others: set<nat>)
    requires net.Valid() && capture < |net.periods| && net.RanksGates(rank)
    requires LocksAbove(net, rank, pin, locked) && LocksAbove(net, rank, pin, others)
    requires net.DriverOf(pin) == Some(out) && net.IsGate(out)
    requires forall p :: p in inputs ==> p in net.insts[out.inst].inputs
    ensures Branches(net, capture, out, inputs, locked + {out.inst}) ==
              Branches(net, capture, out, inputs, others + {out.inst})
    decreases RankOfPin(net, rank, pin) - 1, 1, |inputs|
  {
    if inputs != [] {
      var input := inputs[|inputs| - 1];
      LocksStayAbove(net, rank, pin, out, input, locked);
      LocksStayAbove(net, rank, pin, out, input, others);
      LocksDoNotMatter(net, rank, capture, input, locked + {out.inst}, others + {out.inst});
      BranchesDoNotMatter(net, rank, capture, pin, out, inputs[..|inputs| - 1], locked, others);
    }
  }

  // ---------------------------------------------------------------------------
  // Worst and least values of a tree.
  // ---------------------------------------------------------------------------

  ghost function Worst(tree: Tree, m: Measure): int
    decreases tree, 0
  {
    match tree
    case Leaf(offset) => m.StartValue(offset)
    case Gate(branches) => WorstOf(branches, m)
  }

  ghost function WorstOf(branches: seq<Branch>, m: Measure): int
    decreases branches, 1
  {
    if branches == [] then 0
    else
      var last := branches[|branches| - 1];
      assert last.tree < last;
      Max(WorstOf(branches[..|branches| - 1], m), Worst(last.tree, m) + m.StepValue(last.delay))
  }

  ghost function Least(tree: Tree, m: Measure): int
    decreases tree, 0
  {
    match tree
    case Leaf(offset) => m.StartValue(offset)
    case Gate(branches) => LeastOf(branches, m)
  }

  ghost function LeastOf(branches: seq<Branch>, m: Measure): int
    decreases branches, 1
  {
    if branches == [] then m.Cap()
    else
      var last := branches[|branches| - 1];
      assert last.tree < last;
      Min(LeastOf(branches[..|branches| - 1], m), Least(last.tree, m) + m.StepValue(last.delay))
  }

  lemma {:induction false} WorstOfBranches(branches: seq<Branch>, m: Measure)
    ensures forall b :: b in branches ==> Worst(b.tree, m) + m.StepValue(b.delay) <= WorstOf(branches, m)
    ensures 0 <= WorstOf(branches, m)
    ensures WorstOf(branches, m) == 0 || exists b ::
              b in branches && Worst(b.tree, m) + m.StepValue(b.delay) == WorstOf(branches, m)
  {
    if branches != [] {
      var front, last := branches[..|branches| - 1], branches[|branches| - 1];
      WorstOfBranches(front, m);
      assert branches == front + [last];
    }
  }

  lemma {:induction false} LeastOfBranches(branches: seq<Branch>, m: Measure)
    ensures forall b :: b in branches ==> LeastOf(branches, m) <= Least(b.tree, m) + m.StepValue(b.delay)
    ensures LeastOf(branches, m) <= m.Cap()
    ensures LeastOf(branches, m) == m.Cap() || exists b ::
              b in branches && Least(b.tree, m) + m.StepValue(b.delay) == LeastOf(branches, m)
  {
    if branches != [] {
      var front, last := branches[..|branches| - 1], branches[|branches| - 1];
      LeastOfBranches(front, m);
      assert branches == front + [last];
    }
  }

  // ---------------------------------------------------------------------------
  // Trees and chains.
  // ---------------------------------------------------------------------------

  /** Every branch of the tree is there in the netlist. */
  ghost predicate Fits(net: Netlist, capture: nat, pin: InputPin, tree: Tree)
    requires net.Valid() && capture < |net.periods|
    decreases tree
  {
    net.DriverOf(pin).Some? && net.Traced(net.DriverOf(pin).value) &&
    var out := net.DriverOf(pin).value;
    match tree
    case Leaf(offset) => net.IsLeaf(out.inst) && net.LaunchOf(out.inst, capture) == Some(offset)
    case Gate(branches) =>
      !net.IsLeaf(out.inst) && branches != [] &&
      forall k :: 0 <= k < |branches| ==>
        branches[k].pin in net.insts[out.inst].inputs && branches[k].delay == net.Arc(branches[k].pin, out) &&
        Fits(net, capture, branches[k].pin, branches[k].tree)
  }

  ghost predicate ChainFrom(net: Netlist, capture: nat, pin: InputPin, chain: seq<InputPin>)
    requires net.Valid() && capture < |net.periods|
  {
    IsChain(net, capture, chain) && chain[0] == pin
  }

  /** The value is reached by a chain from the pin and exceeded by none. */
  ghost predicate IsWorst(net: Netlist, capture: nat, pin: InputPin, m: Measure, v: int)
    requires net.Valid() && capture < |net.periods|
  {
    (forall chain :: ChainFrom(net, capture, pin, chain) ==> Cost(net, capture, chain, m) <= v) &&
    (exists chain :: ChainFrom(net, capture, pin, chain) && Cost(net, capture, chain, m) == v)
  }

  /** The value is reached by a chain from the pin, and no chain is below it. */
  ghost predicate IsLeast(net: Netlist, capture: nat, pin: InputPin, m: Measure, v: int)
    requires net.Valid() && capture < |net.periods|
  {
    (forall chain :: ChainFrom(net, capture, pin, chain) ==> v <= Cost(net, capture, chain, m)) &&
    (exists chain :: ChainFrom(net, capture, pin, chain) && Cost(net, capture, chain, m) == v)
  }

  /**
   The pin is driven by a leaf, or some chain from it stays within the value that the search for a minimum
   starts from.
   */
  ghost predicate WithinCap(net: Netlist, capture: nat, pin: InputPin, m: Measure)
    requires net.Valid() && capture < |net.periods|
  {
    (net.DriverOf(pin).Some? && net.IsLeaf(net.DriverOf(pin).value.inst)) ||
    exists chain :: ChainFrom(net, capture, pin, chain) && Cost(net, capture, chain, m) <= m.Cap()
  }

  /**
   What the capped search finds: the least value exactly if the pin is within the cap, and otherwise the cap
   itself.
   */
  ghost predicate IsCappedLeast(net: Netlist, capture: nat, pin: InputPin, m: Measure, v: int)
    requires net.Valid() && capture < |net.periods|
  {
    (IsLeast(net, capture, pin, m, v) <==> WithinCap(net, capture, pin, m)) &&
    (!WithinCap(net, capture, pin, m) ==> v == m.Cap())
  }

  /** A chain one gate longer. */
  lemma ChainPrepended(net: Netlist, capture: nat, pin: InputPin, out: Output, chain: seq<InputPin>, m: Measure)
    requires net.Valid() && capture < |net.periods| && net.DriverOf(pin) == Some(out) && net.IsGate(out)
    requires IsChain(net, capture, chain) && chain[0] in net.insts[out.inst].inputs
    ensures ChainFrom(net, capture, pin, [pin] + chain)
    ensures Cost(net, capture, [pin] + chain, m) == Cost(net, capture, chain, m) + m.StepValue(net.Arc(chain[0], out))
  {
    assert ([pin] + chain)[1..] == chain;
  }

  lemma {:induction false} CostsAreNatural(net: Netlist, capture: nat, chain: seq<InputPin>, m: Measure)
    requires net.Valid() && capture < |net.periods| && net.NonNegative() && IsChain(net, capture, chain)
    ensures Cost(net, capture, chain, m) >= 0
  {
    if |chain| > 1 {
      CostsAreNatural(net, capture, chain[1..], m);
    } else {
      var i := net.DriverOf(chain[0]).value.inst;
      var offset := net.LaunchOf(i, capture).value;
      LaunchIsUnique(net, i, capture, offset, offset);
    }
  }

  /** The worst value of a tree is the value of a chain of the netlist. */
  lemma {:induction false} WorstChain(net: Netlist, capture: nat, pin: InputPin, tree: Tree, m: Measure)
    returns (chain: seq<InputPin>)
    requires net.Valid() && capture < |net.periods| && net.NonNegative() && Fits(net, capture, pin, tree)
    ensures ChainFrom(net, capture, pin, chain) && Cost(net, capture, chain, m) == Worst(tree, m)
    decreases tree
  {
    if tree.Leaf? {
      chain := [pin];
    } else {
      WorstOfBranches(tree.branches, m);
      var b := WorstBranch(tree.branches, m);
      var rest := WorstChain(net, capture, b.pin, b.tree, m);
      CostsAreNatural(net, capture, rest, m);
      ChainPrepended(net, capture, pin, net.DriverOf(pin).value, rest, m);
      chain := [pin] + rest;
    }
  }

  lemma WorstBranch(branches: seq<Branch>, m: Measure) returns (b: Branch)
    requires branches != []
    ensures b in branches
    ensures Worst(b.tree, m) + m.StepValue(b.delay) >= 0 ==>
              Worst(b.tree, m) + m.StepValue(b.delay) == WorstOf(branches, m)
  {
    WorstOfBranches(branches, m);
    if exists b :: b in branches && Worst(b.tree, m) + m.StepValue(b.delay) == WorstOf(branches, m) {
      b :| b in branches && Worst(b.tree, m) + m.StepValue(b.delay) == WorstOf(branches, m);
    } else {
      b := branches[0];
    }
  }

  /** The least value of a tree is the value of a chain of the netlist, or the cap. */
  lemma {:induction false} LeastChain(net: Netlist, capture: nat, pin: InputPin, tree: Tree, m: Measure)
    returns (chain: seq<InputPin>)
    requires net.Valid() && capture < |net.periods| && net.NonNegative() && Fits(net, capture, pin, tree)
    requires tree.Leaf? || Least(tree, m) < m.Cap()
    ensures ChainFrom(net, capture, pin, chain) && Cost(net, capture, chain, m) == Least(tree, m)
    decreases tree
  {
    if tree.Leaf? {
      chain := [pin];
    } else {
      LeastOfBranches(tree.branches, m);
      var b :| b in tree.branches && Least(b.tree, m) + m.StepValue(b.delay) == LeastOf(tree.branches, m);
      var rest := LeastChain(net, capture, b.pin, b.tree, m);
      ChainPrepended(net, capture, pin, net.DriverOf(pin).value, rest, m);
      chain := [pin] + rest;
    }
  }

  /** What the recursion builds is there in the netlist, whatever is locked. */
  lemma {:induction false} BuiltFits(net: Netlist, capture: nat, pin: InputPin, locked: set<nat>)
    requires net.Valid() && capture < |net.periods|
    ensures Build(net, capture, pin, locked).Some? ==> Fits(net, capture, pin, Build(net, capture, pin, locked).value)
    decreases |Unlocked(net, locked)|, 1, 0
  {
    if net.DriverOf(pin).Some? && net.IsGate(net.DriverOf(pin).value) {
      var out := net.DriverOf(pin).value;
      if out.inst !in locked {
        LockingShrinks(net, locked, out.inst);
        BranchesFit(net, capture, out, net.insts[out.inst].inputs, locked + {out.inst});
      }
    }
  }

  lemma {:induction false} BranchesFit(net: Netlist, capture: nat, out: Output, inputs: seq<InputPin>, locked: set<nat>)
    requires net.Valid() && capture < |net.periods| && out.inst < |net.insts|
    ensures forall b :: b in Branches(net, capture, out, inputs, locked) ==>
              b.pin in inputs && b.delay == net.Arc(b.pin, out) && Fits(net, capture, b.pin, b.tree)
    decreases |Unlocked(net, locked)|, 2, |inputs|
  {
    if inputs != [] {
      BuiltFits(net, capture, inputs[|inputs| - 1], locked);
      BranchesFit(net, capture, out, inputs[..|inputs| - 1], locked);
    }
  }

  lemma {:induction false} BranchOf(net: Netlist, capture: nat, out: Output, inputs: seq<InputPin>, locked: set<nat>,
                                    pin: InputPin)
    requires net.Valid() && capture < |net.periods| && out.inst < |net.insts| && pin in inputs
    ensures Build(net, capture, pin, locked).Some? ==>
              Branch(pin, net.Arc(pin, out), Build(net, capture, pin, locked).value) in Branches(net, capture, out,
                inputs, locked)
  {
    if pin != inputs[|inputs| - 1] {
      BranchOf(net, capture, out, inputs[..|inputs| - 1], locked, pin);
    }
  }

  /** Without cycles every chain of the netlist is bounded by the values of the tree. */
  lemma {:induction false} ChainWithin(net: Netlist, rank: nat -> nat, capture: nat, chain: seq<InputPin>, m: Measure)
    requires net.Valid() && capture < |net.periods| && net.RanksGates(rank) && IsChain(net, capture, chain)
    ensures Build(net, capture, chain[0], {}).Some?
    ensures var tree := Build(net, capture, chain[0], {}).value;
            Least(tree, m) <= Cost(net, capture, chain, m) <= Worst(tree, m)
    decreases |chain|
  {
    if |chain| > 1 {
      var out := net.DriverOf(chain[0]).value;
      ChainWithin(net, rank, capture, chain[1..], m);
      LocksStayAbove(net, rank, chain[0], out, chain[1], {});
      LocksDoNotMatter(net, rank, capture, chain[1], {}, {out.inst});
      var inputs := net.insts[out.inst].inputs;
      BranchOf(net, capture, out, inputs, {out.inst}, chain[1]);
      var branches := Branches(net, capture, out, inputs, {out.inst});
      assert {} + {out.inst} == {out.inst};
      WorstOfBranches(branches, m);
      LeastOfBranches(branches, m);
    }
  }

  /** The capped search, on the values of the tree. */
  lemma LeastUnderCap(net: Netlist, capture: nat, pin: InputPin, tree: Tree, m: Measure)
    requires net.Valid() && capture < |net.periods| && net.NonNegative() && Fits(net, capture, pin, tree)
    requires forall chain :: ChainFrom(net, capture, pin, chain) ==> Least(tree, m) <= Cost(net, capture, chain, m)
    ensures IsCappedLeast(net, capture, pin, m, Least(tree, m))
  {
    if tree.Leaf? || Least(tree, m) < m.Cap() {
      var shortest := LeastChain(net, capture, pin, tree, m);
    } else {
      LeastOfBranches(tree.branches, m);
      assert Least(tree, m) == m.Cap();
    }
  }

  /** The values of the unshared recursion, on a netlist without cycles, in terms of the chains alone. */
  lemma TreeMeasuresChains(net: Netlist, rank: nat -> nat, capture: nat, pin: InputPin, m: Measure)
    requires net.Valid() && capture < |net.periods| && net.RanksGates(rank) && net.NonNegative()
    ensures Build(net, capture, pin, {}).Some? <==> exists chain :: ChainFrom(net, capture, pin, chain)
    ensures Build(net, capture, pin, {}).Some? ==>
              var tree := Build(net, capture, pin, {}).value;
              IsWorst(net, capture, pin, m, Worst(tree, m)) && IsCappedLeast(net, capture, pin, m, Least(tree, m))
  {
    forall chain | ChainFrom(net, capture, pin, chain)
      ensures Build(net, capture, pin, {}).Some?
      ensures Least(Build(net, capture, pin, {}).value, m) <= Cost(net, capture, chain, m)
      ensures Cost(net, capture, chain, m) <= Worst(Build(net, capture, pin, {}).value, m)
    {
      ChainWithin(net, rank, capture, chain, m);
    }
    BuiltFits(net, capture, pin, {});
    if Build(net, capture, pin, {}).Some? {
      var tree := Build(net, capture, pin, {}).value;
      var longest := WorstChain(net, capture, pin, tree, m);
      LeastUnderCap(net, capture, pin, tree, m);
    }
  }

  // ---------------------------------------------------------------------------
  // Lengths, and the cap.
  // ---------------------------------------------------------------------------

  ghost predicate IsLongest(net: Netlist, capture: nat, pin: InputPin, v: int)
    requires net.Valid() && capture < |net.periods|
  {
    (forall chain :: ChainFrom(net, capture, pin, chain) ==> |chain| - 1 <= v) &&
    (exists chain :: ChainFrom(net, capture, pin, chain) && |chain| - 1 == v)
  }

  ghost predicate IsShortest(net: Netlist, capture: nat, pin: InputPin, v: int)
    requires net.Valid() && capture < |net.periods|
  {
    (forall chain :: ChainFrom(net, capture, pin, chain) ==> v <= |chain| - 1) &&
    (exists chain :: ChainFrom(net, capture, pin, chain) && |chain| - 1 == v)
  }

  lemma LengthsCountGates(net: Netlist, capture: nat, pin: InputPin, v: int)
    requires net.Valid() && capture < |net.periods|
    ensures IsWorst(net, capture, pin, Length, v) <==> IsLongest(net, capture, pin, v)
    ensures IsLeast(net, capture, pin, Length, v) <==> IsShortest(net, capture, pin, v)
  {
    forall chain | ChainFrom(net, capture, pin, chain)
      ensures Cost(net, capture, chain, Length) == |chain| - 1
    {
      LengthOfChain(net, capture, chain);
    }
  }

  /** Without cycles the gates on a chain are different instances. */
  lemma {:induction false} GatesOnChain(net: Netlist, rank: nat -> nat, capture: nat, chain: seq<InputPin>)
    returns (gates: set<nat>)
    requires net.Valid() && capture < |net.periods| && net.RanksGates(rank) && IsChain(net, capture, chain)
    ensures |gates| == |chain| - 1 && forall g :: g in gates ==> g < |net.insts|
    ensures forall g :: g in gates ==> rank(g) <= rank(net.DriverOf(chain[0]).value.inst)
  {
    if |chain| == 1 {
      gates := {};
    } else {
      var out := net.DriverOf(chain[0]).value;
      var rest := GatesOnChain(net, rank, capture, chain[1..]);
      if |chain| > 2 {
        assert net.GateFeeds(net.DriverOf(chain[1]).value, chain[1], out);
      }
      gates := rest + {out.inst};
    }
  }

  /** A netlist without cycles whose size is within the cap has all its pins within the cap on lengths. */
  lemma LengthsWithinCap(net: Netlist, rank: nat -> nat, capture: nat, pin: InputPin)
    requires net.Valid() && capture < |net.periods| && net.RanksGates(rank) && |net.insts| <= MAX_MIN_LENGTH + 1
    ensures (exists chain :: ChainFrom(net, capture, pin, chain)) ==> WithinCap(net, capture, pin, Length)
  {
    forall chain | ChainFrom(net, capture, pin, chain)
      ensures Cost(net, capture, chain, Length) <= Length.Cap()
    {
      LengthOfChain(net, capture, chain);
      var gates := GatesOnChain(net, rank, capture, chain);
      BelowSize(gates, |net.insts|);
    }
  }

  /** A buffer and one gate slower than the cap on times. */
  function SlowGate(): Netlist {
    Netlist([TimedInst(0, true, false, false, [InputPin(1, 0)], []), TimedInst(1, true, false, true, [], [])],
            map[0 := Output(0, 0, false), 1 := Output(1, 0, false)], [1], {},
              (kind: nat, i: nat, o: nat) => MAX_MIN_TIME + 1)
  }

  lemma SlowGateIsValid()
    ensures SlowGate().Valid() && SlowGate().NonNegative() && SlowGate().RanksGates(i => 0)
  {
  }

  lemma SlowGateTree()
    requires SlowGate().Valid()
    ensures Build(SlowGate(), 0, InputPin(0, 0), {}).Some?
    ensures Least(Build(SlowGate(), 0, InputPin(0, 0), {}).value, Time) == MAX_MIN_TIME
  {
    var net, rest := SlowGate(), InputPin(1, 0);
    assert net.IsLaunch(1, 0, 0);
    LaunchIsUnique(net, 1, 0, 0, net.LaunchOf(1, 0).value);
    assert [rest][..0] == [];
    assert Build(net, 0, rest, {0}) == Some(Leaf(0));
    assert Branches(net, 0, Output(0, 0, false), [rest], {0}) == [Branch(rest, MAX_MIN_TIME + 1, Leaf(0))];
  }

  lemma SlowGateChain(chain: seq<InputPin>)
    requires SlowGate().Valid() && ChainFrom(SlowGate(), 0, InputPin(0, 0), chain)
    ensures Cost(SlowGate(), 0, chain, Time) == MAX_MIN_TIME + 1
  {
    var net, rest := SlowGate(), InputPin(1, 0);
    assert net.IsLaunch(1, 0, 0);
    LaunchIsUnique(net, 1, 0, 0, net.LaunchOf(1, 0).value);
    assert chain[1] == rest && IsChain(net, 0, chain[1..]);
  }

  /** The cap is real: here the search reports it, and every chain takes longer. */
  lemma LeastStopsAtCap()
    ensures SlowGate().Valid() && SlowGate().NonNegative() && SlowGate().RanksGates(i => 0)
    ensures Build(SlowGate(), 0, InputPin(0, 0), {}).Some?
    ensures Least(Build(SlowGate(), 0, InputPin(0, 0), {}).value, Time) == MAX_MIN_TIME
    ensures forall chain :: ChainFrom(SlowGate(), 0, InputPin(0, 0), chain) ==>
              Cost(SlowGate(), 0, chain, Time) == MAX_MIN_TIME + 1
  {
    SlowGateIsValid();
    SlowGateTree();
    forall chain | ChainFrom(SlowGate(), 0, InputPin(0, 0), chain)
      ensures Cost(SlowGate(), 0, chain, Time) == MAX_MIN_TIME + 1
    {
      SlowGateChain(chain);
    }
  }
}
