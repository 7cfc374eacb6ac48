/**
 The timing forest with shared cones: how it is built and how times are propagated through it
 (src/clocks/Timings.cpp).
 */
module TimingForest {
  import opened Common
  import opened EdgeSeparation
  import opened TimingTree

  class TimingPath {
    const dataIn: InputPin
    var minLength: int
    var maxLength: int
    var ownSetup: int
    var maxSetup: int
    var minSetup: int
    var dataOutput: Option<Output>
    var launchOffset: int
    var subPaths: seq<TimingPath>
    var precalculated: TimingPath?
    ghost const arc: int            // the delay from this input to the output that reads it
    ghost var tree: Tree            // what the path stands for when nothing is shared
    ghost var begin: nat            // how many outputs were known when its construction began
    ghost var end: nat              // and when it ended

    constructor (dataIn: InputPin, ghost arc: int)
      ensures this.dataIn == dataIn && this.arc == arc && subPaths == [] && precalculated == null
      ensures dataOutput == None && launchOffset == 0
    {
      this.dataIn, this.arc := dataIn, arc;
      minLength, maxLength, ownSetup, maxSetup, minSetup := -1, -1, 0, 0, 0;
      dataOutput, launchOffset, subPaths, precalculated := None, 0, [], null;
    }
  }

  // ---------------------------------------------------------------------------
  // The shape of a forest.
  // ---------------------------------------------------------------------------

  /** The sub-paths were built one after the other, from `begin` known outputs to `end`. */
  ghost predicate BuiltInOrder(subs: seq<TimingPath>, begin: nat, end: nat)
    reads subs`begin, subs`end
  {
    if subs == [] then begin == end
    else
      subs[0].begin == begin && subs[|subs| - 1].end == end &&
      forall i :: 0 < i < |subs| ==> subs[i - 1].end == subs[i].begin
  }

  ghost predicate Subs(net: Netlist, forest: set<TimingPath>, out: Output, subs: seq<TimingPath>, branches: seq<Branch>)
    requires out.inst < |net.insts|
    reads forest`tree
  {
    |subs| == |branches| && forall i :: 0 <= i < |subs| ==>
      subs[i] in forest && subs[i].arc == net.Arc(subs[i].dataIn, out) &&
        branches[i] == Branch(subs[i].dataIn, subs[i].arc, subs[i].tree)
  }

  /** On a netlist without cycles, the path stands for what the unshared recursion builds. */
  ghost predicate Exact(net: Netlist, capture: nat, rank: nat -> nat, p: TimingPath)
    requires net.Valid() && capture < |net.periods|
    reads p`tree
  {
    net.RanksGates(rank) ==> Build(net, capture, p.dataIn, {}) == Some(p.tree)
  }

  /** A path is a reference to an earlier output, a leaf, or an output with sub-paths. */
  ghost predicate Shaped(net: Netlist, capture: nat, rank: nat -> nat, forest: set<TimingPath>, log: seq<TimingPath>,
                         p: TimingPath)
    requires net.Valid() && capture < |net.periods| && p in forest
    reads forest`tree, forest`begin, forest`end, forest`subPaths, forest`precalculated
    reads forest`dataOutput, forest`launchOffset, forest`minLength, forest`maxLength
  {
    p.begin <= p.end <= |log| && Fits(net, capture, p.dataIn, p.tree) && Exact(net, capture, rank, p) &&
    p.minLength == Least(p.tree, Length) && p.maxLength == Worst(p.tree, Length) &&
    if p.precalculated != null then
      p.precalculated in forest && p.precalculated in log[..p.begin] && p.tree == p.precalculated.tree &&
        p.begin == p.end &&
      p.subPaths == []
    else
      p.dataOutput.Some? && p.dataOutput == net.DriverOf(p.dataIn) &&
      (p.subPaths == [] ==> p.tree == Leaf(p.launchOffset) && p.begin == p.end) &&
      (p.subPaths != [] ==> GateShaped(net, forest, log, p))
  }

  ghost predicate GateShaped(net: Netlist, forest: set<TimingPath>, log: seq<TimingPath>, p: TimingPath)
    requires p.begin <= p.end <= |log| && p.dataOutput.Some? && p.dataOutput.value.inst < |net.insts|
    reads p`tree, p`begin, p`end, p`subPaths, p`dataOutput, forest`tree, forest`begin, forest`end
  {
    p.tree.Gate? && p.end > p.begin && log[p.end - 1] == p &&
    Subs(net, forest, p.dataOutput.value, p.subPaths, p.tree.branches) && BuiltInOrder(p.subPaths, p.begin, p.end - 1)
  }

  /** A forest, with the log of its outputs in the order in which they became known. */
  ghost predicate Forest(net: Netlist, capture: nat, rank: nat -> nat, forest: set<TimingPath>, log: seq<TimingPath>)
    requires net.Valid() && capture < |net.periods|
    reads forest`tree, forest`begin, forest`end, forest`subPaths, forest`precalculated
    reads forest`dataOutput, forest`launchOffset, forest`minLength, forest`maxLength
  {
    (forall p {:trigger Shaped(net, capture, rank, forest, log, p)} :: p in forest ==>
      Shaped(net, capture, rank, forest, log, p)) &&
    (forall p :: p in log ==> p in forest && p.precalculated == null && p.subPaths != [])
  }

  lemma StaysShaped(net: Netlist, capture: nat, rank: nat -> nat, forest: set<TimingPath>, log: seq<TimingPath>,
                    more: set<TimingPath>, longer: seq<TimingPath>, p: TimingPath)
    requires net.Valid() && capture < |net.periods| && p in forest && forest <= more && log <= longer
    requires Shaped(net, capture, rank, forest, log, p)
    ensures Shaped(net, capture, rank, more, longer, p)
  {
    assert longer[..p.begin] == log[..p.begin];
  }

  lemma ForestGrows(net: Netlist, capture: nat, rank: nat -> nat, forest: set<TimingPath>, log: seq<TimingPath>,
                    p: TimingPath, longer: seq<TimingPath>)
    requires net.Valid() && capture < |net.periods| && Forest(net, capture, rank, forest, log)
    requires longer == log || (longer == log + [p] && p.precalculated == null && p.subPaths != [])
    requires Shaped(net, capture, rank, forest + {p}, longer, p)
    ensures Forest(net, capture, rank, forest + {p}, longer)
  {
    forall q | q in forest
      ensures Shaped(net, capture, rank, forest + {p}, longer, q)
    {
      StaysShaped(net, capture, rank, forest, log, forest + {p}, longer, q);
    }
  }

  // ---------------------------------------------------------------------------
  // Building the forest of one capture domain.
  // ---------------------------------------------------------------------------

  /** The clock of a register, or none if no pin has a clock or two pins differ. */
  method LaunchClock(pins: seq<Option<nat>>) returns (launch: Option<nat>)
    ensures launch.Some? ==> launch in pins && forall c :: c in pins ==> c == None || c == launch
    ensures launch.None? ==> !exists clock: nat :: Some(clock) in pins && forall c :: c in pins ==>
              c == None || c == Some(clock)
  {
    launch := None;
    for k := 0 to |pins|
      invariant launch.Some? ==> launch in pins[..k]
      invariant forall c :: c in pins[..k] ==> c == None || c == launch
    {
      assert pins[..k + 1] == pins[..k] + [pins[k]];
      if launch.Some? && pins[k].Some? && launch != pins[k] {
        assert launch in pins && pins[k] in pins;
        return None;
      }
      if pins[k].Some? {
        launch := pins[k];
      }
    }
    assert pins[..|pins|] == pins;
  }

  ghost predicate BranchesFitPins(net: Netlist, capture: nat, out: Output, branches: seq<Branch>)
    requires net.Valid() && capture < |net.periods| && out.inst < |net.insts|
  {
    forall k :: 0 <= k < |branches| ==>
      branches[k].pin in net.insts[out.inst].inputs && branches[k].delay == net.Arc(branches[k].pin, out) &&
      Fits(net, capture, branches[k].pin, branches[k].tree)
  }

  // ---------------------------------------------------------------------------
  // The forest of one capture clock, with its endpoints.
  // ---------------------------------------------------------------------------

  class CaptureDomain {
    const capture: nat
    const endpoints: seq<InputPin>
    const paths: seq<TimingPath>
    const constrained: seq<bool>
    ghost const forest: set<TimingPath>
    ghost const log: seq<TimingPath>
    ghost const marks: seq<nat>                // how many outputs were known before each endpoint, and at last

    constructor (capture: nat, endpoints: seq<InputPin>, paths: seq<TimingPath>, constrained: seq<bool>,
                 ghost forest: set<TimingPath>, ghost log: seq<TimingPath>, ghost marks: seq<nat>)
      ensures this.capture == capture && this.endpoints == endpoints && this.paths == paths
      ensures this.constrained == constrained
      ensures this.forest == forest && this.log == log && this.marks == marks
    {
      this.capture, this.endpoints, this.paths, this.constrained := capture, endpoints, paths, constrained;
      this.forest, this.log, this.marks := forest, log, marks;
    }

    ghost predicate Valid(net: Netlist, rank: nat -> nat)
      requires net.Valid()
      reads forest`tree, forest`begin, forest`end, forest`subPaths, forest`precalculated
      reads forest`dataOutput, forest`launchOffset, forest`minLength, forest`maxLength
    {
      capture < |net.periods| && |paths| == |endpoints| && Forest(net, capture, rank, forest, log) &&
      AreEndpoints(net, capture, rank, forest, endpoints, paths, constrained, marks) && marks[|paths|] == |log|
    }
  }

  /** The endpoints that are done: built one after the other, unconstrained where nothing launches into them. */
  ghost predicate AreEndpoints(net: Netlist, capture: nat, rank: nat -> nat, forest: set<TimingPath>,
                               endpoints: seq<InputPin>, paths: seq<TimingPath>, constrained: seq<bool>,
                               marks: seq<nat>)
    requires net.Valid() && capture < |net.periods| && |paths| <= |endpoints|
    reads forest`begin, forest`end
  {
    |constrained| == |paths| && |marks| == |paths| + 1 && marks[0] == 0 &&
    forall i :: 0 <= i < |paths| ==>
      IsEndpoint(net, capture, rank, forest, endpoints[i], paths[i], constrained[i], marks[i], marks[i + 1])
  }

  ghost predicate IsEndpoint(net: Netlist, capture: nat, rank: nat -> nat, forest: set<TimingPath>,
                             endpoint: InputPin, path: TimingPath, constrained: bool, mark: nat, next: nat)
    requires net.Valid() && capture < |net.periods|
    reads forest`begin, forest`end
  {
    path.dataIn == endpoint &&
    (constrained ==> path in forest && path.begin == mark && path.end == next) &&
    (!constrained ==> mark == next) &&
    (net.RanksGates(rank) ==> (constrained <==> Build(net, capture, endpoint, {}).Some?))
  }

  /** One data pin is captured by two clocks. */
  ghost predicate Ambiguous(inputs: seq<seq<InputPin>>) {
    exists a, b, pin :: 0 <= a < b < |inputs| && pin in inputs[a] && pin in inputs[b]
  }

  /** Whether no data pin has two capture clocks; each pin is filed under the first clock that claims it. */
  method CapturesAreUnique(inputs: seq<seq<InputPin>>) returns (unique: bool)
    ensures unique <==> !Ambiguous(inputs)
  {
    var captures: map<InputPin, nat> := map[];
    for clock := 0 to |inputs|
      invariant forall pin :: pin in captures <==> exists a :: 0 <= a < clock && pin in inputs[a]
      invariant forall a, pin :: 0 <= a < clock && pin in inputs[a] ==> captures[pin] == a
    {
      for i := 0 to |inputs[clock]|
        invariant forall pin :: pin in captures <==>
                    pin in inputs[clock][..i] || exists a :: 0 <= a < clock && pin in inputs[a]
        invariant forall a, pin :: 0 <= a < clock && pin in inputs[a] ==> captures[pin] == a
        invariant forall pin :: pin in inputs[clock][..i] ==> captures[pin] == clock
      {
        var pin := inputs[clock][i];
        assert inputs[clock][..i + 1] == inputs[clock][..i] + [pin];
        if pin in captures && captures[pin] != clock {
          assert pin in inputs[clock];
          return false;
        }
        captures := captures[pin := clock];
      }
      assert inputs[clock][..|inputs[clock]|] == inputs[clock];
    }
    forall a, b, pin | 0 <= a < b < |inputs| && pin in inputs[a]
      ensures pin !in inputs[b]
    {
      assert captures[pin] == a;
    }
    return true;
  }

  class Timings {
    const net: Netlist
    ghost const rank: nat -> nat               // a measure that shows, if it fits, that the netlist has no cycles
    var captureClock: nat
    var outputs: map<Output, TimingPath>
    var locked: set<nat>                       // the instances whose lock is held
    var clockedInputs: seq<CaptureDomain>      // the finished forests, one for each clock
    ghost var forest: set<TimingPath>
    ghost var log: seq<TimingPath>

    ghost predicate Valid()
      reads this, forest
    {
      net.Valid() && captureClock < |net.periods| && Forest(net, captureClock, rank, forest, log) &&
      forall out :: out in outputs ==> outputs[out] in log && outputs[out].dataOutput == Some(out)
    }

    ghost predicate InputsFit(out: Output)
      requires net.Valid() && out.inst < |net.insts|
      reads this`locked
    {
      forall k :: 0 <= k < |net.insts[out.inst].inputs| ==> LocksFit(net.insts[out.inst].inputs[k])
    }

    ghost predicate LocksFit(pin: InputPin)
      requires net.Valid()
      reads this`locked
    {
      net.RanksGates(rank) ==> LocksAbove(net, rank, pin, locked)
    }

    constructor (net: Netlist, ghost rank: nat -> nat)
      ensures this.net == net && this.rank == rank && locked == {} && clockedInputs == []
    {
      this.net, this.rank, captureClock := net, rank, 0;
      outputs, locked, forest, log := map[], {}, {}, [];
      clockedInputs := [];
    }

    /**
     Traces the paths that end in `p`. It always terminates, releases every lock that it
     takes, and leaves no trace when it fails.
     */
    method RecurseDataPeers(p: TimingPath) returns (ok: bool)
      requires Valid() && p !in forest && p.subPaths == [] && p.precalculated == null && p.launchOffset == 0
      requires LocksFit(p.dataIn)
      modifies this`outputs, this`locked, this`forest, this`log, p
      ensures Valid() && locked == old(locked) && old(forest) <= forest && fresh(forest - old(forest) - {p})
      ensures old(log) <= log
      ensures ok ==>
                p in forest && p.begin == |old(log)| && p.end == |log| &&
                  Shaped(net, captureClock, rank, forest, log, p)
      ensures !ok ==> outputs == old(outputs) && forest == old(forest) && log == old(log)
      ensures net.RanksGates(rank) ==> (ok <==> Build(net, captureClock, p.dataIn, {}).Some?)
      decreases |Unlocked(net, locked)|, 2
    {
      var curr := net.DriverOf(p.dataIn);
      if curr == None || !net.Traced(curr.value) {
        return false;
      }
      var out := curr.value;
      if out.inst in locked {
        return false;
      }
      if out in outputs {
        Share(p, out);
        return true;
      }
      p.dataOutput := curr;
      p.begin := |log|;
      if net.IsLeaf(out.inst) {
        ok := Launch(p, out);
        return;
      }
      ok := TraceGate(p, out);
    }

    /** A gate is locked while its inputs are traced. */
    method TraceGate(p: TimingPath, out: Output) returns (ok: bool)
      requires Valid() && p !in forest && p.subPaths == [] && p.precalculated == null && p.begin == |log|
      requires LocksFit(p.dataIn)
      requires p.dataOutput == Some(out) && net.DriverOf(p.dataIn) == Some(out) && net.IsGate(out)
      requires out.inst !in locked
      modifies this`outputs, this`locked, this`forest, this`log, p
      ensures Valid() && locked == old(locked) && old(forest) <= forest && fresh(forest - old(forest) - {p})
      ensures old(log) <= log
      ensures ok ==>
                p in forest && p.begin == |old(log)| && p.end == |log| &&
                  Shaped(net, captureClock, rank, forest, log, p)
      ensures !ok ==> outputs == old(outputs) && forest == old(forest) && log == old(log)
      ensures net.RanksGates(rank) ==> (ok <==> Build(net, captureClock, p.dataIn, {}).Some?)
      decreases |Unlocked(net, locked)|, 1
    {
      var minimum, maximum;
      ghost var branches;
      minimum, maximum, branches := BuildLocked(p, out);
      if p.subPaths == [] {
        p.dataOutput := None;
        return false;
      }
      Finish(p, out, minimum, maximum, branches);
      Publish(p, out);
      return true;
    }

    method BuildLocked(p: TimingPath, out: Output) returns (minimum: int, maximum: int, ghost branches: seq<Branch>)
      requires Valid() && p !in forest && p.subPaths == [] && p.precalculated == null && p.begin == |log|
      requires LocksFit(p.dataIn)
      requires p.dataOutput == Some(out) && net.DriverOf(p.dataIn) == Some(out) && net.IsGate(out)
      requires out.inst !in locked
      modifies this`outputs, this`locked, this`forest, this`log, p`subPaths
      ensures Valid() && locked == old(locked) && old(forest) <= forest && p !in forest && fresh(forest - old(forest))
      ensures old(log) <= log
      ensures if p.subPaths == []
              then outputs == old(outputs) && forest == old(forest) && log == old(log) &&
                   (net.RanksGates(rank) ==> Build(net, captureClock, p.dataIn, {}) == None)
              else IsGateOf(forest, p.subPaths, p.begin, |log|, p.dataIn, out, branches, minimum, maximum)
      decreases |Unlocked(net, locked)|, 0
    {
      LockingShrinks(net, locked, out.inst);
      LocksFitInputs(p.dataIn, out);
      locked := locked + {out.inst};
      minimum, maximum, branches := BuildSubPaths(p, out);
      locked := locked - {out.inst};
      assert locked == old(locked);
    }

    lemma LocksFitInputs(pin: InputPin, out: Output)
      requires net.Valid() && LocksFit(pin) && net.DriverOf(pin) == Some(out) && net.IsGate(out)
      ensures net.RanksGates(rank) ==> forall input :: input in net.insts[out.inst].inputs ==>
                LocksAbove(net, rank, input, locked + {out.inst})
    {
      if net.RanksGates(rank) {
        forall input | input in net.insts[out.inst].inputs
          ensures LocksAbove(net, rank, input, locked + {out.inst})
        {
          LocksStayAbove(net, rank, pin, out, input, locked);
        }
      }
    }

    /** What the sub-paths stand for so far, and what is known of their lengths. */
    ghost predicate Partial(built: set<TimingPath>, subs: seq<TimingPath>, begin: nat, end: nat, out: Output, k: nat,
                            branches: seq<Branch>, minimum: int, maximum: int)
      requires net.Valid() && captureClock < |net.periods| && out.inst < |net.insts|
      requires k <= |net.insts[out.inst].inputs|
      reads this`captureClock, subs`begin, subs`end, built`tree
    {
      Subs(net, built, out, subs, branches) && BuiltInOrder(subs, begin, end) &&
      minimum + 1 == LeastOf(branches, Length) && maximum + 1 == WorstOf(branches, Length) &&
      BranchesFitPins(net, captureClock, out, branches) &&
      (net.RanksGates(rank) ==>
        branches == Branches(net, captureClock, out, net.insts[out.inst].inputs[..k], {out.inst}))
    }

    /** What the sub-paths stand for when all inputs are done and some succeeded. */
    ghost predicate IsGateOf(built: set<TimingPath>, subs: seq<TimingPath>, begin: nat, end: nat, pin: InputPin,
                             out: Output, branches: seq<Branch>, minimum: int, maximum: int)
      requires net.Valid() && captureClock < |net.periods| && out.inst < |net.insts|
      reads this`captureClock, subs`begin, subs`end, built`tree
    {
      Subs(net, built, out, subs, branches) && BuiltInOrder(subs, begin, end) &&
      minimum + 1 == LeastOf(branches, Length) && maximum + 1 == WorstOf(branches, Length) &&
      Fits(net, captureClock, pin, Gate(branches)) &&
      (net.RanksGates(rank) ==> Build(net, captureClock, pin, {}) == Some(Gate(branches)))
    }

    /** Traces the inputs of a gate in order; the sub-paths that fail are dropped. */
    method BuildSubPaths(p: TimingPath, out: Output) returns (minimum: int, maximum: int, ghost branches: seq<Branch>)
      requires Valid() && p !in forest && p.subPaths == [] && p.precalculated == null && p.begin == |log|
      requires p.dataOutput == Some(out) && net.DriverOf(p.dataIn) == Some(out) && net.IsGate(out)
      requires InputsFit(out)
      modifies this`outputs, this`locked, this`forest, this`log, p`subPaths
      ensures Valid() && locked == old(locked) && old(forest) <= forest && p !in forest && fresh(forest - old(forest))
      ensures old(log) <= log
      ensures if p.subPaths == []
              then outputs == old(outputs) && forest == old(forest) && log == old(log) &&
                   (net.RanksGates(rank) ==> Build(net, captureClock, p.dataIn, {}) == None)
              else IsGateOf(forest, p.subPaths, p.begin, |log|, p.dataIn, out, branches, minimum, maximum)
      decreases |Unlocked(net, locked)|, 6
    {
      minimum, maximum, branches := TryInputs(p, out);
      AllInputsDone(p, out, branches, minimum, maximum);
    }

    method TryInputs(p: TimingPath, out: Output) returns (minimum: int, maximum: int, ghost branches: seq<Branch>)
      requires Valid() && p !in forest && p.subPaths == [] && p.precalculated == null && p.begin == |log|
      requires p.dataOutput == Some(out) && net.DriverOf(p.dataIn) == Some(out) && net.IsGate(out)
      requires InputsFit(out)
      modifies this`outputs, this`locked, this`forest, this`log, p`subPaths
      ensures Valid() && locked == old(locked) && old(forest) <= forest && p !in forest && fresh(forest - old(forest))
      ensures old(log) <= log
      ensures Partial(forest, p.subPaths, p.begin, |log|, out, |net.insts[out.inst].inputs|, branches, minimum, maximum)
      ensures p.subPaths == [] ==> outputs == old(outputs) && forest == old(forest) && log == old(log)
      decreases |Unlocked(net, locked)|, 5
    {
      var inputs := net.insts[out.inst].inputs;
      minimum, maximum, branches := MAX_MIN_LENGTH, -1, [];
      for k := 0 to |inputs|
        invariant Valid() && locked == old(locked) && old(forest) <= forest && p !in forest
        invariant fresh(forest - old(forest)) && old(log) <= log && InputsFit(out)
        invariant Partial(forest, p.subPaths, p.begin, |log|, out, k, branches, minimum, maximum)
        invariant p.subPaths == [] ==> outputs == old(outputs) && forest == old(forest) && log == old(log)
      {
        minimum, maximum, branches := TryInput(p, out, k, minimum, maximum, branches);
      }
    }

    lemma AllInputsDone(p: TimingPath, out: Output, branches: seq<Branch>, minimum: int, maximum: int)
      requires Valid() && net.DriverOf(p.dataIn) == Some(out) && net.IsGate(out)
      requires Partial(forest, p.subPaths, p.begin, |log|, out, |net.insts[out.inst].inputs|, branches, minimum,
                 maximum)
      ensures p.subPaths == [] ==> net.RanksGates(rank) ==> Build(net, captureClock, p.dataIn, {}) == None
      ensures p.subPaths != [] ==>
                IsGateOf(forest, p.subPaths, p.begin, |log|, p.dataIn, out, branches, minimum, maximum)
    {
      var inputs := net.insts[out.inst].inputs;
      assert inputs[..|inputs|] == inputs;
      assert {} + {out.inst} == {out.inst};
    }

    method TryInput(p: TimingPath, out: Output, k: nat, minimum: int, maximum: int, ghost branches: seq<Branch>)
      returns (lower: int, higher: int, ghost more: seq<Branch>)
      requires Valid() && p !in forest && p.precalculated == null
      requires p.dataOutput == Some(out) && net.DriverOf(p.dataIn) == Some(out) && net.IsGate(out)
      requires k < |net.insts[out.inst].inputs| && LocksFit(net.insts[out.inst].inputs[k])
      requires Partial(forest, p.subPaths, p.begin, |log|, out, k, branches, minimum, maximum)
      modifies this`outputs, this`locked, this`forest, this`log, p`subPaths
      ensures Valid() && locked == old(locked) && old(forest) <= forest && p !in forest && fresh(forest - old(forest))
      ensures old(log) <= log
      ensures Partial(forest, p.subPaths, p.begin, |log|, out, k + 1, more, lower, higher)
      ensures p.subPaths == old(p.subPaths) ==> outputs == old(outputs) && forest == old(forest) && log == old(log)
      ensures |p.subPaths| >= |old(p.subPaths)|
      decreases |Unlocked(net, locked)|, 4
    {
      ghost var before, subs, end := forest, p.subPaths, |log|;
      ghost var arc := net.Arc(net.insts[out.inst].inputs[k], out);
      var ok, input := TraceInput(p, net.insts[out.inst].inputs[k], arc);
      InputDone(ok, p.dataIn, out, k, before, subs, p.begin, end, input, branches, minimum, maximum);
      lower, higher, more := minimum, maximum, branches;
      if ok {
        lower := Min(minimum, input.minLength);
        higher := Max(maximum, input.maxLength);
        more := branches + [Branch(input.dataIn, net.Arc(input.dataIn, out), input.tree)];
      }
    }

    /** One input: its path is added, traced, and removed again if nothing launches into it. */
    method TraceInput(p: TimingPath, pin: InputPin, ghost arc: int) returns (ok: bool, input: TimingPath)
      requires Valid() && p !in forest && LocksFit(pin)
      modifies this`outputs, this`locked, this`forest, this`log, p`subPaths
      ensures Valid() && locked == old(locked) && old(forest) <= forest && p !in forest && fresh(forest - old(forest))
      ensures old(log) <= log
      ensures fresh(input) && input.dataIn == pin && input.arc == arc
      ensures ok ==>
                p.subPaths == old(p.subPaths) + [input] && input in forest && input.begin == |old(log)| &&
                  input.end == |log| &&
                     Shaped(net, captureClock, rank, forest, log, input)
      ensures !ok ==>
                p.subPaths == old(p.subPaths) && outputs == old(outputs) && forest == old(forest) && log == old(log)
      ensures net.RanksGates(rank) ==> (ok <==> Build(net, captureClock, pin, {}).Some?)
      decreases |Unlocked(net, locked)|, 3
    {
      input := new TimingPath(pin, arc);
      p.subPaths := p.subPaths + [input];
      ok := RecurseDataPeers(input);
      if !ok {
        p.subPaths := p.subPaths[..|p.subPaths| - 1];
      }
    }

    lemma InputDone(ok: bool, pin: InputPin, out: Output, k: nat, before: set<TimingPath>, subs: seq<TimingPath>,
                    begin: nat, end: nat, input: TimingPath, branches: seq<Branch>, minimum: int, maximum: int)
      requires Valid() && net.DriverOf(pin) == Some(out) && net.IsGate(out) && k < |net.insts[out.inst].inputs|
      requires Partial(before, subs, begin, end, out, k, branches, minimum, maximum)
      requires input.dataIn == net.insts[out.inst].inputs[k] && input.arc == net.Arc(input.dataIn, out)
      requires net.RanksGates(rank) ==> (ok <==> Build(net, captureClock, input.dataIn, {}).Some?)
      requires ok ==> before <= forest && input in forest && Shaped(net, captureClock, rank, forest, log, input)
      requires ok ==> input.begin == end && input.end == |log|
      requires !ok ==> before == forest && end == |log|
      ensures ok ==>
                Partial(forest, subs + [input], begin, |log|, out, k + 1,
                        branches + [Branch(input.dataIn, net.Arc(input.dataIn, out), input.tree)],
                        Min(minimum, input.minLength), Max(maximum, input.maxLength))
      ensures !ok ==> Partial(forest, subs, begin, |log|, out, k + 1, branches, minimum, maximum)
    {
      if ok {
        PartialGrows(pin, out, k, before, subs, begin, input, branches, minimum, maximum);
      } else {
        PartialStays(pin, out, k, subs, begin, branches, minimum, maximum);
      }
    }

    lemma PartialStays(pin: InputPin, out: Output, k: nat, subs: seq<TimingPath>, begin: nat, branches: seq<Branch>,
                       minimum: int, maximum: int)
      requires Valid() && net.DriverOf(pin) == Some(out) && net.IsGate(out) && k < |net.insts[out.inst].inputs|
      requires Partial(forest, subs, begin, |log|, out, k, branches, minimum, maximum)
      requires net.RanksGates(rank) ==> Build(net, captureClock, net.insts[out.inst].inputs[k], {}) == None
      ensures Partial(forest, subs, begin, |log|, out, k + 1, branches, minimum, maximum)
    {
      BranchStep(pin, out, k, branches, None);
    }

    lemma PartialGrows(pin: InputPin, out: Output, k: nat, before: set<TimingPath>, subs: seq<TimingPath>,
                       begin: nat, input: TimingPath, branches: seq<Branch>, minimum: int, maximum: int)
      requires Valid() && net.DriverOf(pin) == Some(out) && net.IsGate(out) && k < |net.insts[out.inst].inputs|
      requires before <= forest && input in forest && Shaped(net, captureClock, rank, forest, log, input)
      requires input.dataIn == net.insts[out.inst].inputs[k] && input.arc == net.Arc(input.dataIn, out)
      requires input.end == |log|
      requires Partial(before, subs, begin, input.begin, out, k, branches, minimum, maximum)
      ensures Partial(forest, subs + [input], begin, |log|, out, k + 1,
                      branches + [Branch(input.dataIn, net.Arc(input.dataIn, out), input.tree)],
                      Min(minimum, input.minLength), Max(maximum, input.maxLength))
    {
      assert input.dataIn in net.insts[out.inst].inputs;
      OneMoreBranch(branches, input.dataIn, out, input.tree);
      OneMoreSub(subs, input, branches, out, begin);
      BranchStep(pin, out, k, branches, Some(input.tree));
    }

    lemma BranchStep(pin: InputPin, out: Output, k: nat, branches: seq<Branch>, built: Option<Tree>)
      requires Valid() && net.DriverOf(pin) == Some(out) && net.IsGate(out) && k < |net.insts[out.inst].inputs|
      requires net.RanksGates(rank) ==>
                 branches == Branches(net, captureClock, out, net.insts[out.inst].inputs[..k], {out.inst}) &&
                 Build(net, captureClock, net.insts[out.inst].inputs[k], {}) == built
      ensures net.RanksGates(rank) ==>
                Branches(net, captureClock, out, net.insts[out.inst].inputs[..k + 1], {out.inst}) ==
                if built.None? then branches
                else branches + [Branch(net.insts[out.inst].inputs[k], net.Arc(net.insts[out.inst].inputs[k], out),
                  built.value)]
    {
      if net.RanksGates(rank) {
        var inputs := net.insts[out.inst].inputs;
        LocksStayAbove(net, rank, pin, out, inputs[k], {});
        assert {} + {out.inst} == {out.inst};
        LocksDoNotMatter(net, rank, captureClock, inputs[k], {}, {out.inst});
        assert inputs[..k + 1][..k] == inputs[..k];
      }
    }

    lemma OneMoreBranch(branches: seq<Branch>, pin: InputPin, out: Output, tree: Tree)
      requires out.inst < |net.insts|
      ensures var more := branches + [Branch(pin, net.Arc(pin, out), tree)];
              LeastOf(more, Length) == Min(LeastOf(branches, Length), Least(tree, Length) + 1) &&
              WorstOf(more, Length) == Max(WorstOf(branches, Length), Worst(tree, Length) + 1)
    {
      var more := branches + [Branch(pin, net.Arc(pin, out), tree)];
      assert more[..|more| - 1] == branches;
    }

    lemma OneMoreSub(subs: seq<TimingPath>, input: TimingPath, branches: seq<Branch>, out: Output, begin: nat)
      requires Valid() && input in forest && out.inst < |net.insts| && input.end == |log|
      requires input.arc == net.Arc(input.dataIn, out)
      requires Subs(net, forest, out, subs, branches) && BuiltInOrder(subs, begin, input.begin)
      ensures Subs(net, forest, out, subs + [input],
                   branches + [Branch(input.dataIn, net.Arc(input.dataIn, out), input.tree)])
      ensures BuiltInOrder(subs + [input], begin, |log|)
    {
    }

    /** A known output is shared, not traced again. */
    method Share(p: TimingPath, out: Output)
      requires Valid() && p !in forest && p.subPaths == [] && out in outputs && net.DriverOf(p.dataIn) == Some(out)
      modifies this`forest, p
      ensures Valid() && forest == old(forest) + {p} && p.begin == |log| && p.end == |log|
      ensures Shaped(net, captureClock, rank, forest, log, p)
    {
      Refer(p, outputs[out]);
      AddPath(p);
    }

    method Refer(p: TimingPath, known: TimingPath)
      requires Valid() && p !in forest && p.subPaths == [] && known in log && net.DriverOf(p.dataIn) == known.dataOutput
      modifies p
      ensures Valid() && p.begin == |log| && p.end == |log| && Shaped(net, captureClock, rank, forest + {p}, log, p)
    {
      p.precalculated := known;
      p.minLength := known.minLength;
      p.maxLength := known.maxLength;
      p.tree, p.begin, p.end := known.tree, |log|, |log|;
      SharedIsShaped(p, known);
    }

    /** A finished path that makes no new output known. */
    ghost method AddPath(p: TimingPath)
      requires Valid() && p !in forest && Shaped(net, captureClock, rank, forest + {p}, log, p)
      modifies this`forest
      ensures Valid() && forest == old(forest) + {p} && Shaped(net, captureClock, rank, forest, log, p)
    {
      ForestGrows(net, captureClock, rank, forest, log, p, log);
      forest := forest + {p};
    }

    lemma SharedIsShaped(p: TimingPath, known: TimingPath)
      requires Valid() && p !in forest && known in log && net.DriverOf(p.dataIn) == known.dataOutput
      requires p.precalculated == known && p.subPaths == [] && p.tree == known.tree && p.begin == p.end == |log|
      requires p.minLength == known.minLength && p.maxLength == known.maxLength
      ensures Shaped(net, captureClock, rank, forest + {p}, log, p)
    {
      assert Shaped(net, captureClock, rank, forest, log, known);
      assert log[..|log|] == log;
      assert Build(net, captureClock, p.dataIn, {}) == Build(net, captureClock, known.dataIn, {});
    }

    /**
     A register launches at its clock's edge, unless it has no clock or an unrelated one; a buffer launches at
     once.
     */
    method LaunchOffset(i: nat) returns (offset: Option<int>)
      requires net.Valid() && captureClock < |net.periods| && i < |net.insts|
      ensures offset == net.LaunchOf(i, captureClock)
    {
      if !net.insts[i].clocked {
        assert net.IsLaunch(i, captureClock, 0);
        return Some(0);
      }
      var launch := LaunchClock(net.insts[i].clockPins);
      if launch == None || (launch.value, captureClock) in net.asynchronous {
        NoLaunch(i, launch);
        return None;
      }
      assert net.IsLaunchClock(i, launch.value);
      var capture := net.periods[captureClock];
      offset := Some(capture - Gcd(net.periods[launch.value], capture));
      assert net.IsLaunch(i, captureClock, offset.value);
      LaunchIsUnique(net, i, captureClock, offset.value, net.LaunchOf(i, captureClock).value);
    }

    lemma NoLaunch(i: nat, launch: Option<nat>)
      requires net.Valid() && captureClock < |net.periods| && i < |net.insts| && net.insts[i].clocked
      requires launch.Some? ==> net.IsLaunchClock(i, launch.value) && (launch.value, captureClock) in net.asynchronous
      requires launch.None? ==> !exists clock: nat :: net.IsLaunchClock(i, clock)
      ensures net.LaunchOf(i, captureClock) == None
    {
    }

    /** Tracing stops at a register or a buffer; if that launches nothing, the path fails. */
    method Launch(p: TimingPath, out: Output) returns (ok: bool)
      requires Valid() && p !in forest && p.subPaths == [] && p.precalculated == null && p.launchOffset == 0
      requires p.dataOutput == Some(out) && net.DriverOf(p.dataIn) == Some(out) && net.Traced(out)
      requires net.IsLeaf(out.inst)
      requires p.begin == |log|
      modifies this`forest, p
      ensures Valid() && p.begin == |log|
      ensures ok ==> forest == old(forest) + {p} && p.end == |log| && Shaped(net, captureClock, rank, forest, log, p)
      ensures !ok ==> forest == old(forest)
      ensures ok <==> net.LaunchOf(out.inst, captureClock).Some?
    {
      var offset := LaunchOffset(out.inst);
      if offset == None {
        p.dataOutput := None;
        return false;
      }
      BecomeLeaf(p, out, offset.value);
      AddPath(p);
      return true;
    }

    method BecomeLeaf(p: TimingPath, out: Output, offset: int)
      requires Valid() && p !in forest && p.subPaths == [] && p.precalculated == null && p.begin == |log|
      requires p.dataOutput == Some(out) && net.DriverOf(p.dataIn) == Some(out) && net.Traced(out)
      requires net.IsLeaf(out.inst)
      requires net.LaunchOf(out.inst, captureClock) == Some(offset)
      modifies p`launchOffset, p`minLength, p`maxLength, p`tree, p`end
      ensures Valid() && p.end == |log| && Shaped(net, captureClock, rank, forest + {p}, log, p)
    {
      p.launchOffset := offset;
      p.minLength, p.maxLength := 0, 0;
      p.tree, p.end := Leaf(p.launchOffset), |log|;
      LeafIsShaped(p, out);
    }

    lemma LeafIsShaped(p: TimingPath, out: Output)
      requires Valid() && p !in forest && p.subPaths == [] && p.precalculated == null && p.minLength == p.maxLength == 0
      requires p.dataOutput == Some(out) && net.DriverOf(p.dataIn) == Some(out) && net.Traced(out)
      requires net.IsLeaf(out.inst)
      requires p.tree == Leaf(p.launchOffset) && p.begin == p.end == |log|
      requires net.LaunchOf(out.inst, captureClock) == Some(p.launchOffset)
      ensures Shaped(net, captureClock, rank, forest + {p}, log, p)
    {
    }

    lemma GateIsShaped(p: TimingPath, out: Output, branches: seq<Branch>)
      requires net.Valid() && captureClock < |net.periods| && p !in forest && p.precalculated == null
      requires p.subPaths != []
      requires p.dataOutput == Some(out) && net.DriverOf(p.dataIn) == Some(out)
      requires Subs(net, forest, out, p.subPaths, branches) && BuiltInOrder(p.subPaths, p.begin, |log|)
      requires p.begin <= |log|
      requires p.tree == Gate(branches) && p.end == |log| + 1 && Fits(net, captureClock, p.dataIn, p.tree)
      requires p.minLength == Least(p.tree, Length) && p.maxLength == Worst(p.tree, Length)
      requires Exact(net, captureClock, rank, p)
      ensures Shaped(net, captureClock, rank, forest + {p}, log + [p], p)
    {
    }

    /** The lengths of an output follow from those of its sub-paths. */
    method Finish(p: TimingPath, out: Output, minimum: int, maximum: int, ghost branches: seq<Branch>)
      requires Valid() && p !in forest && p.precalculated == null && p.subPaths != []
      requires p.dataOutput == Some(out) && net.DriverOf(p.dataIn) == Some(out) && net.IsGate(out)
      requires p.begin <= |log|
      requires IsGateOf(forest, p.subPaths, p.begin, |log|, p.dataIn, out, branches, minimum, maximum)
      modifies p`minLength, p`maxLength, p`tree, p`end
      ensures Valid() && p.end == |log| + 1 && Shaped(net, captureClock, rank, forest + {p}, log + [p], p)
    {
      p.minLength := minimum + 1;
      p.maxLength := maximum + 1;
      p.tree, p.end := Gate(branches), |log| + 1;
      GateIsShaped(p, out, branches);
    }

    /** The output becomes known. */
    method Publish(p: TimingPath, out: Output)
      requires Valid() && p !in forest && p.precalculated == null && p.subPaths != [] && p.dataOutput == Some(out)
      requires Shaped(net, captureClock, rank, forest + {p}, log + [p], p)
      modifies this`outputs, this`forest, this`log
      ensures Valid() && forest == old(forest) + {p} && log == old(log) + [p]
      ensures Shaped(net, captureClock, rank, forest, log, p)
    {
      ForestGrows(net, captureClock, rank, forest, log, p, log + [p]);
      if out !in outputs {
        outputs := outputs[out := p];
      }
      log := log + [p];
      forest := forest + {p};
    }

    /** The forest of one capture clock. Nothing is shared with the forest of another. */
    method BuildDomain(capture: nat, endpoints: seq<InputPin>) returns (domain: CaptureDomain)
      requires net.Valid() && capture < |net.periods| && locked == {}
      modifies this`captureClock, this`outputs, this`locked, this`forest, this`log
      ensures locked == {} && fresh(domain) && fresh(domain.forest) && domain.Valid(net, rank)
      ensures domain.capture == capture && domain.endpoints == endpoints
    {
      captureClock, outputs := capture, map[];
      forest, log := {}, [];
      var paths, constrained := [], [];
      ghost var marks: seq<nat> := [0];
      for i := 0 to |endpoints|
        invariant Valid() && captureClock == capture && locked == {} && fresh(forest)
        invariant |paths| == i && AreEndpoints(net, capture, rank, forest, endpoints, paths, constrained, marks)
        invariant marks[i] == |log|
      {
        ghost var before := forest;
        var ok, path := BuildEndpoint(endpoints[i]);
        OneMoreEndpoint(before, endpoints, paths, constrained, marks, path, ok);
        paths, constrained := paths + [path], constrained + [ok];
        marks := marks + [|log|];
      }
      domain := new CaptureDomain(capture, endpoints, paths, constrained, forest, log, marks);
      outputs := map[];
    }

    method BuildEndpoint(endpoint: InputPin) returns (ok: bool, path: TimingPath)
      requires Valid() && locked == {}
      modifies this`outputs, this`locked, this`forest, this`log
      ensures Valid() && locked == {} && old(forest) <= forest && fresh(forest - old(forest))
      ensures IsEndpoint(net, captureClock, rank, forest, endpoint, path, ok, |old(log)|, |log|)
    {
      path := new TimingPath(endpoint, 0);
      ok := RecurseDataPeers(path);
    }

    lemma OneMoreEndpoint(before: set<TimingPath>, endpoints: seq<InputPin>, paths: seq<TimingPath>,
                          constrained: seq<bool>, marks: seq<nat>, path: TimingPath, ok: bool)
      requires Valid() && |paths| < |endpoints| && before <= forest
      requires AreEndpoints(net, captureClock, rank, before, endpoints, paths, constrained, marks)
      requires IsEndpoint(net, captureClock, rank, forest, endpoints[|paths|], path, ok, marks[|paths|], |log|)
      ensures AreEndpoints(net, captureClock, rank, forest, endpoints, paths + [path], constrained + [ok],
                           marks + [|log|])
    {
    }

    /** Builds the forests of all clocks; if a pin has two capture clocks, the earlier forests stay. */
    method MakeTimingsList(inputs: seq<seq<InputPin>>) returns (ok: bool)
      requires net.Valid() && |inputs| == |net.periods| && locked == {}
      modifies this
      ensures locked == {} && (ok <==> !Ambiguous(inputs))
      ensures !ok ==> clockedInputs == old(clockedInputs)
      ensures ok ==> |clockedInputs| == |inputs| && forall c :: 0 <= c < |inputs| ==>
                clockedInputs[c].Valid(net, rank) && clockedInputs[c].capture == c &&
                  clockedInputs[c].endpoints == inputs[c]
      ensures ok ==> Separate(clockedInputs) && forall d :: d in clockedInputs ==> fresh(d.forest)
    {
      ok := CapturesAreUnique(inputs);
      if !ok {
        return;
      }
      var next: seq<CaptureDomain> := [];
      for c := 0 to |inputs|
        invariant |next| == c && locked == {} && Separate(next)
        invariant forall k :: 0 <= k < c ==>
                    next[k].Valid(net, rank) && next[k].capture == k && next[k].endpoints == inputs[k]
        invariant forall k :: 0 <= k < c ==> fresh(next[k].forest)
      {
        var domain := BuildDomain(c, inputs[c]);
        next := next + [domain];
      }
      clockedInputs := next;
    }
  }

  ghost predicate Separate(domains: seq<CaptureDomain>) {
    forall a, b :: 0 <= a < b < |domains| ==> domains[a].forest !! domains[b].forest
  }
}
