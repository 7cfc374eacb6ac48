/** The closure of active wires over tile connections (src/fpga/Device.cpp, rebuildLocalTransitions). */
module ActiveWires {
  import opened Common
  import opened PairClosure

  datatype Wire = Wire(tileType: string, name: string)

  datatype Rule = Rule(fromType: string, toType: string, wirePairs: seq<(string, string)>)

  /** What the loader knows about tile types: which have a crossbar, which are deferred, which wires resolve. */
  datatype Types = Types(known: set<string>, deferred: set<string>, resolvable: set<Wire>)

  function RulePairs(rule: Rule): set<(Wire, Wire)> {
    set p | p in rule.wirePairs :: (Wire(rule.fromType, p.0), Wire(rule.toType, p.1))
  }

  function Connections(rules: seq<Rule>): set<(Wire, Wire)> {
    set r, c | r in rules && c in RulePairs(r) :: c
  }

  function Wires(connections: set<(Wire, Wire)>): set<Wire> {
    (set c | c in connections :: c.0) + (set c | c in connections :: c.1)
  }

  /** A wire of a deferred tile type that both ends' crossbars know about and that resolves to a node. */
  ghost predicate IsSeed(types: Types, rules: seq<Rule>, w: Wire) {
    w.tileType in types.deferred && w in types.resolvable &&
    exists r, p :: r in rules && p in r.wirePairs && r.fromType in types.known && r.toType in types.known &&
                   (w == Wire(r.fromType, p.0) || w == Wire(r.toType, p.1))
  }

  /** One end of a pair that its rule makes a seed. */
  ghost predicate IsSeedOf(types: Types, rule: Rule, k: nat, w: Wire)
    requires k < |rule.wirePairs|
  {
    w.tileType in types.deferred && w in types.resolvable &&
    rule.fromType in types.known && rule.toType in types.known &&
    (w == Wire(rule.fromType, rule.wirePairs[k].0) || w == Wire(rule.toType, rule.wirePairs[k].1))
  }

  ghost predicate IsSeedWithin(types: Types, rule: Rule, n: nat, w: Wire)
    requires n <= |rule.wirePairs|
  {
    exists k :: 0 <= k < n && IsSeedOf(types, rule, k, w)
  }

  method Seeds(types: Types, rules: seq<Rule>) returns (active: set<Wire>)
    ensures forall w :: w in active <==> IsSeed(types, rules, w)
  {
    active := {};
    for i := 0 to |rules|
      invariant forall w :: w in active <==> IsSeed(types, rules[..i], w)
    {
      ghost var before := active;
      active := SeedsOfRule(types, rules[i], active);
      SeedsOfNextRule(types, rules, i, before, active);
    }
    assert rules[..|rules|] == rules;
  }

  method SeedsOfRule(types: Types, rule: Rule, before: set<Wire>) returns (active: set<Wire>)
    ensures forall w :: w in active <==> w in before || IsSeedWithin(types, rule, |rule.wirePairs|, w)
  {
    active := before;
    if rule.fromType !in types.known || rule.toType !in types.known {
      return;
    }
    for j := 0 to |rule.wirePairs|
      invariant forall w :: w in active <==> w in before || IsSeedWithin(types, rule, j, w)
    {
      var pair := rule.wirePairs[j];
      var from, to := Wire(rule.fromType, pair.0), Wire(rule.toType, pair.1);
      NextPair(types, rule, j);
      if rule.fromType in types.deferred && from in types.resolvable {
        active := active + {from};
      }
      if rule.toType in types.deferred && to in types.resolvable {
        active := active + {to};
      }
    }
  }

  lemma NextPair(types: Types, rule: Rule, j: nat)
    requires j < |rule.wirePairs|
    ensures forall w ::
              IsSeedWithin(types, rule, j + 1, w) <==> IsSeedWithin(types, rule, j, w) || IsSeedOf(types, rule, j, w)
  {
  }

  lemma SeedsOfNextRule(types: Types, rules: seq<Rule>, i: nat, before: set<Wire>, after: set<Wire>)
    requires i < |rules|
    requires forall w :: w in before <==> IsSeed(types, rules[..i], w)
    requires forall w :: w in after <==> w in before || IsSeedWithin(types, rules[i], |rules[i].wirePairs|, w)
    ensures forall w :: w in after <==> IsSeed(types, rules[..i + 1], w)
  {
    var rule := rules[i];
    assert rules[..i + 1] == rules[..i] + [rule];
    forall w
      ensures w in after <==> IsSeed(types, rules[..i + 1], w)
    {
      if k: nat :| k < |rule.wirePairs| && IsSeedOf(types, rule, k, w) {
        assert rule in rules[..i + 1] && rule.wirePairs[k] in rule.wirePairs;
      }
      if IsSeed(types, rules[..i], w) {
        SeedsWithin(types, rules[..i], rules[..i + 1], w);
      }
      if IsSeed(types, rules[..i + 1], w) && !IsSeed(types, rules[..i], w) {
        var p :| p in rule.wirePairs && (w == Wire(rule.fromType, p.0) || w == Wire(rule.toType, p.1));
        var k: nat :| k < |rule.wirePairs| && rule.wirePairs[k] == p;
        assert IsSeedOf(types, rule, k, w);
      }
    }
  }

  /** The meaning of the loop: the wires connected to a seed by tile connections, in either direction. */
  ghost predicate Reached(connections: set<(Wire, Wire)>, seeds: set<Wire>, w: Wire) {
    exists s :: s in seeds && Linked(connections, s, w)
  }

  ghost predicate AllReached(connections: set<(Wire, Wire)>, seeds: set<Wire>, active: set<Wire>) {
    forall w :: w in active ==> Reached(connections, seeds, w)
  }

  ghost predicate IsReachedSet(connections: set<(Wire, Wire)>, seeds: set<Wire>, active: set<Wire>) {
    forall w :: w in active <==> Reached(connections, seeds, w)
  }

  ghost predicate Closed(connections: set<(Wire, Wire)>, active: set<Wire>) {
    forall c :: c in connections ==> (c.0 in active <==> c.1 in active)
  }

  /** One rule's share of a pass. */
  method PropagateRule(rule: Rule, active: set<Wire>, ghost connections: set<(Wire, Wire)>, ghost seeds: set<Wire>)
    returns (next: set<Wire>, added: bool)
    requires RulePairs(rule) <= connections
    requires AllReached(connections, seeds, active)
    ensures active <= next <= active + Wires(RulePairs(rule))
    ensures added <==> next != active
    ensures !added ==> Closed(RulePairs(rule), active)
    ensures AllReached(connections, seeds, next)
  {
    next, added := active, false;
    for j := 0 to |rule.wirePairs|
      invariant active <= next <= active + Wires(RulePairs(rule))
      invariant added <==> next != active
      invariant !added ==> forall k :: 0 <= k < j ==>
                  (Wire(rule.fromType, rule.wirePairs[k].0) in active <==>
                    Wire(rule.toType, rule.wirePairs[k].1) in active)
      invariant AllReached(connections, seeds, next)
    {
      var pair := rule.wirePairs[j];
      var from, to := Wire(rule.fromType, pair.0), Wire(rule.toType, pair.1);
      assert (from, to) in RulePairs(rule);
      assert from in Wires(RulePairs(rule)) && to in Wires(RulePairs(rule)) by {
        assert (from, to).0 == from && (from, to).1 == to;
      }
      if from in next || to in next {
        ReachedAcross(connections, seeds, from, to);
        added := added || from !in next || to !in next;
        next := next + {from} + {to};
      }
    }
  }

  lemma ReachedAcross(connections: set<(Wire, Wire)>, seeds: set<Wire>, a: Wire, b: Wire)
    requires (a, b) in connections
    ensures Reached(connections, seeds, a) <==> Reached(connections, seeds, b)
  {
    LinkedPair(connections, a, b);
    LinkedPair(connections, b, a);
    if Reached(connections, seeds, a) {
      var s :| s in seeds && Linked(connections, s, a);
      LinkedTrans(connections, s, a, b);
    }
    if Reached(connections, seeds, b) {
      var s :| s in seeds && Linked(connections, s, b);
      LinkedTrans(connections, s, b, a);
    }
  }

  /** One pass over all rules. */
  method Pass(rules: seq<Rule>, before: set<Wire>, ghost seeds: set<Wire>) returns (active: set<Wire>, added: bool)
    requires AllReached(Connections(rules), seeds, before)
    ensures before <= active <= before + Wires(Connections(rules))
    ensures added <==> active != before
    ensures !added ==> Closed(Connections(rules), active)
    ensures AllReached(Connections(rules), seeds, active)
  {
    active, added := before, false;
    for i := 0 to |rules|
      invariant before <= active <= before + Wires(Connections(rules))
      invariant AllReached(Connections(rules), seeds, active)
      invariant added <==> active != before
      invariant !added ==> forall k :: 0 <= k < i ==> Closed(RulePairs(rules[k]), before)
    {
      RuleWithinConnections(rules, i);
      var next, addedHere := PropagateRule(rules[i], active, Connections(rules), seeds);
      active, added := next, added || addedHere;
    }
  }

  /** The do-while loop: passes over all rules until a pass adds no wire. */
  method Propagate(rules: seq<Rule>, seeds: set<Wire>) returns (active: set<Wire>)
    ensures IsReachedSet(Connections(rules), seeds, active)
  {
    ghost var all := seeds + Wires(Connections(rules));
    SeedsAreReached(Connections(rules), seeds);
    active := seeds;
    var addedWire := true;
    while addedWire
      invariant seeds <= active <= all
      invariant AllReached(Connections(rules), seeds, active)
      invariant !addedWire ==> Closed(Connections(rules), active)
      decreases |all - active|, addedWire
    {
      ghost var before := active;
      active, addedWire := Pass(rules, active, seeds);
      PassStaysWithin(seeds, before, active, Wires(Connections(rules)));
      if addedWire {
        ProperSupersetShrinksRest(before, active, all);
      }
    }
    ClosedIsReached(Connections(rules), seeds, active);
  }

  lemma PassStaysWithin(seeds: set<Wire>, before: set<Wire>, after: set<Wire>, wires: set<Wire>)
    requires seeds <= before <= seeds + wires && before <= after <= before + wires
    ensures seeds <= after <= seeds + wires
  {
  }

  lemma SeedsAreReached(connections: set<(Wire, Wire)>, seeds: set<Wire>)
    ensures AllReached(connections, seeds, seeds)
  {
    forall w | w in seeds
      ensures Reached(connections, seeds, w)
    {
      LinkedRefl(connections, w);
    }
  }

  lemma ClosedIsReached(connections: set<(Wire, Wire)>, seeds: set<Wire>, active: set<Wire>)
    requires seeds <= active && Closed(connections, active) && AllReached(connections, seeds, active)
    ensures IsReachedSet(connections, seeds, active)
  {
    forall w | Reached(connections, seeds, w)
      ensures w in active
    {
      ClosedHoldsReached(connections, seeds, active, w);
    }
  }

  /** Connected, in either direction, to a seed. */
  ghost predicate IsActive(types: Types, rules: seq<Rule>, w: Wire) {
    exists s :: IsSeed(types, rules, s) && Linked(Connections(rules), s, w)
  }

  /** The active wires are exactly the connected components of the seeds. */
  method ActiveWires(types: Types, rules: seq<Rule>) returns (active: set<Wire>)
    ensures forall w :: w in active <==> IsActive(types, rules, w)
  {
    var seeds := Seeds(types, rules);
    active := Propagate(rules, seeds);
  }

  lemma RuleWithinConnections(rules: seq<Rule>, i: nat)
    requires i < |rules|
    ensures RulePairs(rules[i]) <= Connections(rules)
    ensures Wires(RulePairs(rules[i])) <= Wires(Connections(rules))
  {
    var pairs, all := RulePairs(rules[i]), Connections(rules);
    forall w | w in Wires(pairs)
      ensures w in Wires(all)
    {
      var c :| c in pairs && (w == c.0 || w == c.1);
      assert c in all;
    }
  }

  lemma ProperSupersetShrinksRest(small: set<Wire>, large: set<Wire>, all: set<Wire>)
    requires small <= large <= all && small != large
    ensures |all - large| < |all - small|
  {
    var w :| w in large && w !in small;
    assert all - large <= all - small - {w};
    SubsetSize(all - large, all - small - {w});
  }

  /** The loop computes the least closed set: any closed set with the seeds holds every reached wire. */
  lemma ClosedHoldsReached(connections: set<(Wire, Wire)>, seeds: set<Wire>, active: set<Wire>, w: Wire)
    requires seeds <= active && Closed(connections, active)
    requires Reached(connections, seeds, w)
    ensures w in active
  {
    var s :| s in seeds && Linked(connections, s, w);
    var member := (x: Wire) => x in active;
    assert Respects(connections, member) by {
      forall a, b | (a, b) in connections
        ensures member(a) == member(b)
      {
        assert (a, b).0 in active <==> (a, b).1 in active;
      }
    }
    LinkedIsLeast(connections, member, s, w);
  }

  /** Rule order and repetition do not matter, neither for the seeds nor for what is connected to them. */
  lemma OrderOfRulesIsIrrelevant(types: Types, rules: seq<Rule>, other: seq<Rule>)
    requires forall r :: r in rules <==> r in other
    ensures Connections(rules) == Connections(other)
    ensures forall w :: IsSeed(types, rules, w) <==> IsSeed(types, other, w)
    ensures forall w :: IsActive(types, rules, w) <==> IsActive(types, other, w)
  {
    forall w
      ensures IsSeed(types, rules, w) <==> IsSeed(types, other, w)
    {
      if IsSeed(types, rules, w) {
        SeedsWithin(types, rules, other, w);
      }
      if IsSeed(types, other, w) {
        SeedsWithin(types, other, rules, w);
      }
    }
  }

  lemma SeedsWithin(types: Types, rules: seq<Rule>, other: seq<Rule>, w: Wire)
    requires (forall r :: r in rules ==> r in other) && IsSeed(types, rules, w)
    ensures IsSeed(types, other, w)
  {
  }
}
