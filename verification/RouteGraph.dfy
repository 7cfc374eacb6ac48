/** The loaded connections of a crossbar type and what a route through them is (src/fpga/Crossbar.h). */
module RouteGraph {

  /** A sparse table of node masks; absent rows are empty. */
  type Table = map<nat, set<nat>>

  function Get(t: Table, n: nat): set<nat> {
    if n in t then t[n] else {}
  }

  predicate Has(t: Table, row: nat, bit: nat) {
    row in t && bit in t[row]
  }

  /** The table with one bit more. */
  function WithBit(t: Table, row: nat, bit: nat): (longer: Table)
    ensures forall r: nat, b: nat :: Has(longer, r, b) <==> Has(t, r, b) || (r == row && b == bit)
  {
    t[row := Get(t, row) + {bit}]
  }

  datatype Node = Local(n: nat) | Src(n: nat) | Dst(n: nat) | Joint(n: nat)

  /** Where a source lands: the tile offset and the destination nodes there. */
  datatype Landing = Landing(dx: int, dy: int, dsts: set<nat>)

  datatype Graph = Graph(
    localSrc: Table, localJoint: Table,
    srcJoint: Table, jointSrc: Table, jointLocal: Table, jointJoint: Table,
    dstSrc: Table, dstLocal: Table, dstJoint: Table,
    landings: map<nat, seq<Landing>>)
  {
    /** All node numbers are below `bound`. */
    ghost predicate Valid(bound: nat) {
      Within(localSrc, bound) && Within(localJoint, bound) && Within(srcJoint, bound) && Within(jointSrc, bound) &&
      Within(jointLocal, bound) && Within(jointJoint, bound) && Within(dstSrc, bound) && Within(dstLocal, bound) &&
      Within(dstJoint, bound) && forall s :: s in landings ==> s < bound
    }

    /** One programmable connection. A joint drives a source if either table says so. */
    predicate Edge(from: Node, to: Node) {
      match (from, to)
      case (Local(l), Src(s)) => Has(localSrc, l, s)
      case (Local(l), Joint(j)) => Has(localJoint, l, j)
      case (Joint(j), Src(s)) => Has(jointSrc, j, s) || Has(srcJoint, s, j)
      case (Joint(j), Local(l)) => Has(jointLocal, j, l)
      case (Joint(j), Joint(k)) => Has(jointJoint, j, k)
      case (Dst(d), Src(s)) => Has(dstSrc, d, s)
      case (Dst(d), Local(l)) => Has(dstLocal, d, l)
      case (Dst(d), Joint(j)) => Has(dstJoint, d, j)
      case _ => false
    }

    /** A path from one node to another through the given joints. */
    predicate Route(from: Node, joints: seq<nat>, to: Node)
      decreases joints
    {
      if joints == [] then Edge(from, to)
      else Edge(from, Joint(joints[0])) && Route(Joint(joints[0]), joints[1..], to)
    }

    /** The simple meaning of all the indexes: a path through at most two joints. */
    ghost predicate Reachable(from: Node, to: Node) {
      exists joints :: |joints| <= 2 && Route(from, joints, to)
    }

    function LandingsOf(src: nat): seq<Landing> {
      if src in landings then landings[src] else []
    }
  }

  ghost predicate Within(t: Table, bound: nat) {
    forall n :: n in t ==> n < bound && forall m :: m in t[n] ==> m < bound
  }

  lemma RouteShapes(g: Graph, from: Node, to: Node)
    ensures g.Route(from, [], to) <==> g.Edge(from, to)
    ensures forall j: nat :: g.Route(from, [j], to) <==> g.Edge(from, Joint(j)) && g.Edge(Joint(j), to)
    ensures forall i: nat, j: nat :: g.Route(from, [i, j], to) <==>
              g.Edge(from, Joint(i)) && g.Edge(Joint(i), Joint(j)) && g.Edge(Joint(j), to)
  {
    forall j: nat
      ensures g.Route(from, [j], to) <==> g.Edge(from, Joint(j)) && g.Edge(Joint(j), to)
    {
      assert [j][1..] == [];
    }
    forall i: nat, j: nat
      ensures g.Route(from, [i, j], to) <==>
                g.Edge(from, Joint(i)) && g.Edge(Joint(i), Joint(j)) && g.Edge(Joint(j), to)
    {
      assert [i, j][1..] == [j] && [j][1..] == [];
      assert g.Route(Joint(i), [j], to) <==> g.Edge(Joint(i), Joint(j)) && g.Edge(Joint(j), to);
    }
  }

  ghost predicate OneJoint(g: Graph, from: Node, to: Node) {
    exists j: nat :: g.Edge(from, Joint(j)) && g.Edge(Joint(j), to)
  }

  ghost predicate TwoJoints(g: Graph, from: Node, to: Node) {
    exists i: nat, j: nat :: g.Edge(from, Joint(i)) && g.Edge(Joint(i), Joint(j)) && g.Edge(Joint(j), to)
  }

  lemma ReachableShapes(g: Graph, from: Node, to: Node)
    ensures g.Reachable(from, to) <==> g.Edge(from, to) || OneJoint(g, from, to) || TwoJoints(g, from, to)
  {
    RouteShapes(g, from, to);
    if g.Reachable(from, to) {
      var joints :| |joints| <= 2 && g.Route(from, joints, to);
      if |joints| == 0 {
        assert joints == [];
      } else if |joints| == 1 {
        assert joints == [joints[0]];
      } else {
        assert joints == [joints[0], joints[1]];
      }
    }
    if g.Edge(from, to) {
      assert g.Route(from, [], to);
    } else if OneJoint(g, from, to) {
      var j: nat :| g.Edge(from, Joint(j)) && g.Edge(Joint(j), to);
      assert g.Route(from, [j], to);
    } else if TwoJoints(g, from, to) {
      var i: nat, j: nat :| g.Edge(from, Joint(i)) && g.Edge(Joint(i), Joint(j)) && g.Edge(Joint(j), to);
      assert g.Route(from, [i, j], to);
    }
  }

  /** The joints that a lookup reports: none, one, or two with the first one apart. */
  function Via(firstJoint: int, joint: int): seq<nat> {
    if joint < 0 then [] else if firstJoint < 0 then [joint] else [firstJoint, joint]
  }

  /** What can be reached from a joint itself or through one more joint. */
  ghost predicate FromJoint(g: Graph, joint: nat, to: Node) {
    g.Edge(Joint(joint), to) || exists k: nat :: g.Edge(Joint(joint), Joint(k)) && g.Edge(Joint(k), to)
  }

  ghost predicate ThroughJoints(g: Graph, from: Node, to: Node) {
    exists j: nat :: g.Edge(from, Joint(j)) && FromJoint(g, j, to)
  }

  lemma ThroughJointShapes(g: Graph, from: Node, to: Node)
    ensures ThroughJoints(g, from, to) <==> OneJoint(g, from, to) || TwoJoints(g, from, to)
  {
    if OneJoint(g, from, to) {
      var j: nat :| g.Edge(from, Joint(j)) && g.Edge(Joint(j), to);
      assert FromJoint(g, j, to);
    }
    if TwoJoints(g, from, to) {
      var i: nat, j: nat :| g.Edge(from, Joint(i)) && g.Edge(Joint(i), Joint(j)) && g.Edge(Joint(j), to);
      assert FromJoint(g, i, to);
    }
  }

  lemma EdgeWithin(g: Graph, bound: nat, from: Node, to: Node)
    requires g.Valid(bound) && g.Edge(from, to)
    ensures from.n < bound && to.n < bound
  {
  }

  lemma ReachableWithin(g: Graph, bound: nat, from: Node, to: Node)
    requires g.Valid(bound) && g.Reachable(from, to)
    ensures from.n < bound && to.n < bound
  {
    ReachableShapes(g, from, to);
    if g.Edge(from, to) {
      EdgeWithin(g, bound, from, to);
    } else if OneJoint(g, from, to) {
      var j: nat :| g.Edge(from, Joint(j)) && g.Edge(Joint(j), to);
      EdgeWithin(g, bound, from, Joint(j));
      EdgeWithin(g, bound, Joint(j), to);
    } else {
      var i: nat, j: nat :| g.Edge(from, Joint(i)) && g.Edge(Joint(i), Joint(j)) && g.Edge(Joint(j), to);
      EdgeWithin(g, bound, from, Joint(i));
      EdgeWithin(g, bound, Joint(j), to);
    }
  }
}
