// Serialisation of a component graph. Components refer to their children
// (`extra`) by identity, so a child may be shared and a component may even
// list itself; serialising a component that is reachable from itself must
// fail. The components are modelled as an arena: node i has its own fields
// and the indices of its children, in order.

module Graph {
  import opened Chat

  datatype Node = Node(base: Component, kids: seq<nat>)

  /** Every child index names a node of the arena. */
  predicate Valid(g: seq<Node>) {
    forall i, k :: 0 <= i < |g| && 0 <= k < |g[i].kids| ==> g[i].kids[k] < |g|
  }

  /** The indices of the arena. */
  function Ids(g: seq<Node>): set<nat> {
    Below(|g|)
  }

  /** The numbers below n. */
  function Below(n: nat): (s: set<nat>)
    ensures forall x: nat :: x in s <==> x < n
  {
    if n == 0 then {} else Below(n - 1) + {n - 1}
  }

  const LoopError: string := "Component loop"

  /**
   * The serialisation of node i while the components in `open` are being
   * serialised (the ancestors of i, in identity order): it fails when i is one
   * of them, and otherwise holds i's own fields with its children serialised
   * in order as `extra` (none when it has no children).
   */
  function Ser(g: seq<Node>, i: nat, open: set<nat>): Result<Component>
    requires Valid(g) && i < |g|
    decreases Ids(g) - open, 0
  {
    if i in open then Err(LoopError)
    else
      match SerList(g, g[i].kids, open + {i})
      case Err(e) => Err(e)
      case Ok(cs) => Ok(g[i].base.(extra := if cs == [] then NoExtra else Extra(cs)))
  }

  /** The children ks serialised in order; the first failure is the result. */
  function SerList(g: seq<Node>, ks: seq<nat>, open: set<nat>): Result<seq<Component>>
    requires Valid(g) && forall k :: 0 <= k < |ks| ==> ks[k] < |g|
    decreases Ids(g) - open, |ks| + 1
  {
    if ks == [] then Ok([])
    else
      match Ser(g, ks[0], open)
      case Err(e) => Err(e)
      case Ok(c) =>
        match SerList(g, ks[1..], open)
        case Err(e) => Err(e)
        case Ok(cs) => Ok([c] + cs)
  }

  // ---- Paths and loops ------------------------------------------------------

  /** p follows child links of g from its first node to its last. */
  predicate IsPath(g: seq<Node>, p: seq<nat>) {
    |p| > 0 && p[0] < |g|
    && forall k :: 0 <= k < |p| - 1 ==> p[k] < |g| && p[k + 1] in g[p[k]].kids
  }

  /**
   * There is a path from i that ends in a node of `open` or in a node it
   * already went through: following children from i leads back to an open
   * ancestor or round a cycle.
   */
  ghost predicate Loops(g: seq<Node>, i: nat, open: set<nat>) {
    exists p :: IsPath(g, p) && p[0] == i && (p[|p| - 1] in open || p[|p| - 1] in p[..|p| - 1])
  }

  /** A node is on a cycle reachable from i. */
  ghost predicate CycleFrom(g: seq<Node>, i: nat) {
    exists p :: IsPath(g, p) && p[0] == i && p[|p| - 1] in p[..|p| - 1]
  }

  /** A list of children fails exactly when one of them does. */
  lemma {:induction false} SerListErr(g: seq<Node>, ks: seq<nat>, open: set<nat>)
    requires Valid(g) && forall k :: 0 <= k < |ks| ==> ks[k] < |g|
    ensures SerList(g, ks, open).Err? <==> exists j :: 0 <= j < |ks| && Ser(g, ks[j], open).Err?
    decreases |ks|
  {
    if ks != [] {
      SerListErr(g, ks[1..], open);
      if SerList(g, ks[1..], open).Err? {
        var j :| 0 <= j < |ks[1..]| && Ser(g, ks[1..][j], open).Err?;
        assert Ser(g, ks[j + 1], open).Err?;
      }
      if exists j :: 0 <= j < |ks| && Ser(g, ks[j], open).Err? {
        var j :| 0 <= j < |ks| && Ser(g, ks[j], open).Err?;
        if j > 0 {
          assert ks[1..][j - 1] == ks[j];
        }
      }
    }
  }

  /** Prepending i to a path from one of its children gives a path from i. */
  lemma PathCons(g: seq<Node>, i: nat, q: seq<nat>)
    requires i < |g| && IsPath(g, q) && q[0] in g[i].kids
    ensures IsPath(g, [i] + q)
  {
    var p := [i] + q;
    forall k | 0 <= k < |p| - 1
      ensures p[k] < |g| && p[k + 1] in g[p[k]].kids
    {
      if k > 0 {
        assert p[k] == q[k - 1] && p[k + 1] == q[k];
      }
    }
  }

  /** A failing serialisation has a loop behind it. */
  lemma {:induction false} ErrLoops(g: seq<Node>, i: nat, open: set<nat>)
    requires Valid(g) && i < |g| && Ser(g, i, open).Err?
    ensures Loops(g, i, open)
    decreases Ids(g) - open
  {
    if i in open {
      assert IsPath(g, [i]);
    } else {
      var o := open + {i};
      var ks := g[i].kids;
      SerListErr(g, ks, o);
      var j :| 0 <= j < |ks| && Ser(g, ks[j], o).Err?;
      assert i in Ids(g);
      ErrLoops(g, ks[j], o);
      var q :| IsPath(g, q) && q[0] == ks[j] && (q[|q| - 1] in o || q[|q| - 1] in q[..|q| - 1]);
      PathCons(g, i, q);
      var p := [i] + q;
      assert p[|p| - 1] == q[|q| - 1];
      assert p[..|p| - 1] == [i] + q[..|q| - 1];
    }
  }

  /** A loop makes the serialisation fail. */
  lemma {:induction false} LoopsErr(g: seq<Node>, i: nat, open: set<nat>, p: seq<nat>)
    requires Valid(g) && i < |g|
    requires IsPath(g, p) && p[0] == i && (p[|p| - 1] in open || p[|p| - 1] in p[..|p| - 1])
    ensures Ser(g, i, open).Err?
    decreases Ids(g) - open
  {
    if i !in open {
      var o := open + {i};
      var ks := g[i].kids;
      assert |p| > 1;
      var q := p[1..];
      assert IsPath(g, q) by {
        forall k | 0 <= k < |q| - 1
          ensures q[k] < |g| && q[k + 1] in g[q[k]].kids
        {
          assert q[k] == p[k + 1] && q[k + 1] == p[k + 2];
        }
      }
      assert q[|q| - 1] == p[|p| - 1];
      assert q[|q| - 1] in o || q[|q| - 1] in q[..|q| - 1] by {
        var x := p[|p| - 1];
        if x !in open && x in p[..|p| - 1] {
          var k :| 0 <= k < |p| - 1 && p[k] == x;
          if k > 0 {
            assert q[k - 1] == x;
          }
        }
      }
      assert p[1] in ks;
      var j :| 0 <= j < |ks| && ks[j] == p[1];
      assert i in Ids(g);
      LoopsErr(g, q[0], o, q);
      SerListErr(g, ks, o);
    }
  }

  /** Serialisation fails exactly when a loop is reachable. */
  lemma SerErrIffLoops(g: seq<Node>, i: nat, open: set<nat>)
    requires Valid(g) && i < |g|
    ensures Ser(g, i, open).Err? <==> Loops(g, i, open)
  {
    if Ser(g, i, open).Err? {
      ErrLoops(g, i, open);
    }
    if Loops(g, i, open) {
      var p :| IsPath(g, p) && p[0] == i && (p[|p| - 1] in open || p[|p| - 1] in p[..|p| - 1]);
      LoopsErr(g, i, open, p);
    }
  }

  /** Serialising a component on its own fails exactly when it reaches a cycle. */
  lemma SerializeFailsIffCycle(g: seq<Node>, i: nat)
    requires Valid(g) && i < |g|
    ensures Ser(g, i, {}).Err? <==> CycleFrom(g, i)
  {
    SerErrIffLoops(g, i, {});
  }

  /** The only way serialisation fails is the loop error. */
  lemma {:induction false} ErrIsLoopError(g: seq<Node>, i: nat, open: set<nat>)
    requires Valid(g) && i < |g|
    ensures Ser(g, i, open).Err? ==> Ser(g, i, open) == Err(LoopError)
    decreases Ids(g) - open, 0
  {
    if i !in open {
      assert i in Ids(g);
      ListErrIsLoopError(g, g[i].kids, open + {i});
    }
  }

  lemma {:induction false} ListErrIsLoopError(g: seq<Node>, ks: seq<nat>, open: set<nat>)
    requires Valid(g) && forall k :: 0 <= k < |ks| ==> ks[k] < |g|
    ensures SerList(g, ks, open).Err? ==> SerList(g, ks, open) == Err(LoopError)
    decreases Ids(g) - open, |ks| + 1
  {
    if ks != [] {
      ErrIsLoopError(g, ks[0], open);
      ListErrIsLoopError(g, ks[1..], open);
    }
  }

  // ---- Serialising a list step by step --------------------------------------

  /** Serialising one more child after a list. */
  lemma {:induction false} SerListSnoc(g: seq<Node>, ks: seq<nat>, k: nat, open: set<nat>)
    requires Valid(g) && k < |g| && forall j :: 0 <= j < |ks| ==> ks[j] < |g|
    ensures SerList(g, ks + [k], open) ==
      match SerList(g, ks, open)
      case Err(e) => Err(e)
      case Ok(cs) => (match Ser(g, k, open) case Err(e) => Err(e) case Ok(c) => Ok(cs + [c]))
    decreases |ks|
  {
    if ks == [] {
      assert [] + [k] == [k];
      assert [k][1..] == [];
      if Ser(g, k, open).Ok? {
        var c := Ser(g, k, open).value;
        assert [c] + [] == [] + [c];
      }
    } else {
      assert (ks + [k])[0] == ks[0];
      assert (ks + [k])[1..] == ks[1..] + [k];
      SerListSnoc(g, ks[1..], k, open);
      if SerList(g, ks, open).Ok? && Ser(g, k, open).Ok? {
        var c0 := Ser(g, ks[0], open).value;
        var rest := SerList(g, ks[1..], open).value;
        assert [c0] + (rest + [Ser(g, k, open).value]) == ([c0] + rest) + [Ser(g, k, open).value];
      }
    }
  }

  /** A failing prefix makes the whole list fail the same way. */
  lemma {:induction false} SerListPrefixErr(g: seq<Node>, ks: seq<nat>, j: nat, open: set<nat>)
    requires Valid(g) && j <= |ks| && forall k :: 0 <= k < |ks| ==> ks[k] < |g|
    requires SerList(g, ks[..j], open).Err?
    ensures SerList(g, ks, open) == SerList(g, ks[..j], open)
    decreases |ks|
  {
    assert j > 0;
    assert ks[..j][0] == ks[0];
    assert ks[..j][1..] == ks[1..][..j - 1];
    if Ser(g, ks[0], open).Ok? {
      SerListPrefixErr(g, ks[1..], j - 1, open);
    }
  }

  /**
   * An arena of components, and the set of components being serialised,
   * which the serialiser grows on the way down and shrinks on the way back.
   */
  class Arena {
    var nodes: seq<Node>
    var onPath: set<nat>

    /** Outside of serialisation no component is open. */
    predicate Idle()
      reads this
    {
      Valid(nodes) && onPath == {}
    }

    constructor ()
      ensures Idle() && nodes == []
    {
      nodes := [];
      onPath := {};
    }

    /** A new component without children; its index is its identity. */
    method Add(c: Component) returns (i: nat)
      requires Idle()
      modifies this
      ensures Idle()
      ensures i == |old(nodes)| && nodes == old(nodes) + [Node(c.(extra := NoExtra), [])]
    {
      i := |nodes|;
      nodes := nodes + [Node(c.(extra := NoExtra), [])];
    }

    /** addExtra: the child becomes the parent's last child (it may already be one, or be the parent). */
    method AddExtra(parent: nat, child: nat)
      requires Idle() && parent < |nodes| && child < |nodes|
      modifies this
      ensures Idle()
      ensures nodes == old(nodes)[parent := Node(old(nodes)[parent].base, old(nodes)[parent].kids + [child])]
    {
      nodes := nodes[parent := Node(nodes[parent].base, nodes[parent].kids + [child])];
    }

    /** Serialises component i: open it, serialise its children in order, close it. */
    method Visit(i: nat) returns (r: Result<Component>)
      requires Valid(nodes) && i < |nodes|
      modifies this`onPath
      ensures onPath == old(onPath)
      ensures r == Ser(nodes, i, old(onPath))
      decreases Ids(nodes) - onPath
    {
      if i in onPath {
        return Err(LoopError);
      }
      var open := onPath;
      onPath := onPath + {i};
      var kids := nodes[i].kids;
      var cs: seq<Component> := [];
      var j := 0;
      while j < |kids|
        invariant 0 <= j <= |kids| && onPath == open + {i}
        invariant SerList(nodes, kids[..j], onPath) == Ok(cs)
      {
        assert i in Ids(nodes);
        var c := Visit(kids[j]);
        SerListSnoc(nodes, kids[..j], kids[j], onPath);
        assert kids[..j] + [kids[j]] == kids[..j + 1];
        if c.Err? {
          SerListPrefixErr(nodes, kids, j + 1, onPath);
          onPath := onPath - {i};
          assert onPath == open;
          return Err(c.msg);
        }
        cs := cs + [c.value];
        j := j + 1;
      }
      assert kids[..j] == kids;
      onPath := onPath - {i};
      assert onPath == open;
      r := Ok(nodes[i].base.(extra := if cs == [] then NoExtra else Extra(cs)));
    }

    /** toString of one component: fails exactly when a cycle is reachable from it. */
    method Serialize(i: nat) returns (r: Result<Component>)
      requires Idle() && i < |nodes|
      modifies this`onPath
      ensures Idle()
      ensures r == Ser(nodes, i, {})
      ensures r.Err? <==> CycleFrom(nodes, i)
    {
      r := Visit(i);
      SerializeFailsIffCycle(nodes, i);
    }
  }
}
