// The component-loop scenarios: a component that contains itself, a longer
// cycle, a child added twice (no loop, it is serialised twice) and a cycle
// next to a repeated child.

module GraphExamples {
  import opened Chat
  import opened Graph

  function Colored(s: string, c: char): (r: Component)
    ensures r.kind == Text(s) && r.style.color == Some(Code(c))
  {
    TextOf(s).(style := EmptyStyle.(color := Some(Code(c))))
  }

  /** A component added to its own children cannot be serialised. */
  method LoopSimple() returns (r: Result<Component>)
    ensures r == Err(LoopError)
  {
    var arena := new Arena();
    var x := arena.Add(TextOf("Testing"));
    arena.AddExtra(x, x);
    assert IsPath(arena.nodes, [x, x]);
    r := arena.Serialize(x);
    ErrIsLoopError(arena.nodes, x, {});
  }

  /** a contains b, b contains c, c contains a: serialising a fails. */
  method LoopComplex() returns (r: Result<Component>)
    ensures r == Err(LoopError)
  {
    var arena := new Arena();
    var a := arena.Add(TextOf("A"));
    var b := arena.Add(Colored("B", 'b'));
    var c := arena.Add(Colored("C", 'c'));
    arena.AddExtra(a, b);
    arena.AddExtra(b, c);
    arena.AddExtra(c, a);
    var p := [a, b, c, a];
    assert IsPath(arena.nodes, p) && p[3] in p[..3];
    r := arena.Serialize(a);
    ErrIsLoopError(arena.nodes, a, {});
  }

  /** The arena after a.addExtra(b) twice: a lists b twice, b has no children. */
  predicate RepeatedArena(g: seq<Node>, cb: Component) {
    g == [Node(TextOf("A"), [1, 1]), Node(cb, [])]
  }

  lemma RepeatedChild(g: seq<Node>, cb: Component)
    requires RepeatedArena(g, cb) && cb.extra.NoExtra?
    ensures Valid(g)
    ensures Ser(g, 1, {0}) == Ok(cb)
    ensures SerList(g, [1], {0}) == Ok([cb])
  {
    assert [1][1..] == [];
    assert Ser(g, 1, {0}) == Ok(cb);
    assert [cb] + [] == [cb];
  }

  lemma RepeatedSer(g: seq<Node>, cb: Component)
    requires RepeatedArena(g, cb) && cb.extra.NoExtra?
    ensures Valid(g)
    ensures Ser(g, 0, {}) == Ok(TextOf("A").(extra := Extra([cb, cb])))
  {
    RepeatedChild(g, cb);
    assert [1, 1][0] == 1 && [1, 1][1..] == [1];
    assert {} + {0} == {0};
    assert [cb] + [cb] == [cb, cb];
    assert SerList(g, [1, 1], {0}) == Ok([cb, cb]);
  }

  /** The same child twice is no loop: it is serialised once per occurrence. */
  method Repeated() returns (r: Result<Component>)
    ensures r == Ok(TextOf("A").(extra := Extra([Colored("B", 'b'), Colored("B", 'b')])))
  {
    var arena := new Arena();
    var cb := Colored("B", 'b');
    var a := arena.Add(TextOf("A"));
    var b := arena.Add(cb);
    arena.AddExtra(a, b);
    assert [] + [1] == [1];
    arena.AddExtra(a, b);
    assert [1] + [1] == [1, 1];
    assert RepeatedArena(arena.nodes, cb);
    RepeatedSer(arena.nodes, cb);
    r := arena.Serialize(a);
  }

  /** A cycle through c makes serialisation fail even though b, repeated, is harmless. */
  method RepeatedError() returns (r: Result<Component>)
    ensures r == Err(LoopError)
  {
    var arena := new Arena();
    var a := arena.Add(TextOf("A"));
    var b := arena.Add(Colored("B", 'b'));
    var c := arena.Add(Colored("C", 'c'));
    arena.AddExtra(a, b);
    arena.AddExtra(a, c);
    arena.AddExtra(c, a);
    arena.AddExtra(a, b);
    var p := [a, c, a];
    assert IsPath(arena.nodes, p) && p[2] in p[..2];
    r := arena.Serialize(a);
    ErrIsLoopError(arena.nodes, a, {});
  }
}
