// The builder scenarios: cursor moves, bounds errors, removal, retention
// policies, reset, copies, and what builds render to as plain and legacy text.

module BuilderExamples {
  import opened Chat
  import opened Legacy
  import opened Builder
  import opened LegacyExamples

  /** A text part with a colour code and, optionally, bold. */
  function Styled(t: string, x: char, bold: bool): (c: Component)
    ensures c.kind == Text(t) && c.style.color == Some(Code(x)) && !c.reset
  {
    TextOf(t).(style := EmptyStyle.(color := Some(Code(x)), bold := if bold then Set(true) else Unset))
  }

  /** A styled part renders as the run with the same colour and flag. */
  lemma StyledRender(t: string, x: char, bold: bool)
    ensures !bold ==> Render(Styled(t, x, bold), RootFormat) == C(x) + t
    ensures bold ==> Render(Styled(t, x, bold), RootFormat) == C(x) + C('l') + t
  {
    var r := PlainRun(x, t).(bold := bold);
    assert Resolve(Styled(t, x, bold).style, RootFormat) == RunFormat(r);
    assert FlagChars(RunFormat(r)) == if bold then ['l'] else [];
    EncodeSimpleRun(r, FlagChars(RunFormat(r)));
    assert C(x) + [] == C(x);
  }

  lemma RenderOne(a: Component, p: Effective)
    ensures RenderAll([a], p) == Render(a, p)
  {
    assert [a][1..] == [];
    assert Render(a, p) + "" == Render(a, p);
  }

  lemma RenderTwo(a: Component, b: Component, p: Effective)
    ensures RenderAll([a, b], p) == Render(a, p) + Render(b, p)
  {
    assert [a, b][1..] == [b];
    RenderOne(b, p);
  }

  lemma RenderThree(a: Component, b: Component, c: Component, p: Effective)
    ensures RenderAll([a, b, c], p) == Render(a, p) + Render(b, p) + Render(c, p)
  {
    assert [a, b, c][1..] == [b, c];
    RenderTwo(b, c, p);
  }

  // ---- Sizes, cursor, bounds ------------------------------------------------------

  /** create() and build() of an empty builder hold nothing; after the k-th append they hold k parts. */
  method EmptyBuilderGrows() returns (sizes: seq<int>, built: seq<Component>)
    ensures sizes == [0, 1, 2, 3]
    ensures |built| == 4 && built[0].extra.NoExtra?
    ensures forall k :: 1 <= k < 4 ==> built[k].extra.Extra? && |built[k].extra.parts| == k
  {
    var b := new ComponentBuilder();
    var cs := b.Create();
    var root := b.Build();
    sizes, built := [|cs|], [root];
    var i := 0;
    while i < 3
      invariant 0 <= i <= 3 && b.Valid() && |b.parts| == i
      invariant |sizes| == i + 1 && |built| == i + 1 && built[0].extra.NoExtra?
      invariant forall k :: 0 <= k <= i ==> sizes[k] == k
      invariant forall k :: 1 <= k <= i ==> built[k].extra.Extra? && |built[k].extra.parts| == k
    {
      b.AppendText("part:" + [('0' as int + i) as char], RetainAll);
      cs := b.Create();
      root := b.Build();
      sizes, built := sizes + [|cs|], built + [root];
      i := i + 1;
    }
  }

  /** The cursor follows every append, even after being moved back, and resetCursor returns it to the end. */
  method CursorFollowsAppends() returns (seen: seq<int>, atFirst: Component)
    ensures seen == [-1, 0, 2, 3, 3]
    ensures atFirst == TextOf("Apple, ")
  {
    var b := new ComponentBuilder();
    seen := [b.cursor];
    b.Append(TextOf("Apple, "), RetainAll);
    InheritFromBlank(TextOf("Apple, "), RetainAll);
    seen := seen + [b.cursor];
    b.Append(TextOf("Orange, "), RetainAll);
    b.Append(TextOf("Mango, "), RetainAll);
    seen := seen + [b.cursor];
    var ok := b.SetCursor(0);
    atFirst := b.GetCurrentComponent();
    b.Append(TextOf("and Grapefruit"), RetainAll);
    seen := seen + [b.cursor];
    ok := b.SetCursor(0);
    b.ResetCursor();
    seen := seen + [b.cursor];
  }

  /** On a builder of two parts, -1 and 2 are no cursor positions. */
  method CursorOutOfRange() returns (low: bool, high: bool)
    ensures !low && !high
  {
    var b := new ComponentBuilder();
    b.Append(TextOf("Apple, "), RetainAll);
    b.Append(TextOf("Orange, "), RetainAll);
    low := b.SetCursor(-1);
    high := b.SetCursor(2);
  }

  /** getComponent fails on every index of an empty builder; after one append only index 0 exists. */
  method GettingComponents() returns (rs: seq<Result<Component>>)
    ensures |rs| == 5 && rs[0].Err? && rs[1].Err? && rs[2].Err? && rs[4].Err?
    ensures rs[3] == Ok(TextOf("Hello"))
  {
    var b := new ComponentBuilder();
    var r0 := b.GetComponent(-1);
    var r1 := b.GetComponent(0);
    var r2 := b.GetComponent(1);
    b.Append(TextOf("Hello"), RetainAll);
    InheritFromBlank(TextOf("Hello"), RetainAll);
    var r3 := b.GetComponent(0);
    var r4 := b.GetComponent(1);
    rs := [r0, r1, r2, r3, r4];
  }

  /** Removing the middle of apple, mango, orange leaves apple, orange. */
  method RemovingAPart() returns (current: Component, parts: seq<Component>)
    ensures current == TextOf("apple")
    ensures parts == [TextOf("apple"), TextOf("orange")]
  {
    var b := new ComponentBuilder();
    b.Append(TextOf("apple"), RetainAll);
    InheritFromBlank(TextOf("apple"), RetainAll);
    current := b.GetCurrentComponent();
    b.Append(TextOf("mango"), RetainAll);
    b.Append(TextOf("orange"), RetainAll);
    assert b.parts == [TextOf("apple"), TextOf("mango"), TextOf("orange")];
    var ok := b.RemoveComponent(1);
    parts := b.Create();
  }

  /** Appending components of any kind puts them at consecutive places, reading as before. */
  method MixedKinds() returns (cs: seq<Component>)
    ensures |cs| == 4
    ensures PlainText(cs[0]) == "Hello "
    ensures PlainText(cs[1]) == PlainText(TextOf("world "))
    ensures cs[2].kind == Translatable("item.swordGold.name", [])
    ensures cs[3].kind == Score("myscore", "myobjective", None)
  {
    var b := new ComponentBuilder.OfText("Hello ");
    var prev := b.Current();
    b.AppendAll([TextOf("world "), Bare(Translatable("item.swordGold.name", []))], RetainAll);
    InheritPlainText(TextOf("world "), prev, RetainAll);
    b.Append(Bare(Score("myscore", "myobjective", None)), RetainAll);
    cs := b.Create();
    assert PlainText(cs[0]) == "" + "Hello " + "";
  }

  // ---- Retention, reset and the placeholder --------------------------------------------

  /** A colour set on an empty builder is carried by the first part. */
  method PlaceholderColour() returns (col: Option<ChatColor>)
    ensures col == Some(Code('a'))
  {
    var b := new ComponentBuilder();
    b.Color(Code('a'));
    b.AppendText("test ", RetainAll);
    var c := b.GetCurrentComponent();
    col := c.style.color;
  }

  /** After reset the last part shows white, and the part before it stays red. */
  method ResetClearsCurrent() returns (cs: seq<Component>)
    ensures |cs| == 2 && ColorOf(cs[0]) == Code('c') && ColorOf(cs[1]) == White
  {
    var b := new ComponentBuilder.OfText("Hello ");
    b.Color(Code('c'));
    b.AppendText("World", RetainAll);
    b.Reset();
    cs := b.Create();
  }

  /** Retaining nothing: the new part is white. */
  method RetainNothing() returns (cs: seq<Component>)
    ensures |cs| == 2 && ColorOf(cs[0]) == Code('c') && ColorOf(cs[1]) == White
  {
    var b := new ComponentBuilder.OfText("Hello ");
    b.Color(Code('c'));
    b.AppendText("World", RetainNone);
    cs := b.Create();
  }

  /** Retaining formatting: the new part is red too, but does not get the hover event. */
  method RetainFormattingOnly(h: HoverEvent) returns (cs: seq<Component>)
    ensures |cs| == 2 && ColorOf(cs[0]) == Code('c') && cs[0].hover == Some(h)
    ensures ColorOf(cs[1]) == Code('c') && cs[1].hover.None?
  {
    var b := new ComponentBuilder.OfText("Hello ");
    b.Color(Code('c'));
    b.Hover(h);
    b.AppendText("World", RetainFormatting);
    cs := b.Create();
  }

  /** Retaining events: the new part gets both events but not the colour. */
  method RetainEventsOnly(h: HoverEvent, e: ClickEvent) returns (cs: seq<Component>)
    ensures |cs| == 2 && ColorOf(cs[0]) == Code('c') && cs[0].hover == Some(h) && cs[0].click == Some(e)
    ensures ColorOf(cs[1]) == White && cs[1].hover == Some(h) && cs[1].click == Some(e)
  {
    var b := new ComponentBuilder.OfText("Hello ");
    b.Color(Code('c'));
    b.Hover(h);
    b.Click(e);
    b.AppendText("World", RetainEvents);
    cs := b.Create();
  }

  /** Components appended to an empty builder come back from create() exactly as they were. */
  method AppendToEmpty(xs: seq<Component>) returns (cs: seq<Component>)
    ensures cs == xs
  {
    var b := new ComponentBuilder();
    b.AppendAll(xs, RetainAll);
    if xs != [] {
      InheritFromBlank(xs[0], RetainAll);
      assert [xs[0]] + xs[1..] == xs;
    }
    cs := b.Create();
  }

  /** A copied builder renders exactly as the original. */
  method CopyRendersTheSame() returns (original: string, copy: string)
    ensures original == copy
    ensures original == ToLegacy([Styled("Hello ", 'c', false), Styled("world", '4', false)])
  {
    var b := new ComponentBuilder.OfText("Hello ");
    b.Color(Code('c'));
    b.AppendText("world", RetainAll);
    b.Color(Code('4'));
    assert b.parts == [Styled("Hello ", 'c', false), Styled("world", '4', false)];
    var c := new ComponentBuilder.Copy(b);
    var ps := b.Create();
    var qs := c.Create();
    original, copy := ToLegacy(ps), ToLegacy(qs);
  }

  // ---- Rendering what was built ---------------------------------------------------------

  /** Red "Hello ", blue bold "World", yellow bold "!": colours are overridden, bold is inherited. */
  method StyledParts() returns (cs: seq<Component>)
    ensures cs == StyledPartsOf()
  {
    var b := new ComponentBuilder.OfText("Hello ");
    b.Color(Code('c'));
    b.AppendText("World", RetainAll);
    b.Bold(true);
    b.Color(Code('9'));
    b.AppendText("!", RetainAll);
    b.Color(Code('e'));
    cs := b.Create();
  }

  function StyledPartsOf(): seq<Component> {
    [Styled("Hello ", 'c', false), Styled("World", '9', true), Styled("!", 'e', true)]
  }

  /** RED + "Hello " + BLUE + BOLD + "World" + YELLOW + BOLD + "!". */
  function StyledLegacy(): string {
    C('c') + "Hello " + C('9') + C('l') + "World" + C('e') + C('l') + "!"
  }

  /** The parts above read "Hello World!". */
  lemma StyledPartsPlain()
    ensures PlainTextAll(StyledPartsOf()) == "Hello World!"
  {
    var cs := StyledPartsOf();
    PlainTextAllAppend([cs[0]], cs[1..]);
    PlainTextAllAppend([cs[1]], [cs[2]]);
    assert cs[1..] == [cs[1]] + [cs[2]];
    assert PlainTextAll([cs[0]]) == "Hello ";
    assert PlainTextAll([cs[1]]) == "World";
    assert PlainTextAll([cs[2]]) == "!";
    assert PlainTextAll(cs) == "Hello " + ("World" + "!");
  }

  /** They render as red, blue bold and yellow bold codes; built, with a white code first. */
  lemma StyledPartsLegacy()
    ensures ToLegacy(StyledPartsOf()) == StyledLegacy()
    ensures ToLegacy([BuildOf(StyledPartsOf())]) == C('f') + StyledLegacy()
  {
    var cs := StyledPartsOf();
    RenderThree(cs[0], cs[1], cs[2], RootFormat);
    StyledRender("Hello ", 'c', false);
    StyledRender("World", '9', true);
    StyledRender("!", 'e', true);
    var e0 := C('c') + "Hello ";
    var e1 := C('9') + C('l') + "World";
    var e2 := C('e') + C('l') + "!";
    assert ToLegacy(cs) == e0 + e1 + e2;
    Assoc(e0, C('9') + C('l'), "World");
    Assoc(e0, C('9'), C('l'));
    var p1 := e0 + C('9') + C('l') + "World";
    assert e0 + e1 == p1;
    Assoc(p1, C('e') + C('l'), "!");
    Assoc(p1, C('e'), C('l'));
    assert p1 + e2 == StyledLegacy();
    BuildLegacy(cs);
  }

  /** Yellow "Hello " followed by the components of GREEN + "world!" as legacy text. */
  method AppendingLegacy() returns (cs: seq<Component>)
    ensures cs == LegacyPartsOf()
  {
    var b := new ComponentBuilder.OfText("Hello ");
    b.Color(Code('e'));
    CodeThenText('a', "world!");
    b.AppendLegacy(C('a') + "world!");
    cs := b.Create();
  }

  function LegacyPartsOf(): seq<Component> {
    [Styled("Hello ", 'e', false), RunComponent(PlainRun('a', "world!"))]
  }

  /** YELLOW + "Hello " + GREEN + "world!". */
  function YellowGreen(): string {
    C('e') + "Hello " + C('a') + "world!"
  }

  /** Those parts read "Hello world!". */
  lemma LegacyPartsPlain()
    ensures PlainTextAll(LegacyPartsOf()) == "Hello world!"
  {
    var cs := LegacyPartsOf();
    PlainTextAllAppend([cs[0]], [cs[1]]);
    assert [cs[0]] + [cs[1]] == cs;
    assert PlainTextAll([cs[0]]) == "Hello ";
    assert PlainTextAll([cs[1]]) == "world!";
  }

  /** They render as yellow then green; built, with a white code first. */
  lemma LegacyPartsLegacy()
    ensures ToLegacy(LegacyPartsOf()) == YellowGreen()
    ensures ToLegacy([BuildOf(LegacyPartsOf())]) == C('f') + YellowGreen()
  {
    var cs := LegacyPartsOf();
    RenderTwo(cs[0], cs[1], RootFormat);
    StyledRender("Hello ", 'e', false);
    RenderRun(PlainRun('a', "world!"));
    EncodeSimpleRun(PlainRun('a', "world!"), []);
    var e0 := C('e') + "Hello ";
    assert C('a') + [] == C('a');
    assert ToLegacy(cs) == e0 + (C('a') + "world!");
    Assoc(e0, C('a'), "world!");
    BuildLegacy(cs);
  }

  /** Components given with their own colour and events keep them; the builder adds nothing. */
  method AppendingCreated(h: HoverEvent, e: ClickEvent) returns (cs: seq<Component>)
    ensures |cs| == 2 && cs[0] == Styled("Hello ", 'e', false)
    ensures cs[1] == Styled("world!", 'a', false).(hover := Some(h), click := Some(e))
  {
    var inner := new ComponentBuilder.OfText("world!");
    inner.Color(Code('a'));
    inner.Hover(h);
    inner.Click(e);
    var world := inner.Create();
    var b := new ComponentBuilder.OfText("Hello ");
    b.Color(Code('e'));
    b.AppendAll(world, RetainAll);
    cs := b.Create();
  }

  // ---- Legacy text through the builder ------------------------------------------------------

  /** An RGB colour set on an empty builder survives rendering to legacy text and parsing it back. */
  method RgbThroughLegacy() returns (built: seq<Component>, reparsed: seq<Component>)
    ensures built == [TextOf("Test").(style := EmptyStyle.(color := Some(Rgb("808080"))))]
    ensures SameAll(reparsed, built)
  {
    var b := new ComponentBuilder();
    b.Color(Rgb("808080"));
    b.AppendText("Test", RetainAll);
    built := b.Create();
    RgbRoundTrip();
    reparsed := FromLegacy(ToLegacy(built));
  }

  lemma RgbRoundTrip()
    ensures var c := TextOf("Test").(style := EmptyStyle.(color := Some(Rgb("808080"))));
      SameAll(FromLegacy(ToLegacy([c])), [c])
  {
    var c := TextOf("Test").(style := EmptyStyle.(color := Some(Rgb("808080"))));
    var r := Run(Rgb("808080"), false, false, false, false, false, "Test");
    assert Hex.AllHex("808080");
    assert Marker !in r.text && '.' !in r.text;
    assert c == RunComponent(r).(reset := false);
    RenderOne(c, RootFormat);
    assert Render(c, RootFormat) == Render(RunComponent(r), RootFormat);
    RenderRun(r);
    OneRun(r);
    assert Forget(RunComponent(r)) == Forget(c);
  }

  /** Reset codes and colour codes both start afresh inside a builder too: two legacy arrays appended in turn. */
  method LegacyResetInBuilder() returns (cs: seq<Component>)
    ensures |cs| == 4
    ensures cs[0].kind == Text("44444") && cs[0].style == EmptyStyle.(color := Some(Code('4')), underlined := Set(true))
    ensures cs[1].kind == Text("dd") && cs[1].style == EmptyStyle.(color := Some(White))
    ensures cs[2].kind == Text("6666") && cs[2].style == EmptyStyle.(color := Some(Code('6')), bold := Set(true))
    ensures cs[3].kind == Text("rrrr") && cs[3].style == EmptyStyle.(color := Some(White))
  {
    var a, a2 := FromLegacy(ResetText()), FromLegacy(C('r') + "rrrr");
    LegacyResetExample();
    WhiteAfterReset(a2);
    cs := AppendFreshStart(a, a2);
  }

  /** Appending two arrays to a new builder, the second led by a reset part, yields them unchanged in turn. */
  method AppendFreshStart(a: seq<Component>, a2: seq<Component>) returns (cs: seq<Component>)
    requires a != [] && a2 != [] && a2[0].reset
    ensures cs == a + a2
  {
    var b := new ComponentBuilder();
    b.AppendAll(a, RetainAll);
    InheritFromBlank(a[0], RetainAll);
    assert b.parts == a;
    b.AppendAll(a2, RetainAll);
    assert b.parts == a + a2;
    cs := b.Create();
  }

  /** RESET followed by "rrrr" ("§rrrrr") parses to one white component that starts afresh. */
  lemma WhiteAfterReset(a: seq<Component>)
    requires a == FromLegacy(C('r') + "rrrr")
    ensures |a| == 1 && a[0].reset && a[1..] == []
    ensures a[0].kind == Text("rrrr") && a[0].style == EmptyStyle.(color := Some(White))
  {
    CodeThenText('r', "rrrr");
  }
}
