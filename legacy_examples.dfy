// Concrete conversions between legacy text and components.

module LegacyExamples {
  import opened Chat
  import opened Legacy

  function PlainRun(col: char, text: string): Run {
    Run(Code(col), false, false, false, false, false, text)
  }

  /** Green bold "Hello ", white obfuscated "world", gray "!". */
  function HelloWorldRuns(): seq<Run> {
    [PlainRun('a', "Hello ").(bold := true), PlainRun('f', "world").(obfuscated := true), PlainRun('7', "!")]
  }

  /** A legacy code: the marker and the code character. */
  function C(c: char): string {
    [Marker, c]
  }

  /** One run, encoded, parses back to its component. */
  lemma OneRun(r: Run)
    requires Canonical([r]) && '.' !in r.text
    ensures FromLegacy(EncodeRun(r)) == [RunComponent(r)]
  {
    RunsNoDot([r]);
    assert [r][1..] == [];
    assert EncodeRuns([r]) == EncodeRun(r) + "";
    assert EncodeRun(r) + "" == EncodeRun(r);
    NoDotNoLinks(EncodeRuns([r]));
    ParseRuns([r]);
  }

  /** A colour or reset code followed by plain text parses to one fresh component of that colour holding the text. */
  lemma CodeThenText(x: char, t: string)
    requires IsIntro(Code(x)) && Marker !in t && '.' !in t
    ensures FromLegacy(C(x) + t) == [RunComponent(PlainRun(x, t))]
  {
    var r := PlainRun(x, t);
    EncodeSimpleRun(r, []);
    assert C(x) + [] == C(x);
    OneRun(r);
  }

  /** A colour code on its own parses to one empty component of that colour, which renders back to the code. */
  lemma ColourOnlyExample()
    ensures FromLegacy(C('a')) == [RunComponent(PlainRun('a', ""))]
    ensures FromLegacy(C('a'))[0].kind == Text("") && FromLegacy(C('a'))[0].style.color == Some(Code('a'))
    ensures ToLegacy(FromLegacy(C('a'))) == C('a')
  {
    var r := PlainRun('a', "");
    assert Canonical([r]);
    EncodeSimpleRun(r, "");
    assert EncodeRun(r) == C('a');
    OneRun(r);
    assert EncodeRuns([r]) == EncodeRun(r) + "";
    NoDotNoLinks(EncodeRuns([r]));
    LegacyRoundTrip([r]);
  }

  /** The text GREEN + BOLD + "Hello " + WHITE + MAGIC + "world" + GRAY + "!". */
  function HelloWorldText(): string {
    C('a') + C('l') + "Hello " + C('f') + C('k') + "world" + C('7') + "!"
  }

  lemma Assoc(a: string, b: string, c: string)
    ensures a + (b + c) == (a + b) + c
  {
  }

  /** Three runs, encoded, are their encodings side by side. */
  lemma EncodeThree(r0: Run, r1: Run, r2: Run, e0: string, e1: string, e2: string)
    requires EncodeRun(r0) == e0 && EncodeRun(r1) == e1 && EncodeRun(r2) == e2
    ensures EncodeRuns([r0, r1, r2]) == e0 + (e1 + e2)
  {
    var rs := [r0, r1, r2];
    assert rs[1..] == [r1, r2] && rs[1..][1..] == [r2] && [r2][1..] == [];
    assert EncodeRuns([r2]) == e2 + "";
  }

  /** A run with a colour code and at most one flag, encoded. */
  lemma EncodeSimpleRun(r: Run, f: string)
    requires r.intro.Code? && FlagChars(RunFormat(r)) == f && |f| <= 1
    ensures EncodeRun(r) == C(r.intro.ch) + (if f == [] then [] else C(f[0])) + r.text
  {
    if f != [] {
      assert Escaped(f) == C(f[0]) + Escaped([]);
    }
  }

  lemma HelloWorldEncoding()
    ensures EncodeRuns(HelloWorldRuns()) == HelloWorldText()
  {
    var rs := HelloWorldRuns();
    var e0 := C('a') + C('l') + "Hello ";
    var e1 := C('f') + C('k') + "world";
    var e2 := C('7') + "!";
    EncodeSimpleRun(rs[0], "l");
    EncodeSimpleRun(rs[1], "k");
    EncodeSimpleRun(rs[2], "");
    assert EncodeRuns(rs[2..]) == e2;
    assert EncodeRuns(rs[1..]) == e1 + e2;
    assert EncodeRuns(rs) == e0 + (e1 + e2);
    Assoc(e0, e1, e2);
    Assoc(e0, C('f') + C('k'), "world");
    Assoc(e0, C('f'), C('k'));
    Assoc(e0 + e1, C('7'), "!");
  }

  /** Legacy text of whole runs comes back unchanged from parsing and rendering. */
  lemma ToLegacyFromLegacyExample()
    ensures ToLegacy(FromLegacy(HelloWorldText())) == HelloWorldText()
  {
    var rs := HelloWorldRuns();
    HelloWorldClean();
    RunsNoDot(rs);
    NoDotNoLinks(EncodeRuns(rs));
    LegacyRoundTrip(rs);
    HelloWorldEncoding();
  }

  lemma HelloWorldClean()
    ensures Canonical(HelloWorldRuns())
    ensures forall k :: 0 <= k < |HelloWorldRuns()| ==> '.' !in HelloWorldRuns()[k].text
  {
    var rs := HelloWorldRuns();
    assert Marker !in rs[0].text && '.' !in rs[0].text;
    assert Marker !in rs[1].text && '.' !in rs[1].text;
    assert Marker !in rs[2].text && '.' !in rs[2].text;
  }

  // ---- Aqua, then red bold ---------------------------------------------------

  function AquaRedRuns(): seq<Run> {
    [PlainRun('b', "Aqua "), PlainRun('c', "RedBold").(bold := true)]
  }

  /** The text AQUA + "Aqua " + RED + BOLD + "RedBold". */
  function AquaRedText(): string {
    C('b') + "Aqua " + C('c') + C('l') + "RedBold"
  }

  lemma AquaRedEncoding()
    ensures EncodeRuns(AquaRedRuns()) == AquaRedText()
  {
    var rs := AquaRedRuns();
    var e0 := C('b') + "Aqua ";
    var e1 := C('c') + C('l') + "RedBold";
    EncodeSimpleRun(rs[0], "");
    EncodeSimpleRun(rs[1], "l");
    assert EncodeRuns(rs[1..]) == e1;
    assert EncodeRuns(rs) == e0 + e1;
    Assoc(e0, C('c') + C('l'), "RedBold");
    Assoc(e0, C('c'), C('l'));
  }

  lemma AquaRedClean()
    ensures Canonical(AquaRedRuns())
    ensures forall k :: 0 <= k < |AquaRedRuns()| ==> '.' !in AquaRedRuns()[k].text
  {
    var rs := AquaRedRuns();
    assert Marker !in rs[0].text && '.' !in rs[0].text;
    assert Marker !in rs[1].text && '.' !in rs[1].text;
  }

  /** Aqua text then red bold text: the plain text drops the codes, the legacy text comes back unchanged. */
  lemma LegacyConverterExample()
    ensures PlainTextAll(FromLegacy(AquaRedText())) == "Aqua RedBold"
    ensures ToLegacy(FromLegacy(AquaRedText())) == AquaRedText()
  {
    var rs := AquaRedRuns();
    AquaRedClean();
    RunsNoDot(rs);
    NoDotNoLinks(EncodeRuns(rs));
    LegacyRoundTrip(rs);
    ParseRuns(rs);
    AquaRedPlain();
    AquaRedEncoding();
  }

  lemma AquaRedPlain()
    ensures PlainTextAll(RunComponents(AquaRedRuns())) == "Aqua RedBold"
  {
    var rs := AquaRedRuns();
    PlainTextOfRuns(rs);
    assert RunTexts(rs[1..]) == "RedBold";
    assert RunTexts(rs) == "Aqua " + "RedBold";
  }

  // ---- Reset between colours -------------------------------------------------

  /** Dark red underlined "44444", reset "dd", gold bold "6666". */
  function ResetRuns(): seq<Run> {
    [PlainRun('4', "44444").(underlined := true), PlainRun('r', "dd"), PlainRun('6', "6666").(bold := true)]
  }

  /** The text DARK_RED + UNDERLINE + "44444" + RESET + "dd" + GOLD + BOLD + "6666". */
  function ResetText(): string {
    C('4') + C('n') + "44444" + C('r') + "dd" + C('6') + C('l') + "6666"
  }

  lemma ResetEncoding()
    ensures EncodeRuns(ResetRuns()) == ResetText()
  {
    var r0, r1, r2 := PlainRun('4', "44444").(underlined := true), PlainRun('r', "dd"), PlainRun('6', "6666").(bold := true);
    var e0, e1, e2 := C('4') + C('n') + "44444", C('r') + "dd", C('6') + C('l') + "6666";
    EncodeSimpleRun(r0, "n");
    EncodeSimpleRun(r1, "");
    EncodeSimpleRun(r2, "l");
    EncodeThree(r0, r1, r2, e0, e1, e2);
    ResetTextParts(e0, e1, e2);
  }

  lemma ResetTextParts(e0: string, e1: string, e2: string)
    requires e0 == C('4') + C('n') + "44444" && e1 == C('r') + "dd" && e2 == C('6') + C('l') + "6666"
    ensures ResetText() == e0 + (e1 + e2)
  {
    Assoc(e0, e1, e2);
    Assoc(e0, C('r'), "dd");
    Assoc(e0 + e1, C('6') + C('l'), "6666");
    Assoc(e0 + e1, C('6'), C('l'));
  }

  lemma ResetClean()
    ensures Canonical(ResetRuns())
    ensures forall k :: 0 <= k < |ResetRuns()| ==> '.' !in ResetRuns()[k].text
  {
    var rs := ResetRuns();
    assert Marker !in rs[0].text && '.' !in rs[0].text;
    assert Marker !in rs[1].text && '.' !in rs[1].text;
    assert Marker !in rs[2].text && '.' !in rs[2].text;
  }

  /** In legacy text the reset code starts a fresh white component, as colour codes do. */
  lemma LegacyResetExample()
    ensures var cs := FromLegacy(ResetText());
      |cs| == 3
      && cs[0].kind == Text("44444") && cs[0].style == EmptyStyle.(color := Some(Code('4')), underlined := Set(true))
      && cs[1].kind == Text("dd") && cs[1].style == EmptyStyle.(color := Some(White))
      && cs[2].kind == Text("6666") && cs[2].style == EmptyStyle.(color := Some(Code('6')), bold := Set(true))
  {
    var rs := ResetRuns();
    ResetClean();
    RunsNoDot(rs);
    NoDotNoLinks(EncodeRuns(rs));
    ParseRuns(rs);
    ResetEncoding();
  }

  // ---- Invalid codes ---------------------------------------------------------

  /** A character that is no code in either case (`x` counts as one: it starts an RGB colour). */
  predicate IsInvalidCode(c: char) {
    !IsCode(Lower(c)) && Lower(c) != 'x'
  }

  /** The characters of s that are no code, in order. */
  function InvalidOf(s: string): string {
    if s == [] then [] else (if IsInvalidCode(s[0]) then [s[0]] else []) + InvalidOf(s[1..])
  }

  /** InvalidOf keeps exactly the invalid codes. */
  lemma {:induction false} InvalidOfCodes(s: string)
    ensures forall k :: 0 <= k < |InvalidOf(s)| ==> IsInvalidCode(InvalidOf(s)[k])
    ensures forall c :: c in InvalidOf(s) <==> c in s && IsInvalidCode(c)
  {
    if s != [] {
      InvalidOfCodes(s[1..]);
      assert s == [s[0]] + s[1..];
    }
  }

  /**
   * Every invalid code among the given characters (the test uses the digits and
   * lowercase letters), then a lone marker, parses as the empty text does, and
   * both render as the white code alone.
   */
  lemma InvalidColorCodesExample(chars: string)
    ensures var m := Escaped(InvalidOf(chars)) + [Marker];
      FromLegacy(m) == FromLegacy("") && ToLegacy(FromLegacy(m)) == ToLegacy(FromLegacy(""))
    ensures ToLegacy(FromLegacy("")) == C('f')
  {
    InvalidOfCodes(chars);
    InvalidCodes(InvalidOf(chars), true);
    assert ToLegacy([TextOf("")]) == Render(TextOf(""), RootFormat) + RenderAll([], RootFormat);
  }

  // ---- Links -----------------------------------------------------------------

  /** "google.com/test" is a link whose target gets "http://" in front. */
  lemma BareLinkExample()
    ensures IsUrl("google.com/test") && LinkTarget("google.com/test") == "http://google.com/test"
  {
    GoogleHostAndPath();
    GoogleTarget();
  }

  lemma GoogleTarget()
    ensures LinkTarget("google.com/test") == "http://google.com/test"
  {
    assert "google.com/test"[..4] != "http" by {
      assert "google.com/test"[..4][0] == 'g';
    }
  }

  lemma GoogleHostAndPath()
    ensures IsHostAndPath("google.com/test")
  {
    var w := "google.com/test";
    assert w[..10] == "google.com" && w[10..] == "/test";
    GoogleDomain();
    assert IsPath("/test");
  }

  lemma GoogleDomain()
    ensures IsDomain("google.com")
  {
    var d := "google.com";
    assert d[6] == '.' && d[..6] == "google" && d[7..] == "com";
    assert AllHostChars("google") && IsTopLevel("com");
  }

  /** "http://spigotmc.org" is a link that is its own target. */
  lemma SchemeLinkExample()
    ensures IsUrl("http://spigotmc.org") && LinkTarget("http://spigotmc.org") == "http://spigotmc.org"
  {
    var w := "http://spigotmc.org";
    assert w[..7] == "http://" && w[7..] == "spigotmc.org";
    assert w[..4] == "http";
    SpigotHostAndPath();
  }

  lemma SpigotHostAndPath()
    ensures IsHostAndPath("spigotmc.org")
  {
    var v := "spigotmc.org";
    assert v[..12] == v && v[12..] == [];
    SpigotDomain();
    assert IsPath([]);
  }

  lemma SpigotDomain()
    ensures IsDomain("spigotmc.org")
  {
    var d := "spigotmc.org";
    assert d[8] == '.' && d[..8] == "spigotmc" && d[9..] == "org";
    assert AllHostChars("spigotmc") && IsTopLevel("org");
  }

  /** The two link words of the test hold neither a space nor a marker. */
  lemma LinkWordsPlain()
    ensures ' ' !in "http://spigotmc.org" && Marker !in "http://spigotmc.org"
    ensures ' ' !in "google.com/test" && Marker !in "google.com/test"
  {
  }

  /** A link component: the text of the link word with an open-url click to its target. */
  function LinkPart(base: Component, w: string): Component {
    base.(kind := Text(w), click := Some(ClickEvent(OpenUrl, LinkTarget(w))), reset := false)
  }

  /**
   * "Text " + w1 + " " + GREEN + w2 with link words w1 and w2 (the test uses
   * "http://spigotmc.org" and "google.com/test", links by SchemeLinkExample
   * and BareLinkExample): white "Text ", w1 as a white link, a white space,
   * w2 as a green link, and the trailing empty green component.
   */
  lemma LinkConverterExample(m: string, x: string, w1: string, w2: string)
    requires x == "Text " && m == x + w1 + " " + C('a') + w2
    requires IsUrl(w1) && ' ' !in w1 && Marker !in w1 && IsUrl(w2) && ' ' !in w2 && Marker !in w2
    ensures var cs := FromLegacy(m);
      |cs| == 5 && cs[0] == TextOf(x)
      && cs[1].kind == Text(w1) && cs[1].click == Some(ClickEvent(OpenUrl, LinkTarget(w1))) && cs[1].style == EmptyStyle
      && cs[2] == TextOf(" ")
      && cs[3].kind == Text(w2) && cs[3].click == Some(ClickEvent(OpenUrl, LinkTarget(w2))) && cs[3].style == EmptyStyle.(color := Some(Code('a')))
      && cs[4].kind == Text("") && cs[4].style == EmptyStyle.(color := Some(Code('a')))
    ensures FromLegacy(m) == LinkResult(x, w1, w2, TextOf(""), Fresh(Code('a')))
  {
    LinkShapedOf(m, x, w1, w2);
    LinkScan(m, x, w1, w2, TextOf(""), Fresh(Code('a')));
  }

  /** The plain text of the link example is the text without the colour code. */
  lemma LinkConverterPlain(x: string, w1: string, w2: string)
    ensures PlainTextAll(LinkResult(x, w1, w2, TextOf(""), Fresh(Code('a')))) == x + w1 + " " + w2
  {
    var cs := LinkResult(x, w1, w2, TextOf(""), Fresh(Code('a')));
    assert cs == [cs[0]] + ([cs[1]] + ([cs[2]] + ([cs[3]] + [cs[4]])));
    PlainTextAllAppend([cs[0]], [cs[1]] + ([cs[2]] + ([cs[3]] + [cs[4]])));
    PlainTextAllAppend([cs[1]], [cs[2]] + ([cs[3]] + [cs[4]]));
    PlainTextAllAppend([cs[2]], [cs[3]] + [cs[4]]);
    PlainTextAllAppend([cs[3]], [cs[4]]);
    assert PlainTextAll([cs[4]]) == "";
    assert PlainTextAll([cs[3]]) == w2;
    assert PlainTextAll([cs[2]]) == " ";
    assert PlainTextAll([cs[1]]) == w1;
    assert PlainTextAll([cs[0]]) == x;
  }

  /** The legacy text of the link example: every part carries its full colour, white for the first three, green after. */
  lemma LinkConverterLegacy(x: string, w1: string, w2: string)
    ensures ToLegacy(LinkResult(x, w1, w2, TextOf(""), Fresh(Code('a'))))
         == C('f') + x + C('f') + w1 + C('f') + " " + C('a') + w2 + C('a')
  {
    var cs := LinkResult(x, w1, w2, TextOf(""), Fresh(Code('a')));
    assert cs == [cs[0]] + ([cs[1]] + ([cs[2]] + ([cs[3]] + [cs[4]])));
    RenderAllAppend([cs[0]], [cs[1]] + ([cs[2]] + ([cs[3]] + [cs[4]])), RootFormat);
    RenderAllAppend([cs[1]], [cs[2]] + ([cs[3]] + [cs[4]]), RootFormat);
    RenderAllAppend([cs[2]], [cs[3]] + [cs[4]], RootFormat);
    RenderAllAppend([cs[3]], [cs[4]], RootFormat);
    LinkRenders(cs);
    var r0, r1, r2, r3, r4 := C('f') + x, C('f') + w1, C('f') + " ", C('a') + w2, C('a') + "";
    assert ToLegacy(cs) == r0 + (r1 + (r2 + (r3 + r4)));
    FlattenFive(C('f'), x, C('f'), w1, C('f'), " ", C('a'), w2, C('a'));
  }

  lemma FlattenFive(p0: string, t0: string, p1: string, t1: string, p2: string, t2: string, p3: string, t3: string, p4: string)
    ensures (p0 + t0) + ((p1 + t1) + ((p2 + t2) + ((p3 + t3) + (p4 + ""))))
         == p0 + t0 + p1 + t1 + p2 + t2 + p3 + t3 + p4
  {
    assert p4 + "" == p4;
  }

  lemma LinkRenders(cs: seq<Component>)
    requires |cs| == 5 && IsEmpty(cs[0].style) && IsEmpty(cs[1].style) && IsEmpty(cs[2].style)
    requires cs[3].style == EmptyStyle.(color := Some(Code('a'))) && cs[4].style == EmptyStyle.(color := Some(Code('a')))
    requires forall k :: 0 <= k < 5 ==> cs[k].kind.Text? && cs[k].extra.NoExtra?
    ensures forall k :: 0 <= k < 5 ==> RenderAll([cs[k]], RootFormat) == (if k < 3 then C('f') else C('a')) + cs[k].kind.text
  {
    forall k | 0 <= k < 5
      ensures RenderAll([cs[k]], RootFormat) == (if k < 3 then C('f') else C('a')) + cs[k].kind.text
    {
      assert FlagChars(Resolve(cs[k].style, RootFormat)) == "";
      assert RenderAll([cs[k]], RootFormat) == Render(cs[k], RootFormat) + "";
    }
  }

  /** Text shaped like the link example: "Text ", a link, a space, a green code, a link. */
  predicate LinkShaped(m: string, x: string, w1: string, w2: string) {
    var i := |x| + |w1|;
    x == "Text " && |m| == i + 3 + |w2| && m[..|x|] == x && m[|x|..i] == w1
    && m[i] == ' ' && m[i + 1] == Marker && m[i + 2] == 'a' && m[i + 3..] == w2
    && IsUrl(w1) && ' ' !in w1 && Marker !in w1 && IsUrl(w2) && ' ' !in w2 && Marker !in w2
  }

  lemma LinkShapedOf(m: string, x: string, w1: string, w2: string)
    requires x == "Text " && m == x + w1 + " " + C('a') + w2
    requires IsUrl(w1) && ' ' !in w1 && Marker !in w1 && IsUrl(w2) && ' ' !in w2 && Marker !in w2
    ensures LinkShaped(m, x, w1, w2)
  {
    LinkSlices(m, x, w1, w2);
  }

  lemma LinkSlices(m: string, x: string, w1: string, w2: string)
    requires m == x + w1 + " " + C('a') + w2
    ensures var i := |x| + |w1|;
      |m| == i + 3 + |w2| && m[..|x|] == x && m[|x|..i] == w1
      && m[i] == ' ' && m[i + 1] == Marker && m[i + 2] == 'a' && m[i + 3..] == w2
  {
  }

  /** The parts the scan of link-shaped text yields, given the white and the green component. */
  function LinkResult(x: string, w1: string, w2: string, t0: Component, g: Component): seq<Component> {
    [TextOf(x), LinkPart(t0, w1), TextOf(" "), LinkPart(g, w2), g]
  }

  // The scan of the link example, one stretch per lemma, from the end backwards.

  lemma LinkScan(m: string, x: string, w1: string, w2: string, t0: Component, g: Component)
    requires LinkShaped(m, x, w1, w2) && t0 == TextOf("") && g == Fresh(Code('a'))
    ensures Scan(m, State(0, t0, "", [])) == LinkResult(x, w1, w2, t0, g)
  {
    assert m[0..|x|] == x;
    ScanSpaced(m, 0, |x|, t0, "", []);
    assert "" + x == x;
    LinkScanFirstLink(m, x, w1, w2, t0, g);
  }

  lemma LinkScanFirstLink(m: string, x: string, w1: string, w2: string, t0: Component, g: Component)
    requires LinkShaped(m, x, w1, w2) && t0 == TextOf("") && g == Fresh(Code('a'))
    ensures Scan(m, State(|x|, t0, x, [])) == LinkResult(x, w1, w2, t0, g)
  {
    StepLink(m, |x|, w1, t0, x, []);
    assert Carried(t0, x) == t0;
    assert Emitted(t0, x, []) + [LinkPart(t0, w1)] == [TextOf(x), LinkPart(t0, w1)];
    LinkScanSpace(m, x, w1, w2, t0, g);
  }

  lemma LinkScanSpace(m: string, x: string, w1: string, w2: string, t0: Component, g: Component)
    requires LinkShaped(m, x, w1, w2) && t0 == TextOf("") && g == Fresh(Code('a'))
    ensures Scan(m, State(|x| + |w1|, t0, "", [TextOf(x), LinkPart(t0, w1)])) == LinkResult(x, w1, w2, t0, g)
  {
    var i := |x| + |w1|;
    assert m[i..i + 1] == " ";
    ScanSpaced(m, i, i + 1, t0, "", [TextOf(x), LinkPart(t0, w1)]);
    assert "" + " " == " ";
    LinkScanCode(m, x, w1, w2, t0, g);
  }

  lemma LinkScanCode(m: string, x: string, w1: string, w2: string, t0: Component, g: Component)
    requires LinkShaped(m, x, w1, w2) && t0 == TextOf("") && g == Fresh(Code('a'))
    ensures Scan(m, State(|x| + |w1| + 1, t0, " ", [TextOf(x), LinkPart(t0, w1)])) == LinkResult(x, w1, w2, t0, g)
  {
    var i := |x| + |w1| + 1;
    var out1 := [TextOf(x), LinkPart(t0, w1)];
    var out2 := [TextOf(x), LinkPart(t0, w1), TextOf(" ")];
    assert Lower(m[i + 1]) == 'a';
    StepCode(m, i, t0, " ", out1);
    assert ApplyCode(Carried(t0, " "), Code('a')) == g;
    assert Emitted(t0, " ", out1) == out2;
    assert Scan(m, State(i, t0, " ", out1)) == Scan(m, State(i + 2, g, "", out2));
    LinkScanTail(m, x, w1, w2, t0, g);
  }

  lemma LinkScanTail(m: string, x: string, w1: string, w2: string, t0: Component, g: Component)
    requires LinkShaped(m, x, w1, w2) && t0 == TextOf("") && g == Fresh(Code('a'))
    ensures Scan(m, State(|x| + |w1| + 3, g, "", [TextOf(x), LinkPart(t0, w1), TextOf(" ")])) == LinkResult(x, w1, w2, t0, g)
  {
    var i := |x| + |w1| + 3;
    var out2 := [TextOf(x), LinkPart(t0, w1), TextOf(" ")];
    assert m[i..i + |w2|] == w2;
    StepLink(m, i, w2, g, "", out2);
    StepEnd(m, g, "", out2 + [LinkPart(g, w2)]);
    assert g.(kind := Text("")) == g;
  }
}
