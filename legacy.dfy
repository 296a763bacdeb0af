// The legacy text codec: converting between component sequences and
// strings that carry formatting as marker codes ('§' followed by one
// character), with links recognised in plain text.

module Legacy {
  import opened Chat
  import Hex

  /** ASCII upper case to lower case; anything else unchanged. */
  function Lower(c: char): char {
    if 'A' <= c <= 'Z' then (c as int + 32) as char else c
  }

  // ---- Link detection -----------------------------------------------------
  // A word is a link when it matches ^(?:(https?)://)?([-\w_.]{2,}\.[a-z]{2,4})(/\S*)?$
  // as a whole; each predicate below is one part of that pattern.

  predicate IsWordChar(c: char) {
    ('a' <= c <= 'z') || ('A' <= c <= 'Z') || ('0' <= c <= '9') || c == '_'
  }

  predicate IsHostChar(c: char) {
    IsWordChar(c) || c == '-' || c == '.'
  }

  /** The characters \s matches: space, tab, newline, vertical tab, form feed, carriage return. */
  predicate IsWhitespace(c: char) {
    c == ' ' || c == '\t' || c == '\n' || c as int == 11 || c as int == 12 || c == '\r'
  }

  predicate AllHostChars(s: string) {
    forall i :: 0 <= i < |s| ==> IsHostChar(s[i])
  }

  /** `[a-z]{2,4}` */
  predicate IsTopLevel(t: string) {
    2 <= |t| <= 4 && forall i :: 0 <= i < |t| ==> 'a' <= t[i] <= 'z'
  }

  /** `[-\w_.]{2,}\.[a-z]{2,4}` */
  predicate IsDomain(d: string) {
    exists k :: 2 <= k < |d| && d[k] == '.' && AllHostChars(d[..k]) && IsTopLevel(d[k + 1..])
  }

  /** `(/\S*)?` */
  predicate IsPath(p: string) {
    p == [] || (p[0] == '/' && forall i :: 1 <= i < |p| ==> !IsWhitespace(p[i]))
  }

  predicate IsHostAndPath(w: string) {
    exists j :: 0 <= j <= |w| && IsDomain(w[..j]) && IsPath(w[j..])
  }

  predicate IsUrl(w: string) {
    IsHostAndPath(w)
    || (|w| >= 7 && w[..7] == "http://" && IsHostAndPath(w[7..]))
    || (|w| >= 8 && w[..8] == "https://" && IsHostAndPath(w[8..]))
  }

  /** Every link holds a dot (so a word without one is never a link). */
  lemma UrlHasDot(w: string)
    requires IsUrl(w)
    ensures '.' in w
  {
    if IsHostAndPath(w) {
      HostHasDot(w);
    } else {
      var n := if |w| >= 7 && w[..7] == "http://" && IsHostAndPath(w[7..]) then 7 else 8;
      HostHasDot(w[n..]);
      var k :| 0 <= k < |w[n..]| && w[n..][k] == '.';
      assert w[n + k] == '.';
    }
  }

  lemma HostHasDot(v: string)
    requires IsHostAndPath(v)
    ensures '.' in v
  {
    var j :| 0 <= j <= |v| && IsDomain(v[..j]) && IsPath(v[j..]);
    var k :| 2 <= k < |v[..j]| && v[..j][k] == '.' && AllHostChars(v[..j][..k]) && IsTopLevel(v[..j][k + 1..]);
    assert v[k] == '.';
  }

  /** The link target: the word itself when it starts with "http", otherwise with "http://" in front. */
  function LinkTarget(url: string): string {
    if |url| >= 4 && url[..4] == "http" then url else "http://" + url
  }

  /** The position of the first space at or after i, or the end of m. */
  function NextSpace(m: string, i: nat): (p: nat)
    requires i <= |m|
    ensures i <= p <= |m|
    ensures p == |m| || m[p] == ' '
    ensures forall k :: i <= k < p ==> m[k] != ' '
    decreases |m| - i
  {
    if i == |m| || m[i] == ' ' then i else NextSpace(m, i + 1)
  }

  /** The word that starts at position i: up to the next space. */
  function WordAt(m: string, i: nat): string
    requires i <= |m|
  {
    m[i..NextSpace(m, i)]
  }

  // ---- Parsing --------------------------------------------------------------

  /** The six digits of an RGB code whose marker is at position i (every second character after "§x"). */
  function RgbDigits(m: string, i: nat): (h: string)
    requires i + 13 < |m|
    ensures |h| == 6
  {
    seq(6, k requires 0 <= k < 6 => m[i + 3 + 2 * k])
  }

  /** A component that starts afresh with the given colour. */
  function Fresh(col: ChatColor): (c: Component)
    ensures c.reset && c.style.color == Some(col)
  {
    TextOf("").(style := EmptyStyle.(color := Some(col)), reset := true)
  }

  /** The effect of one format code on the component being built. */
  function SetFormat(c: Component, code: char): Component
    requires IsFormatCode(code)
  {
    var s := c.style;
    c.(style :=
      if code == 'l' then s.(bold := Set(true))
      else if code == 'o' then s.(italic := Set(true))
      else if code == 'n' then s.(underlined := Set(true))
      else if code == 'm' then s.(strikethrough := Set(true))
      else s.(obfuscated := Set(true)))
  }

  /** A code applied to the component being built: a format sets its flag; a colour or reset starts afresh. */
  function ApplyCode(cur: Component, col: ChatColor): Component {
    match col
    case Code(c) =>
      if IsFormatCode(c) then SetFormat(cur, c)
      else if c == ResetCode then Fresh(White)
      else Fresh(col)
    case Rgb(_) => Fresh(col)
  }

  /** The components emitted when the pending text is cut off: the current component with that text, if there is any. */
  function Emitted(cur: Component, buf: string, out: seq<Component>): seq<Component> {
    if |buf| > 0 then out + [cur.(kind := Text(buf))] else out
  }

  /** The component carried on after a cut: a copy of the current one (which is no longer a fresh start). */
  function Carried(cur: Component, buf: string): Component {
    if |buf| > 0 then cur.(reset := false) else cur
  }

  /** The state of the scan: the position, the component being built, the text collected for it, what has been emitted. */
  datatype State = State(pos: nat, cur: Component, buf: string, out: seq<Component>)

  /** The scan stops at the end of the text, or at a lone marker in the last position. */
  predicate Done(m: string, s: State)
    requires s.pos <= |m|
  {
    s.pos == |m| || (m[s.pos] == Marker && s.pos + 1 == |m|)
  }

  /** The components of a finished scan: the ones emitted, then the current one with whatever text it has. */
  function Finish(s: State): seq<Component> {
    s.out + [s.cur.(kind := Text(s.buf))]
  }

  /**
   * One step of the scan at position `pos`. A marker followed by a code cuts
   * the pending text and applies the code; an unknown code and its marker
   * are skipped; "§x" with twelve more characters is an RGB colour (the
   * fourteen characters are skipped when its digits are not hex). A word
   * that is a link is emitted as a component of its own, with an open-url
   * click event. Any other character is collected.
   */
  function Step(m: string, s: State): (t: State)
    requires s.pos <= |m| && !Done(m, s)
    ensures s.pos < t.pos <= |m|
  {
    var i := s.pos;
    if m[i] == Marker then
      var c := Lower(m[i + 1]);
      if c == 'x' && i + 13 < |m| then
        var h := RgbDigits(m, i);
        if Hex.AllHex(h) then State(i + 14, ApplyCode(Carried(s.cur, s.buf), Rgb(h)), "", Emitted(s.cur, s.buf, s.out))
        else s.(pos := i + 14)
      else if IsCode(c) then State(i + 2, ApplyCode(Carried(s.cur, s.buf), Code(c)), "", Emitted(s.cur, s.buf, s.out))
      else s.(pos := i + 2)
    else
      var p := NextSpace(m, i);
      var word := m[i..p];
      if IsUrl(word) then
        UrlHasDot(word);
        var base := Carried(s.cur, s.buf);
        var link := base.(kind := Text(word), click := Some(ClickEvent(OpenUrl, LinkTarget(word))), reset := false);
        State(p, base, "", Emitted(s.cur, s.buf, s.out) + [link])
      else
        s.(pos := i + 1, buf := s.buf + [m[i]])
  }

  /** A step only appends to what has been emitted. */
  lemma StepExtends(m: string, s: State)
    requires s.pos <= |m| && !Done(m, s)
    ensures |Step(m, s).out| >= |s.out| && Step(m, s).out[..|s.out|] == s.out
  {
  }

  /** The scan from a given state to the end. */
  function Scan(m: string, s: State): seq<Component>
    requires s.pos <= |m|
    decreases |m| - s.pos
  {
    if Done(m, s) then Finish(s) else Scan(m, Step(m, s))
  }

  /** Nothing emitted is ever taken back, and a final component is always added. */
  lemma {:induction false} ScanExtends(m: string, s: State)
    requires s.pos <= |m|
    ensures |Scan(m, s)| > |s.out| && Scan(m, s)[..|s.out|] == s.out
    decreases |m| - s.pos
  {
    if !Done(m, s) {
      var t := Step(m, s);
      StepExtends(m, s);
      ScanExtends(m, t);
      assert Scan(m, s)[..|s.out|] == Scan(m, t)[..|t.out|][..|s.out|];
    }
  }

  /** fromLegacyText with the default colour (white for reset). */
  function FromLegacy(m: string): (cs: seq<Component>)
    ensures |cs| >= 1
  {
    ScanExtends(m, State(0, TextOf(""), "", []));
    Scan(m, State(0, TextOf(""), "", []))
  }

  // ---- Rendering ------------------------------------------------------------

  /** The formatting in force for a component: its own where set, its parent's otherwise. */
  datatype Effective = Effective(color: ChatColor, bold: bool, italic: bool, underlined: bool, strikethrough: bool, obfuscated: bool)

  /** What a component without a parent inherits: white, no flags. */
  const RootFormat: Effective := Effective(White, false, false, false, false, false)

  function Flag(t: Tri, inherited: bool): bool {
    if t.Set? then t.b else inherited
  }

  function Resolve(s: Style, p: Effective): (e: Effective)
    ensures s.color.Some? ==> e.color == s.color.value
    ensures s.color.None? ==> e.color == p.color
  {
    Effective(
      if s.color.Some? then s.color.value else p.color,
      Flag(s.bold, p.bold), Flag(s.italic, p.italic), Flag(s.underlined, p.underlined),
      Flag(s.strikethrough, p.strikethrough), Flag(s.obfuscated, p.obfuscated))
  }

  /** The format codes of the flags in force, in the order bold, italic, underline, strikethrough, obfuscated. */
  function FlagChars(e: Effective): (fs: string)
    ensures forall i :: 0 <= i < |fs| ==> IsFormatCode(fs[i])
  {
    Opt(e.bold, 'l') + Opt(e.italic, 'o') + Opt(e.underlined, 'n') + Opt(e.strikethrough, 'm') + Opt(e.obfuscated, 'k')
  }

  /** The one-character string c when b holds, otherwise the empty string. */
  function Opt(b: bool, c: char): (s: string)
    ensures forall x :: x in s <==> b && x == c
  {
    if b then [c] else []
  }

  /** FlagChars holds a flag's code exactly when that flag is in force. */
  lemma FlagCharsCodes(e: Effective)
    ensures var fs := FlagChars(e);
      ('l' in fs <==> e.bold) && ('o' in fs <==> e.italic) && ('n' in fs <==> e.underlined)
      && ('m' in fs <==> e.strikethrough) && ('k' in fs <==> e.obfuscated)
  {
  }

  /** The colour, then one code per flag in force. */
  function FormatPrefix(e: Effective): string {
    ColorString(e.color) + Escaped(FlagChars(e))
  }

  /** A component as legacy text: its full format, its own text, then its children under its format. */
  function Render(c: Component, parent: Effective): string
    decreases c
  {
    var e := Resolve(c.style, parent);
    FormatPrefix(e) + OwnText(c.kind) + (if c.extra.Extra? then RenderAll(c.extra.parts, e) else "")
  }

  function RenderAll(cs: seq<Component>, parent: Effective): string
    decreases cs
  {
    if cs == [] then "" else Render(cs[0], parent) + RenderAll(cs[1..], parent)
  }

  /** toLegacyText of a sequence of components (none of which has a parent). */
  function ToLegacy(cs: seq<Component>): string {
    RenderAll(cs, RootFormat)
  }

  lemma {:induction false} RenderAllAppend(a: seq<Component>, b: seq<Component>, p: Effective)
    ensures RenderAll(a + b, p) == RenderAll(a, p) + RenderAll(b, p)
  {
    if a == [] {
      assert a + b == b;
    } else {
      var head := Render(a[0], p);
      assert (a + b)[0] == a[0];
      assert (a + b)[1..] == a[1..] + b;
      RenderAllAppend(a[1..], b, p);
      calc {
        RenderAll(a + b, p);
        head + RenderAll(a[1..] + b, p);
        head + (RenderAll(a[1..], p) + RenderAll(b, p));
        (head + RenderAll(a[1..], p)) + RenderAll(b, p);
      }
    }
  }

  /** A red text component renders as the red code and its text; its plain text is the text alone. */
  lemma BasicComponentExample()
    ensures var c := TextOf("Hello world").(style := EmptyStyle.(color := Some(Code('c'))));
      PlainText(c) == "Hello world" && Render(c, RootFormat) == "§cHello world"
  {
  }

  // ---- Canonical legacy text ----------------------------------------------
  // A canonical legacy string is a sequence of runs, each a colour (or reset)
  // code, then the codes of the flags it sets, then text without markers.

  datatype Run = Run(intro: ChatColor, bold: bool, italic: bool, underlined: bool, strikethrough: bool, obfuscated: bool, text: string)

  /** A run can begin with a colour code, the reset code or an RGB colour. */
  predicate IsIntro(col: ChatColor) {
    match col
    case Code(c) => IsColourCode(c) || c == ResetCode
    case Rgb(h) => |h| == 6 && Hex.AllHex(h)
  }

  /** The colour a run's component gets: reset means white. */
  function IntroColor(col: ChatColor): ChatColor {
    if col == Code(ResetCode) then White else col
  }

  function RunFormat(r: Run): Effective {
    Effective(r.intro, r.bold, r.italic, r.underlined, r.strikethrough, r.obfuscated)
  }

  function EncodeRun(r: Run): string {
    FormatPrefix(RunFormat(r)) + r.text
  }

  function EncodeRuns(rs: seq<Run>): string {
    if rs == [] then "" else EncodeRun(rs[0]) + EncodeRuns(rs[1..])
  }

  function SetIf(b: bool): Tri {
    if b then Set(true) else Unset
  }

  /** The component a run stands for: its text, its colour, exactly the flags it names, marked as a fresh start. */
  function RunComponent(r: Run): (c: Component)
    ensures c.kind == Text(r.text) && c.style.color == Some(IntroColor(r.intro)) && c.reset
    ensures c.style.bold.Set? <==> r.bold
    ensures c.extra.NoExtra? && c.click.None? && c.hover.None? && c.insertion.None?
  {
    Component(Text(r.text),
      Style(Some(IntroColor(r.intro)), None, SetIf(r.bold), SetIf(r.italic), SetIf(r.underlined), SetIf(r.strikethrough), SetIf(r.obfuscated)),
      None, None, None, NoExtra, true)
  }

  function RunComponents(rs: seq<Run>): (cs: seq<Component>)
    ensures |cs| == |rs|
  {
    if rs == [] then [] else [RunComponent(rs[0])] + RunComponents(rs[1..])
  }

  function RunTexts(rs: seq<Run>): string {
    if rs == [] then "" else rs[0].text + RunTexts(rs[1..])
  }

  /** Runs whose encoding parses back into one component per run. */
  predicate Canonical(rs: seq<Run>) {
    |rs| > 0
    && (forall k :: 0 <= k < |rs| ==> IsIntro(rs[k].intro) && Marker !in rs[k].text)
    && (forall k :: 0 <= k < |rs| - 1 ==> |rs[k].text| > 0)
  }

  /** No word of m, wherever it starts, is a link. */
  predicate NoLinks(m: string) {
    forall i :: 0 <= i < |m| ==> !IsUrl(WordAt(m, i))
  }

  lemma NoDotNoLinks(m: string)
    requires '.' !in m
    ensures NoLinks(m)
  {
    forall i | 0 <= i < |m|
      ensures !IsUrl(WordAt(m, i))
    {
      var w := WordAt(m, i);
      if IsUrl(w) {
        UrlHasDot(w);
        DotInSlice(m, i, NextSpace(m, i));
        assert false;
      }
    }
  }

  /** The encoding of runs holds a dot only where some run's text does. */
  lemma {:induction false} RunsNoDot(rs: seq<Run>)
    requires forall k :: 0 <= k < |rs| ==> IsIntro(rs[k].intro) && '.' !in rs[k].text
    ensures '.' !in EncodeRuns(rs)
  {
    if rs != [] {
      var r := rs[0];
      RunsNoDot(rs[1..]);
      var fs := FlagChars(RunFormat(r));
      EscapedNoDot(fs);
      if r.intro.Rgb? {
        assert '.' !in r.intro.hex;
        EscapedNoDot(r.intro.hex);
      }
      assert EncodeRuns(rs) == ColorString(r.intro) + Escaped(fs) + r.text + EncodeRuns(rs[1..]);
    }
  }

  lemma {:induction false} EscapedNoDot(s: string)
    requires '.' !in s
    ensures '.' !in Escaped(s)
  {
    if s != [] {
      EscapedNoDot(s[1..]);
      assert Escaped(s) == [Marker, s[0]] + Escaped(s[1..]);
    }
  }

  lemma DotInSlice(m: string, i: nat, j: nat)
    requires i <= j <= |m| && '.' in m[i..j]
    ensures '.' in m
  {
    var k :| 0 <= k < j - i && m[i..j][k] == '.';
    assert m[i + k] == '.';
  }

  /** Text without markers and links is collected as it stands. */
  lemma {:induction false} ScanPlain(m: string, i: nat, j: nat, cur: Component, buf: string, out: seq<Component>)
    requires i <= j <= |m| && forall k :: i <= k < j ==> !IsUrl(WordAt(m, k))
    requires forall k :: i <= k < j ==> m[k] != Marker
    ensures Scan(m, State(i, cur, buf, out)) == Scan(m, State(j, cur, buf + m[i..j], out))
    decreases j - i
  {
    if i == j {
      assert buf + m[i..j] == buf;
    } else {
      assert (buf + [m[i]]) + m[i + 1..j] == buf + m[i..j];
      calc {
        Scan(m, State(i, cur, buf, out));
        { StepText(m, i, cur, buf, out); }
        Scan(m, State(i + 1, cur, buf + [m[i]], out));
        { ScanPlain(m, i + 1, j, cur, buf + [m[i]], out); }
        Scan(m, State(j, cur, buf + m[i..j], out));
      }
    }
  }

  /** Text that ends in a space and holds neither a marker nor a dot is collected as it stands. */
  lemma ScanSpaced(m: string, i: nat, j: nat, cur: Component, buf: string, out: seq<Component>)
    requires i < j <= |m| && m[j - 1] == ' ' && '.' !in m[i..j] && Marker !in m[i..j]
    ensures Scan(m, State(i, cur, buf, out)) == Scan(m, State(j, cur, buf + m[i..j], out))
  {
    NoDotWords(m, i, j);
    forall k | i <= k < j
      ensures m[k] != Marker
    {
      assert m[k] == m[i..j][k - i];
    }
    ScanPlain(m, i, j, cur, buf, out);
  }

  /** One step of the scan over a marker and a one-character code. */
  lemma StepCode(m: string, i: nat, cur: Component, buf: string, out: seq<Component>)
    requires i + 1 < |m| && m[i] == Marker && IsCode(Lower(m[i + 1])) && Lower(m[i + 1]) != 'x'
    ensures Scan(m, State(i, cur, buf, out))
         == Scan(m, State(i + 2, ApplyCode(Carried(cur, buf), Code(Lower(m[i + 1]))), "", Emitted(cur, buf, out)))
  {
  }

  /** A word w at position i, followed by a space or the end, that is a link: it is emitted as a part of its own with an open-url click. */
  lemma StepLink(m: string, i: nat, w: string, cur: Component, buf: string, out: seq<Component>)
    requires i + |w| <= |m| && m[i..i + |w|] == w && IsUrl(w) && ' ' !in w && Marker !in w
    requires i + |w| == |m| || m[i + |w|] == ' '
    ensures var base := Carried(cur, buf);
      Scan(m, State(i, cur, buf, out))
      == Scan(m, State(i + |w|, base, "", Emitted(cur, buf, out) + [base.(kind := Text(w), click := Some(ClickEvent(OpenUrl, LinkTarget(w))), reset := false)]))
  {
    UrlHasDot(w);
    assert m[i] == w[0];
    forall k | i <= k < i + |w|
      ensures m[k] != ' '
    {
      assert m[k] == m[i..i + |w|][k - i];
    }
    NextSpaceAt(m, i, i + |w|);
  }

  /** The first space at or after i is at p when there is one at p (or p is the end) and none before it. */
  lemma NextSpaceAt(m: string, i: nat, p: nat)
    requires i <= p <= |m| && (p == |m| || m[p] == ' ')
    requires forall k :: i <= k < p ==> m[k] != ' '
    ensures NextSpace(m, i) == p
  {
  }

  /** Within text that ends in a space and holds no dot, no word is a link. */
  lemma NoDotWords(m: string, i: nat, j: nat)
    requires i < j <= |m| && m[j - 1] == ' ' && '.' !in m[i..j]
    ensures forall k :: i <= k < j ==> !IsUrl(WordAt(m, k))
  {
    forall k | i <= k < j
      ensures !IsUrl(WordAt(m, k))
    {
      var p := NextSpace(m, k);
      assert p <= j - 1;
      var w := WordAt(m, k);
      forall y | 0 <= y < |w|
        ensures w[y] != '.'
      {
        assert w[y] == m[i..j][k + y - i];
      }
      if IsUrl(w) {
        UrlHasDot(w);
        assert false;
      }
    }
  }

  /** One step of the scan over an RGB code with hex digits. */
  lemma StepRgb(m: string, i: nat, cur: Component, buf: string, out: seq<Component>)
    requires i + 13 < |m| && m[i] == Marker && Lower(m[i + 1]) == 'x' && Hex.AllHex(RgbDigits(m, i))
    ensures Scan(m, State(i, cur, buf, out))
         == Scan(m, State(i + 14, ApplyCode(Carried(cur, buf), Rgb(RgbDigits(m, i))), "", Emitted(cur, buf, out)))
  {
  }

  /** One step of the scan over a character of text that does not start a link. */
  lemma StepText(m: string, i: nat, cur: Component, buf: string, out: seq<Component>)
    requires i < |m| && m[i] != Marker && !IsUrl(WordAt(m, i))
    ensures Scan(m, State(i, cur, buf, out)) == Scan(m, State(i + 1, cur, buf + [m[i]], out))
  {
  }

  /** One step of the scan over a marker and a character that is no code: both are dropped. */
  lemma StepSkip(m: string, i: nat, cur: Component, buf: string, out: seq<Component>)
    requires i + 1 < |m| && m[i] == Marker && !IsCode(Lower(m[i + 1])) && Lower(m[i + 1]) != 'x'
    ensures Scan(m, State(i, cur, buf, out)) == Scan(m, State(i + 2, cur, buf, out))
  {
    var s := State(i, cur, buf, out);
    assert !Done(m, s);
    assert Step(m, s) == State(i + 2, cur, buf, out);
  }

  /** Escaped characters that are no codes leave the scan as it was. */
  lemma {:induction false} ScanSkips(m: string, i: nat, j: nat, s: string, cur: Component, buf: string, out: seq<Component>)
    requires forall k :: 0 <= k < |s| ==> !IsCode(Lower(s[k])) && Lower(s[k]) != 'x'
    requires j == i + 2 * |s| && j <= |m| && m[i..j] == Escaped(s)
    ensures Scan(m, State(i, cur, buf, out)) == Scan(m, State(j, cur, buf, out))
    decreases |s|
  {
    if s != [] {
      EscapedHead(m, i, s);
      var t := s[1..];
      assert j == i + 2 + 2 * |t|;
      assert forall k :: 0 <= k < |t| ==> t[k] == s[k + 1];
      StepSkip(m, i, cur, buf, out);
      ScanSkips(m, i + 2, j, t, cur, buf, out);
    }
  }

  /** Text made only of invalid codes, with possibly a lone marker at the end, parses as text without any. */
  lemma InvalidCodes(s: string, lone: bool)
    requires forall k :: 0 <= k < |s| ==> !IsCode(Lower(s[k])) && Lower(s[k]) != 'x'
    ensures FromLegacy(Escaped(s) + (if lone then [Marker] else [])) == FromLegacy("")
    ensures FromLegacy("") == [TextOf("")]
  {
    var m := Escaped(s) + (if lone then [Marker] else []);
    assert m[0..2 * |s|] == Escaped(s);
    ScanSkips(m, 0, 2 * |s|, s, TextOf(""), "", []);
    assert Done(m, State(2 * |s|, TextOf(""), "", []));
  }

  /** A colour, reset or RGB code cuts the pending text and starts a fresh component. */
  lemma ScanIntro(m: string, i: nat, j: nat, col: ChatColor, cur: Component, buf: string, out: seq<Component>)
    requires IsIntro(col)
    requires j == i + |ColorString(col)| && j <= |m| && m[i..j] == ColorString(col)
    ensures Scan(m, State(i, cur, buf, out)) == Scan(m, State(j, Fresh(IntroColor(col)), "", Emitted(cur, buf, out)))
  {
    if col.Code? {
      ScanCodeIntro(m, i, col.ch, cur, buf, out);
    } else {
      ScanRgbIntro(m, i, col.hex, cur, buf, out);
    }
  }

  lemma ScanCodeIntro(m: string, i: nat, c: char, cur: Component, buf: string, out: seq<Component>)
    requires IsColourCode(c) || c == ResetCode
    requires i + 2 <= |m| && m[i..i + 2] == [Marker, c]
    ensures Scan(m, State(i, cur, buf, out)) == Scan(m, State(i + 2, Fresh(IntroColor(Code(c))), "", Emitted(cur, buf, out)))
  {
    assert m[i] == Marker && m[i + 1] == c;
    assert Lower(c) == c;
    StepCode(m, i, cur, buf, out);
  }

  lemma ScanRgbIntro(m: string, i: nat, h: string, cur: Component, buf: string, out: seq<Component>)
    requires |h| == 6 && Hex.AllHex(h)
    requires i + 14 <= |m| && m[i..i + 14] == ColorString(Rgb(h))
    ensures Scan(m, State(i, cur, buf, out)) == Scan(m, State(i + 14, Fresh(Rgb(h)), "", Emitted(cur, buf, out)))
  {
    var cs := ColorString(Rgb(h));
    assert cs == [Marker, 'x'] + Escaped(h);
    assert m[i] == Marker && m[i + 1] == 'x' by {
      assert m[i] == cs[0] && m[i + 1] == cs[1];
    }
    forall k | 0 <= k < 6
      ensures RgbDigits(m, i)[k] == h[k]
    {
      assert m[i + 3 + 2 * k] == cs[3 + 2 * k];
      EscapedAt(h, k);
      assert cs[3 + 2 * k] == Escaped(h)[2 * k + 1];
    }
    assert RgbDigits(m, i) == h;
    StepRgb(m, i, cur, buf, out);
  }

  /** Format codes set their flags on the component being built. */
  function ApplyFormats(c: Component, fs: string): (d: Component)
    requires forall i :: 0 <= i < |fs| ==> IsFormatCode(fs[i])
    decreases |fs|
  {
    if fs == [] then c else ApplyFormats(SetFormat(c, fs[0]), fs[1..])
  }

  lemma {:induction false} ApplyFormatsEffect(c: Component, fs: string)
    requires forall i :: 0 <= i < |fs| ==> IsFormatCode(fs[i])
    ensures var d := ApplyFormats(c, fs);
      d == c.(style := c.style.(
        bold := if 'l' in fs then Set(true) else c.style.bold,
        italic := if 'o' in fs then Set(true) else c.style.italic,
        underlined := if 'n' in fs then Set(true) else c.style.underlined,
        strikethrough := if 'm' in fs then Set(true) else c.style.strikethrough,
        obfuscated := if 'k' in fs then Set(true) else c.style.obfuscated))
    decreases |fs|
  {
    if fs != [] {
      ApplyFormatsEffect(SetFormat(c, fs[0]), fs[1..]);
      assert fs == [fs[0]] + fs[1..];
    }
  }

  lemma EscapedHead(m: string, i: nat, fs: string)
    requires fs != [] && i + 2 * |fs| <= |m| && m[i..i + 2 * |fs|] == Escaped(fs)
    ensures m[i] == Marker && m[i + 1] == fs[0]
    ensures m[i + 2..i + 2 + 2 * |fs[1..]|] == Escaped(fs[1..])
  {
    var e := Escaped(fs);
    assert m[i] == e[0] && m[i + 1] == e[1];
    assert e[2..] == Escaped(fs[1..]);
    assert m[i + 2..i + 2 + 2 * |fs[1..]|] == m[i..i + 2 * |fs|][2..];
  }

  lemma {:induction false} ScanFormats(m: string, i: nat, j: nat, fs: string, cur: Component, out: seq<Component>)
    requires forall k :: 0 <= k < |fs| ==> IsFormatCode(fs[k])
    requires j == i + 2 * |fs| && j <= |m| && m[i..j] == Escaped(fs)
    ensures Scan(m, State(i, cur, "", out)) == Scan(m, State(j, ApplyFormats(cur, fs), "", out))
    decreases |fs|
  {
    if fs != [] {
      EscapedHead(m, i, fs);
      assert Lower(fs[0]) == fs[0];
      assert j == i + 2 + 2 * |fs[1..]|;
      calc {
        Scan(m, State(i, cur, "", out));
        { StepCode(m, i, cur, "", out); }
        Scan(m, State(i + 2, SetFormat(cur, fs[0]), "", out));
        { ScanFormats(m, i + 2, j, fs[1..], SetFormat(cur, fs[0]), out); }
        Scan(m, State(j, ApplyFormats(cur, fs), "", out));
      }
    }
  }

  /** The flags a run names, applied to the fresh component its colour starts, give the run's component. */
  lemma RunStart(r: Run)
    ensures RunHead(r).(kind := Text(r.text)) == RunComponent(r)
  {
    FlagCharsCodes(RunFormat(r));
    ApplyFormatsEffect(Fresh(IntroColor(r.intro)), FlagChars(RunFormat(r)));
  }

  /** The component being built once a run's codes have been read. */
  function RunHead(r: Run): Component {
    ApplyFormats(Fresh(IntroColor(r.intro)), FlagChars(RunFormat(r)))
  }

  /** The three parts of a concatenation found in m are found side by side. */
  lemma SliceThree(m: string, i: nat, x: string, y: string, z: string)
    requires i + |x + y + z| <= |m| && m[i..i + |x + y + z|] == x + y + z
    ensures m[i..i + |x|] == x
    ensures m[i + |x|..i + |x| + |y|] == y
    ensures m[i + |x| + |y|..i + |x| + |y| + |z|] == z
  {
    var w := x + y + z;
    SubSlice(m, i, w, 0, |x|);
    SubSlice(m, i, w, |x|, |x| + |y|);
    SubSlice(m, i, w, |x| + |y|, |w|);
    assert w[..|x|] == x;
    assert w[|x|..|x| + |y|] == y;
    assert w[|x| + |y|..|w|] == z;
  }

  /** A slice of w, where w is found in m at i, is found in m at the shifted place. */
  lemma SubSlice(m: string, i: nat, w: string, p: nat, q: nat)
    requires i + |w| <= |m| && m[i..i + |w|] == w && p <= q <= |w|
    ensures m[i + p..i + q] == w[p..q]
  {
    forall k | 0 <= k < q - p
      ensures m[i + p..i + q][k] == w[p..q][k]
    {
      assert m[i + p + k] == m[i..i + |w|][p + k];
    }
  }

  lemma NoMarkerInSlice(m: string, b: nat, t: string)
    requires Marker !in t && b + |t| <= |m| && m[b..b + |t|] == t
    ensures forall k :: b <= k < b + |t| ==> m[k] != Marker
  {
    forall k | b <= k < b + |t|
      ensures m[k] != Marker
    {
      assert m[k] == t[k - b];
    }
  }

  /** Scanning one run, found at m[i..d] in its three parts, emits the text pending before it and leaves the run's text pending. */
  lemma ScanOneRun(m: string, i: nat, a: nat, b: nat, d: nat, r: Run, cur: Component, buf: string, out: seq<Component>)
    requires IsIntro(r.intro) && NoLinks(m)
    requires a == i + |ColorString(r.intro)| && b == a + 2 * |FlagChars(RunFormat(r))| && d == b + |r.text| && d <= |m|
    requires m[i..a] == ColorString(r.intro) && m[a..b] == Escaped(FlagChars(RunFormat(r))) && m[b..d] == r.text
    requires forall k :: b <= k < d ==> m[k] != Marker
    ensures Scan(m, State(i, cur, buf, out)) == Scan(m, State(d, RunHead(r), r.text, Emitted(cur, buf, out)))
  {
    var e0 := Emitted(cur, buf, out);
    calc {
      Scan(m, State(i, cur, buf, out));
      { ScanIntro(m, i, a, r.intro, cur, buf, out); }
      Scan(m, State(a, Fresh(IntroColor(r.intro)), "", e0));
      { ScanFormats(m, a, b, FlagChars(RunFormat(r)), Fresh(IntroColor(r.intro)), e0); }
      Scan(m, State(b, RunHead(r), "", e0));
      { ScanText(m, b, d, r.text, RunHead(r), e0); }
      Scan(m, State(d, RunHead(r), r.text, e0));
    }
  }

  /** Plain text t found at m[i..j] is collected as the pending text. */
  lemma ScanText(m: string, i: nat, j: nat, t: string, cur: Component, out: seq<Component>)
    requires i <= j <= |m| && NoLinks(m) && m[i..j] == t
    requires forall k :: i <= k < j ==> m[k] != Marker
    ensures Scan(m, State(i, cur, "", out)) == Scan(m, State(j, cur, t, out))
  {
    ScanPlain(m, i, j, cur, "", out);
    assert "" + m[i..j] == t;
  }

  lemma StepEnd(m: string, cur: Component, buf: string, out: seq<Component>)
    ensures Scan(m, State(|m|, cur, buf, out)) == out + [cur.(kind := Text(buf))]
  {
  }

  lemma RunsSlices(m: string, i: nat, rs: seq<Run>)
    requires rs != [] && i <= |m| && m[i..] == EncodeRuns(rs)
    ensures i + |EncodeRun(rs[0])| <= |m|
    ensures m[i..i + |EncodeRun(rs[0])|] == EncodeRun(rs[0])
    ensures m[i + |EncodeRun(rs[0])|..] == EncodeRuns(rs[1..])
  {
    assert EncodeRuns(rs) == EncodeRun(rs[0]) + EncodeRuns(rs[1..]);
    SplitSuffix(m, i, EncodeRun(rs[0]), EncodeRuns(rs[1..]));
  }

  /** A suffix of m that is x followed by y has x at its start and y after it. */
  lemma SplitSuffix(m: string, i: nat, x: string, y: string)
    requires i <= |m| && m[i..] == x + y
    ensures i + |x| <= |m| && m[i..i + |x|] == x && m[i + |x|..] == y
  {
    assert m[i..i + |x|] == m[i..][..|x|];
    assert m[i + |x|..] == m[i..][|x|..];
  }

  /** The strings ws are found one after another from position i to the end of m. */
  predicate Chunks(m: string, i: nat, ws: seq<string>)
    decreases |ws|
  {
    i <= |m| &&
    if ws == [] then i == |m|
    else
      var j := i + |ws[0]|;
      j <= |m| && m[i..j] == ws[0] && Chunks(m, j, ws[1..])
  }

  lemma ChunksFirst(m: string, i: nat, j: nat, ws: seq<string>)
    requires ws != [] && Chunks(m, i, ws) && j == i + |ws[0]|
    ensures j <= |m| && m[i..j] == ws[0] && Chunks(m, j, ws[1..])
  {
  }

  lemma ChunksCons(m: string, i: nat, j: nat, ws: seq<string>)
    requires ws != [] && j == i + |ws[0]| && j <= |m| && m[i..j] == ws[0] && Chunks(m, j, ws[1..])
    ensures Chunks(m, i, ws)
  {
  }

  /** The encodings of the runs, one string per run. */
  function Encodings(rs: seq<Run>): (ws: seq<string>)
    ensures |ws| == |rs|
  {
    if rs == [] then [] else [EncodeRun(rs[0])] + Encodings(rs[1..])
  }

  lemma EncodingsCons(rs: seq<Run>)
    requires rs != []
    ensures Encodings(rs)[0] == EncodeRun(rs[0]) && Encodings(rs)[1..] == Encodings(rs[1..])
  {
  }

  /** The runs rs are encoded one after another from position i to the end of m. */
  predicate RunsAt(m: string, i: nat, rs: seq<Run>) {
    Chunks(m, i, Encodings(rs))
  }

  lemma {:induction false} RunsAtEncoding(m: string, i: nat, rs: seq<Run>)
    requires i <= |m| && m[i..] == EncodeRuns(rs)
    ensures RunsAt(m, i, rs)
    decreases |rs|
  {
    if rs != [] {
      var w := EncodeRun(rs[0]);
      var j := i + |w|;
      var ws := Encodings(rs);
      EncodingsCons(rs);
      RunsSlices(m, i, rs);
      assert j <= |m| && m[i..j] == ws[0];
      RunsAtEncoding(m, j, rs[1..]);
      assert Chunks(m, j, ws[1..]);
      ChunksCons(m, i, j, ws);
    }
  }

  /** Scanning the first of a sequence of encoded runs. */
  lemma ScanFirstRun(m: string, i: nat, j: nat, r: Run, cur: Component, buf: string, out: seq<Component>)
    requires IsIntro(r.intro) && Marker !in r.text && NoLinks(m)
    requires j == i + |EncodeRun(r)| && j <= |m| && m[i..j] == EncodeRun(r)
    ensures Scan(m, State(i, cur, buf, out)) == Scan(m, State(j, RunHead(r), r.text, Emitted(cur, buf, out)))
  {
    var cs := ColorString(r.intro);
    var es := Escaped(FlagChars(RunFormat(r)));
    assert EncodeRun(r) == cs + es + r.text;
    SliceThree(m, i, cs, es, r.text);
    var a := i + |cs|;
    var b := a + |es|;
    NoMarkerInSlice(m, b, r.text);
    ScanOneRun(m, i, a, b, j, r, cur, buf, out);
  }

  lemma CanonicalTail(rs: seq<Run>)
    requires Canonical(rs) && |rs| > 1
    ensures Canonical(rs[1..])
  {
    assert forall k :: 0 <= k < |rs| - 1 ==> rs[1..][k] == rs[k + 1];
  }

  /** The component of the last run, once its text is cut off at the end. */
  lemma LastRun(rs: seq<Run>, e0: seq<Component>)
    requires |rs| == 1
    ensures e0 + [RunHead(rs[0]).(kind := Text(rs[0].text))] == e0 + RunComponents(rs)
  {
    RunStart(rs[0]);
  }

  /** The component of a run that is followed by another: its text is emitted when the next run's colour begins. */
  lemma ConsRun(rs: seq<Run>, e0: seq<Component>)
    requires |rs| > 1 && |rs[0].text| > 0
    ensures Emitted(RunHead(rs[0]), rs[0].text, e0) + RunComponents(rs[1..]) == e0 + RunComponents(rs)
  {
    var c := RunComponent(rs[0]);
    RunStart(rs[0]);
    assert Emitted(RunHead(rs[0]), rs[0].text, e0) == e0 + [c];
    assert RunComponents(rs) == [c] + RunComponents(rs[1..]);
    AppendAssoc(e0, [c], RunComponents(rs[1..]));
  }

  lemma AppendAssoc(a: seq<Component>, b: seq<Component>, c: seq<Component>)
    ensures (a + b) + c == a + (b + c)
  {
  }

  /** The first of the runs found at i, and the rest after it. */
  lemma RunsAtFirst(m: string, i: nat, j: nat, rs: seq<Run>)
    requires rs != [] && RunsAt(m, i, rs) && j == i + |EncodeRun(rs[0])|
    ensures j <= |m| && m[i..j] == EncodeRun(rs[0]) && RunsAt(m, j, rs[1..])
  {
    EncodingsCons(rs);
    ChunksFirst(m, i, j, Encodings(rs));
  }

  /** Scanning the encoding of canonical runs emits one component per run. */
  lemma {:induction false} ScanRuns(m: string, i: nat, rs: seq<Run>, cur: Component, buf: string, out: seq<Component>)
    requires Canonical(rs) && NoLinks(m) && RunsAt(m, i, rs)
    ensures Scan(m, State(i, cur, buf, out)) == Emitted(cur, buf, out) + RunComponents(rs)
    decreases |rs|
  {
    var r := rs[0];
    var j := i + |EncodeRun(r)|;
    var e0 := Emitted(cur, buf, out);
    RunsAtFirst(m, i, j, rs);
    ScanFirstRun(m, i, j, r, cur, buf, out);
    if |rs| == 1 {
      StepEnd(m, RunHead(r), r.text, e0);
      LastRun(rs, e0);
    } else {
      CanonicalTail(rs);
      ScanRuns(m, j, rs[1..], RunHead(r), r.text, e0);
      ConsRun(rs, e0);
    }
  }

  /** Parsing the encoding of canonical runs gives exactly the runs' components. */
  lemma ParseRuns(rs: seq<Run>)
    requires Canonical(rs) && NoLinks(EncodeRuns(rs))
    ensures FromLegacy(EncodeRuns(rs)) == RunComponents(rs)
  {
    var m := EncodeRuns(rs);
    assert m[0..] == m;
    RunsAtEncoding(m, 0, rs);
    ScanRuns(m, 0, rs, TextOf(""), "", []);
  }

  /** A run's component renders as the run's encoding (a reset code comes back as white). */
  lemma RenderRun(r: Run)
    requires r.intro != Code(ResetCode)
    ensures Render(RunComponent(r), RootFormat) == EncodeRun(r)
  {
    var c := RunComponent(r);
    assert Resolve(c.style, RootFormat) == RunFormat(r);
  }

  lemma {:induction false} RenderRuns(rs: seq<Run>)
    requires forall k :: 0 <= k < |rs| ==> rs[k].intro != Code(ResetCode)
    ensures ToLegacy(RunComponents(rs)) == EncodeRuns(rs)
  {
    if rs != [] {
      var cs := RunComponents(rs);
      RenderRuns(rs[1..]);
      RenderRun(rs[0]);
      assert cs[0] == RunComponent(rs[0]);
      assert cs[1..] == RunComponents(rs[1..]);
      assert RenderAll(cs, RootFormat) == Render(cs[0], RootFormat) + RenderAll(cs[1..], RootFormat);
    }
  }

  /** Canonical legacy text and its components convert into each other without loss. */
  lemma LegacyRoundTrip(rs: seq<Run>)
    requires Canonical(rs) && NoLinks(EncodeRuns(rs))
    requires forall k :: 0 <= k < |rs| ==> rs[k].intro != Code(ResetCode)
    ensures ToLegacy(FromLegacy(EncodeRuns(rs))) == EncodeRuns(rs)
    ensures FromLegacy(ToLegacy(RunComponents(rs))) == RunComponents(rs)
  {
    ParseRuns(rs);
    RenderRuns(rs);
  }

  /** The plain text of parsed canonical text is the runs' text with every code removed. */
  lemma {:induction false} PlainTextOfRuns(rs: seq<Run>)
    ensures PlainTextAll(RunComponents(rs)) == RunTexts(rs)
  {
    if rs != [] {
      PlainTextOfRuns(rs[1..]);
      assert RunComponents(rs)[0] == RunComponent(rs[0]);
      assert RunComponents(rs)[1..] == RunComponents(rs[1..]);
    }
  }
}
