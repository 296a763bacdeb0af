// The chat component data model: colours, styles, click and hover events,
// the four component kinds, and the formatting operations every component
// supports (copying formatting from another component, retaining only part
// of it, asking whether any formatting is present).

module Chat {
  import Hex

  datatype Option<T> = None | Some(value: T)

  datatype Result<T> = Ok(value: T) | Err(msg: string)

  /** A nullable Boolean: a style flag is unset (inherited from the parent) or set to a value. */
  datatype Tri = Unset | Set(b: bool)

  /** The escape character that starts a legacy formatting code. */
  const Marker: char := '§'

  /** Codes 0-9 and a-f are colours. */
  predicate IsColourCode(c: char) {
    ('0' <= c <= '9') || ('a' <= c <= 'f')
  }

  /** k obfuscated, l bold, m strikethrough, n underline, o italic. */
  predicate IsFormatCode(c: char) {
    'k' <= c <= 'o'
  }

  const ResetCode: char := 'r'

  /** The characters that may follow the marker (in lower case). */
  predicate IsCode(c: char) {
    IsColourCode(c) || IsFormatCode(c) || c == ResetCode
  }

  /**
   * A chat colour: one of the named legacy codes (colours, formats and
   * reset are all values of the same type), or an RGB colour given by its
   * six hex digits as written (either case).
   */
  datatype ChatColor = Code(ch: char) | Rgb(hex: string)

  const White: ChatColor := Code('f')

  predicate ValidColor(col: ChatColor) {
    match col
    case Code(c) => IsCode(c)
    case Rgb(h) => |h| == 6 && Hex.AllHex(h)
  }

  /** A colour that carries an actual RGB value (a colour code or an RGB colour; not a format, not reset). */
  predicate HasRgb(col: ChatColor) {
    match col
    case Code(c) => IsColourCode(c)
    case Rgb(h) => |h| == 6 && Hex.AllHex(h)
  }

  /** Each character of s, preceded by the marker. */
  function Escaped(s: string): (r: string)
    ensures |r| == 2 * |s|
  {
    if s == [] then [] else [Marker, s[0]] + Escaped(s[1..])
  }

  /** Position 2i of the escaped text is the marker and position 2i + 1 is the i-th character. */
  lemma {:induction false} EscapedAt(s: string, i: nat)
    requires i < |s|
    ensures Escaped(s)[2 * i] == Marker && Escaped(s)[2 * i + 1] == s[i]
  {
    if i > 0 {
      EscapedAt(s[1..], i - 1);
      assert Escaped(s) == [Marker, s[0]] + Escaped(s[1..]);
    }
  }

  /** The legacy text of a colour: the marker and its code, or the marker, 'x' and the six escaped digits. */
  function ColorString(col: ChatColor): (r: string)
    ensures |r| >= 2 && r[0] == Marker
    ensures col.Code? ==> r == [Marker, col.ch]
    ensures col.Rgb? ==> r[1] == 'x' && |r| == 2 + 2 * |col.hex|
  {
    match col
    case Code(c) => [Marker, c]
    case Rgb(h) => [Marker, 'x'] + Escaped(h)
  }

  datatype Style = Style(
    color: Option<ChatColor>,
    font: Option<string>,
    bold: Tri,
    italic: Tri,
    underlined: Tri,
    strikethrough: Tri,
    obfuscated: Tri)

  const EmptyStyle: Style := Style(None, None, Unset, Unset, Unset, Unset, Unset)

  /** No style property is set. */
  predicate IsEmpty(s: Style) {
    s.color.None? && s.font.None? && s.bold.Unset? && s.italic.Unset?
    && s.underlined.Unset? && s.strikethrough.Unset? && s.obfuscated.Unset?
  }

  /** A style is empty exactly when it is the style that sets nothing. */
  lemma IsEmptyIff(s: Style)
    ensures IsEmpty(s) <==> s == EmptyStyle
  {
  }

  /** A freshly built style is empty; one with bold set is not. */
  lemma StyleIsEmptyExample()
    ensures IsEmpty(EmptyStyle)
    ensures !IsEmpty(EmptyStyle.(bold := Set(true)))
  {
  }

  datatype ClickAction = OpenUrl | OpenFile | RunCommand | SuggestCommand | ChangePage | CopyToClipboard

  datatype ClickEvent = ClickEvent(action: ClickAction, value: string)

  datatype HoverAction = ShowText | ShowItem | ShowEntity

  /** The value of a text hover: a plain string or a sequence of components. */
  datatype TextValue = Plain(s: string) | Rich(cs: seq<Component>)

  /** One hover content element: text, or an entity (type, identifier, optional display name). */
  datatype Content =
    | TextContent(text: TextValue)
    | EntityContent(entityType: string, id: string, name: Option<Component>)

  /** A hover event; `legacy` records that it was given in the old single-value form. */
  datatype HoverEvent = HoverEvent(action: HoverAction, contents: seq<Content>, legacy: bool)

  /** The component kinds: literal text, a translation key with arguments, a scoreboard score, an entity selector. */
  datatype Kind =
    | Text(text: string)
    | Translatable(key: string, args: seq<Component>)
    | Score(name: string, objective: string, scoreValue: Option<string>)
    | Selector(selector: string)

  /** The children of a component: none at all (null), or a list (possibly empty). */
  datatype Extra = NoExtra | Extra(parts: seq<Component>)

  /**
   * A chat component. `reset` marks a component that starts afresh (it was
   * introduced by a colour or reset code in legacy text); it is transient:
   * it is not serialised and not part of equality (see Same).
   */
  datatype Component = Component(
    kind: Kind,
    style: Style,
    insertion: Option<string>,
    click: Option<ClickEvent>,
    hover: Option<HoverEvent>,
    extra: Extra,
    reset: bool)

  /** A new component of the given kind with no formatting and no children. */
  function Bare(k: Kind): (c: Component)
    ensures c.kind == k && IsEmpty(c.style) && c.extra.NoExtra?
  {
    Component(k, EmptyStyle, None, None, None, NoExtra, false)
  }

  function TextOf(s: string): (c: Component)
    ensures c.kind == Text(s) && IsEmpty(c.style)
  {
    Bare(Text(s))
  }

  /** The colour of a component with no parent: its own, or white when unset. */
  function ColorOf(c: Component): ChatColor {
    if c.style.color.Some? then c.style.color.value else White
  }

  /** Whether formatting is set at all: a style property, an insertion, an event or a child list. */
  predicate HasFormatting(c: Component) {
    !IsEmpty(c.style) || c.insertion.Some? || c.click.Some? || c.hover.Some? || c.extra.Extra?
  }

  /** Formatting is present exactly when the component differs from a bare one of its kind. */
  lemma HasFormattingIff(c: Component)
    ensures HasFormatting(c) <==> c.(reset := false) != Bare(c.kind)
  {
    IsEmptyIff(c.style);
  }

  /** A new text component has no formatting; after setting bold it has. */
  lemma HasFormattingExample()
    ensures !HasFormatting(TextOf(""))
    ensures HasFormatting(TextOf("").(style := TextOf("").style.(bold := Set(true))))
  {
  }

  /** Which classes of formatting an append carries over. */
  datatype FormatRetention = RetainNone | RetainFormatting | RetainEvents | RetainAll

  /** Events here means the click event, the hover event and the insertion. */
  predicate KeepsEvents(r: FormatRetention) {
    r.RetainEvents? || r.RetainAll?
  }

  /** Formatting here means the style: colour, font and the five flags. */
  predicate KeepsFormatting(r: FormatRetention) {
    r.RetainFormatting? || r.RetainAll?
  }

  /** Take the source's value when replacing, or when the target has none of its own. */
  function Pick<T>(replace: bool, mine: Option<T>, theirs: Option<T>): (v: Option<T>)
    ensures replace ==> v == theirs
    ensures !replace && mine.Some? ==> v == mine
    ensures mine.None? ==> v == theirs
  {
    if replace || mine.None? then theirs else mine
  }

  function PickTri(replace: bool, mine: Tri, theirs: Tri): (v: Tri)
    ensures replace ==> v == theirs
    ensures !replace && mine.Set? ==> v == mine
    ensures mine.Unset? ==> v == theirs
  {
    if replace || mine.Unset? then theirs else mine
  }

  function CopyStyle(mine: Style, theirs: Style, replace: bool): (s: Style)
    ensures replace ==> s == theirs
    ensures IsEmpty(mine) ==> s == theirs
  {
    Style(
      Pick(replace, mine.color, theirs.color),
      Pick(replace, mine.font, theirs.font),
      PickTri(replace, mine.bold, theirs.bold),
      PickTri(replace, mine.italic, theirs.italic),
      PickTri(replace, mine.underlined, theirs.underlined),
      PickTri(replace, mine.strikethrough, theirs.strikethrough),
      PickTri(replace, mine.obfuscated, theirs.obfuscated))
  }

  /**
   * Copy the retained classes of formatting of `source` onto `target`:
   * every property of a retained class is taken from the source when
   * `replace` holds, and otherwise only where the target leaves it unset.
   * The kind, the children and the reset mark stay the target's.
   */
  function CopyFormatting(target: Component, source: Component, r: FormatRetention, replace: bool): (c: Component)
    ensures c.kind == target.kind && c.extra == target.extra && c.reset == target.reset
    ensures !KeepsEvents(r) ==> c.click == target.click && c.hover == target.hover && c.insertion == target.insertion
    ensures !KeepsFormatting(r) ==> c.style == target.style
  {
    var ev := KeepsEvents(r);
    target.(
      style := if KeepsFormatting(r) then CopyStyle(target.style, source.style, replace) else target.style,
      insertion := if ev then Pick(replace, target.insertion, source.insertion) else target.insertion,
      click := if ev then Pick(replace, target.click, source.click) else target.click,
      hover := if ev then Pick(replace, target.hover, source.hover) else target.hover)
  }

  /** `d` is `mine` where that is set; otherwise `theirs` when its class is carried over, and unset when it is not. */
  predicate MergedOpt<T(==)>(d: Option<T>, mine: Option<T>, theirs: Option<T>, keep: bool) {
    if mine.Some? then d == mine else if keep then d == theirs else d.None?
  }

  predicate MergedTri(d: Tri, mine: Tri, theirs: Tri, keep: bool) {
    if mine.Set? then d == mine else if keep then d == theirs else d.Unset?
  }

  /**
   * `d` is `own` with each property it leaves unset filled in from `from`,
   * for the classes `r` retains, property by property; the kind, the
   * children and the reset mark are own's.
   */
  predicate Merged(d: Component, own: Component, from: Component, r: FormatRetention) {
    var f, e := KeepsFormatting(r), KeepsEvents(r);
    d.kind == own.kind && d.extra == own.extra && d.reset == own.reset
    && MergedOpt(d.style.color, own.style.color, from.style.color, f)
    && MergedOpt(d.style.font, own.style.font, from.style.font, f)
    && MergedTri(d.style.bold, own.style.bold, from.style.bold, f)
    && MergedTri(d.style.italic, own.style.italic, from.style.italic, f)
    && MergedTri(d.style.underlined, own.style.underlined, from.style.underlined, f)
    && MergedTri(d.style.strikethrough, own.style.strikethrough, from.style.strikethrough, f)
    && MergedTri(d.style.obfuscated, own.style.obfuscated, from.style.obfuscated, f)
    && MergedOpt(d.insertion, own.insertion, from.insertion, e)
    && MergedOpt(d.click, own.click, from.click, e)
    && MergedOpt(d.hover, own.hover, from.hover, e)
  }

  /** The merge fixes every property, so at most one component is a merge of two given ones. */
  lemma MergedUnique(d1: Component, d2: Component, own: Component, from: Component, r: FormatRetention)
    requires Merged(d1, own, from, r) && Merged(d2, own, from, r)
    ensures d1 == d2
  {
    assert d1.style == d2.style;
  }

  /** Drop every class of formatting that `r` does not retain. */
  function Retain(c: Component, r: FormatRetention): (d: Component)
    ensures d.kind == c.kind && d.extra == c.extra && d.reset == c.reset
    ensures KeepsFormatting(r) ==> d.style == c.style
    ensures !KeepsFormatting(r) ==> IsEmpty(d.style)
    ensures KeepsEvents(r) ==> d.click == c.click && d.hover == c.hover && d.insertion == c.insertion
    ensures !KeepsEvents(r) ==> d.click.None? && d.hover.None? && d.insertion.None?
  {
    var d1 := if KeepsEvents(r) then c else c.(insertion := None, click := None, hover := None);
    if KeepsFormatting(r) then d1 else d1.(style := EmptyStyle)
  }

  /** Copying with replacement and every class makes the target look exactly like the source. */
  lemma CopyAllReplace(target: Component, source: Component)
    ensures var c := CopyFormatting(target, source, RetainAll, true);
      c.style == source.style && c.click == source.click && c.hover == source.hover
      && c.insertion == source.insertion && c.kind == target.kind
  {
  }

  /**
   * Copying without replacement keeps every property the target sets
   * itself, and takes each one it leaves unset from the source when its
   * class is retained.
   */
  lemma CopyKeepsOwn(target: Component, source: Component, r: FormatRetention)
    ensures Merged(CopyFormatting(target, source, r, false), target, source, r)
  {
  }

  /** Copying onto a fresh component gives the source with the unretained classes dropped. */
  lemma CopyIntoBare(k: Kind, source: Component, r: FormatRetention, replace: bool)
    ensures CopyFormatting(Bare(k), source, r, replace)
         == Retain(source, r).(kind := k, extra := NoExtra, reset := false)
  {
  }

  /** Copying the same formatting twice changes nothing more. */
  lemma CopyIdempotent(target: Component, source: Component, r: FormatRetention, replace: bool)
    ensures var once := CopyFormatting(target, source, r, replace);
      CopyFormatting(once, source, r, replace) == once
  {
  }

  lemma RetainIdempotent(c: Component, r: FormatRetention)
    ensures Retain(Retain(c, r), r) == Retain(c, r)
    ensures Retain(c, RetainAll) == c
  {
  }

  /** Retaining nothing leaves a component with no formatting beyond its children. */
  lemma RetainNoneClears(c: Component)
    ensures !HasFormatting(Retain(c, RetainNone).(extra := NoExtra))
  {
  }

  // Equality ignores the transient reset mark, at every depth.

  function Forget(c: Component): (d: Component)
    ensures !d.reset
    decreases c
  {
    Component(ForgetKind(c.kind), c.style, c.insertion, c.click, ForgetHover(c.hover), ForgetExtra(c.extra), false)
  }

  function ForgetKind(k: Kind): Kind
    decreases k
  {
    match k
    case Translatable(key, args) => Translatable(key, ForgetAll(args))
    case _ => k
  }

  function ForgetHover(h: Option<HoverEvent>): Option<HoverEvent>
    decreases h
  {
    match h
    case None => None
    case Some(e) => Some(e.(contents := ForgetContents(e.contents)))
  }

  function ForgetContents(xs: seq<Content>): (ys: seq<Content>)
    ensures |ys| == |xs|
    decreases xs
  {
    if xs == [] then [] else [ForgetContent(xs[0])] + ForgetContents(xs[1..])
  }

  function ForgetContent(x: Content): Content
    decreases x
  {
    match x
    case TextContent(Plain(_)) => x
    case TextContent(Rich(cs)) => TextContent(Rich(ForgetAll(cs)))
    case EntityContent(t, id, n) => EntityContent(t, id, if n.Some? then Some(Forget(n.value)) else None)
  }

  function ForgetExtra(e: Extra): Extra
    decreases e
  {
    match e
    case NoExtra => NoExtra
    case Extra(cs) => Extra(ForgetAll(cs))
  }

  function ForgetAll(cs: seq<Component>): (ds: seq<Component>)
    ensures |ds| == |cs|
    decreases cs
  {
    if cs == [] then [] else [Forget(cs[0])] + ForgetAll(cs[1..])
  }

  /** Component equality as the system defines it: structural, with the reset mark left out. */
  predicate Same(a: Component, b: Component) {
    Forget(a) == Forget(b)
  }

  predicate SameAll(a: seq<Component>, b: seq<Component>) {
    ForgetAll(a) == ForgetAll(b)
  }

  /** Components that differ only in their reset marks are equal. */
  lemma SameIgnoresReset(c: Component, mark: bool)
    ensures Same(c, c.(reset := mark))
  {
  }

  lemma SameAllPointwise(a: seq<Component>, b: seq<Component>)
    requires |a| == |b|
    requires forall i :: 0 <= i < |a| ==> Same(a[i], b[i])
    ensures SameAll(a, b)
  {
    if a != [] {
      SameAllPointwise(a[1..], b[1..]);
    }
  }

  /** Equal text with equal children are equal; a different child text makes them differ. */
  lemma EqualsExample()
    ensures var first := TextOf("Hello, ").(extra := Extra([TextOf("World!")]));
      var second := TextOf("Hello, ").(extra := Extra([TextOf("World!")]));
      var other := TextOf("Hello, ").(extra := Extra([TextOf("World.")]));
      Same(first, second) && !Same(other, second)
  {
    var w1 := TextOf("World!");
    var w2 := TextOf("World.");
    assert ForgetAll([w1]) == [w1];
    assert ForgetAll([w2]) == [w2];
    assert w1 != w2 by {
      assert w1.kind.text[5] != w2.kind.text[5];
    }
  }

  // Plain text: the literal text of a component followed by its children's.

  /** The literal text a component contributes on its own (translation and score lookup are not modelled). */
  function OwnText(k: Kind): string {
    match k
    case Text(t) => t
    case Score(_, _, v) => if v.Some? then v.value else ""
    case Selector(s) => s
    case Translatable(_, _) => ""
  }

  function PlainText(c: Component): string
    decreases c
  {
    OwnText(c.kind) + (if c.extra.Extra? then PlainTextAll(c.extra.parts) else "")
  }

  function PlainTextAll(cs: seq<Component>): string
    decreases cs
  {
    if cs == [] then "" else PlainText(cs[0]) + PlainTextAll(cs[1..])
  }

  lemma {:induction false} PlainTextAllAppend(a: seq<Component>, b: seq<Component>)
    ensures PlainTextAll(a + b) == PlainTextAll(a) + PlainTextAll(b)
  {
    if a == [] {
      assert a + b == b;
    } else {
      assert (a + b)[0] == a[0];
      assert (a + b)[1..] == a[1..] + b;
      PlainTextAllAppend(a[1..], b);
    }
  }
}
