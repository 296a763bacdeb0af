// The component builder: an ordered list of parts under construction, a
// cursor naming the part the style modifiers act on, and a placeholder
// ("dummy") component that stands in for the current part while the list is
// empty, so that a colour set before the first append is carried by it.

module Builder {
  import opened Chat
  import Legacy

  /** A component with no text and no formatting: the placeholder of an empty builder. */
  const Blank: Component := Bare(Text(""))

  const IndexError: string := "index out of bounds"

  /**
   * The part an append adds for component c after `prev`: a component that
   * starts afresh (one introduced by a legacy colour code) is taken as it is;
   * any other gets the retained classes of prev's formatting wherever it
   * leaves them unset itself.
   */
  function Inherit(c: Component, prev: Component, r: FormatRetention): (d: Component)
    ensures d.kind == c.kind && d.extra == c.extra && d.reset == c.reset
    ensures c.reset ==> d == c
    ensures !c.reset ==> Merged(d, c, prev, r)
  {
    if c.reset then c else CopyFormatting(c, prev, r, false)
  }

  /** What build() returns for parts ps: an empty text root whose children are ps, or none at all. */
  function BuildOf(ps: seq<Component>): (root: Component)
    ensures root.kind == Text("") && !HasFormatting(root.(extra := NoExtra))
    ensures root.extra.NoExtra? <==> ps == []
    ensures root.extra.Extra? ==> root.extra.parts == ps
  {
    TextOf("").(extra := if ps == [] then NoExtra else Extra(ps))
  }

  class ComponentBuilder {
    var parts: seq<Component>
    var cursor: int
    var dummy: Component

    /** The cursor names a part, and is -1 exactly when there are none. */
    predicate Valid()
      reads this
    {
      -1 <= cursor < |parts| && (cursor == -1 <==> parts == [])
    }

    /** The component the modifiers act on: the part at the cursor, or the placeholder. */
    function Current(): (c: Component)
      reads this
      requires Valid()
      ensures parts != [] ==> c == parts[cursor]
      ensures parts == [] ==> c == dummy
    {
      if cursor == -1 then dummy else parts[cursor]
    }

    /** Only the current component may have changed: the cursor, the other parts and (when unused) the placeholder stay. */
    twostate predicate OthersUnchanged()
      reads this
    {
      cursor == old(cursor) && |parts| == |old(parts)|
      && (forall k :: 0 <= k < |parts| && k != cursor ==> parts[k] == old(parts[k]))
      && (cursor != -1 ==> dummy == old(dummy))
    }

    /** An empty builder. */
    constructor ()
      ensures Valid() && parts == [] && cursor == -1 && dummy == Blank
    {
      parts := [];
      cursor := -1;
      dummy := Blank;
    }

    /** A builder holding one text part. */
    constructor OfText(text: string)
      ensures Valid() && parts == [TextOf(text)] && cursor == 0 && dummy == Blank
    {
      parts := [TextOf(text)];
      cursor := 0;
      dummy := Blank;
    }

    /** A copy of another builder: the same parts, cursor and placeholder, sharing nothing mutable. */
    constructor Copy(original: ComponentBuilder)
      requires original.Valid()
      ensures Valid()
      ensures parts == original.parts && cursor == original.cursor && dummy == original.dummy
    {
      parts := original.parts;
      cursor := original.cursor;
      dummy := original.dummy;
    }

    /**
     * append(component, retention): the new part inherits from the current
     * component and becomes the cursor; an empty builder's placeholder is
     * used up by it.
     */
    method Append(c: Component, r: FormatRetention)
      requires Valid()
      modifies this
      ensures Valid()
      ensures parts == old(parts) + [Inherit(c, old(Current()), r)]
      ensures cursor == |old(parts)|
      ensures dummy == if old(parts) == [] then Blank else old(dummy)
    {
      var d := Inherit(c, Current(), r);
      if parts == [] {
        dummy := Blank;
      }
      parts := parts + [d];
      cursor := |parts| - 1;
    }

    /** append(text, retention): a new text part. */
    method AppendText(text: string, r: FormatRetention)
      requires Valid()
      modifies this
      ensures Valid()
      ensures parts == old(parts) + [Inherit(TextOf(text), old(Current()), r)]
      ensures cursor == |old(parts)|
      ensures dummy == if old(parts) == [] then Blank else old(dummy)
    {
      Append(TextOf(text), r);
    }

    /**
     * append(components, retention): the components in order; only the first
     * inherits from the current component, the others are taken as they are.
     */
    method AppendAll(cs: seq<Component>, r: FormatRetention)
      requires Valid()
      modifies this
      ensures Valid()
      ensures cs == [] ==> parts == old(parts) && cursor == old(cursor) && dummy == old(dummy)
      ensures cs != [] ==> parts == old(parts) + [Inherit(cs[0], old(Current()), r)] + cs[1..]
      ensures cs != [] ==> cursor == |parts| - 1
      ensures cs != [] ==> dummy == if old(parts) == [] then Blank else old(dummy)
    {
      if cs == [] {
        return;
      }
      Append(cs[0], r);
      var start := parts;
      var k := 1;
      while k < |cs|
        invariant 1 <= k <= |cs|
        invariant parts == start + cs[1..k] && cursor == |parts| - 1
        invariant dummy == if old(parts) == [] then Blank else old(dummy)
      {
        assert cs[1..k + 1] == cs[1..k] + [cs[k]];
        parts := parts + [cs[k]];
        cursor := |parts| - 1;
        k := k + 1;
      }
      assert cs[1..k] == cs[1..];
    }

    /** appendLegacy(text): the components the legacy text stands for, every class retained. */
    method AppendLegacy(text: string)
      requires Valid()
      modifies this
      ensures Valid()
      ensures var cs := Legacy.FromLegacy(text);
        parts == old(parts) + [Inherit(cs[0], old(Current()), RetainAll)] + cs[1..]
      ensures cursor == |parts| - 1
      ensures dummy == if old(parts) == [] then Blank else old(dummy)
    {
      AppendAll(Legacy.FromLegacy(text), RetainAll);
    }

    /** setCursor(pos): fails, changing nothing, unless pos names a part. */
    method SetCursor(pos: int) returns (ok: bool)
      requires Valid()
      modifies this`cursor
      ensures Valid()
      ensures ok <==> 0 <= pos < |parts|
      ensures cursor == if ok then pos else old(cursor)
    {
      if pos < 0 || pos >= |parts| {
        return false;
      }
      cursor := pos;
      return true;
    }

    /** resetCursor(): the cursor goes back to the last part. */
    method ResetCursor()
      requires Valid()
      modifies this`cursor
      ensures Valid() && cursor == |parts| - 1
    {
      cursor := |parts| - 1;
    }

    /** getComponent(pos): the part at pos, or an index error. */
    method GetComponent(pos: int) returns (r: Result<Component>)
      requires Valid()
      ensures r.Ok? <==> 0 <= pos < |parts|
      ensures r.Ok? ==> r.value == parts[pos]
      ensures r.Err? ==> r.msg == IndexError
    {
      if pos < 0 || pos >= |parts| {
        return Err(IndexError);
      }
      return Ok(parts[pos]);
    }

    /** getCurrentComponent(): the part at the cursor, or the placeholder of an empty builder. */
    method GetCurrentComponent() returns (c: Component)
      requires Valid()
      ensures parts != [] ==> c == parts[cursor]
      ensures parts == [] ==> c == dummy
    {
      c := if cursor == -1 then dummy else parts[cursor];
    }

    /** removeComponent(pos): the later parts move down one place and the cursor goes to the last part. */
    method RemoveComponent(pos: int) returns (ok: bool)
      requires Valid()
      modifies this
      ensures Valid() && dummy == old(dummy)
      ensures ok <==> 0 <= pos < |old(parts)|
      ensures ok ==> parts == old(parts)[..pos] + old(parts)[pos + 1..] && cursor == |parts| - 1
      ensures !ok ==> parts == old(parts) && cursor == old(cursor)
    {
      if pos < 0 || pos >= |parts| {
        return false;
      }
      parts := parts[..pos] + parts[pos + 1..];
      cursor := |parts| - 1;
      return true;
    }

    /** The current component becomes c. */
    method SetCurrent(c: Component)
      requires Valid()
      modifies this
      ensures Valid() && Current() == c && OthersUnchanged()
    {
      if cursor == -1 {
        dummy := c;
      } else {
        parts := parts[cursor := c];
      }
    }

    /** retain(retention): the current component drops the classes of formatting not retained. */
    method Retain(r: FormatRetention)
      requires Valid()
      modifies this
      ensures Valid() && OthersUnchanged()
      ensures Current() == Chat.Retain(old(Current()), r)
    {
      SetCurrent(Chat.Retain(Current(), r));
    }

    /** reset(): the current component keeps no formatting, so what follows inherits none. */
    method Reset()
      requires Valid()
      modifies this
      ensures Valid() && OthersUnchanged()
      ensures Current() == Chat.Retain(old(Current()), RetainNone)
    {
      Retain(RetainNone);
    }

    /** color(colour): the current component takes the colour. */
    method Color(col: ChatColor)
      requires Valid()
      modifies this
      ensures Valid() && OthersUnchanged()
      ensures Current() == old(Current()).(style := old(Current()).style.(color := Some(col)))
    {
      SetCurrent(Current().(style := Current().style.(color := Some(col))));
    }

    /** bold(flag): the current component sets its bold flag. */
    method Bold(b: bool)
      requires Valid()
      modifies this
      ensures Valid() && OthersUnchanged()
      ensures Current() == old(Current()).(style := old(Current()).style.(bold := Set(b)))
    {
      SetCurrent(Current().(style := Current().style.(bold := Set(b))));
    }

    /** event(ClickEvent). */
    method Click(e: ClickEvent)
      requires Valid()
      modifies this
      ensures Valid() && OthersUnchanged()
      ensures Current() == old(Current()).(click := Some(e))
    {
      SetCurrent(Current().(click := Some(e)));
    }

    /** event(HoverEvent). */
    method Hover(e: HoverEvent)
      requires Valid()
      modifies this
      ensures Valid() && OthersUnchanged()
      ensures Current() == old(Current()).(hover := Some(e))
    {
      SetCurrent(Current().(hover := Some(e)));
    }

    /** create(): the parts themselves, in order. */
    method Create() returns (cs: seq<Component>)
      requires Valid()
      ensures cs == parts
    {
      cs := parts;
    }

    /** build(): one root component holding the parts as its children. */
    method Build() returns (root: Component)
      requires Valid()
      ensures root == BuildOf(parts)
    {
      root := BuildOf(parts);
    }
  }

  // ---- Properties --------------------------------------------------------------

  /** Appending to a placeholder that was never styled changes nothing about the part. */
  lemma InheritFromBlank(c: Component, r: FormatRetention)
    ensures Inherit(c, Blank, r) == c
  {
  }

  /** An append never changes what a part reads as. */
  lemma InheritPlainText(c: Component, prev: Component, r: FormatRetention)
    ensures PlainText(Inherit(c, prev, r)) == PlainText(c)
  {
  }

  /**
   * A colour left unset by a fresh part is taken from the current component
   * exactly when formatting is retained; the events likewise when events are.
   */
  lemma InheritRetains(c: Component, prev: Component, r: FormatRetention)
    requires !c.reset
    ensures var d := Inherit(c, prev, r);
      (c.style.color.None? ==> (d.style.color == if KeepsFormatting(r) then prev.style.color else None))
      && (c.style.color.Some? ==> d.style.color == c.style.color)
      && (c.hover.None? ==> (d.hover == if KeepsEvents(r) then prev.hover else None))
      && (c.click.None? ==> (d.click == if KeepsEvents(r) then prev.click else None))
  {
  }

  /** The plain text of a build is the parts' plain texts in order. */
  lemma BuildPlainText(ps: seq<Component>)
    ensures PlainText(BuildOf(ps)) == PlainTextAll(ps)
  {
    if ps == [] {
      assert PlainText(BuildOf(ps)) == "";
    } else {
      assert PlainText(BuildOf(ps)) == "" + PlainTextAll(ps);
    }
  }

  /**
   * The legacy text of a build is that of its parts after one white code: the
   * empty root renders its own (default) colour first.
   */
  lemma BuildLegacy(ps: seq<Component>)
    requires ps != []
    ensures Legacy.ToLegacy([BuildOf(ps)]) == [Marker, 'f'] + Legacy.ToLegacy(ps)
  {
    var root := BuildOf(ps);
    var rf := Legacy.RootFormat;
    assert Legacy.Resolve(root.style, rf) == rf;
    assert Legacy.FlagChars(rf) == [];
    assert Legacy.FormatPrefix(rf) == [Marker, 'f'];
    assert OwnText(root.kind) == "";
    calc {
      Legacy.ToLegacy([root]);
      Legacy.Render(root, rf) + Legacy.RenderAll([root][1..], rf);
      { assert [root][1..] == []; }
      Legacy.Render(root, rf);
      Legacy.FormatPrefix(rf) + OwnText(root.kind) + Legacy.RenderAll(ps, rf);
      [Marker, 'f'] + Legacy.ToLegacy(ps);
    }
  }
}
