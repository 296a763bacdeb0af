# Chat components of a Minecraft proxy, modelled in Dafny

This project models the chat-component core of the BungeeCord proxy: the
rules its chat library follows, as its own test suites pin them down. It has
four parts.

- **Components and formatting** (`chat.dfy`):
  - the component value: a text, translatable, score or selector kind, a style of tri-state flags (set true, set false, unset) with an optional colour and font, an insertion, click and hover events, and children;
  - `hasFormatting`, `copyFormatting` and the four format-retention modes (NONE, FORMATTING, EVENTS, ALL);
  - plain text and structural equality.
- **The component builder** (`builder.dfy`), a class:
  - fields: the ordered parts, the cursor (`-1` exactly when there are no parts) and a placeholder component;
  - `append` (a text, a component, an array of components or legacy text), `setCursor`, `resetCursor`, `getComponent`, `getCurrentComponent`, `removeComponent`, `retain`, `reset`, the colour, bold and event modifiers, and `create` and `build`.
- **Cycle-safe serialisation** (`graph.dfy`):
  - the components live in an arena whose nodes hold child indices, so a child can be shared and a component can even list itself;
  - the serialiser is a depth-first walk that carries the set of open ancestors and fails with the component-loop error when it meets one;
  - it fails exactly when a cycle is reachable from the root;
  - a class `Arena` holds the walk's pushed and popped ancestor set.
- **The legacy text codec** (`legacy.dfy`):
  - `fromLegacyText` scans marker-plus-code pairs: a colour code starts a fresh component with that colour; `r` starts a fresh white one; a format code adds a flag; `§x` followed by six escaped hex digits gives an RGB colour; a lone trailing marker or an unknown code is dropped;
  - `toLegacyText` writes each component's effective colour and flags, then its text;
  - on text made of whole style runs the two are inverse.
- **Entity ids** (`uuid.dfy`, `hex.dfy`): four signed 32-bit words become the dashed lowercase 8-4-4-4-12 hex form, and that form reads back to the same words.

The files `*_examples.dfy` state the suites' concrete scenarios as lemmas and
as methods that drive the builder and the arena step by step.

Where the suites and the library's own description of it read differently,
the model follows the suites:
- `getCurrentComponent` on an empty builder returns the placeholder, not an error (ComponentsTest.java:104-112).
- `toLegacyText` repeats the full colour for every component rather than writing only changes (ComponentsLegacyTest.java:51-53).
- `reset()` leaves the current part with no formatting set, rather than with an explicit white colour and every flag explicitly false (ComponentsBuilderTest.java:266-273). The suite only reads the part's colour, and an unset colour reads as white on a part with no parent, so both readings pass it. They differ only when a later part takes formatting from the reset one; see `Builder.ComponentBuilder.Reset` under "## Left out".

## Model

| member | source | states |
|---|---|---|
| Chat.IsEmptyIff | chat/src/test/java/net/md_5/bungee/api/chat/ComponentsTest.java:308-318 | a style is empty exactly when it equals the style with no field set |
| Chat.StyleIsEmptyExample | chat/src/test/java/net/md_5/bungee/api/chat/ComponentsTest.java:308-318 | the style built with nothing is empty; the one with bold set is not |
| Chat.HasFormattingIff | chat/src/test/java/net/md_5/bungee/api/chat/ComponentsFormatTest.java:15-23 | a component has formatting exactly when it differs from the bare component of its kind (the fresh-start mark aside) |
| Chat.HasFormattingExample | chat/src/test/java/net/md_5/bungee/api/chat/ComponentsFormatTest.java:15-23 | a new text component has no formatting; after setting bold it has |
| Chat.CopyFormatting | chat/src/test/java/net/md_5/bungee/api/chat/ComponentsFormatTest.java:80-94 | copying formatting never changes the kind, the children or the fresh-start mark; it leaves the events alone when the retention excludes events and the style alone when it excludes formatting |
| Chat.CopyAllReplace | chat/src/test/java/net/md_5/bungee/api/chat/ComponentsFormatTest.java:80-94 | copying with ALL and replace gives the target the source's bold flag, colour, click event and hover event |
| Chat.CopyKeepsOwn | chat/src/test/java/net/md_5/bungee/api/chat/ComponentsFormatTest.java:80-94 | without replace, the result is the merge: each of the colour, font, five flags, insertion, click and hover keeps the target's value where it sets one, takes the source's where it does not and the field's class is retained, and stays unset otherwise |
| Chat.MergedUnique | chat/src/test/java/net/md_5/bungee/api/chat/ComponentsFormatTest.java:80-94 | the merge fixes every field, so it describes exactly one component |
| Chat.CopyIntoBare | chat/src/test/java/net/md_5/bungee/api/chat/ComponentsFormatTest.java:95-124 | copying into a bare component gives that component with exactly the retained classes of the source |
| Chat.CopyIdempotent | chat/src/test/java/net/md_5/bungee/api/chat/ComponentsFormatTest.java:80-94 | copying the same formatting a second time changes nothing |
| Chat.Retain | chat/src/test/java/net/md_5/bungee/api/chat/ComponentsFormatTest.java:95-124 | retaining keeps the style exactly when formatting is retained (else the style is empty) and the click, hover and insertion exactly when events are retained (else none) |
| Chat.RetainIdempotent | chat/src/test/java/net/md_5/bungee/api/chat/ComponentsFormatTest.java:95-124 | retaining twice is retaining once, and retaining ALL changes nothing |
| Chat.RetainNoneClears | chat/src/test/java/net/md_5/bungee/api/chat/ComponentsBuilderTest.java:266-273 | after retaining NONE a component has no formatting of its own |
| Chat.SameIgnoresReset | chat/src/test/java/net/md_5/bungee/api/chat/ComponentsTest.java:282-304 | equality ignores the transient fresh-start mark |
| Chat.SameAllPointwise | chat/src/test/java/net/md_5/bungee/api/chat/ComponentsTest.java:282-304 | two part arrays are equal when they are equal part by part |
| Chat.EqualsExample | chat/src/test/java/net/md_5/bungee/api/chat/ComponentsTest.java:282-304 | "Hello, " with child "World!" equals another built the same way, and differs from one with child "World." |
| Chat.PlainTextAllAppend | chat/src/test/java/net/md_5/bungee/api/chat/ComponentsBuilderTest.java:274-282 | the plain text of two part lists side by side is their plain texts side by side |
| Hex.ToHexLower | chat/src/test/java/net/md_5/bungee/api/chat/ComponentsTest.java:92-98 | the digits written for a value are all lowercase hex digits |
| Hex.FromToHex | chat/src/test/java/net/md_5/bungee/api/chat/ComponentsTest.java:92-98 | reading back the digits written for a value gives the value |
| Hex.ToHexConcat | chat/src/test/java/net/md_5/bungee/api/chat/ComponentsTest.java:92-98 | the digits of a high part shifted above a low part are the two parts' digits side by side |
| Uuid.UnsignedCongruent | chat/src/test/java/net/md_5/bungee/api/chat/ComponentsTest.java:95-96 | a signed word and its unsigned bit pattern agree modulo 2^32, and agree outright when the word is not negative |
| Uuid.SignedUnsigned | chat/src/test/java/net/md_5/bungee/api/chat/ComponentsTest.java:95-96 | turning a word into its bit pattern and back gives the word |
| Uuid.FromWordsCanonical | chat/src/test/java/net/md_5/bungee/api/chat/ComponentsTest.java:92-98 | the text of any four words has 36 characters, dashes at 8, 13, 18 and 23 and lowercase hex digits everywhere else |
| Uuid.FromWordsIsValue | chat/src/test/java/net/md_5/bungee/api/chat/ComponentsTest.java:92-98 | the text is the 128-bit id (first word most significant) in 32 hex digits, dashed 8-4-4-4-12 |
| Uuid.WordsRoundTrip | chat/src/test/java/net/md_5/bungee/api/chat/ComponentsTest.java:92-98 | reading the canonical text back gives the same four words |
| Hex.ToFromHex | chat/src/test/java/net/md_5/bungee/api/chat/ComponentsTest.java:92-98 | writing back the value of lowercase hex digits gives the same digits |
| Uuid.CanonicalRoundTrip | chat/src/test/java/net/md_5/bungee/api/chat/ComponentsTest.java:92-98 | every canonical dashed form is the form of the words read from it, so the two forms are in one-to-one correspondence |
| Uuid.JoinedPlayerExample | chat/src/test/java/net/md_5/bungee/api/chat/ComponentsTest.java:95-96 | the words [1328556382, -2138814985, -1895806765, -1039963041] read as "4f30295e-8084-45f7-8f00-48d3c2036c5f" |
| Legacy.FromLegacy | chat/src/test/java/net/md_5/bungee/api/chat/ComponentsLegacyTest.java:135-138 | the conversion of any text, the empty text included, yields at least one component |
| Legacy.ApplyFormatsEffect | chat/src/test/java/net/md_5/bungee/api/chat/ComponentsLegacyTest.java:153-160 | format codes set exactly the flags they name and leave the colour and everything else alone |
| Legacy.InvalidCodes | chat/src/test/java/net/md_5/bungee/api/chat/ComponentsLegacyTest.java:110-133 | marker pairs whose code is no legacy code, followed or not by a lone trailing marker, convert exactly like the empty text, which is one empty component |
| Legacy.RenderAllAppend | chat/src/test/java/net/md_5/bungee/api/chat/ComponentsLegacyTest.java:41-64 | the legacy text of two part lists side by side is their legacy texts side by side |
| Legacy.BasicComponentExample | chat/src/test/java/net/md_5/bungee/api/chat/ComponentsTest.java:218-226 | red "Hello world" has plain text "Hello world" and legacy text RED + "Hello world" |
| Legacy.NoDotNoLinks | chat/src/test/java/net/md_5/bungee/api/chat/ComponentsLegacyTest.java:48-63 | text without a dot contains no word taken for a link |
| Legacy.UrlHasDot | chat/src/test/java/net/md_5/bungee/api/chat/ComponentsLegacyTest.java:48-63 | every word taken for a link contains a dot |
| Legacy.ParseRuns | chat/src/test/java/net/md_5/bungee/api/chat/ComponentsLegacyTest.java:14-19 | text made of style runs (a colour or reset code, format codes, plain text) converts to exactly one component per run, each starting afresh with the run's colour and flags |
| Legacy.RenderRun | chat/src/test/java/net/md_5/bungee/api/chat/ComponentsLegacyTest.java:41-46 | the legacy text of a run's component is the run's own codes followed by its text |
| Legacy.RenderRuns | chat/src/test/java/net/md_5/bungee/api/chat/ComponentsLegacyTest.java:41-46 | the legacy text of the runs' components is the runs' encoding |
| Legacy.LegacyRoundTrip | chat/src/test/java/net/md_5/bungee/api/chat/ComponentsLegacyTest.java:14-19 | for text made of style runs without reset codes, converting and rendering gives the text back, and rendering and converting gives the components back |
| Legacy.PlainTextOfRuns | chat/src/test/java/net/md_5/bungee/api/chat/ComponentsLegacyTest.java:41-50 | the plain text of converted runs is their texts with every code removed |
| LegacyExamples.OneRun | chat/src/test/java/net/md_5/bungee/api/chat/ComponentsLegacyTest.java:99-108 | one run, encoded, converts back to its one component |
| LegacyExamples.ColourOnlyExample | chat/src/test/java/net/md_5/bungee/api/chat/ComponentsFormatTest.java:36-48 | GREEN on its own converts to one empty green component whose legacy text is GREEN again |
| LegacyExamples.ToLegacyFromLegacyExample | chat/src/test/java/net/md_5/bungee/api/chat/ComponentsLegacyTest.java:14-19 | GREEN BOLD "Hello " WHITE MAGIC "world" GRAY "!" renders back to itself |
| LegacyExamples.LegacyConverterExample | chat/src/test/java/net/md_5/bungee/api/chat/ComponentsLegacyTest.java:41-46 | AQUA "Aqua " RED BOLD "RedBold" has plain text "Aqua RedBold" and renders back to itself |
| LegacyExamples.AquaRedPlain | chat/src/test/java/net/md_5/bungee/api/chat/ComponentsLegacyTest.java:45 | the parts of that text have plain text "Aqua RedBold" |
| LegacyExamples.LegacyResetExample | chat/src/test/java/net/md_5/bungee/api/chat/ComponentsLegacyTest.java:153-160 | DARK_RED UNDERLINE "44444" RESET "dd" GOLD BOLD "6666" converts to underlined dark red "44444", white "dd" and bold gold "6666", nothing else set |
| LegacyExamples.InvalidOfCodes | chat/src/test/java/net/md_5/bungee/api/chat/ComponentsLegacyTest.java:113-123 | the collected characters are exactly those of the alphabet that are no legacy code |
| LegacyExamples.InvalidColorCodesExample | chat/src/test/java/net/md_5/bungee/api/chat/ComponentsLegacyTest.java:110-133 | all invalid marker pairs and a trailing lone marker render like the empty text, which renders as WHITE |
| LegacyExamples.BareLinkExample | chat/src/test/java/net/md_5/bungee/api/chat/ComponentsLegacyTest.java:60-63 | "google.com/test" is a link whose target gains the "http://" prefix |
| LegacyExamples.SchemeLinkExample | chat/src/test/java/net/md_5/bungee/api/chat/ComponentsLegacyTest.java:55-58 | "http://spigotmc.org" is a link whose target is itself |
| LegacyExamples.LinkWordsPlain | chat/src/test/java/net/md_5/bungee/api/chat/ComponentsLegacyTest.java:48 | the test's two link words hold no space and no marker |
| Legacy.StepLink | chat/src/test/java/net/md_5/bungee/api/chat/ComponentsLegacyTest.java:48-63 | a link word followed by a space or the end cuts the pending text and becomes a part of its own, with the current formatting and an OPEN_URL click to its target |
| Legacy.ScanSpaced | chat/src/test/java/net/md_5/bungee/api/chat/ComponentsLegacyTest.java:48-50 | text with no marker and no dot that ends in a space is collected as it stands |
| LegacyExamples.LinkConverterExample | chat/src/test/java/net/md_5/bungee/api/chat/ComponentsLegacyTest.java:48-63 | "Text " + w1 + " " + GREEN + w2, for link words w1 and w2 such as the test's, converts to five parts: "Text ", w1 with an OPEN_URL click to its target, " ", w2 green with an OPEN_URL click to its target, and an empty green part |
| LegacyExamples.LinkConverterPlain | chat/src/test/java/net/md_5/bungee/api/chat/ComponentsLegacyTest.java:50 | those parts have plain text "Text " + w1 + " " + w2 |
| LegacyExamples.LinkConverterLegacy | chat/src/test/java/net/md_5/bungee/api/chat/ComponentsLegacyTest.java:51-53 | those parts render as WHITE "Text " WHITE w1 WHITE " " GREEN w2 GREEN |
| Graph.SerListErr | chat/src/test/java/net/md_5/bungee/api/chat/ComponentsTest.java:261-274 | serialising a list of children fails exactly when one of the children fails |
| Graph.SerErrIffLoops | chat/src/test/java/net/md_5/bungee/api/chat/ComponentsTest.java:228-274 | serialising a node under a set of open ancestors fails exactly when some path from it reaches an open ancestor or repeats a node |
| Graph.SerializeFailsIffCycle | chat/src/test/java/net/md_5/bungee/api/chat/ComponentsTest.java:228-274 | serialising a node from the top fails exactly when a cycle is reachable from it; sharing a child is not a cycle |
| Graph.ErrIsLoopError | chat/src/test/java/net/md_5/bungee/api/chat/ComponentsTest.java:233 | every failure is the component-loop error |
| Graph.Arena.constructor | chat/src/test/java/net/md_5/bungee/api/chat/ComponentsTest.java:231 | a new arena has no components and no open ancestors |
| Graph.Arena.Add | chat/src/test/java/net/md_5/bungee/api/chat/ComponentsTest.java:239-243 | adding a component appends a node with its fields and no children, at the next index |
| Graph.Arena.AddExtra | chat/src/test/java/net/md_5/bungee/api/chat/ComponentsTest.java:244-246 | addExtra appends the child to the parent's children and changes nothing else |
| Graph.Arena.Visit | chat/src/test/java/net/md_5/bungee/api/chat/ComponentsTest.java:228-274 | the recursive walk, pushing and popping the open ancestors, returns the serialisation under the open set it started with and restores that set |
| Graph.Arena.Serialize | chat/src/test/java/net/md_5/bungee/api/chat/ComponentsTest.java:228-274 | serialising from an idle arena gives the reference serialisation, fails exactly when a cycle is reachable, and leaves the arena idle |
| GraphExamples.LoopSimple | chat/src/test/java/net/md_5/bungee/api/chat/ComponentsTest.java:228-234 | a component listing itself fails with the loop error |
| GraphExamples.LoopComplex | chat/src/test/java/net/md_5/bungee/api/chat/ComponentsTest.java:236-248 | a -> b -> c -> a fails with the loop error |
| GraphExamples.Repeated | chat/src/test/java/net/md_5/bungee/api/chat/ComponentsTest.java:250-259 | "A" with the aqua "B" added twice serialises to "A" with two aqua "B" children |
| GraphExamples.RepeatedError | chat/src/test/java/net/md_5/bungee/api/chat/ComponentsTest.java:261-274 | shared children together with the cycle a -> c -> a fail with the loop error |
| Builder.Inherit | chat/src/test/java/net/md_5/bungee/api/chat/ComponentsFormatTest.java:95-124 | a part that starts afresh is appended as it is; any other is the field-by-field merge of `Chat.Merged`: its own value where it sets one, the current component's where it does not and the class (formatting for colour, font and flags; events for insertion, click and hover) is retained, unset otherwise |
| Builder.BuildOf | chat/src/test/java/net/md_5/bungee/api/chat/ComponentsBuilderTest.java:16-33 | the built root is an unformatted empty text with no children for no parts, and with exactly the parts as children otherwise |
| Builder.ComponentBuilder.constructor | chat/src/test/java/net/md_5/bungee/api/chat/ComponentsBuilderTest.java:94-95 | a new builder has no parts, cursor -1 and a blank placeholder |
| Builder.ComponentBuilder.OfText | chat/src/test/java/net/md_5/bungee/api/chat/ComponentsBuilderTest.java:268 | a builder made from a text holds that one text part with the cursor on it |
| Builder.ComponentBuilder.Copy | chat/src/test/java/net/md_5/bungee/api/chat/ComponentsBuilderTest.java:283-289 | a copy has the original's parts, cursor and placeholder |
| Builder.ComponentBuilder.Append | chat/src/test/java/net/md_5/bungee/api/chat/ComponentsBuilderTest.java:90-113 | appending adds the inherited part at the end, moves the cursor to it (even after setCursor) and uses up the placeholder |
| Builder.ComponentBuilder.AppendText | chat/src/test/java/net/md_5/bungee/api/chat/ComponentsBuilderTest.java:231-244 | appending a text adds one inherited text part and moves the cursor to it |
| Builder.ComponentBuilder.AppendAll | chat/src/test/java/net/md_5/bungee/api/chat/ComponentsBuilderTest.java:245-263 | appending an array adds its components in order at consecutive indices, only the first inheriting, and moves the cursor to the last; an empty array changes nothing |
| Builder.ComponentBuilder.AppendLegacy | chat/src/test/java/net/md_5/bungee/api/chat/ComponentsLegacyTest.java:78-87 | appending legacy text adds the components it converts to, retaining every class |
| Builder.ComponentBuilder.SetCursor | chat/src/test/java/net/md_5/bungee/api/chat/ComponentsBuilderTest.java:80-88 | setCursor succeeds exactly for an index of a part and then moves the cursor there; otherwise nothing changes |
| Builder.ComponentBuilder.ResetCursor | chat/src/test/java/net/md_5/bungee/api/chat/ComponentsBuilderTest.java:110-112 | resetCursor puts the cursor on the last part |
| Builder.ComponentBuilder.GetComponent | chat/src/test/java/net/md_5/bungee/api/chat/ComponentsTest.java:114-125 | getComponent returns the part at an index of a part and the index error for any other index |
| Builder.ComponentBuilder.GetCurrentComponent | chat/src/test/java/net/md_5/bungee/api/chat/ComponentsTest.java:104-112 | the current component is the part at the cursor, or the placeholder while there are no parts |
| Builder.ComponentBuilder.RemoveComponent | chat/src/test/java/net/md_5/bungee/api/chat/ComponentsTest.java:129-145 | removing succeeds exactly for an index of a part, shifts the later parts down one place and puts the cursor on the last part; otherwise nothing changes |
| Builder.ComponentBuilder.Retain | chat/src/test/java/net/md_5/bungee/api/chat/ComponentsFormatTest.java:95-124 | the current component keeps only the retained classes; nothing else changes |
| Builder.ComponentBuilder.Reset | chat/src/test/java/net/md_5/bungee/api/chat/ComponentsBuilderTest.java:266-273 | reset retains nothing on the current component; nothing else changes |
| Builder.ComponentBuilder.Color | chat/src/test/java/net/md_5/bungee/api/chat/ComponentsBuilderTest.java:276-278 | the current component takes the colour; nothing else changes |
| Builder.ComponentBuilder.Bold | chat/src/test/java/net/md_5/bungee/api/chat/ComponentsBuilderTest.java:277 | the current component takes the bold flag; nothing else changes |
| Builder.ComponentBuilder.Click | chat/src/test/java/net/md_5/bungee/api/chat/ComponentsFormatTest.java:113-116 | the current component takes the click event; nothing else changes |
| Builder.ComponentBuilder.Hover | chat/src/test/java/net/md_5/bungee/api/chat/ComponentsFormatTest.java:103-106 | the current component takes the hover event; nothing else changes |
| Builder.ComponentBuilder.Create | chat/src/test/java/net/md_5/bungee/api/chat/ComponentsBuilderTest.java:25-33 | create returns the parts in order |
| Builder.ComponentBuilder.Build | chat/src/test/java/net/md_5/bungee/api/chat/ComponentsBuilderTest.java:15-23 | build returns the root holding the parts |
| Builder.InheritFromBlank | chat/src/test/java/net/md_5/bungee/api/chat/ComponentsLegacyTest.java:20-27 | a component appended after the blank placeholder is appended unchanged |
| Builder.InheritPlainText | chat/src/test/java/net/md_5/bungee/api/chat/ComponentsBuilderTest.java:259-262 | inheriting never changes a part's plain text |
| Builder.InheritRetains | chat/src/test/java/net/md_5/bungee/api/chat/ComponentsFormatTest.java:95-124 | an inherited part takes the current colour and hover only when formatting and events, respectively, are retained and it sets none itself |
| Builder.BuildPlainText | chat/src/test/java/net/md_5/bungee/api/chat/ComponentsBuilderTest.java:42 | the plain text of the built root is the parts' plain texts in order |
| Builder.BuildLegacy | chat/src/test/java/net/md_5/bungee/api/chat/ComponentsBuilderTest.java:151-152 | the legacy text of the built root is WHITE (for the empty root) then the legacy text of the parts |
| BuilderExamples.EmptyBuilderGrows | chat/src/test/java/net/md_5/bungee/api/chat/ComponentsBuilderTest.java:231-244 | an empty builder creates no parts and builds a childless root; after the k-th append it holds k parts and the root k children |
| BuilderExamples.CursorFollowsAppends | chat/src/test/java/net/md_5/bungee/api/chat/ComponentsBuilderTest.java:90-113 | the cursor reads -1, 0, 2, 3 and 3, and setCursor(0) makes the first part current |
| BuilderExamples.CursorOutOfRange | chat/src/test/java/net/md_5/bungee/api/chat/ComponentsBuilderTest.java:80-88 | setCursor(-1) and setCursor(2) fail on a builder of two parts |
| BuilderExamples.GettingComponents | chat/src/test/java/net/md_5/bungee/api/chat/ComponentsTest.java:114-125 | getComponent fails for -1, 0 and 1 on an empty builder; after one append 0 gives that part and 1 still fails |
| BuilderExamples.RemovingAPart | chat/src/test/java/net/md_5/bungee/api/chat/ComponentsTest.java:129-145 | removing part 1 of apple, mango, orange leaves apple, orange |
| BuilderExamples.MixedKinds | chat/src/test/java/net/md_5/bungee/api/chat/ComponentsBuilderTest.java:245-263 | an array of a text and a translatable, then a score, land at indices 1 to 3 in order |
| BuilderExamples.PlaceholderColour | chat/src/test/java/net/md_5/bungee/api/chat/ComponentsTest.java:104-112 | green set on an empty builder is carried by an ALL-retention append |
| BuilderExamples.ResetClearsCurrent | chat/src/test/java/net/md_5/bungee/api/chat/ComponentsBuilderTest.java:266-273 | after reset part 0 is still red and the next part is white |
| BuilderExamples.RetainNothing | chat/src/test/java/net/md_5/bungee/api/chat/ComponentsFormatTest.java:97-101 | with NONE part 0 is red and part 1 white |
| BuilderExamples.RetainFormattingOnly | chat/src/test/java/net/md_5/bungee/api/chat/ComponentsFormatTest.java:103-111 | with FORMATTING part 1 is red like part 0 but has no hover event, while part 0 keeps it |
| BuilderExamples.RetainEventsOnly | chat/src/test/java/net/md_5/bungee/api/chat/ComponentsFormatTest.java:113-123 | with EVENTS part 1 takes the hover and click events but is white |
| BuilderExamples.AppendToEmpty | chat/src/test/java/net/md_5/bungee/api/chat/ComponentsLegacyTest.java:20-27 | appending converted legacy components to an empty builder creates exactly those components |
| BuilderExamples.CopyRendersTheSame | chat/src/test/java/net/md_5/bungee/api/chat/ComponentsBuilderTest.java:283-289 | a builder and its copy render the same legacy text |
| BuilderExamples.StyledParts | chat/src/test/java/net/md_5/bungee/api/chat/ComponentsBuilderTest.java:274-282 | red "Hello ", bold blue "World", bold yellow "!" are the parts created |
| BuilderExamples.StyledPartsPlain | chat/src/test/java/net/md_5/bungee/api/chat/ComponentsBuilderTest.java:280 | those parts have plain text "Hello World!" |
| BuilderExamples.StyledPartsLegacy | chat/src/test/java/net/md_5/bungee/api/chat/ComponentsBuilderTest.java:134-155 | those parts render as RED "Hello " BLUE BOLD "World" YELLOW BOLD "!", and the built root with WHITE in front |
| BuilderExamples.AppendingLegacy | chat/src/test/java/net/md_5/bungee/api/chat/ComponentsLegacyTest.java:78-87 | yellow "Hello " followed by the legacy text GREEN "world!" gives those two parts |
| LegacyExamples.CodeThenText | chat/src/test/java/net/md_5/bungee/api/chat/ComponentsLegacyTest.java:167 | a colour or reset code followed by plain text converts to one fresh component of that colour (white for reset) holding the text, e.g. GREEN "world!" and RESET "rrrr" |
| BuilderExamples.LegacyPartsPlain | chat/src/test/java/net/md_5/bungee/api/chat/ComponentsLegacyTest.java:85 | those parts have plain text "Hello world!" |
| BuilderExamples.LegacyPartsLegacy | chat/src/test/java/net/md_5/bungee/api/chat/ComponentsLegacyTest.java:29-38 | those parts render as YELLOW "Hello " GREEN "world!", and the built root with WHITE in front |
| BuilderExamples.AppendingCreated | chat/src/test/java/net/md_5/bungee/api/chat/ComponentsBuilderTest.java:216-230 | appending the created parts of another builder keeps their hover and click events |
| BuilderExamples.RgbThroughLegacy | chat/src/test/java/net/md_5/bungee/api/chat/ComponentsLegacyTest.java:99-108 | a part coloured #808080, rendered to legacy text and converted back, equals the part |
| BuilderExamples.RgbRoundTrip | chat/src/test/java/net/md_5/bungee/api/chat/ComponentsLegacyTest.java:103-107 | that part's legacy text converts back to an equal component |
| BuilderExamples.LegacyResetInBuilder | chat/src/test/java/net/md_5/bungee/api/chat/ComponentsLegacyTest.java:153-176 | appending the converted DARK_RED...GOLD BOLD text and then RESET "rrrr" gives four parts, the last white with no bold |
| BuilderExamples.AppendFreshStart | chat/src/test/java/net/md_5/bungee/api/chat/ComponentsLegacyTest.java:162-168 | appending any non-empty array and then one led by a reset part, both keeping formatting, yields exactly the two arrays in turn: nothing is inherited across the reset |

## Left out

- The JSON concrete syntax of the serialiser is left out: key order, escaping, and the golden strings of ComponentsTest.java and ComponentsLegacyTest.java:158-175. The model serialises to a component tree, and the golden strings are stated as component fields.
- testFormatNotColor (ComponentsFormatTest.java:26-34): that a format code used as a colour is not written as a colour is decided inside the JSON style writer. That writer is not part of this model.
- Item contents, NBT tags and the show_item and show_advancement hover contents (ComponentsTest.java:47-90, 155-198) are left out. So are hover contents as a whole (ComponentsBuilderTest.java:156-213, 291-313). A hover event is an opaque value here.
- testScore and testStyle (ComponentsTest.java:199-216) are left out. They check JSON round trips and nothing else.
- The `java.awt.Color` to legacy colour mapping is foreign code. The RGB example uses the grey's hex digits "808080" directly.
- LegacyExamples.LinkConverterExample: states the conversion for every text of the test's shape and link words w1 and w2. The literal string of the test is not stated on its own, because evaluating the scan of a 42-character literal is beyond what the prover does in reasonable time. `SchemeLinkExample`, `BareLinkExample` and `LinkWordsPlain` show that the test's two words meet the lemma's conditions.
- Translation-key resolution, score lookup and selector evaluation are left out. A translatable component has empty plain text in the model. A score's plain text is its stored value (empty when it has none), and a selector's is its selector string, unevaluated.
- Legacy.LegacyRoundTrip: states the round trip only for text made of whole style runs without reset codes. For other text the library writes redundant codes, and the text does not come back character for character. It also requires text with no link word (text without a dot qualifies). Link splitting itself is modelled by `Legacy.Step` and stated by `Legacy.StepLink` and `LegacyExamples.LinkConverterExample`, but a link's click event has no legacy form, so such text does not round-trip.
- The serialiser follows children only. Components nested inside hover events are not walked, so a loop through a hover event is not detected.
- Java object identity is modelled by arena indices and builder parts are values.

- Builder.ComponentBuilder.Reset: leaves every field of the current part unset instead of setting white and the five flags explicitly false. A part appended later with formatting retained therefore inherits nothing from it, where the explicit-default reading would hand it white and false flags.
- Builder.ComponentBuilder.Copy: copies the parts as values; the deep copy of each part that the library makes is not modelled.
- Builder.ComponentBuilder.AppendAll: only the first component of an array inherits from the current component, and an empty array appends nothing.
- Builder.ComponentBuilder.RemoveComponent: always moves the cursor to the last part.
- The builder modifiers the suites never call are left out: font, italic, underlined, strikethrough, obfuscated and insertion. So is the constructor from a single component. They would follow the pattern of `Color` and `Bold`.
- I/O, clocks, concurrency and the JUnit harness are left out.
