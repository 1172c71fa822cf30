/** The client-side sanitizer `cleanHtml`: it injects a fixed style block and
    a fixed fit script into the uploaded HTML text. Each block keeps the frame
    the page component builds, one line per element, but the CSS rules and
    the script between its tags are abbreviated to one comment line: what
    they say plays no part here, only where the blocks go and that they
    cannot form or break a closing tag (`Injectable`). */
module Sanitizer {
  import opened Base
  import opened Text

  const HeadClose: string := "</head>"
  const BodyClose: string := "</body>"

  // The lines the two blocks are made of.
  const LineBreak: string := "\n"
  const Indent: string := "    "
  const StyleOpen: string := "      <style data-clean-override>\n"
  const StyleRules: string := "        /* override rules */\n"
  const StyleClose: string := "      </style>\n"
  const ScriptOpen: string := "      <script data-fit>\n"
  const ScriptBody: string := "        /* fitToPage, onload retries */\n"
  const ScriptClose: string := "      </script>\n"

  /** The override style block, line by line. The frame is the one the page
      component builds (a leading line break, the opening tag, the closing
      tag, trailing indentation); the CSS rules between the tags are not
      interpreted by the model and are abbreviated to one comment line. */
  const OverrideCssLines: seq<string> := [LineBreak, StyleOpen, StyleRules, StyleClose, Indent]

  /** The fit script block, line by line, framed the same way; the
      `fitToPage` routine and the `window.onload` chaining between the tags
      are modelled separately (module FitRoutine) and abbreviated here. */
  const FitScriptLines: seq<string> := [LineBreak, ScriptOpen, ScriptBody, ScriptClose, Indent]

  const OverrideCss: string := Join(OverrideCssLines)
  const FitScript: string := Join(FitScriptLines)

  /** The closing tags the sanitizer looks for. */
  predicate IsTag(p: string) {
    p == HeadClose || p == BodyClose
  }

  // No line of either block can hold either closing tag.
  lemma LineBreakAvoids(p: string) requires IsTag(p) ensures LineAvoids(LineBreak, p) {}
  lemma IndentAvoids(p: string) requires IsTag(p) ensures LineAvoids(Indent, p) {}
  lemma StyleOpenAvoids(p: string) requires IsTag(p) ensures LineAvoids(StyleOpen, p) {}
  lemma StyleRulesAvoid(p: string) requires IsTag(p) ensures LineAvoids(StyleRules, p) {}
  lemma StyleCloseAvoids(p: string) requires IsTag(p) ensures LineAvoids(StyleClose, p) {}
  lemma ScriptOpenAvoids(p: string) requires IsTag(p) ensures LineAvoids(ScriptOpen, p) {}
  lemma ScriptBodyAvoids(p: string) requires IsTag(p) ensures LineAvoids(ScriptBody, p) {}
  lemma ScriptCloseAvoids(p: string) requires IsTag(p) ensures LineAvoids(ScriptClose, p) {}

  /** Each line of the style block avoids `p`. */
  lemma CssLinesAvoid(p: string)
    requires IsTag(p)
    ensures forall k :: 0 <= k < |OverrideCssLines| ==> LineAvoids(OverrideCssLines[k], p)
  {
    LineBreakAvoids(p);
    StyleOpenAvoids(p);
    StyleRulesAvoid(p);
    StyleCloseAvoids(p);
    IndentAvoids(p);
  }

  /** Each line of the fit script block avoids `p`. */
  lemma ScriptLinesAvoid(p: string)
    requires IsTag(p)
    ensures forall k :: 0 <= k < |FitScriptLines| ==> LineAvoids(FitScriptLines[k], p)
  {
    LineBreakAvoids(p);
    ScriptOpenAvoids(p);
    ScriptBodyAvoids(p);
    ScriptCloseAvoids(p);
    IndentAvoids(p);
  }

  lemma CssAvoidsHead() ensures Inert(OverrideCss, HeadClose) {
    CssLinesAvoid(HeadClose);
    JoinInert(OverrideCssLines, HeadClose);
  }
  lemma CssAvoidsBody() ensures Inert(OverrideCss, BodyClose) {
    CssLinesAvoid(BodyClose);
    JoinInert(OverrideCssLines, BodyClose);
  }
  lemma ScriptAvoidsHead() ensures Inert(FitScript, HeadClose) {
    ScriptLinesAvoid(HeadClose);
    JoinInert(FitScriptLines, HeadClose);
  }
  lemma ScriptAvoidsBody() ensures Inert(FitScript, BodyClose) {
    ScriptLinesAvoid(BodyClose);
    JoinInert(FitScriptLines, BodyClose);
  }
  lemma CssHasNoDollar() ensures '$' !in OverrideCss {
    JoinLacks(OverrideCssLines, '$');
  }
  lemma ScriptHasNoDollar() ensures '$' !in FitScript {
    JoinLacks(FitScriptLines, '$');
  }

  /** What the placement argument needs of the two blocks: neither can take
      part in an occurrence of either closing tag, and neither holds a `$`,
      so `String.replace` inserts them literally. */
  predicate Injectable(css: string, script: string) {
    && Inert(css, HeadClose) && Inert(css, BodyClose)
    && Inert(script, HeadClose) && Inert(script, BodyClose)
    && '$' !in css && '$' !in script
  }

  lemma BlocksInjectable()
    ensures Injectable(OverrideCss, FitScript)
  {
    CssAvoidsHead();
    CssAvoidsBody();
    ScriptAvoidsHead();
    ScriptAvoidsBody();
    CssHasNoDollar();
    ScriptHasNoDollar();
  }

  // ----- cleanHtml as the page component writes it -----

  /** The body of `cleanHtml`, for style block `css` and script block
      `script`: with a `</head>`, the style block goes before the first
      `</head>` and then the script before the first `</body>` of that result
      (if any); without one, both blocks are put in front. */
  function InjectBlocks(raw: string, css: string, script: string): (r: string)
    requires '$' !in css && '$' !in script
    ensures !Contains(raw, HeadClose) ==> EndsWith(r, raw) && r[..|r| - |raw|] == css + script
    ensures |r| >= |raw| + |css|
  {
    assert '$' !in HeadClose && '$' !in BodyClose;
    if Contains(raw, HeadClose) then
      ReplaceFirst(ReplaceFirst(raw, HeadClose, css + HeadClose), BodyClose, script + BodyClose)
    else
      css + script + raw
  }

  /** `cleanHtml(raw)` */
  function CleanHtml(raw: string): (r: string)
    ensures !Contains(raw, HeadClose) ==>
      EndsWith(r, raw) && r[..|r| - |raw|] == OverrideCss + FitScript
    ensures |r| >= |raw| + |OverrideCss|
  {
    BlocksInjectable();
    InjectBlocks(raw, OverrideCss, FitScript)
  }

  // ----- Where the blocks go, described on the input alone -----

  /** Where `cleanHtml` puts the blocks, as indices into the input. */
  datatype Placement =
    | Prepended                              // no `</head>`: both blocks in front
    | StyleOnly(head: nat)                   // style before the first `</head>`; no `</body>`
    | StyleAndScript(head: nat, body: nat)   // style and script before the first of each tag

  /** The placement read off the input: the first `</head>` and first
      `</body>` of `raw` itself. */
  function PlacementFor(raw: string): (pl: Placement)
    ensures Fits(pl, |raw|)
  {
    match IndexOf(raw, HeadClose)
    case None => Prepended
    case Some(h) =>
      match IndexOf(raw, BodyClose)
      case None => StyleOnly(h)
      case Some(b) => StyleAndScript(h, b)
  }

  /** The placement's indices lie within a text of length `n`. */
  predicate Fits(pl: Placement, n: nat) {
    match pl
    case Prepended => true
    case StyleOnly(h) => h <= n
    case StyleAndScript(h, b) => h <= n && b <= n
  }

  /** How many characters the placement adds. */
  function Injected(pl: Placement, css: string, script: string): nat {
    match pl
    case Prepended => |css| + |script|
    case StyleOnly(_) => |css|
    case StyleAndScript(_, _) => |css| + |script|
  }

  /** The blocks spliced into `raw` at the placement's indices. */
  function Apply(raw: string, pl: Placement, css: string, script: string): string
    requires Fits(pl, |raw|)
  {
    match pl
    case Prepended => css + script + raw
    case StyleOnly(h) => Insert(raw, h, css)
    case StyleAndScript(h, b) =>
      if b < h then Insert(Insert(raw, h, css), b, script)
      else Insert(Insert(raw, b, script), h, css)
  }

  /** The blocks cut back out of an output built by `Apply`. */
  function Strip(out: string, pl: Placement, css: string, script: string): string
    requires Injected(pl, css, script) <= |out| && Fits(pl, |out| - Injected(pl, css, script))
  {
    match pl
    case Prepended => out[|css| + |script|..]
    case StyleOnly(h) => Erase(out, h, |css|)
    case StyleAndScript(h, b) =>
      if b < h then Erase(Erase(out, b, |script|), h, |css|)
      else Erase(Erase(out, h, |css|), b, |script|)
  }

  /** Cutting the blocks back out recovers the input, and the output is longer
      by exactly the blocks injected. */
  lemma StripApply(raw: string, pl: Placement, css: string, script: string)
    requires Fits(pl, |raw|)
    ensures |Apply(raw, pl, css, script)| == |raw| + Injected(pl, css, script)
    ensures Strip(Apply(raw, pl, css, script), pl, css, script) == raw
  {
    match pl
    case Prepended =>
      assert (css + script + raw)[|css| + |script|..] == raw;
    case StyleOnly(h) =>
      EraseInsert(raw, h, css);
    case StyleAndScript(h, b) =>
      if b < h {
        EraseInsert(raw, h, css);
        EraseInsert(Insert(raw, h, css), b, script);
      } else {
        EraseInsert(raw, b, script);
        EraseInsert(Insert(raw, b, script), h, css);
      }
  }

  /** Splicing two blocks in at `i <= j` gives the same text in either order,
      once the later index is moved past the earlier block. */
  lemma InsertCommutes(s: string, i: nat, a: string, j: nat, b: string)
    requires i <= j <= |s|
    ensures Insert(Insert(s, i, a), j + |a|, b) == Insert(Insert(s, j, b), i, a)
  {
    var left := Insert(s, i, a);
    var right := Insert(s, j, b);
    assert left[..j + |a|] == s[..i] + a + s[i..j];
    assert left[j + |a|..] == s[j..];
    assert right[..i] == s[..i];
    assert right[i..] == s[i..j] + b + s[j..];
  }

  // ----- The two descriptions agree -----

  /** A closing tag found in `s` starts with `<`, which no other character of
      either tag is, so no occurrence of either tag can straddle it. */
  lemma TagIsBoundary(s: string, tag: string, i: nat, p: string)
    requires tag == HeadClose || tag == BodyClose
    requires p == HeadClose || p == BodyClose
    requires OccursAt(s, tag, i)
    ensures NoOccurrenceAcross(s, p, i)
  {
    assert s[i] == s[i..i + |tag|][0] == '<';
    StartOfTagIsBoundary(s, p, i);
  }

  /** The first `String.replace` splices the style block in just before the
      first `</head>`. */
  lemma StyleStepInserts(raw: string, h: nat, css: string)
    requires IndexOf(raw, HeadClose) == Some(h) && '$' !in css
    ensures h <= |raw|
    ensures ReplaceFirst(raw, HeadClose, css + HeadClose) == Insert(raw, h, css)
  {
    assert '$' !in HeadClose;
    ReplaceFirstIsInsert(raw, HeadClose, css);
  }

  /** After that step, the first occurrence of either tag is the input's,
      moved past the style block if it came at or after `h`. */
  lemma StyleStepMovesTag(raw: string, h: nat, css: string, tag: string)
    requires IndexOf(raw, HeadClose) == Some(h)
    requires tag == HeadClose || tag == BodyClose
    requires Inert(css, tag)
    ensures h <= |raw|
    ensures IndexOf(raw, tag).None? ==> IndexOf(Insert(raw, h, css), tag).None?
    ensures IndexOf(raw, tag).Some? ==>
      IndexOf(Insert(raw, h, css), tag) == Some(Shift(IndexOf(raw, tag).value, h, |css|))
  {
    TagIsBoundary(raw, HeadClose, h, tag);
    IndexOfInsert(raw, h, css, tag);
  }

  /** The body of `cleanHtml`, written with two `String.replace` calls on
      successively rewritten text, splices the blocks in exactly where the
      placement read off the input says. */
  lemma InjectFollowsPlacement(raw: string, css: string, script: string)
    requires Injectable(css, script)
    ensures InjectBlocks(raw, css, script) == Apply(raw, PlacementFor(raw), css, script)
  {
    var pl := PlacementFor(raw);
    match pl
    case Prepended =>
    case StyleOnly(h) =>
      InjectWithHeadOnly(raw, h, css, script);
    case StyleAndScript(h, b) =>
      InjectWithBothTags(raw, h, b, css, script);
      BothTagsApply(raw, h, b, css, script);
  }

  /** Splicing in the script at where the first `</body>` moved to is the
      same as splicing both blocks into the input. */
  lemma BothTagsApply(raw: string, h: nat, b: nat, css: string, script: string)
    requires IndexOf(raw, HeadClose) == Some(h) && IndexOf(raw, BodyClose) == Some(b)
    ensures h <= |raw| && b <= |raw|
    ensures Insert(Insert(raw, h, css), Shift(b, h, |css|), script)
      == Apply(raw, StyleAndScript(h, b), css, script)
  {
    TagsDiffer(raw, h, b);
    if h <= b {
      InsertCommutes(raw, h, css, b, script);
    }
  }

  /** With a `</head>` and no `</body>`, only the style block goes in. */
  lemma InjectWithHeadOnly(raw: string, h: nat, css: string, script: string)
    requires Injectable(css, script)
    requires IndexOf(raw, HeadClose) == Some(h) && IndexOf(raw, BodyClose).None?
    ensures h <= |raw|
    ensures InjectBlocks(raw, css, script) == Insert(raw, h, css)
  {
    StyleStepInserts(raw, h, css);
    StyleStepMovesTag(raw, h, css, BodyClose);
  }

  /** With both tags, the two replacements are two insertions: the style
      block at the first `</head>`, then the script at where the first
      `</body>` has moved to. */
  lemma InjectWithBothTags(raw: string, h: nat, b: nat, css: string, script: string)
    requires Injectable(css, script)
    requires IndexOf(raw, HeadClose) == Some(h) && IndexOf(raw, BodyClose) == Some(b)
    ensures h <= |raw| && Shift(b, h, |css|) <= |raw| + |css|
    ensures InjectBlocks(raw, css, script) == Insert(Insert(raw, h, css), Shift(b, h, |css|), script)
  {
    StyleStepInserts(raw, h, css);
    StyleStepMovesTag(raw, h, css, BodyClose);
    var mid := Insert(raw, h, css);
    assert IndexOf(mid, BodyClose) == Some(Shift(b, h, |css|));
    assert '$' !in script + BodyClose;
    ReplaceFirstIsInsert(mid, BodyClose, script);
  }

  /** Where the style block starts in the output. */
  function StyleAt(pl: Placement, script: string): nat {
    match pl
    case Prepended => 0
    case StyleOnly(h) => h
    case StyleAndScript(h, b) => if b < h then h + |script| else h
  }

  /** Where the script block starts in the output (when it is injected). */
  function ScriptAt(pl: Placement, css: string): nat {
    match pl
    case Prepended => |css|
    case StyleOnly(_) => 0
    case StyleAndScript(h, b) => if b < h then b else b + |css|
  }

  /** Where the style block ends in the output. */
  function StyleEnd(pl: Placement, css: string, script: string): nat {
    StyleAt(pl, script) + |css|
  }

  /** Where the script block ends in the output (when it is injected). */
  function ScriptEnd(pl: Placement, css: string, script: string): nat {
    ScriptAt(pl, css) + |script|
  }

  /** Both steps when the input has both tags: the first `</head>` of the
      output follows the style block. */
  lemma BothStepsMoveHead(raw: string, h: nat, b: nat, css: string, script: string)
    requires IndexOf(raw, HeadClose) == Some(h) && IndexOf(raw, BodyClose) == Some(b)
    requires Injectable(css, script)
    ensures h <= |raw| && Shift(b, h, |css|) <= |raw| + |css|
    ensures IndexOf(Insert(Insert(raw, h, css), Shift(b, h, |css|), script), HeadClose)
      == Some(StyleEnd(StyleAndScript(h, b), css, script))
  {
    var b' := ScriptStepInput(raw, h, b, css);
    var mid := Insert(raw, h, css);
    ScriptStepMovesTags(mid, b', script, h + |css|);
    TagsDiffer(raw, h, b);
    var at: nat := StyleEnd(StyleAndScript(h, b), css, script);
    assert at == Shift(h + |css|, b', |script|);
  }

  /** Both steps when the input has both tags: the first `</body>` of the
      output follows the script block. */
  lemma BothStepsMoveBody(raw: string, h: nat, b: nat, css: string, script: string)
    requires IndexOf(raw, HeadClose) == Some(h) && IndexOf(raw, BodyClose) == Some(b)
    requires Injectable(css, script)
    ensures h <= |raw| && Shift(b, h, |css|) <= |raw| + |css|
    ensures IndexOf(Insert(Insert(raw, h, css), Shift(b, h, |css|), script), BodyClose)
      == Some(ScriptEnd(StyleAndScript(h, b), css, script))
  {
    var b' := ScriptStepInput(raw, h, b, css);
    var mid := Insert(raw, h, css);
    ScriptStepMovesTags(mid, b', script, h + |css|);
    var out := Insert(mid, b', script);
    assert IndexOf(out, BodyClose) == Some(b' + |script|);
    assert ScriptAt(StyleAndScript(h, b), css) == b';
  }

  /** After the style step, both tags are found where the script step
      expects them. */
  function ScriptStepInput(raw: string, h: nat, b: nat, css: string): (b': nat)
    requires IndexOf(raw, HeadClose) == Some(h) && IndexOf(raw, BodyClose) == Some(b)
    requires Inert(css, HeadClose) && Inert(css, BodyClose)
    ensures h <= |raw| && b' == Shift(b, h, |css|) && b' <= |raw| + |css|
    ensures IndexOf(Insert(raw, h, css), HeadClose) == Some(h + |css|)
    ensures IndexOf(Insert(raw, h, css), BodyClose) == Some(b')
  {
    StyleStepMovesTag(raw, h, css, HeadClose);
    StyleStepMovesTag(raw, h, css, BodyClose);
    Shift(b, h, |css|)
  }

  /** Both steps when the input has both tags: where the blocks sit in the
      output. */
  lemma BothStepsKeepBlocks(raw: string, h: nat, b: nat, css: string, script: string)
    requires IndexOf(raw, HeadClose) == Some(h) && IndexOf(raw, BodyClose) == Some(b)
    ensures h <= |raw| && Shift(b, h, |css|) <= |raw| + |css|
    ensures var out := Insert(Insert(raw, h, css), Shift(b, h, |css|), script);
      && StyleEnd(StyleAndScript(h, b), css, script) <= |out|
      && out[StyleAt(StyleAndScript(h, b), script)..StyleEnd(StyleAndScript(h, b), css, script)] == css
      && ScriptEnd(StyleAndScript(h, b), css, script) <= |out|
      && out[ScriptAt(StyleAndScript(h, b), css)..ScriptEnd(StyleAndScript(h, b), css, script)] == script
  {
    TagsDiffer(raw, h, b);
    var mid := Insert(raw, h, css);
    var b' := Shift(b, h, |css|);
    BlockSurvives(raw, h, css, b', script);
    var out := Insert(mid, b', script);
    assert out[b'..b' + |script|] == script;
  }

  /** The first `</head>` and the first `</body>` of a text never overlap. */
  lemma TagsDiffer(s: string, h: nat, b: nat)
    requires IndexOf(s, HeadClose) == Some(h) && IndexOf(s, BodyClose) == Some(b)
    ensures h + |HeadClose| <= b || b + |BodyClose| <= h
  {
    TagIsBoundary(s, HeadClose, h, BodyClose);
    TagIsBoundary(s, BodyClose, b, HeadClose);
  }

  /** The style block spliced in at `h` is still intact after the script block
      is spliced in at `b'`, which is not inside it. */
  lemma BlockSurvives(raw: string, h: nat, css: string, b': nat, script: string)
    requires h <= |raw| && b' <= |raw| + |css|
    requires b' <= h || h + |css| <= b'
    ensures var out := Insert(Insert(raw, h, css), b', script);
      var at := if b' <= h then h + |script| else h;
      out[at..at + |css|] == css
  {
    var mid := Insert(raw, h, css);
    var out := Insert(mid, b', script);
    assert mid[h..h + |css|] == css;
    if b' <= h {
      assert out[b' + |script|..] == mid[b'..];
      assert out[h + |script|..h + |script| + |css|] == mid[h..h + |css|];
    } else {
      assert out[..b'] == mid[..b'];
      assert out[h..h + |css|] == mid[h..h + |css|];
    }
  }

  /** In the output, the first `</head>` comes right after the style block,
      and when the input also has a `</body>` the first `</body>` comes right
      after the script block. */
  lemma InjectPrecedesFirstTags(raw: string, css: string, script: string)
    requires Injectable(css, script) && Contains(raw, HeadClose)
    ensures var out := InjectBlocks(raw, css, script); var pl := PlacementFor(raw);
      && IndexOf(out, HeadClose) == Some(StyleEnd(pl, css, script))
      && StyleEnd(pl, css, script) <= |out|
      && out[StyleAt(pl, script)..StyleEnd(pl, css, script)] == css
    ensures Contains(raw, BodyClose) ==>
      var out := InjectBlocks(raw, css, script); var pl := PlacementFor(raw);
      && IndexOf(out, BodyClose) == Some(ScriptEnd(pl, css, script))
      && ScriptEnd(pl, css, script) <= |out|
      && out[ScriptAt(pl, css)..ScriptEnd(pl, css, script)] == script
  {
    var h := IndexOf(raw, HeadClose).value;
    match IndexOf(raw, BodyClose)
    case None =>
      assert PlacementFor(raw) == StyleOnly(h);
      PrecedesWithHeadOnly(raw, h, css, script);
    case Some(b) =>
      assert PlacementFor(raw) == StyleAndScript(h, b);
      PrecedesWithBothTags(raw, h, b, css, script);
  }

  /** `InjectPrecedesFirstTags` for an input with a `</head>` only. */
  lemma PrecedesWithHeadOnly(raw: string, h: nat, css: string, script: string)
    requires Injectable(css, script)
    requires IndexOf(raw, HeadClose) == Some(h) && IndexOf(raw, BodyClose).None?
    ensures var out := InjectBlocks(raw, css, script); var pl := StyleOnly(h);
      && IndexOf(out, HeadClose) == Some(StyleEnd(pl, css, script))
      && StyleEnd(pl, css, script) <= |out|
      && out[StyleAt(pl, script)..StyleEnd(pl, css, script)] == css
  {
    InjectWithHeadOnly(raw, h, css, script);
    HeadOnlyPrecedesHead(raw, h, css);
  }

  /** `InjectPrecedesFirstTags` for an input with both tags. */
  lemma PrecedesWithBothTags(raw: string, h: nat, b: nat, css: string, script: string)
    requires Injectable(css, script)
    requires IndexOf(raw, HeadClose) == Some(h) && IndexOf(raw, BodyClose) == Some(b)
    ensures var out := InjectBlocks(raw, css, script); var pl := StyleAndScript(h, b);
      && IndexOf(out, HeadClose) == Some(StyleEnd(pl, css, script))
      && StyleEnd(pl, css, script) <= |out|
      && out[StyleAt(pl, script)..StyleEnd(pl, css, script)] == css
      && IndexOf(out, BodyClose) == Some(ScriptEnd(pl, css, script))
      && ScriptEnd(pl, css, script) <= |out|
      && out[ScriptAt(pl, css)..ScriptEnd(pl, css, script)] == script
  {
    InjectWithBothTags(raw, h, b, css, script);
    BothStepsMoveHead(raw, h, b, css, script);
    BothStepsMoveBody(raw, h, b, css, script);
    BothStepsKeepBlocks(raw, h, b, css, script);
  }

  /** With a `</head>` and no `</body>`, the first `</head>` of the output
      follows the style block. */
  lemma HeadOnlyPrecedesHead(raw: string, h: nat, css: string)
    requires IndexOf(raw, HeadClose) == Some(h) && Inert(css, HeadClose)
    ensures h <= |raw|
    ensures IndexOf(Insert(raw, h, css), HeadClose) == Some(h + |css|)
    ensures Insert(raw, h, css)[h..h + |css|] == css
  {
    StyleStepMovesTag(raw, h, css, HeadClose);
  }

  /** The second `String.replace`: splicing the script block in just before
      the first `</body>` (at `b`) leaves the first `</head>` (at `h`) where it
      was or moves it past the block, and puts the first `</body>` right
      after the block. */
  lemma ScriptStepMovesTags(mid: string, b: nat, script: string, h: nat)
    requires IndexOf(mid, BodyClose) == Some(b) && IndexOf(mid, HeadClose) == Some(h)
    requires Inert(script, HeadClose) && Inert(script, BodyClose)
    ensures b <= |mid|
    ensures IndexOf(Insert(mid, b, script), HeadClose) == Some(Shift(h, b, |script|))
    ensures IndexOf(Insert(mid, b, script), BodyClose) == Some(b + |script|)
    ensures Insert(mid, b, script)[b..b + |script|] == script
  {
    TagIsBoundary(mid, BodyClose, b, HeadClose);
    TagIsBoundary(mid, BodyClose, b, BodyClose);
    IndexOfInsert(mid, b, script, HeadClose);
    IndexOfInsert(mid, b, script, BodyClose);
  }

  // ----- The same facts about cleanHtml with its own blocks -----

  /** `cleanHtml` puts its two blocks where the placement read off the input
      says. */
  lemma CleanHtmlFollowsPlacement(raw: string)
    ensures CleanHtml(raw) == Apply(raw, PlacementFor(raw), OverrideCss, FitScript)
  {
    BlocksInjectable();
    InjectFollowsPlacement(raw, OverrideCss, FitScript);
  }

  /** Deleting the injected blocks from the output of `cleanHtml` recovers
      the input exactly, and the output is longer by exactly the blocks
      injected. */
  lemma CleanHtmlRecoversRaw(raw: string)
    ensures |CleanHtml(raw)| == |raw| + Injected(PlacementFor(raw), OverrideCss, FitScript)
    ensures Strip(CleanHtml(raw), PlacementFor(raw), OverrideCss, FitScript) == raw
  {
    CleanHtmlFollowsPlacement(raw);
    StripApply(raw, PlacementFor(raw), OverrideCss, FitScript);
  }

  /** With a `</head>` but no `</body>`, the fit script is not injected: the
      output is the input with only the style block spliced in before the
      first `</head>`. */
  lemma StyleOnlyWithoutBody(raw: string)
    requires Contains(raw, HeadClose) && !Contains(raw, BodyClose)
    ensures IndexOf(raw, HeadClose).value <= |raw|
    ensures CleanHtml(raw) == Insert(raw, IndexOf(raw, HeadClose).value, OverrideCss)
    ensures |CleanHtml(raw)| == |raw| + |OverrideCss|
  {
    CleanHtmlFollowsPlacement(raw);
    CleanHtmlRecoversRaw(raw);
  }

  /** In the output of `cleanHtml`, the first `</head>` comes right after the
      style block, and the first `</body>` (when the input has one) right
      after the fit script. */
  lemma CleanHtmlPrecedesFirstTags(raw: string)
    requires Contains(raw, HeadClose)
    ensures var out := CleanHtml(raw); var pl := PlacementFor(raw);
      && IndexOf(out, HeadClose) == Some(StyleEnd(pl, OverrideCss, FitScript))
      && StyleEnd(pl, OverrideCss, FitScript) <= |out|
      && out[StyleAt(pl, FitScript)..StyleEnd(pl, OverrideCss, FitScript)] == OverrideCss
    ensures Contains(raw, BodyClose) ==>
      var out := CleanHtml(raw); var pl := PlacementFor(raw);
      && IndexOf(out, BodyClose) == Some(ScriptEnd(pl, OverrideCss, FitScript))
      && ScriptEnd(pl, OverrideCss, FitScript) <= |out|
      && out[ScriptAt(pl, OverrideCss)..ScriptEnd(pl, OverrideCss, FitScript)] == FitScript
  {
    BlocksInjectable();
    InjectPrecedesFirstTags(raw, OverrideCss, FitScript);
  }

  /** `cleanHtml` is not idempotent: cleaning an already cleaned text injects
      a second copy of the style block. */
  lemma CleaningTwiceAddsBlocks(raw: string)
    ensures |CleanHtml(CleanHtml(raw))| >= |CleanHtml(raw)| + |OverrideCss|
    ensures CleanHtml(CleanHtml(raw)) != CleanHtml(raw)
  {
    BlocksInjectable();
  }
}
