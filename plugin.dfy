/**
 * The Markdown post-processor of the chord-highlighting plugin: its settings,
 * the style of a chord span, `highlightChords` (every non-empty text node of a
 * rendered section is replaced by its plain-text pieces and one styled `span`
 * per chord), and the tablature side of the processor (`renderTab` and the
 * block loop of `renderTabs`).
 */
module Plugin {

  import opened Strings
  import opened Chords
  import opened Dom
  import opened Tabs

  // ---------------------------------------------------------------------------
  // Settings and the chord span's style
  // ---------------------------------------------------------------------------

  datatype Settings = Settings(
    highlightColor: string,
    bold: bool,
    fontSize: nat,
    chordMarker: string,
    tabMarker: string)

  /** The settings a fresh installation starts with. */
  const DefaultSettings: Settings := Settings("red", true, 16, "[[", "tablatura")

  function DigitChar(d: nat): char
    requires d < 10
  {
    "0123456789"[d]
  }

  /** A non-negative integer written in decimal, as a template literal writes a number. */
  function DecimalString(n: nat): string
    decreases n
  {
    if n < 10 then [DigitChar(n)] else DecimalString(n / 10) + [DigitChar(n % 10)]
  }

  /** The value of a string of decimal digits. */
  function DecimalValue(s: string): nat
    requires forall i :: 0 <= i < |s| ==> IsDigit(s[i])
    decreases |s|
  {
    if s == [] then 0
    else
      var last := s[|s| - 1];
      assert IsDigit(last);
      10 * DecimalValue(s[..|s| - 1]) + ((last as int) - ('0' as int))
  }

  /** The decimal form of `n` is digits only, without a leading zero, and reads back as `n`. */
  lemma {:induction false} DecimalRoundTrip(n: nat)
    ensures var s := DecimalString(n);
            s != [] && (forall i :: 0 <= i < |s| ==> IsDigit(s[i])) &&
            (|s| > 1 ==> s[0] != '0') &&
            DecimalValue(s) == n
    decreases n
  {
    var s := DecimalString(n);
    if n >= 10 {
      DecimalRoundTrip(n / 10);
      var p := DecimalString(n / 10);
      assert s == p + [DigitChar(n % 10)];
      assert s[..|s| - 1] == p;
    }
  }

  /** The inline style of every chord span under `settings`. */
  function SpanStyle(settings: Settings): Style
  {
    Style(
      settings.highlightColor,
      if settings.bold then "bold" else "normal",
      DecimalString(settings.fontSize) + "px")
  }

  /**
   * The span's colour is the configured colour; its weight is bold exactly
   * when bold is on and normal otherwise; its size is the configured size in
   * pixels, written in decimal.
   */
  lemma SpanStyleFollowsSettings(settings: Settings)
    ensures SpanStyle(settings).color == settings.highlightColor
    ensures SpanStyle(settings).fontWeight == "bold" <==> settings.bold
    ensures SpanStyle(settings).fontWeight == "normal" <==> !settings.bold
    ensures var size := SpanStyle(settings).fontSize;
            |size| > 2 && size[|size| - 2..] == "px" &&
            (forall i :: 0 <= i < |size| - 2 ==> IsDigit(size[i])) &&
            DecimalValue(size[..|size| - 2]) == settings.fontSize
  {
    DecimalRoundTrip(settings.fontSize);
    var digits := DecimalString(settings.fontSize);
    var size := digits + "px";
    assert size[..|size| - 2] == digits;
    assert size[|size| - 2..] == "px";
  }

  /**
   * Under the defaults a chord is red, bold and 16 pixels high, and the
   * default marker `[[` is not literal: both of its characters are regular
   * expression metacharacters.
   */
  lemma DefaultSettingsStyle()
    ensures SpanStyle(DefaultSettings) == Style("red", "bold", "16px")
    ensures !IsLiteralMarker(DefaultSettings.chordMarker)
  {
    assert DecimalString(16) == DecimalString(1) + [DigitChar(6)];
    assert RegexMetacharacters[10] == DefaultSettings.chordMarker[0];
  }

  // ---------------------------------------------------------------------------
  // The nodes emitted for one text node
  // ---------------------------------------------------------------------------

  /**
   * `node` is what the highlighter creates for `seg`: a new text node with the
   * plain text, or a `span` with the given style whose only child is a text
   * node holding the chord body.
   */
  predicate NodeFor(node: Node, seg: Segment, style: Style)
  {
    match seg
    case Plain(s) => node.Text? && node.leaf.data == s
    case Chord(b) =>
      node.Element? && node.tag == "span" && node.style == style &&
      |node.children| == 1 && node.children[0].Text? && node.children[0].leaf.data == b
  }

  /** The nodes are, one for one and in order, those created for the segments. */
  predicate Realizes(nodes: seq<Node>, segs: seq<Segment>, style: Style)
  {
    |nodes| == |segs| && forall i :: 0 <= i < |segs| ==> NodeFor(nodes[i], segs[i], style)
  }

  /** The text a created node shows, with a chord span written back between its markers. */
  function Unhighlight(node: Node, open: string, close: string): string
  {
    match node
    case Text(t) => t.data
    case Element(_, _, ch) => open + TextContent(ch) + close
  }

  function UnhighlightAll(nodes: seq<Node>, open: string, close: string): string
    decreases |nodes|
  {
    if nodes == [] then [] else Unhighlight(nodes[0], open, close) + UnhighlightAll(nodes[1..], open, close)
  }

  lemma {:induction false} RealizesRebuild(nodes: seq<Node>, segs: seq<Segment>, style: Style, open: string, close: string)
    requires Realizes(nodes, segs, style)
    ensures UnhighlightAll(nodes, open, close) == Rebuild(segs, open, close)
    decreases |nodes|
  {
    if nodes != [] {
      assert NodeFor(nodes[0], segs[0], style);
      if segs[0].Chord? {
        var ch := nodes[0].children;
        assert ch[1..] == [];
        assert TextContent(ch) == ch[0].leaf.data;
      }
      assert Realizes(nodes[1..], segs[1..], style) by {
        forall i | 0 <= i < |segs| - 1
          ensures NodeFor(nodes[1..][i], segs[1..][i], style)
        {
          assert NodeFor(nodes[i + 1], segs[i + 1], style);
        }
      }
      RealizesRebuild(nodes[1..], segs[1..], style, open, close);
    }
  }

  /**
   * The nodes created for a text node give its text back when each chord span
   * is written back between the opening marker and the closing delimiter.
   */
  lemma HighlightRoundTrip(text: string, nodes: seq<Node>, style: Style, open: string, close: string)
    requires Realizes(nodes, Scan(text, 0, open, close), style)
    ensures UnhighlightAll(nodes, open, close) == text
  {
    RealizesRebuild(nodes, Scan(text, 0, open, close), style, open, close);
    ScanRoundTrip(text, open, close);
  }

  /** Every created text node is non-empty; every span holds a chord body. */
  lemma HighlightWellFormed(text: string, nodes: seq<Node>, style: Style, open: string, close: string)
    requires Realizes(nodes, Scan(text, 0, open, close), style)
    ensures forall i :: 0 <= i < |nodes| && nodes[i].Text? ==> nodes[i].leaf.data != []
    ensures forall i :: 0 <= i < |nodes| && nodes[i].Element? ==>
              nodes[i].tag == "span" && nodes[i].style == style && IsChordBody(TextContent(nodes[i].children))
  {
    var segs := Scan(text, 0, open, close);
    ScanSegmentsWellFormed(text, 0, open, close);
    forall i | 0 <= i < |nodes|
      ensures nodes[i].Text? ==> nodes[i].leaf.data != []
      ensures nodes[i].Element? ==>
                nodes[i].tag == "span" && nodes[i].style == style && IsChordBody(TextContent(nodes[i].children))
    {
      assert NodeFor(nodes[i], segs[i], style);
      if segs[i].Chord? {
        var ch := nodes[i].children;
        assert ch[1..] == [];
        assert TextContent(ch) == ch[0].leaf.data;
      }
    }
  }

  /** A non-empty text node where no chord matches becomes a single new text node with the same text. */
  lemma HighlightWithoutChord(text: string, nodes: seq<Node>, style: Style, open: string, close: string)
    requires text != []
    requires forall p :: 0 <= p <= |text| ==> MatchAt(text, p, open, close).None?
    requires Realizes(nodes, Scan(text, 0, open, close), style)
    ensures |nodes| == 1 && nodes[0].Text? && nodes[0].leaf.data == text
  {
    ScanWithoutMatch(text, open, close);
    assert NodeFor(nodes[0], Plain(text), style);
  }

  /** Appending a node created for a segment keeps the correspondence. */
  lemma RealizesSnoc(nodes: seq<Node>, segs: seq<Segment>, x: Node, seg: Segment, style: Style)
    requires Realizes(nodes, segs, style) && NodeFor(x, seg, style)
    ensures Realizes(nodes + [x], segs + [seg], style)
  {
    forall i | 0 <= i < |segs| + 1
      ensures NodeFor((nodes + [x])[i], (segs + [seg])[i], style)
    {
      if i < |segs| {
        assert NodeFor(nodes[i], segs[i], style);
      }
    }
  }

  /**
   * `parent.insertBefore(x, node)` while the nodes created so far already sit
   * in front of `node`: the tree becomes the original one with `node`
   * preceded by those nodes and then `x`.
   */
  method InsertCreated(element: HostElement, node: TextNode, x: Node, ghost c0: seq<Node>, inserted: seq<Node>)
    returns (next: seq<Node>)
    requires node in Leaves(c0)
    requires node !in Leaves(inserted) && node !in LeavesOf(x)
    requires element.children == Substitute(c0, map[node := inserted + [Text(node)]])
    modifies element
    ensures next == inserted + [x]
    ensures node !in Leaves(next)
    ensures element.children == Substitute(c0, map[node := next + [Text(node)]])
  {
    LeavesConcat(inserted, [Text(node)]);
    assert Leaves([Text(node)]) == [node];
    SubstituteKeeps(c0, map[node := inserted + [Text(node)]], node);
    element.InsertBefore(x, node);
    SubstituteAround(c0, node, inserted, [x, Text(node)]);
    next := inserted + [x];
    assert inserted + [x, Text(node)] == next + [Text(node)];
    LeavesConcat(inserted, [x]);
    assert Leaves([x]) == LeavesOf(x) + Leaves([]);
  }

  /**
   * Creates the node for one segment (a text node, or a `span` with the chord
   * style around a text node holding the body) and inserts it in front of
   * `node`, after the nodes created before it.
   */
  method EmitSegment(element: HostElement, node: TextNode, seg: Segment, style: Style,
                     ghost c0: seq<Node>, inserted: seq<Node>, ghost done: seq<Segment>)
    returns (next: seq<Node>)
    requires node in Leaves(c0)
    requires node !in Leaves(inserted)
    requires Realizes(inserted, done, style)
    requires element.children == Substitute(c0, map[node := inserted + [Text(node)]])
    modifies element
    ensures |next| == |inserted| + 1 && next[..|inserted|] == inserted
    ensures NodeFor(next[|inserted|], seg, style)
    ensures forall l :: l in LeavesOf(next[|inserted|]) ==> fresh(l)
    ensures Realizes(next, done + [seg], style)
    ensures node !in Leaves(next)
    ensures forall l :: l in Leaves(next) ==> l in Leaves(inserted) || fresh(l)
    ensures element.children == Substitute(c0, map[node := next + [Text(node)]])
  {
    var x: Node;
    match seg {
      case Plain(s) =>
        var t := new TextNode(s);
        x := Text(t);
        assert LeavesOf(x) == [t];
      case Chord(b) =>
        var t := new TextNode(b);
        x := Element("span", style, [Text(t)]);
        assert LeavesOf(x) == [t] by {
          assert Leaves([Text(t)]) == LeavesOf(Text(t)) + Leaves([]);
        }
    }
    RealizesSnoc(inserted, done, x, seg, style);
    LeavesConcat(inserted, [x]);
    assert Leaves([x]) == LeavesOf(x) + Leaves([]);
    next := InsertCreated(element, node, x, c0, inserted);
    assert next[..|inserted|] == inserted && next[|inserted|] == x;
  }

  /** The segments before a match: the gap in front of it, when not empty. */
  function GapBefore(text: string, lastIndex: nat, m: Match): seq<Segment>
    requires lastIndex <= m.start <= |text|
  {
    if lastIndex < m.start then [Plain(text[lastIndex..m.start])] else []
  }

  lemma Reassociate<T>(a: seq<T>, b: seq<T>, c: seq<T>, d: seq<T>)
    ensures a + (b + (c + d)) == (a + b + c) + d
  {
  }

  /** What one round of the loop adds to the segments emitted so far. */
  lemma ScanStep(text: string, lastIndex: nat, m: Match, open: string, close: string, done: seq<Segment>)
    requires lastIndex <= |text| && Exec(text, lastIndex, open, close) == Some(m)
    requires done + Scan(text, lastIndex, open, close) == Scan(text, 0, open, close)
    ensures lastIndex <= m.start < MatchEnd(m, open, close) <= |text|
    ensures (done + GapBefore(text, lastIndex, m) + [Chord(m.body)]) + Scan(text, MatchEnd(m, open, close), open, close)
            == Scan(text, 0, open, close)
  {
    ScanFound(text, lastIndex, m, open, close);
    Reassociate(done, GapBefore(text, lastIndex, m), [Chord(m.body)], Scan(text, MatchEnd(m, open, close), open, close));
  }

  /**
   * One round of the `exec` loop: for the leftmost match `m` at or after
   * `lastIndex`, the gap before it (when not empty) and then the chord span are
   * inserted in front of `node`, and the search resumes at the match end.
   */
  method EmitMatch(element: HostElement, node: TextNode, text: string, lastIndex: nat, m: Match,
                   open: string, close: string, style: Style,
                   ghost c0: seq<Node>, inserted: seq<Node>, ghost done: seq<Segment>)
    returns (next: seq<Node>, ghost nextDone: seq<Segment>, endIndex: nat)
    requires lastIndex <= |text| && Exec(text, lastIndex, open, close) == Some(m)
    requires done + Scan(text, lastIndex, open, close) == Scan(text, 0, open, close)
    requires node in Leaves(c0)
    requires node !in Leaves(inserted)
    requires Realizes(inserted, done, style)
    requires element.children == Substitute(c0, map[node := inserted + [Text(node)]])
    modifies element
    ensures endIndex == MatchEnd(m, open, close) && lastIndex < endIndex <= |text|
    ensures nextDone + Scan(text, endIndex, open, close) == Scan(text, 0, open, close)
    ensures |inserted| <= |next| && next[..|inserted|] == inserted
    ensures Realizes(next, nextDone, style)
    ensures node !in Leaves(next)
    ensures forall l :: l in Leaves(next) ==> l in Leaves(inserted) || fresh(l)
    ensures element.children == Substitute(c0, map[node := next + [Text(node)]])
  {
    var startIndex := m.start;
    endIndex := MatchEnd(m, open, close);
    ScanStep(text, lastIndex, m, open, close, done);
    next := inserted;
    nextDone := done + GapBefore(text, lastIndex, m);
    if startIndex > lastIndex {
      next := EmitSegment(element, node, Plain(text[lastIndex..startIndex]), style, c0, next, done);
    } else {
      assert done + [] == done;
    }
    ghost var gap := next;
    next := EmitSegment(element, node, Chord(m.body), style, c0, next, nextDone);
    assert next[..|inserted|] == gap[..|gap|][..|inserted|];
    nextDone := nextDone + [Chord(m.body)];
  }

  /**
   * The splice for a non-empty text node that is in the tree: the `exec` loop,
   * the tail, then `removeChild`. The node's place is taken by the nodes
   * created for its segments, in order.
   */
  method ReplaceLeaf(element: HostElement, node: TextNode, open: string, close: string, style: Style)
    returns (inserted: seq<Node>)
    requires node.data != [] && node in Leaves(element.children)
    modifies element
    ensures element.children == Substitute(old(element.children), map[node := inserted])
    ensures Realizes(inserted, Scan(node.data, 0, open, close), style)
    ensures forall l :: l in Leaves(inserted) ==> fresh(l)
  {
    var text := node.data;
    ghost var c0 := element.children;
    ghost var done: seq<Segment> := [];
    inserted := [];
    SubstituteSelf(c0, node);
    assert [] + [Text(node)] == [Text(node)];
    var lastIndex: nat := 0;
    var found := Exec(text, lastIndex, open, close);
    while found.Some?
      invariant lastIndex <= |text|
      invariant found == Exec(text, lastIndex, open, close)
      invariant done + Scan(text, lastIndex, open, close) == Scan(text, 0, open, close)
      invariant Realizes(inserted, done, style)
      invariant forall l :: l in Leaves(inserted) ==> fresh(l)
      invariant node !in Leaves(inserted)
      invariant element.children == Substitute(c0, map[node := inserted + [Text(node)]])
      decreases |text| - lastIndex
    {
      inserted, done, lastIndex := EmitMatch(element, node, text, lastIndex, found.value, open, close, style, c0, inserted, done);
      found := Exec(text, lastIndex, open, close);
    }
    inserted := EmitTail(element, node, text, lastIndex, open, close, style, c0, inserted, done);
    RemoveLeaf(element, node, c0, inserted);
  }

  /** After the last match: the rest of the text, when not empty, as one more text node. */
  method EmitTail(element: HostElement, node: TextNode, text: string, lastIndex: nat,
                  open: string, close: string, style: Style,
                  ghost c0: seq<Node>, inserted: seq<Node>, ghost done: seq<Segment>)
    returns (next: seq<Node>)
    requires lastIndex <= |text| && Exec(text, lastIndex, open, close).None?
    requires done + Scan(text, lastIndex, open, close) == Scan(text, 0, open, close)
    requires node in Leaves(c0)
    requires node !in Leaves(inserted)
    requires Realizes(inserted, done, style)
    requires element.children == Substitute(c0, map[node := inserted + [Text(node)]])
    modifies element
    ensures |inserted| <= |next| && next[..|inserted|] == inserted
    ensures Realizes(next, Scan(text, 0, open, close), style)
    ensures node !in Leaves(next)
    ensures forall l :: l in Leaves(next) ==> l in Leaves(inserted) || fresh(l)
    ensures element.children == Substitute(c0, map[node := next + [Text(node)]])
  {
    ScanNotFound(text, lastIndex, open, close);
    if lastIndex < |text| {
      next := EmitSegment(element, node, Plain(text[lastIndex..]), style, c0, inserted, done);
    } else {
      next := inserted;
      assert done + [] == done;
    }
  }

  /** `parent.removeChild(node)` once the created nodes stand in front of it. */
  method RemoveLeaf(element: HostElement, node: TextNode, ghost c0: seq<Node>, inserted: seq<Node>)
    requires node in Leaves(c0)
    requires node !in Leaves(inserted)
    requires element.children == Substitute(c0, map[node := inserted + [Text(node)]])
    modifies element
    ensures element.children == Substitute(c0, map[node := inserted])
  {
    LeavesConcat(inserted, [Text(node)]);
    assert Leaves([Text(node)]) == [node];
    SubstituteKeeps(c0, map[node := inserted + [Text(node)]], node);
    element.RemoveChild(node);
    SubstituteAround(c0, node, inserted, []);
    assert inserted + [] == inserted;
  }

  // ---------------------------------------------------------------------------
  // A block of code that may be tablature
  // ---------------------------------------------------------------------------

  /** A `pre code` element: its text, its class attribute, and whether it sits in a parent element. */
  datatype CodeBlock = CodeBlock(text: string, className: string, hasParent: bool)

  // ---------------------------------------------------------------------------
  // The plugin
  // ---------------------------------------------------------------------------

  class ChordHighlightPlugin {
    var settings: Settings

    constructor (settings: Settings)
      ensures this.settings == settings
    {
      this.settings := settings;
    }

    /**
     * The body of the per-node callback of `highlightChords`: a non-empty text
     * node still in the tree is replaced by the nodes for its segments, in
     * order, in its parent's child list; any other node is left alone.
     */
    method HighlightNode(element: HostElement, node: TextNode, open: string, close: string)
      returns (inserted: seq<Node>)
      requires IsLiteralMarker(open) && close == Reverse(open)
      modifies element
      ensures node.data == [] || node !in Leaves(old(element.children)) ==>
                inserted == [] && element.children == old(element.children)
      ensures node.data != [] && node in Leaves(old(element.children)) ==>
                element.children == Substitute(old(element.children), map[node := inserted]) &&
                Realizes(inserted, Scan(node.data, 0, open, close), SpanStyle(settings))
      ensures forall l :: l in Leaves(inserted) ==> fresh(l)
    {
      inserted := [];
      if node.data == [] || node !in Leaves(element.children) {
        return;
      }
      inserted := ReplaceLeaf(element, node, open, close, SpanStyle(settings));
    }

    /**
     * One text node of the snapshot: handled by the callback, and recorded in
     * `replaced` when it was replaced. A node replaced earlier is no longer in
     * the tree and is left alone.
     */
    method HighlightStep(element: HostElement, node: TextNode, open: string, close: string,
                         ghost c0: seq<Node>, ghost replaced: map<TextNode, seq<Node>>)
      returns (ghost next: map<TextNode, seq<Node>>)
      requires IsLiteralMarker(open) && close == Reverse(open)
      requires node in Leaves(c0)
      requires forall k :: k in replaced ==> node !in Leaves(replaced[k])
      requires element.children == Substitute(c0, replaced)
      modifies element
      ensures element.children == Substitute(c0, next)
      ensures node.data == [] || node in replaced ==> next == replaced
      ensures node.data != [] && node !in replaced ==>
                node in next && next == replaced[node := next[node]] &&
                Realizes(next[node], Scan(node.data, 0, open, close), SpanStyle(settings)) &&
                forall l :: l in Leaves(next[node]) ==> fresh(l)
    {
      if node in replaced {
        SubstituteDrops(c0, replaced, node);
      } else {
        SubstituteKeeps(c0, replaced, node);
      }
      var inserted := HighlightNode(element, node, open, close);
      next := replaced;
      if node.data != [] && node !in replaced {
        SubstituteExtend(c0, replaced, node, inserted);
        next := replaced[node := inserted];
      }
    }

    /**
     * `highlightChords`: the text nodes are collected first, then each one is
     * handled in document order. `replaced` maps every text node that was
     * replaced to the nodes that took its place: exactly the non-empty text
     * nodes of the original tree, each replaced by the nodes created for its
     * segments; the rest of the tree is unchanged.
     */
    method HighlightChords(element: HostElement) returns (ghost replaced: map<TextNode, seq<Node>>)
      requires IsLiteralMarker(settings.chordMarker)
      modifies element
      ensures element.children == Substitute(old(element.children), replaced)
      ensures forall t :: t in replaced <==> t in Leaves(old(element.children)) && t.data != []
      ensures forall t :: t in replaced ==>
                Realizes(replaced[t], Scan(t.data, 0, settings.chordMarker, Reverse(settings.chordMarker)), SpanStyle(settings))
      ensures forall t, l :: t in replaced && l in Leaves(replaced[t]) ==> fresh(l)
    {
      var open := settings.chordMarker;
      var close := Reverse(open);
      ReverseKeepsLiteral(open);
      LeavesAllocated(element.children);
      ghost var c0 := element.children;
      var textNodes := GetTextNodes(element);
      replaced := map[];
      SubstituteUnused(c0, replaced);
      for i := 0 to |textNodes|
        invariant element.children == Substitute(c0, replaced)
        invariant forall t :: t in replaced <==> t in textNodes[..i] && t.data != []
        invariant forall t :: t in replaced ==> Realizes(replaced[t], Scan(t.data, 0, open, close), SpanStyle(settings))
        invariant forall t, l :: t in replaced && l in Leaves(replaced[t]) ==> fresh(l)
      {
        var node := textNodes[i];
        assert node in textNodes;
        assert !fresh(node);
        replaced := HighlightStep(element, node, open, close, c0, replaced);
        assert textNodes[..i + 1] == textNodes[..i] + [node];
      }
      assert textNodes[..|textNodes|] == textNodes;
    }

    /** `renderTab`: the opening tag, one `div` per line appended in order, the closing tag. */
    method RenderTab(tabText: string) returns (html: string)
      ensures html == TabHtml(tabText)
    {
      var lines := SplitLines(tabText);
      html := TabOpen;
      for i := 0 to |lines|
        invariant html == TabOpen + Divs(lines[..i])
      {
        assert lines[..i + 1][..i] == lines[..i];
        html := html + Div(lines[i]);
      }
      assert lines[..|lines|] == lines;
      html := html + TabClose;
    }

    /**
     * `renderTabs` over the `pre code` blocks of a section: the HTML that
     * replaces the parent of each block, or nothing for a block that is left
     * alone. A block is replaced exactly when it is a tablature block under
     * the current marker and has a parent, and then by its rendered form.
     */
    method RenderTabs(blocks: seq<CodeBlock>) returns (out: seq<Option<string>>)
      ensures |out| == |blocks|
      ensures forall i :: 0 <= i < |blocks| ==>
                (out[i].Some? <==> IsTabBlock(blocks[i].text, blocks[i].className, settings.tabMarker) && blocks[i].hasParent)
      ensures forall i :: 0 <= i < |blocks| && out[i].Some? ==> out[i].value == TabHtml(blocks[i].text)
    {
      out := [];
      for i := 0 to |blocks|
        invariant |out| == i
        invariant forall j :: 0 <= j < i ==>
                    (out[j].Some? <==> IsTabBlock(blocks[j].text, blocks[j].className, settings.tabMarker) && blocks[j].hasParent)
        invariant forall j :: 0 <= j < i && out[j].Some? ==> out[j].value == TabHtml(blocks[j].text)
      {
        var block := blocks[i];
        var replacement: Option<string> := None;
        if block.text != [] && Includes(block.className, "language-" + settings.tabMarker) {
          var tabHtml := RenderTab(block.text);
          TabHtmlNotEmpty(block.text);
          if tabHtml != [] && block.hasParent {
            replacement := Some(tabHtml);
          }
        }
        out := out + [replacement];
      }
    }
  }
}
