/**
 * The part of the document object model that the highlighter touches: text
 * nodes (objects, since the highlighter inserts before a particular text node
 * and removes it), elements with their ordered children, the document-order
 * walk over text nodes, and the two child-list edits `insertBefore` and
 * `removeChild`.
 *
 * A subtree is a value: a sequence of nodes. An edit on the parent of a text
 * node is described by `Substitute`, which replaces chosen text nodes, wherever
 * they sit in the subtree, by sequences of nodes among their siblings.
 */
module Dom {

  /** A text node. The highlighter never changes the data of an existing one. */
  class TextNode {
    const data: string

    constructor (data: string)
      ensures this.data == data
    {
      this.data := data;
    }
  }

  /** The inline style properties the highlighter sets on a chord span. */
  datatype Style = Style(color: string, fontWeight: string, fontSize: string)

  datatype Node =
    | Text(leaf: TextNode)
    | Element(tag: string, style: Style, children: seq<Node>)

  // ---------------------------------------------------------------------------
  // Text nodes in document order
  // ---------------------------------------------------------------------------

  /** The text nodes of a forest, in document (pre-)order. */
  function Leaves(cs: seq<Node>): seq<TextNode>
    decreases cs
  {
    if cs == [] then [] else LeavesOf(cs[0]) + Leaves(cs[1..])
  }

  function LeavesOf(n: Node): seq<TextNode>
    decreases n
  {
    match n
    case Text(t) => [t]
    case Element(_, _, ch) => Leaves(ch)
  }

  lemma {:induction false} LeavesConcat(a: seq<Node>, b: seq<Node>)
    ensures Leaves(a + b) == Leaves(a) + Leaves(b)
    decreases a
  {
    if a != [] {
      assert (a + b)[0] == a[0] && (a + b)[1..] == a[1..] + b;
      LeavesConcat(a[1..], b);
    } else {
      assert a + b == b;
    }
  }

  /** The text a forest displays: the data of its text nodes, in order. */
  function TextContent(cs: seq<Node>): string
    decreases cs
  {
    if cs == [] then [] else TextOf(cs[0]) + TextContent(cs[1..])
  }

  function TextOf(n: Node): string
    decreases n
  {
    match n
    case Text(t) => t.data
    case Element(_, _, ch) => TextContent(ch)
  }

  /** Every text node a value refers to was allocated when the value was. */
  lemma {:induction false} LeavesAllocated(cs: seq<Node>)
    ensures forall t :: t in Leaves(cs) ==> allocated(t)
    decreases cs
  {
    if cs != [] {
      LeavesOfAllocated(cs[0]);
      LeavesAllocated(cs[1..]);
    }
  }

  lemma {:induction false} LeavesOfAllocated(n: Node)
    ensures forall t :: t in LeavesOf(n) ==> allocated(t)
    decreases n
  {
    match n
    case Text(t) =>
    case Element(_, _, ch) => LeavesAllocated(ch);
  }

  // ---------------------------------------------------------------------------
  // Replacing text nodes among their siblings
  // ---------------------------------------------------------------------------

  /**
   * The forest `cs` with every text node `t` in `m` replaced, in its parent's
   * child list, by the nodes `m[t]`; everything else keeps its place.
   */
  function Substitute(cs: seq<Node>, m: map<TextNode, seq<Node>>): seq<Node>
    decreases cs
  {
    if cs == [] then [] else SubstituteNode(cs[0], m) + Substitute(cs[1..], m)
  }

  function SubstituteNode(n: Node, m: map<TextNode, seq<Node>>): seq<Node>
    decreases n
  {
    match n
    case Text(t) => if t in m then m[t] else [n]
    case Element(tag, style, ch) => [Element(tag, style, Substitute(ch, m))]
  }

  lemma {:induction false} SubstituteConcat(a: seq<Node>, b: seq<Node>, m: map<TextNode, seq<Node>>)
    ensures Substitute(a + b, m) == Substitute(a, m) + Substitute(b, m)
    decreases a
  {
    if a != [] {
      assert (a + b)[0] == a[0] && (a + b)[1..] == a[1..] + b;
      SubstituteConcat(a[1..], b, m);
    } else {
      assert a + b == b;
    }
  }

  /** A substitution for text nodes that do not occur leaves the forest as it is. */
  lemma {:induction false} SubstituteUnused(cs: seq<Node>, m: map<TextNode, seq<Node>>)
    requires forall t :: t in m ==> t !in Leaves(cs)
    ensures Substitute(cs, m) == cs
    decreases cs
  {
    if cs != [] {
      LeavesConcat([cs[0]], cs[1..]);
      assert [cs[0]] + cs[1..] == cs;
      assert Leaves([cs[0]]) == LeavesOf(cs[0]);
      SubstituteNodeUnused(cs[0], m);
      SubstituteUnused(cs[1..], m);
    }
  }

  lemma {:induction false} SubstituteNodeUnused(n: Node, m: map<TextNode, seq<Node>>)
    requires forall t :: t in m ==> t !in LeavesOf(n)
    ensures SubstituteNode(n, m) == [n]
    decreases n
  {
    match n
    case Text(t) =>
      assert t in LeavesOf(n);
    case Element(_, _, ch) =>
      SubstituteUnused(ch, m);
  }

  /**
   * Replacing one text node in a child list: the new nodes take its place, in
   * order, and the siblings before and after it are unchanged.
   */
  lemma SubstituteSplice(before: seq<Node>, t: TextNode, after: seq<Node>, v: seq<Node>)
    requires t !in Leaves(before) && t !in Leaves(after)
    ensures Substitute(before + [Text(t)] + after, map[t := v]) == before + v + after
  {
    var m := map[t := v];
    SubstituteConcat(before + [Text(t)], after, m);
    SubstituteConcat(before, [Text(t)], m);
    SubstituteUnused(before, m);
    SubstituteUnused(after, m);
    assert Substitute([Text(t)], m) == v + Substitute([], m);
  }

  /** Substituting `m` and then `n` is one substitution: `n` applied inside `m`'s replacements, then `n` elsewhere. */
  function Then(m: map<TextNode, seq<Node>>, n: map<TextNode, seq<Node>>): map<TextNode, seq<Node>>
  {
    map t | t in m.Keys + n.Keys :: if t in m then Substitute(m[t], n) else n[t]
  }

  lemma {:induction false} SubstituteTwice(cs: seq<Node>, m: map<TextNode, seq<Node>>, n: map<TextNode, seq<Node>>)
    ensures Substitute(Substitute(cs, m), n) == Substitute(cs, Then(m, n))
    decreases cs
  {
    if cs != [] {
      SubstituteConcat(SubstituteNode(cs[0], m), Substitute(cs[1..], m), n);
      SubstituteNodeTwice(cs[0], m, n);
      SubstituteTwice(cs[1..], m, n);
    }
  }

  lemma {:induction false} SubstituteNodeTwice(x: Node, m: map<TextNode, seq<Node>>, n: map<TextNode, seq<Node>>)
    ensures Substitute(SubstituteNode(x, m), n) == SubstituteNode(x, Then(m, n))
    decreases x
  {
    match x
    case Text(t) =>
      if t !in m {
        assert [x][1..] == [];
      }
    case Element(tag, style, ch) =>
      SubstituteTwice(ch, m, n);
      assert [Element(tag, style, Substitute(ch, m))][1..] == [];
  }

  /**
   * A further substitution for a text node that neither `m` nor its
   * replacements mention extends `m` by that one entry.
   */
  lemma SubstituteExtend(cs: seq<Node>, m: map<TextNode, seq<Node>>, t: TextNode, u: seq<Node>)
    requires t !in m
    requires forall k :: k in m ==> t !in Leaves(m[k])
    ensures Substitute(Substitute(cs, m), map[t := u]) == Substitute(cs, m[t := u])
  {
    SubstituteTwice(cs, m, map[t := u]);
    forall k | k in m
      ensures Substitute(m[k], map[t := u]) == m[k]
    {
      SubstituteUnused(m[k], map[t := u]);
    }
    assert Then(m, map[t := u]) == m[t := u];
  }

  /**
   * Two edits around the same text node `t`: replacing it by `u` and then
   * replacing it (where `u` kept it) by `v`. When `u` is `before + [Text(t)]`
   * and `before` does not mention `t`, the result replaces `t` by
   * `before + v`.
   */
  lemma SubstituteAround(cs: seq<Node>, t: TextNode, before: seq<Node>, v: seq<Node>)
    requires t !in Leaves(before)
    ensures Substitute(Substitute(cs, map[t := before + [Text(t)]]), map[t := v]) ==
            Substitute(cs, map[t := before + v])
  {
    var m := map[t := before + [Text(t)]];
    var n := map[t := v];
    SubstituteTwice(cs, m, n);
    SubstituteConcat(before, [Text(t)], n);
    SubstituteUnused(before, n);
    assert Substitute([Text(t)], n) == v by {
      assert [Text(t)][1..] == [];
    }
    assert Then(m, n) == map[t := before + v];
  }

  /** Replacing a text node by itself changes nothing. */
  lemma {:induction false} SubstituteSelf(cs: seq<Node>, t: TextNode)
    ensures Substitute(cs, map[t := [Text(t)]]) == cs
    decreases cs
  {
    if cs != [] {
      SubstituteNodeSelf(cs[0], t);
      SubstituteSelf(cs[1..], t);
      assert [cs[0]] + cs[1..] == cs;
    }
  }

  lemma {:induction false} SubstituteNodeSelf(n: Node, t: TextNode)
    ensures SubstituteNode(n, map[t := [Text(t)]]) == [n]
    decreases n
  {
    match n
    case Text(_) =>
    case Element(_, _, ch) => SubstituteSelf(ch, t);
  }

  /** A text node whose replacement still contains it stays in the forest. */
  lemma {:induction false} SubstituteKeeps(cs: seq<Node>, m: map<TextNode, seq<Node>>, t: TextNode)
    requires t in Leaves(cs)
    requires t in m ==> t in Leaves(m[t])
    ensures t in Leaves(Substitute(cs, m))
    decreases cs
  {
    LeavesConcat(SubstituteNode(cs[0], m), Substitute(cs[1..], m));
    if t in LeavesOf(cs[0]) {
      SubstituteNodeKeeps(cs[0], m, t);
    } else {
      SubstituteKeeps(cs[1..], m, t);
    }
  }

  lemma {:induction false} SubstituteNodeKeeps(n: Node, m: map<TextNode, seq<Node>>, t: TextNode)
    requires t in LeavesOf(n)
    requires t in m ==> t in Leaves(m[t])
    ensures t in Leaves(SubstituteNode(n, m))
    decreases n
  {
    match n
    case Text(s) =>
      if s !in m {
        assert Leaves([n]) == [s];
      }
    case Element(tag, style, ch) =>
      SubstituteKeeps(ch, m, t);
      assert Leaves([Element(tag, style, Substitute(ch, m))]) == Leaves(Substitute(ch, m));
  }

  /** A text node that every replacement leaves out is gone from the forest. */
  lemma {:induction false} SubstituteDrops(cs: seq<Node>, m: map<TextNode, seq<Node>>, t: TextNode)
    requires t in m
    requires forall k :: k in m ==> t !in Leaves(m[k])
    ensures t !in Leaves(Substitute(cs, m))
    decreases cs
  {
    if cs != [] {
      LeavesConcat(SubstituteNode(cs[0], m), Substitute(cs[1..], m));
      SubstituteNodeDrops(cs[0], m, t);
      SubstituteDrops(cs[1..], m, t);
    }
  }

  lemma {:induction false} SubstituteNodeDrops(n: Node, m: map<TextNode, seq<Node>>, t: TextNode)
    requires t in m
    requires forall k :: k in m ==> t !in Leaves(m[k])
    ensures t !in Leaves(SubstituteNode(n, m))
    decreases n
  {
    match n
    case Text(s) =>
      if s !in m {
        assert Leaves([n]) == [s];
      }
    case Element(tag, style, ch) =>
      SubstituteDrops(ch, m, t);
      assert Leaves([Element(tag, style, Substitute(ch, m))]) == Leaves(Substitute(ch, m));
  }

  /** A text node that was not in the forest and is in no replacement is not in the result. */
  lemma {:induction false} SubstituteAbsent(cs: seq<Node>, m: map<TextNode, seq<Node>>, t: TextNode)
    requires t !in Leaves(cs)
    requires forall k :: k in m ==> t !in Leaves(m[k])
    ensures t !in Leaves(Substitute(cs, m))
    decreases cs
  {
    if cs != [] {
      LeavesConcat(SubstituteNode(cs[0], m), Substitute(cs[1..], m));
      SubstituteNodeAbsent(cs[0], m, t);
      SubstituteAbsent(cs[1..], m, t);
    }
  }

  lemma {:induction false} SubstituteNodeAbsent(n: Node, m: map<TextNode, seq<Node>>, t: TextNode)
    requires t !in LeavesOf(n)
    requires forall k :: k in m ==> t !in Leaves(m[k])
    ensures t !in Leaves(SubstituteNode(n, m))
    decreases n
  {
    match n
    case Text(s) =>
      if s !in m {
        assert Leaves([n]) == [s];
      }
    case Element(tag, style, ch) =>
      SubstituteAbsent(ch, m, t);
      assert Leaves([Element(tag, style, Substitute(ch, m))]) == Leaves(Substitute(ch, m));
  }

  // ---------------------------------------------------------------------------
  // The element the highlighter works on
  // ---------------------------------------------------------------------------

  /** An element whose subtree the highlighter edits in place. */
  class HostElement {
    var children: seq<Node>

    constructor (children: seq<Node>)
      ensures this.children == children
    {
      this.children := children;
    }

    /** `ref.parentNode.insertBefore(node, ref)`: `node` joins `ref`'s siblings just before it. */
    method InsertBefore(node: Node, ref: TextNode)
      requires ref in Leaves(children)
      modifies this
      ensures children == Substitute(old(children), map[ref := [node, Text(ref)]])
    {
      children := Substitute(children, map[ref := [node, Text(ref)]]);
    }

    /** `ref.parentNode.removeChild(ref)`: `ref` leaves its parent's children. */
    method RemoveChild(ref: TextNode)
      requires ref in Leaves(children)
      modifies this
      ensures children == Substitute(old(children), map[ref := []])
    {
      children := Substitute(children, map[ref := []]);
    }
  }

  // ---------------------------------------------------------------------------
  // The tree walker over text nodes
  // ---------------------------------------------------------------------------

  function Size(n: Node): nat
    decreases n
  {
    match n
    case Text(_) => 1
    case Element(_, _, ch) => 1 + SizeAll(ch)
  }

  function SizeAll(cs: seq<Node>): nat
    decreases cs
  {
    if cs == [] then 0 else Size(cs[0]) + SizeAll(cs[1..])
  }

  lemma {:induction false} SizeAllConcat(a: seq<Node>, b: seq<Node>)
    ensures SizeAll(a + b) == SizeAll(a) + SizeAll(b)
    decreases a
  {
    if a != [] {
      assert (a + b)[0] == a[0] && (a + b)[1..] == a[1..] + b;
      SizeAllConcat(a[1..], b);
    } else {
      assert a + b == b;
    }
  }

  /**
   * A walker that shows only text nodes, advanced with `nextNode` until it
   * runs out: the text nodes below `element`, in document order, collected
   * before anything is changed.
   */
  method GetTextNodes(element: HostElement) returns (textNodes: seq<TextNode>)
    ensures textNodes == Leaves(element.children)
  {
    textNodes := [];
    var pending := element.children;
    while pending != []
      invariant textNodes + Leaves(pending) == Leaves(element.children)
      decreases SizeAll(pending)
    {
      var n := pending[0];
      assert SizeAll(pending) == Size(n) + SizeAll(pending[1..]);
      match n
      case Text(t) =>
        textNodes := textNodes + [t];
        pending := pending[1..];
      case Element(_, _, ch) =>
        LeavesConcat(ch, pending[1..]);
        SizeAllConcat(ch, pending[1..]);
        pending := ch + pending[1..];
    }
  }
}
