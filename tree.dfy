/**
 * `recursive_force_closing_tags` and the two tests it is built on,
 * `is_node_empty` and `is_self_closing_tag`.
 *
 * A document is a class holding one kind and one parent link per node; a
 * node's children are the nodes whose parent it is, in document order. The
 * pass mutates that document in place. What it computes is stated on a value
 * view of the tree (`Node`) by the function `ForceClosing`, and what the pass
 * achieves is proved about that function.
 */
module Tree {
  import opened Text
  import VoidTags

  // ---------------------------------------------------------------------------
  // Trees as values

  /** A DOM node as a value: an element with its children, a text node, or a node of any other kind. */
  datatype Node = Element(name: string, children: seq<Node>) | TextNode(data: string) | OtherNode

  /** The DOM `textContent` of a node: the text of all its descendant text nodes, in order. */
  function TextContent(n: Node): string
  {
    match n
    case Element(_, cs) => ChildrenText(cs)
    case TextNode(d) => d
    case OtherNode => []
  }

  function ChildrenText(cs: seq<Node>): string
  {
    if cs == [] then [] else TextContent(cs[0]) + ChildrenText(cs[1..])
  }

  /** PHP `empty()` on a string: the empty string and `"0"` are empty. */
  predicate PhpEmpty(s: string)
  {
    s == [] || s == "0"
  }

  /** `is_node_empty`: no child nodes, and a `textContent` PHP considers empty. */
  function IsNodeEmpty(n: Node): (b: bool)
    ensures n.Element? ==> (b <==> n.children == [])
    ensures n.TextNode? ==> (b <==> PhpEmpty(n.data))
    ensures n.OtherNode? ==> b
  {
    assert n.Element? && n.children == [] ==> TextContent(n) == ChildrenText([]);
    !(n.Element? && n.children != []) && PhpEmpty(TextContent(n))
  }

  /**
   * What the pass makes of a node: anything but an element is left alone; an
   * element with a void name loses its content; an empty element gets one
   * empty text child; any other element has each child processed.
   */
  function ForceClosing(n: Node): (r: Node)
    ensures !n.Element? ==> r == n
    ensures n.Element? ==> r.Element? && r.name == n.name
  {
    match n
    case Element(name, cs) =>
      if VoidTags.IsSelfClosingTag(name) then Element(name, [])
      else if IsNodeEmpty(n) then Element(name, [TextNode([])])
      else Element(name, seq(|cs|, i requires 0 <= i < |cs| => ForceClosing(cs[i])))
    case _ => n
  }

  /**
   * The shape the pass is after: every element with a void name is empty, and
   * every other element has at least one child, so that a serialiser writes an
   * explicit end tag for it.
   */
  predicate Closed(n: Node)
  {
    match n
    case Element(name, cs) =>
      (VoidTags.IsSelfClosingTag(name) <==> cs == [])
      && forall i :: 0 <= i < |cs| ==> Closed(cs[i])
    case _ => true
  }

  /** After the pass, every element in the tree is closed. */
  lemma {:induction false} ForceClosingCloses(n: Node)
    ensures Closed(ForceClosing(n))
  {
    match n
    case Element(name, cs) =>
      ChildlessText(name);
      if !VoidTags.IsSelfClosingTag(name) && !IsNodeEmpty(n) {
        var r := ForceClosing(n);
        forall i | 0 <= i < |cs|
          ensures Closed(r.children[i])
        {
          ForceClosingCloses(cs[i]);
        }
      }
    case _ =>
  }

  lemma ChildlessText(name: string)
    ensures TextContent(Element(name, [])) == []
  {
    assert ChildrenText([]) == [];
  }

  /** A closed tree is left exactly as it is. */
  lemma {:induction false} ForceClosingKeepsClosed(n: Node)
    requires Closed(n)
    ensures ForceClosing(n) == n
  {
    match n
    case Element(name, cs) =>
      if !VoidTags.IsSelfClosingTag(name) {
        assert cs != [];
        var r := ForceClosing(n);
        forall i | 0 <= i < |cs|
          ensures r.children[i] == cs[i]
        {
          ForceClosingKeepsClosed(cs[i]);
        }
      }
    case _ =>
  }

  /** The trees the pass leaves unchanged are exactly the closed ones. */
  lemma ForceClosingFixedPoints(n: Node)
    ensures ForceClosing(n) == n <==> Closed(n)
  {
    ForceClosingCloses(n);
    if Closed(n) {
      ForceClosingKeepsClosed(n);
    }
  }

  /** Running the pass twice gives what running it once gives. */
  lemma ForceClosingIdempotent(n: Node)
    ensures ForceClosing(ForceClosing(n)) == ForceClosing(n)
  {
    ForceClosingCloses(n);
    ForceClosingKeepsClosed(ForceClosing(n));
  }

  // ---------------------------------------------------------------------------
  // Documents as node tables

  /** The kind of one node of a document. */
  datatype Kind = ElementKind(name: string) | TextKind(data: string) | OtherKind

  /**
   * One kind and one parent per node; a parent comes before its children, and
   * -1 marks a node with no parent (the root, or a node that was detached).
   */
  predicate WellFormed(kinds: seq<Kind>, parents: seq<int>)
  {
    |kinds| == |parents| && forall j :: 0 <= j < |parents| ==> -1 <= parents[j] < j
  }

  /** The children of `x` at positions `from` and after, in document order. */
  function ChildrenFrom(parents: seq<int>, x: int, from: nat): (r: seq<nat>)
    ensures forall k :: 0 <= k < |r| ==> from <= r[k] < |parents| && parents[r[k]] == x
    ensures forall j :: from <= j < |parents| && parents[j] == x ==> j in r
    ensures forall a, b :: 0 <= a < b < |r| ==> r[a] < r[b]
    decreases |parents| - from
  {
    if from >= |parents| then []
    else if parents[from] == x then [from] + ChildrenFrom(parents, x, from + 1)
    else ChildrenFrom(parents, x, from + 1)
  }

  /** The children of `x`. */
  function Children(parents: seq<int>, x: nat): seq<nat>
  {
    ChildrenFrom(parents, x, x + 1)
  }

  /** The subtree rooted at `x` in a document, as a value. */
  function View(kinds: seq<Kind>, parents: seq<int>, x: nat): Node
    requires WellFormed(kinds, parents) && x < |kinds|
    decreases |kinds| - x
  {
    match kinds[x]
    case ElementKind(name) =>
      var cs := Children(parents, x);
      Element(name, seq(|cs|, i requires 0 <= i < |cs| => View(kinds, parents, cs[i])))
    case TextKind(d) => TextNode(d)
    case OtherKind => OtherNode
  }

  /** `j` is `x` or one of its descendants. */
  predicate InSubtree(parents: seq<int>, j: int, x: int)
    decreases j
  {
    0 <= j < |parents| && (j == x || (0 <= parents[j] < j && InSubtree(parents, parents[j], x)))
  }

  /**
   * What a pass over the subtree of `x` may do to a document: the kinds of
   * existing nodes stay; an existing node is either left under its parent or
   * detached from a parent inside the subtree; new nodes are empty text nodes,
   * appended under elements of the subtree.
   */
  ghost predicate Frame(k0: seq<Kind>, p0: seq<int>, k1: seq<Kind>, p1: seq<int>, x: nat)
  {
    && |k0| == |p0| && |k1| == |p1| && |k0| <= |k1| && k1[..|k0|] == k0
    && (forall j :: 0 <= j < |p0| ==>
          p1[j] == p0[j] || (p1[j] == -1 && 0 <= p0[j] && InSubtree(p0, p0[j], x)))
    && (forall j :: |p0| <= j < |p1| ==>
          k1[j] == TextKind([])
          && (p1[j] == -1 || (0 <= p1[j] < |k0| && k1[p1[j]].ElementKind? && InSubtree(p0, p1[j], x))))
  }

  lemma {:induction false} SubtreeAbove(parents: seq<int>, a: int, b: int)
    requires InSubtree(parents, a, b)
    ensures b <= a
    decreases a
  {
    if a != b {
      SubtreeAbove(parents, parents[a], b);
    }
  }

  lemma {:induction false} SubtreeTrans(parents: seq<int>, a: int, b: int, d: int)
    requires InSubtree(parents, a, b) && InSubtree(parents, b, d)
    ensures InSubtree(parents, a, d)
    decreases a
  {
    if a != b {
      SubtreeTrans(parents, parents[a], b, d);
    }
  }

  /** Subtree membership in a document that only detached nodes from `p0` held already in `p0`. */
  lemma {:induction false} SubtreeBack(p0: seq<int>, p1: seq<int>, a: int, b: int)
    requires |p0| <= |p1|
    requires forall j :: 0 <= j < |p0| ==> p1[j] == p0[j] || p1[j] == -1
    requires a < |p0| && InSubtree(p1, a, b)
    ensures InSubtree(p0, a, b)
    decreases a
  {
    if a != b {
      SubtreeBack(p0, p1, p1[a], b);
    }
  }

  /** Of two children of one node, neither lies in the subtree of the other. */
  lemma Siblings(parents: seq<int>, a: int, b: int, x: int)
    requires 0 <= a < |parents| && 0 <= b < |parents|
    requires parents[a] == x && parents[b] == x && a != b && 0 <= x < b
    ensures !InSubtree(parents, a, b)
  {
    if InSubtree(parents, a, b) {
      SubtreeAbove(parents, x, b);
      assert false;
    }
  }

  lemma {:induction false} ChildrenFromSame(p0: seq<int>, p1: seq<int>, z: int, from: nat)
    requires |p0| <= |p1|
    requires forall j :: from <= j < |p0| ==> (p1[j] == z <==> p0[j] == z)
    requires forall j :: |p0| <= j < |p1| ==> p1[j] != z
    ensures ChildrenFrom(p1, z, from) == ChildrenFrom(p0, z, from)
    decreases |p1| - from
  {
    if from < |p1| {
      ChildrenFromSame(p0, p1, z, from + 1);
    }
  }

  lemma {:induction false} NoChildrenFrom(parents: seq<int>, x: int, from: nat)
    requires forall j :: from <= j < |parents| ==> parents[j] != x
    ensures ChildrenFrom(parents, x, from) == []
    decreases |parents| - from
  {
    if from < |parents| {
      NoChildrenFrom(parents, x, from + 1);
    }
  }

  /** Appending a child to a node without children makes it the only child. */
  lemma {:induction false} ChildrenFromAppend(parents: seq<int>, x: int, from: nat)
    requires from <= |parents| && ChildrenFrom(parents, x, from) == []
    ensures ChildrenFrom(parents + [x], x, from) == [|parents|]
    decreases |parents| - from
  {
    if from < |parents| {
      assert parents[from] != x;
      ChildrenFromAppend(parents, x, from + 1);
    } else {
      ChildrenFromSame(parents + [x], parents + [x], x, from + 1);
    }
  }

  /** A pass over the subtree of `c` keeps the children of every node outside it. */
  lemma ChildrenKept(k0: seq<Kind>, p0: seq<int>, k1: seq<Kind>, p1: seq<int>, c: nat, y: nat)
    requires Frame(k0, p0, k1, p1, c) && y < |k0| && !InSubtree(p0, y, c)
    ensures Children(p1, y) == Children(p0, y)
  {
    ChildrenFromSame(p0, p1, y, y + 1);
  }

  /** A pass over the subtree of `c` leaves the subtree of a node unrelated to `c` unchanged. */
  lemma {:induction false} ViewFrame(k0: seq<Kind>, p0: seq<int>, k1: seq<Kind>, p1: seq<int>, c: nat, y: nat)
    requires WellFormed(k0, p0) && WellFormed(k1, p1) && Frame(k0, p0, k1, p1, c)
    requires c < |k0| && y < |k0| && !InSubtree(p0, y, c) && !InSubtree(p0, c, y)
    ensures View(k1, p1, y) == View(k0, p0, y)
    decreases |k0| - y
  {
    assert k1[y] == k1[..|k0|][y];
    if k0[y].ElementKind? {
      var cs := Children(p0, y);
      ChildrenKept(k0, p0, k1, p1, c, y);
      forall m | 0 <= m < |cs|
        ensures View(k1, p1, cs[m]) == View(k0, p0, cs[m])
      {
        var ch := cs[m];
        assert InSubtree(p0, ch, y);
        if InSubtree(p0, c, ch) {
          SubtreeTrans(p0, c, ch, y);
        }
        ViewFrame(k0, p0, k1, p1, c, ch);
      }
    }
  }

  /** Two passes, one over the subtree of `x` and then one over that of a child of `x`, make one pass over the subtree of `x`. */
  lemma FrameCompose(k0: seq<Kind>, p0: seq<int>, k1: seq<Kind>, p1: seq<int>, k2: seq<Kind>, p2: seq<int>, x: nat, c: nat)
    requires WellFormed(k0, p0) && WellFormed(k1, p1)
    requires Frame(k0, p0, k1, p1, x) && Frame(k1, p1, k2, p2, c)
    requires c < |p0| && p0[c] == x
    ensures Frame(k0, p0, k2, p2, x)
  {
    assert InSubtree(p0, c, x);
    forall j | 0 <= j < |p0|
      ensures p2[j] == p0[j] || (p2[j] == -1 && 0 <= p0[j] && InSubtree(p0, p0[j], x))
    {
      if p2[j] != p0[j] && p1[j] == p0[j] {
        SubtreeBack(p0, p1, p1[j], c);
        SubtreeTrans(p0, p0[j], c, x);
      }
    }
    forall j | |p0| <= j < |p2|
      ensures k2[j] == TextKind([])
      ensures p2[j] == -1 || (0 <= p2[j] < |k0| && k2[p2[j]].ElementKind? && InSubtree(p0, p2[j], x))
    {
      if j < |p1| {
        assert k2[j] == k2[..|k1|][j];
        if p2[j] != -1 {
          assert k2[p2[j]] == k2[..|k1|][p2[j]];
        }
      } else if p2[j] != -1 {
        var e := p2[j];
        assert k1[e] == k2[..|k1|][e];
        SubtreeBack(p0, p1, e, c);
        SubtreeTrans(p0, e, c, x);
      }
    }
    assert k2[..|k0|] == k2[..|k1|][..|k0|];
  }

  /** The parent links after every child of `x` is detached. */
  function Detach(parents: seq<int>, x: int): (r: seq<int>)
    ensures |r| == |parents|
    ensures forall j :: 0 <= j < |r| ==> r[j] == (if parents[j] == x then -1 else parents[j])
  {
    seq(|parents|, j requires 0 <= j < |parents| => if parents[j] == x then -1 else parents[j])
  }

  /** Detaching the children of an element leaves it empty and changes nothing outside its subtree. */
  lemma DetachChildren(kinds: seq<Kind>, parents: seq<int>, x: nat)
    requires WellFormed(kinds, parents) && x < |kinds| && kinds[x].ElementKind?
    ensures WellFormed(kinds, Detach(parents, x))
    ensures View(kinds, Detach(parents, x), x) == Element(kinds[x].name, [])
    ensures Frame(kinds, parents, kinds, Detach(parents, x), x)
  {
    NoChildrenFrom(Detach(parents, x), x, x + 1);
    assert kinds[..|kinds|] == kinds;
  }

  /** Appending an empty text node to a childless element makes it the element's only child. */
  lemma AppendEmptyText(kinds: seq<Kind>, parents: seq<int>, x: nat)
    requires WellFormed(kinds, parents) && x < |kinds| && kinds[x].ElementKind?
    requires IsNodeEmpty(View(kinds, parents, x))
    ensures WellFormed(kinds + [TextKind([])], parents + [x])
    ensures View(kinds + [TextKind([])], parents + [x], x) == Element(kinds[x].name, [TextNode([])])
    ensures Frame(kinds, parents, kinds + [TextKind([])], parents + [x], x)
  {
    var k := kinds + [TextKind([])];
    var p := parents + [x];
    assert Children(parents, x) == [];
    ChildrenFromAppend(parents, x, x + 1);
    assert k[..|kinds|] == kinds;
    assert InSubtree(parents, x, x);
    assert View(k, p, |kinds|) == TextNode([]);
  }

  /** A document whose nodes the pass mutates in place. */
  class Document {
    var kinds: seq<Kind>
    var parents: seq<int>

    ghost predicate Valid()
      reads this
    {
      WellFormed(kinds, parents)
    }

    /** An empty document: no nodes yet. */
    constructor ()
      ensures Valid() && kinds == [] && parents == []
    {
      kinds := [];
      parents := [];
    }

    /**
     * `recursive_force_closing_tags` on node `x`: the subtree of `x` becomes
     * `ForceClosing` of what it was, and nothing outside it changes.
     */
    method ForceClosingTags(x: nat, ghost t: Node)
      requires Valid() && x < |kinds| && t == View(kinds, parents, x)
      modifies this
      ensures Valid() && x < |kinds|
      ensures View(kinds, parents, x) == ForceClosing(t)
      ensures Frame(old(kinds), old(parents), kinds, parents, x)
      decreases t
    {
      if !kinds[x].ElementKind? {
        return;
      }
      if VoidTags.IsSelfClosingTag(kinds[x].name) {
        // Setting `textContent` detaches every child.
        DetachChildren(kinds, parents, x);
        parents := Detach(parents, x);
        return;
      }
      if IsNodeEmpty(View(kinds, parents, x)) {
        AppendEmptyText(kinds, parents, x);
        kinds := kinds + [TextKind([])];
        parents := parents + [x];
        return;
      }
      ForceChildren(x, t);
    }

    /** The loop over the children of `x`, from the last to the first. */
    method ForceChildren(x: nat, ghost t: Node)
      requires Valid() && x < |kinds| && t == View(kinds, parents, x) && kinds[x].ElementKind?
      requires !VoidTags.IsSelfClosingTag(kinds[x].name) && !IsNodeEmpty(t)
      modifies this
      ensures Valid() && x < |kinds|
      ensures View(kinds, parents, x) == ForceClosing(t)
      ensures Frame(old(kinds), old(parents), kinds, parents, x)
      decreases t, 0
    {
      var cs := Children(parents, x);
      ghost var vs := t.children;
      var i := |cs|;
      while i > 0
        invariant 0 <= i <= |cs|
        invariant Valid() && Frame(old(kinds), old(parents), kinds, parents, x)
        invariant Children(parents, x) == cs
        invariant forall m :: 0 <= m < |cs| ==>
          View(kinds, parents, cs[m]) == (if m >= i then ForceClosing(vs[m]) else vs[m])
      {
        i := i - 1;
        ghost var k1, p1 := kinds, parents;
        ForceClosingTags(cs[i], View(kinds, parents, cs[i]));
        AfterChild(k1, p1, kinds, parents, x, cs, i);
        FrameCompose(old(kinds), old(parents), k1, p1, kinds, parents, x, cs[i]);
      }
      assert kinds[x] == kinds[..|old(kinds)|][x];
    }
  }

  /** The loop's invariants survive the pass over one child. */
  lemma AfterChild(k1: seq<Kind>, p1: seq<int>, k2: seq<Kind>, p2: seq<int>, x: nat, cs: seq<nat>, i: nat)
    requires WellFormed(k1, p1) && WellFormed(k2, p2) && x < |k1|
    requires Children(p1, x) == cs && i < |cs|
    requires Frame(k1, p1, k2, p2, cs[i])
    ensures Children(p2, x) == cs
    ensures forall m :: 0 <= m < |cs| && m != i ==> View(k2, p2, cs[m]) == View(k1, p1, cs[m])
  {
    if InSubtree(p1, x, cs[i]) {
      SubtreeAbove(p1, x, cs[i]);
    }
    ChildrenKept(k1, p1, k2, p2, cs[i], x);
    forall m | 0 <= m < |cs| && m != i
      ensures View(k2, p2, cs[m]) == View(k1, p1, cs[m])
    {
      Siblings(p1, cs[m], cs[i], x);
      Siblings(p1, cs[i], cs[m], x);
      ViewFrame(k1, p1, k2, p2, cs[i], cs[m]);
    }
  }
}
