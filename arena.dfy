/**
 * The output document as the tool mutates it: rapidxml nodes allocated
 * from the document's memory pool and linked to their parents and
 * siblings. A node is a slot of the pool, a reference to it is its index;
 * each slot records its parent and its children in sibling order.
 *
 * `Tree(slots, i)` reads the subtree at slot `i` back as a value, and the
 * imperative `recurse` is proved to compute exactly `Merging.Merge` on it,
 * while only appending nodes and child links.
 */
module Arena {
  import opened Wrappers
  import opened StrEq
  import opened XmlTree
  import opened Merging

  /** One node of the pool: its own data, its parent (-1 when unlinked) and its children in order. */
  datatype Slot = Slot(kind: Kind, tag: string, value: string, attrs: seq<Attr>, parent: int, children: seq<nat>)

  /**
   * The pool is a tree: a node's parent and children lie before and after
   * it in allocation order, each child points back to its parent, and
   * sibling lists are in allocation order (so hold no slot twice).
   */
  ghost predicate WF(s: seq<Slot>) {
    && |s| > 0
    && (forall y :: 0 <= y < |s| ==> -1 <= s[y].parent < y)
    && (forall p, j :: 0 <= p < |s| && 0 <= j < |s[p].children| ==>
          p < s[p].children[j] < |s| && s[s[p].children[j]].parent == p)
    && (forall p, i, j :: 0 <= p < |s| && 0 <= i < j < |s[p].children| ==>
          s[p].children[i] < s[p].children[j])
  }

  /** The subtree rooted at slot `i`, as a value. */
  ghost function Tree(s: seq<Slot>, i: nat): Node
    requires WF(s) && i < |s|
    decreases |s| - i
  {
    var sl := s[i];
    Node(sl.kind, sl.tag, sl.value, sl.attrs,
         seq(|sl.children|, j requires 0 <= j < |sl.children| => Tree(s, sl.children[j])))
  }

  /** Slot `x` is `y` or one of its ancestors. */
  ghost predicate Anc(s: seq<Slot>, x: nat, y: nat)
    requires WF(s) && y < |s|
    decreases y
  {
    y == x || (x < y && 0 <= s[y].parent && Anc(s, x, s[y].parent))
  }

  /** Slot `b` is slot `a` with possibly more children appended. */
  ghost predicate Grown(a: Slot, b: Slot) {
    && a.kind == b.kind && a.tag == b.tag && a.value == b.value && a.attrs == b.attrs
    && a.parent == b.parent && a.children <= b.children
  }

  /** The pool `t` is `s` with slots appended and child lists extended, nothing else. */
  ghost predicate AppendOnly(s: seq<Slot>, t: seq<Slot>) {
    |s| <= |t| && forall y :: 0 <= y < |s| ==> Grown(s[y], t[y])
  }

  lemma AppendOnlyTrans(s: seq<Slot>, t: seq<Slot>, u: seq<Slot>)
    requires AppendOnly(s, t) && AppendOnly(t, u)
    ensures AppendOnly(s, u)
  {
    forall y | 0 <= y < |s| ensures Grown(s[y], u[y]) {
      assert Grown(s[y], t[y]) && Grown(t[y], u[y]);
    }
  }

  lemma {:induction false} AncLe(s: seq<Slot>, x: nat, y: nat)
    requires WF(s) && y < |s| && Anc(s, x, y)
    ensures x <= y
  {
  }

  lemma {:induction false} AncStep(s: seq<Slot>, x: nat, c: nat, y: nat)
    requires WF(s) && c < |s| && y < |s| && x < c && s[c].parent == x
    requires Anc(s, c, y)
    ensures Anc(s, x, y)
    decreases y
  {
    if y != c {
      AncStep(s, x, c, s[y].parent);
    }
  }

  /** The subtrees of two different siblings share no slot. */
  lemma {:induction false} AncDisjoint(s: seq<Slot>, a: nat, b: nat, y: nat)
    requires WF(s) && a < |s| && b < |s| && y < |s| && a != b
    requires 0 <= s[a].parent == s[b].parent
    ensures !(Anc(s, a, y) && Anc(s, b, y))
    decreases y
  {
    if Anc(s, a, y) && Anc(s, b, y) {
      if y == a {
        AncLe(s, b, s[a].parent);
      } else if y == b {
        AncLe(s, a, s[b].parent);
      } else {
        AncDisjoint(s, a, b, s[y].parent);
      }
    }
  }

  /** Ancestry among old slots is unaffected by appending. */
  lemma {:induction false} AncAppendOnly(s: seq<Slot>, t: seq<Slot>, x: nat, y: nat)
    requires WF(s) && WF(t) && AppendOnly(s, t) && y < |s|
    ensures Anc(t, x, y) == Anc(s, x, y)
    decreases y
  {
    assert Grown(s[y], t[y]);
    if y != x && x < y && 0 <= s[y].parent {
      AncAppendOnly(s, t, x, s[y].parent);
    }
  }

  /** A subtree none of whose slots changed reads back the same. */
  lemma {:induction false} TreeFrame(s: seq<Slot>, t: seq<Slot>, x: nat)
    requires WF(s) && WF(t) && |s| <= |t| && x < |s|
    requires forall y :: 0 <= y < |s| && Anc(s, x, y) ==> t[y] == s[y]
    ensures Tree(t, x) == Tree(s, x)
    decreases |s| - x
  {
    assert t[x] == s[x];
    var cs := s[x].children;
    forall j | 0 <= j < |cs| ensures Tree(t, cs[j]) == Tree(s, cs[j]) {
      forall y | 0 <= y < |s| && Anc(s, cs[j], y) ensures t[y] == s[y] {
        AncStep(s, x, cs[j], y);
      }
      TreeFrame(s, t, cs[j]);
    }
    assert Tree(t, x).children == Tree(s, x).children;
  }

  /**
   * When only the subtree of the `i`-th child of `o` changed, the tree at
   * `o` changed at that child only.
   */
  lemma TreeUpdateChild(s: seq<Slot>, t: seq<Slot>, o: nat, i: nat)
    requires WF(s) && WF(t) && |s| <= |t| && o < |s| && i < |s[o].children|
    requires forall y :: 0 <= y < |s| && !Anc(s, s[o].children[i], y) ==> t[y] == s[y]
    ensures Tree(t, o) == Tree(s, o).(children := Tree(s, o).children[i := Tree(t, s[o].children[i])])
  {
    var cs := s[o].children;
    assert t[o] == s[o];
    forall j | 0 <= j < |cs| && j != i ensures Tree(t, cs[j]) == Tree(s, cs[j]) {
      forall y | 0 <= y < |s| && Anc(s, cs[j], y) ensures t[y] == s[y] {
        AncDisjoint(s, cs[i], cs[j], y);
      }
      TreeFrame(s, t, cs[j]);
    }
    assert Tree(t, o).children == Tree(s, o).children[i := Tree(t, cs[i])];
  }

  /** The pool after linking the unlinked, childless node `n` as the last child of `p`. */
  ghost function Link(s: seq<Slot>, p: nat, n: Slot): seq<Slot>
    requires p < |s|
  {
    s[p := s[p].(children := s[p].children + [|s|])] + [n.(parent := p)]
  }

  /** Linking keeps the pool a tree and only appends. */
  lemma LinkWF(s: seq<Slot>, p: nat, n: Slot)
    requires WF(s) && p < |s| && n.parent == -1 && n.children == []
    ensures WF(Link(s, p, n)) && AppendOnly(s, Link(s, p, n))
  {
    var t := Link(s, p, n);
    assert WF(t);
    forall y | 0 <= y < |s| ensures Grown(s[y], t[y]) {
    }
  }

  /** Linking adds exactly the childless node as the last child of the tree at `p`. */
  lemma LinkTree(s: seq<Slot>, p: nat, n: Slot)
    requires WF(s) && p < |s| && n.parent == -1 && n.children == []
    requires WF(Link(s, p, n))
    ensures Tree(Link(s, p, n), |s|) == Node(n.kind, n.tag, n.value, n.attrs, [])
    ensures Tree(Link(s, p, n), p) == Tree(s, p).(children := Tree(s, p).children + [Node(n.kind, n.tag, n.value, n.attrs, [])])
  {
    var t := Link(s, p, n);
    var last := |s|;
    var cs := s[p].children;
    assert t[p].children == cs + [last];
    forall j | 0 <= j < |cs| ensures Tree(t, cs[j]) == Tree(s, cs[j]) {
      forall y | 0 <= y < |s| && Anc(s, cs[j], y) ensures t[y] == s[y] {
        AncLe(s, cs[j], y);
      }
      TreeFrame(s, t, cs[j]);
    }
    assert Tree(t, p).children == Tree(s, p).children + [Tree(t, last)];
  }

  /**
   * Two steps that each change only the subtree of `o`, and only by
   * appending, together change only that subtree, only by appending.
   */
  lemma ConfinedTrans(s0: seq<Slot>, s1: seq<Slot>, s2: seq<Slot>, o: nat)
    requires WF(s0) && WF(s1) && WF(s2) && o < |s0|
    requires AppendOnly(s0, s1) && AppendOnly(s1, s2)
    requires forall y :: 0 <= y < |s0| && !Anc(s0, o, y) ==> s1[y] == s0[y]
    requires forall y :: 0 <= y < |s1| && !Anc(s1, o, y) ==> s2[y] == s1[y]
    ensures AppendOnly(s0, s2)
    ensures forall y :: 0 <= y < |s0| && !Anc(s0, o, y) ==> s2[y] == s0[y]
  {
    forall y | 0 <= y < |s0| && !Anc(s0, o, y) ensures s2[y] == s0[y] {
      AncAppendOnly(s0, s1, o, y);
    }
    AppendOnlyTrans(s0, s1, s2);
  }

  /**
   * A step that changes only the subtree of `o`, followed by one that
   * changes only the subtree of a child `c` of `o`, together change only
   * the subtree of `o`; both only append.
   */
  lemma DescendFrame(s1: seq<Slot>, s2: seq<Slot>, s3: seq<Slot>, o: nat, c: nat)
    requires WF(s1) && WF(s2) && WF(s3) && o < |s1| && o < c < |s2| && s2[c].parent == o
    requires AppendOnly(s1, s2) && AppendOnly(s2, s3)
    requires forall y :: 0 <= y < |s1| && !Anc(s1, o, y) ==> s2[y] == s1[y]
    requires forall y :: 0 <= y < |s2| && !Anc(s2, c, y) ==> s3[y] == s2[y]
    ensures AppendOnly(s1, s3)
    ensures forall y :: 0 <= y < |s1| && !Anc(s1, o, y) ==> s3[y] == s1[y]
  {
    forall y | 0 <= y < |s1| && !Anc(s1, o, y) ensures s3[y] == s1[y] {
      AncAppendOnly(s1, s2, o, y);
      if Anc(s2, c, y) {
        AncStep(s2, o, c, y);
      }
    }
    AppendOnlyTrans(s1, s2, s3);
  }

  /**
   * `deep_clone(node)`: allocates an unlinked node with the kind, tag and
   * value of `n` and appends a clone of each of its attributes, in order;
   * the children are not cloned.
   */
  method CloneNode(n: Node) returns (r: Slot)
    ensures r.kind == n.kind && r.tag == n.tag && r.value == n.value
    ensures r.attrs == n.attrs && r.parent == -1 && r.children == []
  {
    var attrs: seq<Attr> := [];
    var k := 0;
    while k < |n.attrs|
      invariant k <= |n.attrs|
      invariant attrs == n.attrs[..k]
    {
      attrs := attrs + [CloneAttr(n.attrs[k])];
      k := k + 1;
    }
    r := Slot(n.kind, n.tag, n.value, attrs, -1, []);
  }

  /** The predicate of `get_child` by tag, on pool indices. */
  function SlotTagIs(s: seq<Slot>, tag: string): nat -> bool {
    (id: nat) => id < |s| && s[id].tag == tag
  }

  /** The predicate of `get_child` by attribute, on pool indices. */
  function SlotHasAttr(s: seq<Slot>, ci: bool, a: Attr): nat -> bool {
    (id: nat) => id < |s| && FindFirst(s[id].attrs, AttrMatches(ci, a)).Some?
  }

  /** An `xml_document` together with its memory pool; slot 0 is the document node. */
  class Document {
    var slots: seq<Slot>

    ghost predicate Valid()
      reads this
    {
      WF(slots)
    }

    /** A fresh, empty document. */
    constructor ()
      ensures Valid() && slots == [Slot(DocumentNode, "", "", [], -1, [])]
      ensures Tree(slots, 0) == EmptyDocument()
    {
      slots := [Slot(DocumentNode, "", "", [], -1, [])];
    }

    /**
     * `append_node`: links the unlinked, childless node `n` as the last
     * child of slot `p`.
     */
    method AppendNode(p: nat, n: Slot)
      requires Valid() && p < |slots|
      requires n.parent == -1 && n.children == []
      modifies this
      ensures Valid() && AppendOnly(old(slots), slots)
      ensures slots == old(slots)[p := old(slots)[p].(children := old(slots)[p].children + [|old(slots)|])]
                       + [n.(parent := p)]
      ensures Tree(slots, |old(slots)|) == Node(n.kind, n.tag, n.value, n.attrs, [])
      ensures Tree(slots, p) == Tree(old(slots), p).(children := Tree(old(slots), p).children
                                  + [Node(n.kind, n.tag, n.value, n.attrs, [])])
    {
      ghost var s := slots;
      var last := |slots|;
      slots := slots[p := slots[p].(children := slots[p].children + [last])] + [n.(parent := p)];
      assert slots == Link(s, p, n);
      LinkWF(s, p, n);
      LinkTree(s, p, n);
    }

    /** `get_child(node, tag)` on the children of slot `o`. */
    method ChildByTag(o: nat, tag: string) returns (r: Option<nat>)
      requires Valid() && o < |slots|
      ensures r == GetChildByTag(Tree(slots, o).children, tag)
    {
      var s := slots;
      r := FindIf(s[o].children, SlotTagIs(s, tag));
      forall j | 0 <= j < |s[o].children|
        ensures SlotTagIs(s, tag)(s[o].children[j]) == TagIs(tag)(Tree(s, o).children[j])
      {
        assert Tree(s, o).children[j] == Tree(s, s[o].children[j]);
      }
      FindFirstAgree(s[o].children, SlotTagIs(s, tag), Tree(s, o).children, TagIs(tag));
    }

    /** `get_child(node, attr)` on the children of slot `o`. */
    method ChildByAttr(ci: bool, o: nat, a: Attr) returns (r: Option<nat>)
      requires Valid() && o < |slots|
      ensures r == GetChildByAttr(ci, Tree(slots, o).children, a)
    {
      var s := slots;
      r := FindIf(s[o].children, SlotHasAttr(s, ci, a));
      forall j | 0 <= j < |s[o].children|
        ensures SlotHasAttr(s, ci, a)(s[o].children[j]) == HasAttr(ci, a)(Tree(s, o).children[j])
      {
        assert Tree(s, o).children[j] == Tree(s, s[o].children[j]);
      }
      FindFirstAgree(s[o].children, SlotHasAttr(s, ci, a), Tree(s, o).children, HasAttr(ci, a));
    }

    /**
     * The lookup lambda of `recurse`: by the input child's `name`
     * attribute when it has one, else by its tag.
     */
    method MatchChild(ci: bool, c: Node, o: nat) returns (r: Option<nat>)
      requires Valid() && o < |slots|
      ensures r == MatchFor(ci, c, Tree(slots, o).children)
    {
      var na := FindAttr(ci, c.attrs, "name");
      if na.Some? {
        r := ChildByAttr(ci, o, c.attrs[na.value]);
      } else {
        r := ChildByTag(o, c.tag);
      }
    }

    /**
     * `recurse(inn, o)`: merges every child of `inn`, in order, under slot
     * `o`. Only slots in the subtree of `o` are touched, and only by
     * appending; `inn` is a value and so cannot change.
     */
    method Recurse(ci: bool, inn: Node, o: nat)
      requires Valid() && o < |slots|
      modifies this
      ensures Valid() && AppendOnly(old(slots), slots)
      ensures forall y :: 0 <= y < |old(slots)| && !Anc(old(slots), o, y) ==> slots[y] == old(slots)[y]
      ensures Tree(slots, o) == Merge(ci, inn, Tree(old(slots), o))
      decreases inn, 1
    {
      ghost var s0 := slots;
      ghost var t0 := Tree(s0, o);
      ghost var cur := t0;
      var k := 0;
      while k < |inn.children|
        invariant k <= |inn.children|
        invariant Valid() && AppendOnly(s0, slots)
        invariant forall y :: 0 <= y < |s0| && !Anc(s0, o, y) ==> slots[y] == s0[y]
        invariant Tree(slots, o) == cur
        invariant cur == MergeUpTo(ci, inn, k, t0)
      {
        ghost var s1 := slots;
        Step(ci, inn.children[k], o);
        ConfinedTrans(s0, s1, slots, o);
        cur := MergeChild(ci, inn.children[k], cur);
        k := k + 1;
      }
    }

    /**
     * The first half of one iteration of `recurse`: the first child of slot
     * `o` that `c` matches, or, when none does, a clone of `c` appended as
     * its last child. Either way `i` is the position of that child.
     */
    method FindOrAppend(ci: bool, c: Node, o: nat) returns (i: nat)
      requires Valid() && o < |slots|
      modifies this
      ensures Valid() && AppendOnly(old(slots), slots)
      ensures forall y :: 0 <= y < |old(slots)| && y != o ==> slots[y] == old(slots)[y]
      ensures i < |slots[o].children|
      ensures var before := Tree(old(slots), o);
        || (MatchFor(ci, c, before.children) == Some(i) && Tree(slots, o) == before)
        || (MatchFor(ci, c, before.children).None? && i == |before.children|
            && Tree(slots, o) == before.(children := before.children + [Clone(c)]))
    {
      var pos := MatchChild(ci, c, o);
      if pos.Some? {
        i := pos.value;
      } else {
        var cl := CloneNode(c);
        AppendNode(o, cl);
        i := |slots[o].children| - 1;
      }
    }

    /** One iteration of the `for_each` in `recurse`: find or append the sibling, then descend. */
    method Step(ci: bool, c: Node, o: nat)
      requires Valid() && o < |slots|
      modifies this
      ensures Valid() && AppendOnly(old(slots), slots)
      ensures forall y :: 0 <= y < |old(slots)| && !Anc(old(slots), o, y) ==> slots[y] == old(slots)[y]
      ensures Tree(slots, o) == MergeChild(ci, c, Tree(old(slots), o))
      decreases c, 2
    {
      ghost var s1 := slots;
      ghost var t1 := Tree(s1, o);
      var i := FindOrAppend(ci, c, o);
      ghost var s2 := slots;
      ghost var t2 := Tree(s2, o);
      var child := slots[o].children[i];
      assert t2.children[i] == Tree(s2, child);
      Recurse(ci, c, child);
      ghost var s3 := slots;
      TreeUpdateChild(s2, s3, o, i);
      DescendFrame(s1, s2, s3, o, child);
      MergeChildAt(ci, c, t1, t2, i);
    }

    /**
     * The input loop of `main`: each parsed document, in order, merged into
     * this document with `recurse(indoc, outdoc)`.
     */
    method MergeInputs(ci: bool, inputs: seq<Node>)
      requires Valid()
      modifies this
      ensures Valid() && AppendOnly(old(slots), slots)
      ensures Tree(slots, 0) == MergeDocs(ci, inputs, Tree(old(slots), 0))
    {
      ghost var s0 := slots;
      var k := 0;
      while k < |inputs|
        invariant k <= |inputs|
        invariant Valid() && AppendOnly(s0, slots)
        invariant Tree(slots, 0) == MergeDocs(ci, inputs[..k], Tree(s0, 0))
      {
        ghost var s1 := slots;
        Recurse(ci, inputs[k], 0);
        AppendOnlyTrans(s0, s1, slots);
        assert inputs[..k + 1][..k] == inputs[..k];
        k := k + 1;
      }
      assert inputs[..k] == inputs;
    }
  }
}
