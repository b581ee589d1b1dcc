/**
 * The merge engine on tree values: `recurse(in, out)` folds every child of
 * `in` into `out`, first-match lookup, append of a childless clone when
 * nothing matches, then recursion into the matched or new child.
 *
 * The lemmas state what the engine promises: the output only grows
 * (existing nodes keep their position, tag and attributes), no two
 * siblings of the result stand for the same entity, and merging the same
 * input again changes nothing.
 */
module Merging {
  import opened Wrappers
  import opened StrEq
  import opened XmlTree

  /** `recurse(inn, out)` as a value: the output tree after the merge. */
  function Merge(ci: bool, inn: Node, out: Node): Node
    decreases inn, 1
  {
    MergeUpTo(ci, inn, |inn.children|, out)
  }

  /** The output after the first `k` children of `inn` have been merged in, in order. */
  function MergeUpTo(ci: bool, inn: Node, k: nat, out: Node): Node
    requires k <= |inn.children|
    decreases inn, 0, k
  {
    if k == 0 then out
    else MergeChild(ci, inn.children[k - 1], MergeUpTo(ci, inn, k - 1, out))
  }

  /** One step of the `for_each` in `recurse`: merge input child `c` into `out`. */
  function MergeChild(ci: bool, c: Node, out: Node): Node
    decreases c, 2
  {
    match MatchFor(ci, c, out.children)
    case Some(i) => out.(children := out.children[i := Merge(ci, c, out.children[i])])
    case None => out.(children := out.children + [Merge(ci, c, Clone(c))])
  }

  /**
   * The merge step as `recurse` performs it: `grown` is `out` itself when a
   * sibling matched at `i`, or `out` with the clone appended at `i` when
   * none did; the step then merges `c` into the child at `i`.
   */
  lemma MergeChildAt(ci: bool, c: Node, out: Node, grown: Node, i: nat)
    requires || (MatchFor(ci, c, out.children) == Some(i) && grown == out)
             || (MatchFor(ci, c, out.children).None? && i == |out.children|
                 && grown == out.(children := out.children + [Clone(c)]))
    ensures MergeChild(ci, c, out) == grown.(children := grown.children[i := Merge(ci, c, grown.children[i])])
  {
  }

  /** The loop of `main`: every input document merged into the accumulator, in order. */
  function MergeDocs(ci: bool, docs: seq<Node>, out: Node): Node
    decreases |docs|
  {
    if docs == [] then out
    else Merge(ci, docs[|docs| - 1], MergeDocs(ci, docs[..|docs| - 1], out))
  }

  // ---------------------------------------------------------------------
  // Append-only growth
  // ---------------------------------------------------------------------

  /** Kind, tag, value and attributes, everything of a node but its children. */
  ghost predicate SameHead(a: Node, b: Node) {
    a.kind == b.kind && a.tag == b.tag && a.value == b.value && a.attrs == b.attrs
  }

  /**
   * `b` is `a` after growth: same head, and every child of `a` is, at the
   * same position, grown into the child of `b`; `b` may have more children
   * after those of `a`.
   */
  ghost predicate Extends(a: Node, b: Node)
    decreases a
  {
    && SameHead(a, b)
    && |a.children| <= |b.children|
    && forall i :: 0 <= i < |a.children| ==> Extends(a.children[i], b.children[i])
  }

  lemma {:induction false} ExtendsRefl(a: Node)
    ensures Extends(a, a)
    decreases a
  {
    forall i | 0 <= i < |a.children| ensures Extends(a.children[i], a.children[i]) {
      ExtendsRefl(a.children[i]);
    }
  }

  lemma {:induction false} ExtendsTrans(a: Node, b: Node, c: Node)
    requires Extends(a, b) && Extends(b, c)
    ensures Extends(a, c)
    decreases a
  {
    forall i | 0 <= i < |a.children| ensures Extends(a.children[i], c.children[i]) {
      ExtendsTrans(a.children[i], b.children[i], c.children[i]);
    }
  }

  /**
   * Merging is append-only: no output node is removed or moved, none
   * changes kind, tag, value or attributes, and every child list only grows.
   */
  lemma {:induction false} MergeExtends(ci: bool, inn: Node, out: Node)
    ensures Extends(out, Merge(ci, inn, out))
    decreases inn, 1
  {
    MergeUpToExtends(ci, inn, |inn.children|, out);
  }

  lemma {:induction false} MergeUpToExtends(ci: bool, inn: Node, k: nat, out: Node)
    requires k <= |inn.children|
    ensures Extends(out, MergeUpTo(ci, inn, k, out))
    decreases inn, 0, k
  {
    if k == 0 {
      ExtendsRefl(out);
    } else {
      var m := MergeUpTo(ci, inn, k - 1, out);
      MergeUpToExtends(ci, inn, k - 1, out);
      MergeChildExtends(ci, inn.children[k - 1], m);
      ExtendsTrans(out, m, MergeChild(ci, inn.children[k - 1], m));
    }
  }

  /**
   * One merge step either grows the matched child in place, or appends
   * exactly one node, last, whose head is the input child's, and only when
   * no sibling matched.
   */
  lemma {:induction false} MergeChildExtends(ci: bool, c: Node, out: Node)
    ensures Extends(out, MergeChild(ci, c, out))
    ensures var r := MergeChild(ci, c, out);
      || (MatchFor(ci, c, out.children).Some? && |r.children| == |out.children|)
      || (MatchFor(ci, c, out.children).None? && |r.children| == |out.children| + 1
          && SameHead(r.children[|out.children|], c))
    decreases c, 2
  {
    var r := MergeChild(ci, c, out);
    match MatchFor(ci, c, out.children)
    case Some(i) =>
      MergeExtends(ci, c, out.children[i]);
      forall j | 0 <= j < |out.children| ensures Extends(out.children[j], r.children[j]) {
        if j != i { ExtendsRefl(out.children[j]); }
      }
    case None =>
      MergeExtends(ci, c, Clone(c));
      forall j | 0 <= j < |out.children| ensures Extends(out.children[j], r.children[j]) {
        ExtendsRefl(out.children[j]);
      }
  }

  /** Successive documents only grow the accumulator. */
  lemma {:induction false} MergeDocsExtends(ci: bool, docs: seq<Node>, out: Node)
    ensures Extends(out, MergeDocs(ci, docs, out))
    decreases |docs|
  {
    if docs == [] {
      ExtendsRefl(out);
    } else {
      var m := MergeDocs(ci, docs[..|docs| - 1], out);
      MergeDocsExtends(ci, docs[..|docs| - 1], out);
      MergeExtends(ci, docs[|docs| - 1], m);
      ExtendsTrans(out, m, MergeDocs(ci, docs, out));
    }
  }

  /**
   * A sibling first added by one document keeps its position when a later
   * document is merged, and everything that later document adds next to it
   * comes after all siblings already present.
   */
  lemma OrderAcrossDocuments(ci: bool, d1: Node, d2: Node, out: Node, i: nat)
    requires i < |Merge(ci, d1, out).children|
    ensures var out1 := Merge(ci, d1, out);
      var out2 := Merge(ci, d2, out1);
      |out1.children| <= |out2.children| && SameHead(out1.children[i], out2.children[i])
  {
    MergeExtends(ci, d2, Merge(ci, d1, out));
  }

  // ---------------------------------------------------------------------
  // Sibling uniqueness
  // ---------------------------------------------------------------------

  /**
   * Two siblings stand for the same entity: both have a `name` attribute
   * and the values are equal under the policy, or neither has one and the
   * tags are exactly equal.
   */
  ghost predicate Conflict(ci: bool, a: Node, b: Node) {
    match (GetAttr(ci, a.attrs, "name"), GetAttr(ci, b.attrs, "name"))
    case (Some(i), Some(j)) => StrEquals(ci, a.attrs[i].value, b.attrs[j].value)
    case (None, None) => a.tag == b.tag
    case _ => false
  }

  /** No node of the tree has two children that stand for the same entity. */
  ghost predicate Unique(ci: bool, n: Node)
    decreases n
  {
    && (forall i, j :: 0 <= i < j < |n.children| ==> !Conflict(ci, n.children[i], n.children[j]))
    && forall i :: 0 <= i < |n.children| ==> Unique(ci, n.children[i])
  }

  /** A sibling that stands for the same entity as `c` is one that `c`'s lookup accepts. */
  lemma ConflictMatches(ci: bool, n: Node, c: Node)
    requires Conflict(ci, n, c)
    ensures Matches(ci, c, n)
  {
    match (GetAttr(ci, n.attrs, "name"), GetAttr(ci, c.attrs, "name"))
    case (Some(i), Some(j)) =>
      StrEqualsViaCommon(ci, c.attrs[j].name, n.attrs[i].name, "name");
      StrEqualsSym(ci, n.attrs[i].value, c.attrs[j].value);
      assert StrEquals(ci, c.attrs[j].name, n.attrs[i].name) && StrEquals(ci, c.attrs[j].value, n.attrs[i].value);
    case (None, None) =>
  }

  /** Merging keeps every sibling list free of two nodes for one entity. */
  lemma {:induction false} MergeUnique(ci: bool, inn: Node, out: Node)
    requires Unique(ci, out)
    ensures Unique(ci, Merge(ci, inn, out))
    decreases inn, 1
  {
    MergeUpToUnique(ci, inn, |inn.children|, out);
  }

  lemma {:induction false} MergeUpToUnique(ci: bool, inn: Node, k: nat, out: Node)
    requires k <= |inn.children|
    requires Unique(ci, out)
    ensures Unique(ci, MergeUpTo(ci, inn, k, out))
    decreases inn, 0, k
  {
    if k > 0 {
      MergeUpToUnique(ci, inn, k - 1, out);
      MergeChildUnique(ci, inn.children[k - 1], MergeUpTo(ci, inn, k - 1, out));
    }
  }

  lemma {:induction false} MergeChildUnique(ci: bool, c: Node, out: Node)
    requires Unique(ci, out)
    ensures Unique(ci, MergeChild(ci, c, out))
    decreases c, 3
  {
    match MatchFor(ci, c, out.children)
    case Some(i) => MergeIntoUnique(ci, c, out, i);
    case None => AppendCloneUnique(ci, c, out);
  }

  /** Merging into the matched sibling keeps the siblings unique: heads do not change. */
  lemma {:induction false} MergeIntoUnique(ci: bool, c: Node, out: Node, i: nat)
    requires Unique(ci, out) && i < |out.children|
    ensures Unique(ci, out.(children := out.children[i := Merge(ci, c, out.children[i])]))
    decreases c, 2
  {
    var r := out.(children := out.children[i := Merge(ci, c, out.children[i])]);
    MergeUnique(ci, c, out.children[i]);
    MergeExtends(ci, c, out.children[i]);
    forall j | 0 <= j < |r.children| ensures SameHead(out.children[j], r.children[j]) {
    }
    forall a, b | 0 <= a < b < |r.children| ensures !Conflict(ci, r.children[a], r.children[b]) {
      ConflictHead(ci, out.children[a], r.children[a], out.children[b], r.children[b]);
    }
  }

  /** Appending a fresh node that no sibling conflicts with keeps the siblings unique. */
  lemma {:induction false} AppendCloneUnique(ci: bool, c: Node, out: Node)
    requires Unique(ci, out) && MatchFor(ci, c, out.children).None?
    ensures Unique(ci, out.(children := out.children + [Merge(ci, c, Clone(c))]))
    decreases c, 2
  {
    var m := Merge(ci, c, Clone(c));
    var r := out.(children := out.children + [m]);
    MergeUnique(ci, c, Clone(c));
    MergeExtends(ci, c, Clone(c));
    forall a | 0 <= a < |out.children| ensures !Conflict(ci, out.children[a], m) {
      ConflictHead(ci, out.children[a], out.children[a], c, m);
      if Conflict(ci, out.children[a], c) {
        ConflictMatches(ci, out.children[a], c);
        assert false;
      }
    }
    forall a, b | 0 <= a < b < |r.children| ensures !Conflict(ci, r.children[a], r.children[b]) {
      if b == |out.children| {
        assert r.children[b] == m;
      } else {
        assert r.children[a] == out.children[a] && r.children[b] == out.children[b];
      }
    }
    forall j | 0 <= j < |r.children| ensures Unique(ci, r.children[j]) {
      if j < |out.children| { assert r.children[j] == out.children[j]; }
    }
  }

  /** Whether two nodes stand for the same entity depends on their heads only. */
  lemma ConflictHead(ci: bool, a: Node, a': Node, b: Node, b': Node)
    requires SameHead(a, a') && SameHead(b, b')
    ensures Conflict(ci, a', b') == Conflict(ci, a, b)
  {
  }

  /** The accumulator starts as an empty document. */
  function EmptyDocument(): Node {
    Node(DocumentNode, "", "", [], [])
  }

  /**
   * Starting from an empty output, the accumulator never holds two siblings
   * with equal `name` values, nor two unnamed siblings with the same tag.
   */
  lemma {:induction false} MergeDocsUnique(ci: bool, docs: seq<Node>)
    ensures Unique(ci, MergeDocs(ci, docs, EmptyDocument()))
    decreases |docs|
  {
    if docs != [] {
      MergeDocsUnique(ci, docs[..|docs| - 1]);
      MergeUnique(ci, docs[|docs| - 1], MergeDocs(ci, docs[..|docs| - 1], EmptyDocument()));
    }
  }

  // ---------------------------------------------------------------------
  // Idempotence
  // ---------------------------------------------------------------------

  /** Every child of `inn`, at every depth, already has its first match in `out`. */
  ghost predicate Covers(ci: bool, inn: Node, out: Node)
    decreases inn, 1
  {
    forall k :: 0 <= k < |inn.children| ==> CoversChild(ci, inn.children[k], out)
  }

  ghost predicate CoversChild(ci: bool, c: Node, out: Node)
    decreases c, 2
  {
    match MatchFor(ci, c, out.children)
    case None => false
    case Some(i) => Covers(ci, c, out.children[i])
  }

  /** Growth keeps the first match of every lookup where it was. */
  lemma MatchForStable(ci: bool, c: Node, kids: seq<Node>, kids': seq<Node>)
    requires MatchFor(ci, c, kids).Some?
    requires |kids| <= |kids'|
    requires forall j :: 0 <= j < |kids| ==> SameHead(kids[j], kids'[j])
    ensures MatchFor(ci, c, kids') == MatchFor(ci, c, kids)
  {
    var i := MatchFor(ci, c, kids).value;
    var r := MatchFor(ci, c, kids');
    assert Matches(ci, c, kids'[i]) == Matches(ci, c, kids[i]);
  }

  lemma {:induction false} CoversMono(ci: bool, inn: Node, out: Node, out': Node)
    requires Covers(ci, inn, out) && Extends(out, out')
    ensures Covers(ci, inn, out')
    decreases inn, 0
  {
    forall k | 0 <= k < |inn.children| ensures CoversChild(ci, inn.children[k], out') {
      CoversChildMono(ci, inn.children[k], out, out');
    }
  }

  lemma {:induction false} CoversChildMono(ci: bool, c: Node, out: Node, out': Node)
    requires CoversChild(ci, c, out) && Extends(out, out')
    ensures CoversChild(ci, c, out')
    decreases c, 1
  {
    var i := MatchFor(ci, c, out.children).value;
    MatchForStable(ci, c, out.children, out'.children);
    CoversMono(ci, c, out.children[i], out'.children[i]);
  }

  /** After a merge, the output covers the input. */
  lemma {:induction false} MergeCovers(ci: bool, inn: Node, out: Node)
    ensures Covers(ci, inn, Merge(ci, inn, out))
    decreases inn, 1
  {
    forall j | 0 <= j < |inn.children|
      ensures CoversChild(ci, inn.children[j], Merge(ci, inn, out))
    {
      MergeUpToCovers(ci, inn, j, |inn.children|, out);
    }
  }

  lemma {:induction false} MergeUpToCovers(ci: bool, inn: Node, j: nat, k: nat, out: Node)
    requires j < k <= |inn.children|
    ensures CoversChild(ci, inn.children[j], MergeUpTo(ci, inn, k, out))
    decreases inn, 0, k
  {
    var m := MergeUpTo(ci, inn, k - 1, out);
    if j == k - 1 {
      MergeChildCovers(ci, inn.children[j], m);
    } else {
      MergeUpToCovers(ci, inn, j, k - 1, out);
      MergeChildExtends(ci, inn.children[k - 1], m);
      CoversChildMono(ci, inn.children[j], m, MergeChild(ci, inn.children[k - 1], m));
    }
  }

  lemma {:induction false} MergeChildCovers(ci: bool, c: Node, out: Node)
    ensures CoversChild(ci, c, MergeChild(ci, c, out))
    decreases c, 3
  {
    match MatchFor(ci, c, out.children)
    case Some(i) => MergeIntoCovers(ci, c, out, i);
    case None => AppendCloneCovers(ci, c, out);
  }

  /** After merging into the matched sibling, the lookup still finds it, and it covers `c`. */
  lemma {:induction false} MergeIntoCovers(ci: bool, c: Node, out: Node, i: nat)
    requires MatchFor(ci, c, out.children) == Some(i)
    ensures CoversChild(ci, c, out.(children := out.children[i := Merge(ci, c, out.children[i])]))
    decreases c, 2
  {
    var r := out.(children := out.children[i := Merge(ci, c, out.children[i])]);
    MergeCovers(ci, c, out.children[i]);
    MergeExtends(ci, c, out.children[i]);
    forall j | 0 <= j < |out.children| ensures SameHead(out.children[j], r.children[j]) {
    }
    MatchForStable(ci, c, out.children, r.children);
  }

  /** When nothing matched, the lookup finds the appended node, and it covers `c`. */
  lemma {:induction false} AppendCloneCovers(ci: bool, c: Node, out: Node)
    requires MatchFor(ci, c, out.children).None?
    ensures CoversChild(ci, c, out.(children := out.children + [Merge(ci, c, Clone(c))]))
    decreases c, 2
  {
    var m := Merge(ci, c, Clone(c));
    var r := out.(children := out.children + [m]);
    MergeCovers(ci, c, Clone(c));
    MergeExtends(ci, c, Clone(c));
    CloneMatches(ci, c);
    assert Matches(ci, c, m) == Matches(ci, c, Clone(c));
    MatchForAppended(ci, c, out.children, m);
  }

  /** When no sibling matches, the lookup finds a matching node appended last. */
  lemma MatchForAppended(ci: bool, c: Node, kids: seq<Node>, m: Node)
    requires MatchFor(ci, c, kids).None? && Matches(ci, c, m)
    ensures MatchFor(ci, c, kids + [m]) == Some(|kids|)
  {
    assert (kids + [m])[|kids|] == m;
  }

  /** Merging an input that the output already covers changes nothing. */
  lemma {:induction false} MergeCovered(ci: bool, inn: Node, out: Node)
    requires Covers(ci, inn, out)
    ensures Merge(ci, inn, out) == out
    decreases inn, 1
  {
    MergeUpToCovered(ci, inn, |inn.children|, out);
  }

  lemma {:induction false} MergeUpToCovered(ci: bool, inn: Node, k: nat, out: Node)
    requires k <= |inn.children|
    requires Covers(ci, inn, out)
    ensures MergeUpTo(ci, inn, k, out) == out
    decreases inn, 0, k
  {
    if k > 0 {
      MergeUpToCovered(ci, inn, k - 1, out);
      var c := inn.children[k - 1];
      assert CoversChild(ci, c, out);
      var i := MatchFor(ci, c, out.children).value;
      MergeCovered(ci, c, out.children[i]);
      assert out.children[i := out.children[i]] == out.children;
    }
  }

  /** Merging the same input a second time adds no node. */
  lemma MergeIdempotent(ci: bool, inn: Node, out: Node)
    ensures Merge(ci, inn, Merge(ci, inn, out)) == Merge(ci, inn, out)
  {
    MergeCovers(ci, inn, out);
    MergeCovered(ci, inn, Merge(ci, inn, out));
  }

  /** After all documents are merged, the accumulator covers each of them. */
  lemma {:induction false} MergeDocsCovers(ci: bool, docs: seq<Node>, out: Node)
    ensures forall k :: 0 <= k < |docs| ==> Covers(ci, docs[k], MergeDocs(ci, docs, out))
    decreases |docs|
  {
    if docs != [] {
      var front := docs[..|docs| - 1];
      var m := MergeDocs(ci, front, out);
      var r := MergeDocs(ci, docs, out);
      MergeDocsCovers(ci, front, out);
      MergeCovers(ci, docs[|docs| - 1], m);
      MergeExtends(ci, docs[|docs| - 1], m);
      forall k | 0 <= k < |docs| - 1 ensures Covers(ci, docs[k], r) {
        assert front[k] == docs[k];
        CoversMono(ci, docs[k], m, r);
      }
    }
  }

  lemma {:induction false} MergeDocsCovered(ci: bool, docs: seq<Node>, out: Node)
    requires forall k :: 0 <= k < |docs| ==> Covers(ci, docs[k], out)
    ensures MergeDocs(ci, docs, out) == out
    decreases |docs|
  {
    if docs != [] {
      var front := docs[..|docs| - 1];
      assert forall k :: 0 <= k < |front| ==> front[k] == docs[k];
      MergeDocsCovered(ci, front, out);
      MergeCovered(ci, docs[|docs| - 1], out);
    }
  }

  /** Running the whole set of inputs again over the result adds no node. */
  lemma MergeDocsIdempotent(ci: bool, docs: seq<Node>, out: Node)
    ensures MergeDocs(ci, docs, MergeDocs(ci, docs, out)) == MergeDocs(ci, docs, out)
  {
    MergeDocsCovers(ci, docs, out);
    MergeDocsCovered(ci, docs, MergeDocs(ci, docs, out));
  }

  // ---------------------------------------------------------------------
  // The case flag, on two siblings
  // ---------------------------------------------------------------------

  /** A document whose top level is the two given nodes. */
  function TwoChildDoc(a: Node, b: Node): Node {
    Node(DocumentNode, "", "", [], [a, b])
  }

  /** An `xs:element` whose only attribute is `name`. */
  function NamedElement(v: string): Node {
    Node(ElementNode, "xs:element", "", [Attr("name", v)], [])
  }

  /** An unnamed node. */
  function Bare(tag: string): Node {
    Node(ElementNode, tag, "", [], [])
  }

  /**
   * Merging two top-level siblings into the empty document: the second
   * joins the first exactly when its lookup accepts the clone of the first.
   */
  lemma TwoSiblings(ci: bool, a: Node, b: Node)
    ensures |Merge(ci, TwoChildDoc(a, b), EmptyDocument()).children| == if Matches(ci, b, Clone(a)) then 1 else 2
  {
    var d := TwoChildDoc(a, b);
    var m1 := MergeUpTo(ci, d, 1, EmptyDocument());
    var a' := Merge(ci, a, Clone(a));
    assert MergeUpTo(ci, d, 0, EmptyDocument()) == EmptyDocument() && d.children[0] == a;
    assert m1 == MergeChild(ci, a, EmptyDocument());
    assert MatchFor(ci, a, []) == None;
    assert m1.children == [a'];
    MergeExtends(ci, a, Clone(a));
    assert Matches(ci, b, a') == Matches(ci, b, Clone(a));
    MergeChildExtends(ci, b, m1);
  }

  /**
   * Two siblings whose `name` values differ only in case: two output
   * children with the flag off, one with it on.
   */
  lemma CaseToggle(ci: bool)
    ensures |Merge(ci, TwoChildDoc(NamedElement("Foo"), NamedElement("foo")), EmptyDocument()).children|
      == if ci then 1 else 2
  {
    var a, b := NamedElement("Foo"), NamedElement("foo");
    TwoSiblings(ci, a, b);
    StrEqualsRefl(ci, "name");
    assert GetAttr(ci, b.attrs, "name") == Some(0);
    if ci {
      CaseCmpZero("foo", "Foo", 0, 3);
      assert Lower('F') == 'f';
      assert StrEquals(ci, "foo", "Foo");
      assert Carries(ci, Clone(a), b.attrs[0]);
    } else {
      assert "foo"[0] != "Foo"[0];
      assert !Carries(ci, Clone(a), b.attrs[0]);
    }
  }

  /**
   * Two unnamed siblings whose tags differ only in case stay apart whatever
   * the flag: tags are compared exactly.
   */
  lemma TagsExact(ci: bool)
    ensures |Merge(ci, TwoChildDoc(Bare("A"), Bare("a")), EmptyDocument()).children| == 2
  {
    var a, b := Bare("A"), Bare("a");
    TwoSiblings(ci, a, b);
    assert GetAttr(ci, b.attrs, "name") == None;
    assert "A"[0] != "a"[0];
  }
}
