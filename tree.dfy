/**
 * The labelled tree both algorithms work on, and the read-only helpers of
 * the tool: first-match search over children and attributes, attribute
 * lookup by name, child lookup by tag or by attribute, and the
 * non-recursive clone.
 *
 * A node or attribute returned by a lookup is modelled as the position of the found
 * element in its sibling or attribute list (`None` for a null result).
 */
module XmlTree {
  import opened Wrappers
  import opened StrEq

  /** rapidxml's node types. */
  datatype Kind =
    | DocumentNode | ElementNode | DataNode | CDataNode
    | CommentNode | DeclarationNode | DoctypeNode | PiNode

  /** An attribute: its name and its value (`attr_kv`). */
  datatype Attr = Attr(name: string, value: string)

  /** A node: kind, tag (`node_name`), value, attributes and children, both in document order. */
  datatype Node = Node(kind: Kind, tag: string, value: string, attrs: seq<Attr>, children: seq<Node>)

  /** The position of the first element of `xs` satisfying `p`, if any. */
  function FindFirst<T>(xs: seq<T>, p: T -> bool): (r: Option<nat>)
    ensures r.Some? ==> r.value < |xs| && p(xs[r.value]) && forall i :: 0 <= i < r.value ==> !p(xs[i])
    ensures r.None? ==> forall i :: 0 <= i < |xs| ==> !p(xs[i])
  {
    if xs == [] then None
    else if p(xs[0]) then Some(0)
    else match FindFirst(xs[1..], p)
      case None => None
      case Some(k) => Some(k + 1)
  }

  /** Two searches whose predicates agree position by position find the same position. */
  lemma FindFirstAgree<A, B>(xs: seq<A>, p: A -> bool, ys: seq<B>, q: B -> bool)
    requires |xs| == |ys|
    requires forall i :: 0 <= i < |xs| ==> p(xs[i]) == q(ys[i])
    ensures FindFirst(xs, p) == FindFirst(ys, q)
  {
    var r, s := FindFirst(xs, p), FindFirst(ys, q);
    if r.Some? && s.Some? {
      assert !(r.value < s.value) && !(s.value < r.value);
    }
  }

  /**
   * `find_if` over children or over attributes: walks the list in order and
   * stops at the first element the predicate accepts.
   */
  method FindIf<T>(xs: seq<T>, p: T -> bool) returns (r: Option<nat>)
    ensures r == FindFirst(xs, p)
  {
    var k := 0;
    while k < |xs|
      invariant k <= |xs|
      invariant forall i :: 0 <= i < k ==> !p(xs[i])
    {
      if p(xs[k]) {
        r := Some(k);
        ghost var f := FindFirst(xs, p);
        assert f.Some? && !(f.value < k) && !(k < f.value);
        return;
      }
      k := k + 1;
    }
    r := None;
  }

  /** The predicate of `get_attr`: the attribute's name equals `n` under the policy. */
  function NameIs(ci: bool, n: string): Attr -> bool {
    (a: Attr) => StrEquals(ci, a.name, n)
  }

  /** The inner predicate of `get_child` by attribute: key and value both match `a`. */
  function AttrMatches(ci: bool, a: Attr): Attr -> bool {
    (b: Attr) => StrEquals(ci, a.name, b.name) && StrEquals(ci, a.value, b.value)
  }

  /** The predicate of `get_child` by tag: exact comparison, whatever the case flag. */
  function TagIs(tag: string): Node -> bool {
    (n: Node) => n.tag == tag
  }

  /** The outer predicate of `get_child` by attribute: the inner search succeeds. */
  function HasAttr(ci: bool, a: Attr): Node -> bool {
    (n: Node) => FindFirst(n.attrs, AttrMatches(ci, a)).Some?
  }

  /** `n` carries some attribute whose name and value both equal those of `a`. */
  ghost predicate Carries(ci: bool, n: Node, a: Attr) {
    exists j :: 0 <= j < |n.attrs| && StrEquals(ci, a.name, n.attrs[j].name) && StrEquals(ci, a.value, n.attrs[j].value)
  }

  lemma HasAttrIff(ci: bool, a: Attr, n: Node)
    ensures HasAttr(ci, a)(n) <==> Carries(ci, n, a)
  {
    var f := FindFirst(n.attrs, AttrMatches(ci, a));
    if f.Some? {
      assert AttrMatches(ci, a)(n.attrs[f.value]);
    }
  }

  /** `get_attr(node, n)`: the first attribute whose name equals `n` under the policy. */
  function GetAttr(ci: bool, attrs: seq<Attr>, n: string): (r: Option<nat>)
    ensures r.Some? ==> r.value < |attrs| && StrEquals(ci, attrs[r.value].name, n)
    ensures r.Some? ==> forall i :: 0 <= i < r.value ==> !StrEquals(ci, attrs[i].name, n)
    ensures r.None? ==> forall i :: 0 <= i < |attrs| ==> !StrEquals(ci, attrs[i].name, n)
  {
    var r := FindFirst(attrs, NameIs(ci, n));
    assert r.Some? ==> NameIs(ci, n)(attrs[r.value]);
    r
  }

  /** `get_attr` as the tool runs it: a `find_if` walk over the attributes. */
  method FindAttr(ci: bool, attrs: seq<Attr>, n: string) returns (r: Option<nat>)
    ensures r == GetAttr(ci, attrs, n)
  {
    r := FindIf(attrs, NameIs(ci, n));
  }

  /** `get_child(node, tag)`: the first child whose tag is exactly `tag`. */
  function GetChildByTag(kids: seq<Node>, tag: string): (r: Option<nat>)
    ensures r.Some? ==> r.value < |kids| && kids[r.value].tag == tag
    ensures r.Some? ==> forall i :: 0 <= i < r.value ==> kids[i].tag != tag
    ensures r.None? ==> forall i :: 0 <= i < |kids| ==> kids[i].tag != tag
  {
    var r := FindFirst(kids, TagIs(tag));
    assert r.Some? ==> TagIs(tag)(kids[r.value]);
    r
  }

  /** `get_child(node, attr)`: the first child carrying an attribute equal to `a` in both key and value. */
  function GetChildByAttr(ci: bool, kids: seq<Node>, a: Attr): (r: Option<nat>)
    ensures r.Some? ==> r.value < |kids| && Carries(ci, kids[r.value], a)
    ensures r.Some? ==> forall i :: 0 <= i < r.value ==> !Carries(ci, kids[i], a)
    ensures r.None? ==> forall i :: 0 <= i < |kids| ==> !Carries(ci, kids[i], a)
  {
    var r := FindFirst(kids, HasAttr(ci, a));
    forall i | 0 <= i < |kids| ensures HasAttr(ci, a)(kids[i]) <==> Carries(ci, kids[i], a) {
      HasAttrIff(ci, a, kids[i]);
    }
    r
  }

  /**
   * When a child `c` of the input is to be merged into an output sibling
   * `n`: if `c` has a `name` attribute, `n` must carry an attribute equal to
   * it in key and value, whatever `n`'s tag; otherwise `n`'s tag must be
   * exactly `c`'s.
   */
  ghost predicate Matches(ci: bool, c: Node, n: Node) {
    match GetAttr(ci, c.attrs, "name")
    case Some(i) => Carries(ci, n, c.attrs[i])
    case None => n.tag == c.tag
  }

  /** The sibling lookup of `recurse`: the first output child that `c` matches. */
  function MatchFor(ci: bool, c: Node, kids: seq<Node>): (r: Option<nat>)
    ensures r.Some? ==> r.value < |kids| && Matches(ci, c, kids[r.value])
    ensures r.Some? ==> forall i :: 0 <= i < r.value ==> !Matches(ci, c, kids[i])
    ensures r.None? ==> forall i :: 0 <= i < |kids| ==> !Matches(ci, c, kids[i])
  {
    match GetAttr(ci, c.attrs, "name")
    case Some(i) => GetChildByAttr(ci, kids, c.attrs[i])
    case None => GetChildByTag(kids, c.tag)
  }

  /** `deep_clone(attr)`: a fresh attribute with the same name and value. */
  function CloneAttr(a: Attr): Attr {
    Attr(a.name, a.value)
  }

  /** `deep_clone(node)`: kind, tag, value and every attribute in order, but no children. */
  function Clone(n: Node): Node {
    Node(n.kind, n.tag, n.value, n.attrs, [])
  }

  /** A clone is matched by the node it was cloned from. */
  lemma CloneMatches(ci: bool, c: Node)
    ensures Matches(ci, c, Clone(c))
  {
    match GetAttr(ci, c.attrs, "name")
    case Some(i) =>
      StrEqualsRefl(ci, c.attrs[i].name);
      StrEqualsRefl(ci, c.attrs[i].value);
    case None =>
  }
}
