/**
 * The declaration generator: walks a tree and writes C++ struct text to the
 * stream it was constructed with. `xs:attribute` nodes become field lines,
 * named `xs:element` nodes become `struct` blocks one tab deeper, unnamed
 * elements are skipped with their subtree, and every other node is
 * transparent.
 *
 * The field line carries the raw `type` attribute value: the type mapper
 * stands beside the generator and is not called by it.
 */
module CppGenerator {
  import opened Wrappers
  import opened StrEq
  import opened XmlTree

  // ---------------------------------------------------------------------
  // Type mapper
  // ---------------------------------------------------------------------

  const InvalidType: string := "(invalid type)"

  /**
   * The C++ spellings of the sixteen primitive datatypes of W3C XML Schema
   * Part 2 (section 3.2) that the mapper knows; hexBinary (3.2.15), QName
   * (3.2.18) and NOTATION (3.2.19) are not among them.
   */
  const CppSpelling: map<string, string> := map[
    "xs:string" := "std::string",
    "xs:boolean" := "bool",
    "xs:decimal" := "double",
    "xs:float" := "float",
    "xs:double" := "double",
    "xs:duration" := "std::chrono::milliseconds",
    "xs:dateTime" := "std::chrono::time_point<std::chrono::system_clock>",
    "xs:date" := "std::chrono::year_month_day",
    "xs:time" := "std::chrono::hh_mm_ss",
    "xs:gYearMonth" := "std::chrono::year_month",
    "xs:gYear" := "std::chrono::year",
    "xs:gMonthDay" := "std::chrono::month_day",
    "xs:gDay" := "std::chrono::day",
    "xs:gMonth" := "std::chrono::month",
    "xs:base64Binary" := "std::vector<unsigned char>",
    "xs:anyURI" := "std::string"
  ]

  /** `xstype_to_cpptype`: a chain of exact comparisons, falling through to the placeholder. */
  function XsTypeToCpp(xstype: string): (r: string)
    ensures xstype in CppSpelling ==> r == CppSpelling[xstype]
    ensures xstype !in CppSpelling ==> r == InvalidType
  {
    if xstype == "xs:string" then "std::string"
    else if xstype == "xs:boolean" then "bool"
    else if xstype == "xs:decimal" then "double"
    else if xstype == "xs:float" then "float"
    else if xstype == "xs:double" then "double"
    else if xstype == "xs:duration" then "std::chrono::milliseconds"
    else if xstype == "xs:dateTime" then "std::chrono::time_point<std::chrono::system_clock>"
    else if xstype == "xs:date" then "std::chrono::year_month_day"
    else if xstype == "xs:time" then "std::chrono::hh_mm_ss"
    else if xstype == "xs:gYearMonth" then "std::chrono::year_month"
    else if xstype == "xs:gYear" then "std::chrono::year"
    else if xstype == "xs:gMonthDay" then "std::chrono::month_day"
    else if xstype == "xs:gDay" then "std::chrono::day"
    else if xstype == "xs:gMonth" then "std::chrono::month"
    else if xstype == "xs:base64Binary" then "std::vector<unsigned char>"
    else if xstype == "xs:anyURI" then "std::string"
    else "(invalid type)"
  }

  /** The placeholder comes back exactly for the names outside the table. */
  lemma XsTypeToCppInvalidIff(xstype: string)
    ensures XsTypeToCpp(xstype) == InvalidType <==> xstype !in CppSpelling
  {
    assert forall t :: t in CppSpelling ==> CppSpelling[t] != InvalidType;
  }

  /** Names left out of the table, and other spellings of names in it, are not mapped. */
  lemma XsTypeToCppUnmapped()
    ensures XsTypeToCpp("xs:QName") == InvalidType
    ensures XsTypeToCpp("xs:NOTATION") == InvalidType
    ensures XsTypeToCpp("xs:hexBinary") == InvalidType
    ensures XsTypeToCpp("xs:String") == InvalidType
    ensures XsTypeToCpp("string") == InvalidType
  {
  }

  // ---------------------------------------------------------------------
  // What the generator writes
  // ---------------------------------------------------------------------

  /** The text of a sequence of writes, each ended by a newline. */
  function Text(lines: seq<string>): string
    decreases |lines|
  {
    if lines == [] then "" else Text(lines[..|lines| - 1]) + (lines[|lines| - 1] + "\n")
  }

  lemma {:induction false} TextAppend(a: seq<string>, b: seq<string>)
    ensures Text(a + b) == Text(a) + Text(b)
    decreases |b|
  {
    if b == [] {
      assert a + b == a;
    } else {
      var b' := b[..|b| - 1];
      assert (a + b)[..|a + b| - 1] == a + b';
      assert (a + b)[|a + b| - 1] == b[|b| - 1];
      TextAppend(a, b');
    }
  }

  lemma TextSingle(l: string)
    ensures Text([l]) == l + "\n"
  {
    assert [l][..0] == [];
  }

  /** The lines `do_node(n)` writes when the indent is `indent` (without their newlines). */
  function EmitNode(ci: bool, n: Node, indent: string): seq<string>
    decreases n, 1
  {
    if n.tag == "xs:attribute" then
      var nameattr, typeattr := GetAttr(ci, n.attrs, "name"), GetAttr(ci, n.attrs, "type");
      if nameattr.Some? && typeattr.Some? then
        [indent + n.attrs[typeattr.value].value + " " + n.attrs[nameattr.value].value + ";"]
      else []
    else if n.tag == "xs:element" then
      var nameattr := GetAttr(ci, n.attrs, "name");
      if nameattr.Some? then
        [indent + "struct " + n.attrs[nameattr.value].value + " {"]
        + EmitUpTo(ci, n, |n.children|, indent + "\t")
        + [indent + "};"]
      else []
    else EmitUpTo(ci, n, |n.children|, indent)
  }

  /** The lines written for the first `k` children of `n`, in order. */
  function EmitUpTo(ci: bool, n: Node, k: nat, indent: string): seq<string>
    requires k <= |n.children|
    decreases n, 0, k
  {
    if k == 0 then [] else EmitUpTo(ci, n, k - 1, indent) + EmitNode(ci, n.children[k - 1], indent)
  }

  /** The text `do_node` writes for an `xs:attribute`: its one line, or nothing. */
  lemma AttributeText(ci: bool, n: Node, indent: string, t0: string, t1: string)
    requires n.tag == "xs:attribute"
    requires var nameattr, typeattr := GetAttr(ci, n.attrs, "name"), GetAttr(ci, n.attrs, "type");
      if nameattr.Some? && typeattr.Some?
      then t1 == t0 + (indent + n.attrs[typeattr.value].value + " " + n.attrs[nameattr.value].value + ";" + "\n")
      else t1 == t0
    ensures t1 == t0 + Text(EmitNode(ci, n, indent))
  {
    var nameattr, typeattr := GetAttr(ci, n.attrs, "name"), GetAttr(ci, n.attrs, "type");
    if nameattr.Some? && typeattr.Some? {
      TextSingle(indent + n.attrs[typeattr.value].value + " " + n.attrs[nameattr.value].value + ";");
    } else {
      assert Text([]) == "";
    }
  }

  lemma ConcatAssoc(a: string, b: string, c: string, d: string)
    ensures a + (b + c + d) == a + b + c + d
  {
  }

  /** The text `do_node` writes for an `xs:element`: its block, or nothing when it has no name. */
  lemma ElementText(ci: bool, n: Node, indent: string, t0: string, t1: string)
    requires n.tag == "xs:element"
    requires var nameattr := GetAttr(ci, n.attrs, "name");
      if nameattr.Some?
      then t1 == t0 + (indent + "struct " + n.attrs[nameattr.value].value + " {" + "\n")
        + Text(EmitUpTo(ci, n, |n.children|, indent + "\t")) + (indent + "};" + "\n")
      else t1 == t0
    ensures t1 == t0 + Text(EmitNode(ci, n, indent))
  {
    var nameattr := GetAttr(ci, n.attrs, "name");
    if nameattr.Some? {
      var open := indent + "struct " + n.attrs[nameattr.value].value + " {";
      var close := indent + "};";
      var inner := EmitUpTo(ci, n, |n.children|, indent + "\t");
      assert EmitNode(ci, n, indent) == [open] + inner + [close];
      TextAppend([open], inner);
      TextAppend([open] + inner, [close]);
      TextSingle(open);
      TextSingle(close);
      ConcatAssoc(t0, open + "\n", Text(inner), close + "\n");
    } else {
      assert Text([]) == "";
    }
  }

  /**
   * Text written for the first `k` children followed by the text of child
   * `k` is the text written for the first `k + 1` children.
   */
  lemma EmitUpToNext(ci: bool, n: Node, k: nat, indent: string, t0: string, t1: string, t2: string)
    requires k < |n.children|
    requires t1 == t0 + Text(EmitUpTo(ci, n, k, indent))
    requires t2 == t1 + Text(EmitNode(ci, n.children[k], indent))
    ensures t2 == t0 + Text(EmitUpTo(ci, n, k + 1, indent))
  {
    TextAppend(EmitUpTo(ci, n, k, indent), EmitNode(ci, n.children[k], indent));
  }

  /** Every line written for a node starts with the indent in force when it is visited. */
  lemma {:induction false} EmitNodeIndented(ci: bool, n: Node, indent: string)
    ensures forall l :: l in EmitNode(ci, n, indent) ==> indent <= l
    decreases n, 1
  {
    if n.tag == "xs:attribute" {
    } else if n.tag == "xs:element" {
      if GetAttr(ci, n.attrs, "name").Some? {
        EmitUpToIndented(ci, n, |n.children|, indent + "\t");
      }
    } else {
      EmitUpToIndented(ci, n, |n.children|, indent);
    }
  }

  lemma {:induction false} EmitUpToIndented(ci: bool, n: Node, k: nat, indent: string)
    requires k <= |n.children|
    ensures forall l :: l in EmitUpTo(ci, n, k, indent) ==> indent <= l
    decreases n, 0, k
  {
    if k > 0 {
      EmitUpToIndented(ci, n, k - 1, indent);
      EmitNodeIndented(ci, n.children[k - 1], indent);
    }
  }

  /**
   * An `xs:attribute` with both `name` and `type` writes exactly one line:
   * indent, raw type, a space, the name and `;`; without either it writes
   * nothing. Its children never matter.
   */
  lemma AttributeLine(ci: bool, n: Node, indent: string)
    requires n.tag == "xs:attribute"
    ensures var nameattr, typeattr := GetAttr(ci, n.attrs, "name"), GetAttr(ci, n.attrs, "type");
      EmitNode(ci, n, indent) ==
        if nameattr.Some? && typeattr.Some?
        then [indent + n.attrs[typeattr.value].value + " " + n.attrs[nameattr.value].value + ";"]
        else []
    ensures EmitNode(ci, n, indent) == EmitNode(ci, n.(children := []), indent)
  {
  }

  /**
   * A named `xs:element` opens `struct N {` at the current indent, closes
   * with `};` at the same indent, and everything in between is its
   * children's text one tab deeper. An unnamed one writes nothing at all.
   */
  lemma ElementBlock(ci: bool, n: Node, indent: string)
    requires n.tag == "xs:element"
    ensures GetAttr(ci, n.attrs, "name").None? ==> EmitNode(ci, n, indent) == []
    ensures GetAttr(ci, n.attrs, "name").Some? ==>
      var lines := EmitNode(ci, n, indent);
      && |lines| >= 2
      && lines[0] == indent + "struct " + n.attrs[GetAttr(ci, n.attrs, "name").value].value + " {"
      && lines[|lines| - 1] == indent + "};"
      && forall j :: 0 < j < |lines| - 1 ==> indent + "\t" <= lines[j]
  {
    var na := GetAttr(ci, n.attrs, "name");
    if na.Some? {
      var inner := EmitUpTo(ci, n, |n.children|, indent + "\t");
      var lines := EmitNode(ci, n, indent);
      EmitUpToIndented(ci, n, |n.children|, indent + "\t");
      assert lines == [indent + "struct " + n.attrs[na.value].value + " {"] + inner + [indent + "};"];
      forall j | 0 < j < |lines| - 1 ensures indent + "\t" <= lines[j] {
        assert lines[j] == inner[j - 1] && inner[j - 1] in inner;
      }
    }
  }

  /** The lines written for a sequence of sibling nodes, in order, at one indent. */
  function EmitAll(ci: bool, xs: seq<Node>, indent: string): seq<string>
    decreases |xs|
  {
    if xs == [] then [] else EmitAll(ci, xs[..|xs| - 1], indent) + EmitNode(ci, xs[|xs| - 1], indent)
  }

  lemma {:induction false} EmitAllAppend(ci: bool, a: seq<Node>, b: seq<Node>, indent: string)
    ensures EmitAll(ci, a + b, indent) == EmitAll(ci, a, indent) + EmitAll(ci, b, indent)
    decreases |b|
  {
    if b == [] {
      assert a + b == a;
    } else {
      var b', x := b[..|b| - 1], b[|b| - 1];
      assert a + b == (a + b') + [x];
      assert b == b' + [x];
      EmitAllAppend(ci, a, b', indent);
      EmitAllSnoc(ci, a + b', x, indent);
      EmitAllSnoc(ci, b', x, indent);
      SeqAssoc(EmitAll(ci, a, indent), EmitAll(ci, b', indent), EmitNode(ci, x, indent));
    }
  }

  lemma SeqAssoc<T>(x: seq<T>, y: seq<T>, z: seq<T>)
    ensures x + (y + z) == (x + y) + z
  {
  }

  lemma EmitAllSnoc(ci: bool, xs: seq<Node>, x: Node, indent: string)
    ensures EmitAll(ci, xs + [x], indent) == EmitAll(ci, xs, indent) + EmitNode(ci, x, indent)
  {
    assert (xs + [x])[..|xs|] == xs;
  }

  /** The children loop writes exactly the lines of the children prefix it has visited. */
  lemma {:induction false} EmitUpToAll(ci: bool, n: Node, k: nat, indent: string)
    requires k <= |n.children|
    ensures EmitUpTo(ci, n, k, indent) == EmitAll(ci, n.children[..k], indent)
    decreases k
  {
    if k > 0 {
      EmitUpToAll(ci, n, k - 1, indent);
      assert n.children[..k][..k - 1] == n.children[..k - 1];
    }
  }

  /**
   * A wrapper (any other tag) writes nothing of its own: its children come
   * out at the same indent, so among any siblings the wrapper may be
   * replaced by its children without changing a line.
   */
  lemma WrapperTransparent(ci: bool, xs: seq<Node>, w: Node, ys: seq<Node>, indent: string)
    requires w.tag != "xs:attribute" && w.tag != "xs:element"
    ensures EmitNode(ci, w, indent) == EmitAll(ci, w.children, indent)
    ensures EmitAll(ci, xs + [w] + ys, indent) == EmitAll(ci, xs + w.children + ys, indent)
  {
    EmitUpToAll(ci, w, |w.children|, indent);
    assert w.children[..|w.children|] == w.children;
    assert EmitAll(ci, [w], indent) == EmitNode(ci, w, indent) by {
      assert [w][..0] == [];
    }
    EmitAllAppend(ci, xs, [w], indent);
    EmitAllAppend(ci, xs + [w], ys, indent);
    EmitAllAppend(ci, xs, w.children, indent);
    EmitAllAppend(ci, xs + w.children, ys, indent);
  }

  /** A field declared with `name` first and `type` second writes `type name;`. */
  lemma FieldLine(ci: bool, name: string, xstype: string, indent: string)
    ensures EmitNode(ci, Node(ElementNode, "xs:attribute", "", [Attr("name", name), Attr("type", xstype)], []), indent)
      == [indent + xstype + " " + name + ";"]
  {
    var n := Node(ElementNode, "xs:attribute", "", [Attr("name", name), Attr("type", xstype)], []);
    StrEqualsRefl(ci, "name");
    StrEqualsRefl(ci, "type");
    if ci {
      assert Lower("name"[0]) != Lower("type"[0]);
      assert !StrEquals(ci, "name", "type");
    } else {
      assert "name"[0] != "type"[0];
      assert !StrEquals(ci, "name", "type");
    }
    assert GetAttr(ci, n.attrs, "name") == Some(0);
    assert n.attrs[0].name == "name" && n.attrs[1].name == "type";
    var t := GetAttr(ci, n.attrs, "type");
    assert t.Some?;
    assert t.value == 1;
  }

  lemma TextFour(a: string, b: string, c: string, d: string)
    ensures Text([a, b, c, d]) == (a + "\n") + (b + "\n") + (c + "\n") + (d + "\n")
  {
    assert [a, b, c, d][..3] == [a, b, c];
    assert [a, b, c][..2] == [a, b];
    assert [a, b][..1] == [a];
    TextSingle(a);
    assert Text([a, b]) == (a + "\n") + (b + "\n");
    assert Text([a, b, c]) == (a + "\n") + (b + "\n") + (c + "\n");
  }

  /**
   * A named `xs:element` with two children, whatever its kind, value and
   * other attributes: the opening line, both children one tab deeper, the
   * closing line.
   */
  lemma StructOfTwo(ci: bool, k: Kind, v: string, attrs: seq<Attr>, x: Node, y: Node, indent: string)
    requires GetAttr(ci, attrs, "name").Some?
    ensures EmitNode(ci, Node(k, "xs:element", v, attrs, [x, y]), indent)
      == [indent + "struct " + attrs[GetAttr(ci, attrs, "name").value].value + " {"]
         + EmitNode(ci, x, indent + "\t") + EmitNode(ci, y, indent + "\t") + [indent + "};"]
  {
    var n := Node(k, "xs:element", v, attrs, [x, y]);
    assert EmitUpTo(ci, n, 1, indent + "\t") == EmitNode(ci, x, indent + "\t");
  }

  const PersonSchema: Node := Node(ElementNode, "xs:element", "", [Attr("name", "Person")], [
    Node(ElementNode, "xs:attribute", "", [Attr("name", "age"), Attr("type", "xs:decimal")], []),
    Node(ElementNode, "xs:attribute", "", [Attr("name", "tag"), Attr("type", "xs:string")], [])])

  /** The Person example line by line: one block with two fields, raw type names, one tab in. */
  lemma PersonLines(ci: bool)
    ensures EmitNode(ci, PersonSchema, "") == ["struct Person {", "\txs:decimal age;", "\txs:string tag;", "};"]
  {
    var age, tag := PersonSchema.children[0], PersonSchema.children[1];
    assert "" + "\t" == "\t";
    StrEqualsRefl(ci, "name");
    assert GetAttr(ci, PersonSchema.attrs, "name") == Some(0);
    StructOfTwo(ci, ElementNode, "", PersonSchema.attrs, age, tag, "");
    FieldLine(ci, "age", "xs:decimal", "\t");
    FieldLine(ci, "tag", "xs:string", "\t");
    PersonSpelling();
  }

  lemma PersonSpelling()
    ensures ["" + "struct " + "Person" + " {"] + ["\t" + "xs:decimal" + " " + "age" + ";"]
      + ["\t" + "xs:string" + " " + "tag" + ";"] + ["" + "};"]
      == ["struct Person {", "\txs:decimal age;", "\txs:string tag;", "};"]
  {
    assert "\t" + "xs:decimal" + " " + "age" + ";" == "\txs:decimal age;";
    assert "\t" + "xs:string" + " " + "tag" + ";" == "\txs:string tag;";
    assert "" + "struct " + "Person" + " {" == "struct Person {";
    assert "" + "};" == "};";
  }

  lemma PersonText()
    ensures Text(["struct Person {", "\txs:decimal age;", "\txs:string tag;", "};"])
      == "struct Person {\n" + "\txs:decimal age;\n" + "\txs:string tag;\n" + "};\n"
  {
    TextFour("struct Person {", "\txs:decimal age;", "\txs:string tag;", "};");
    assert "struct Person {" + "\n" == "struct Person {\n";
    assert "\txs:decimal age;" + "\n" == "\txs:decimal age;\n";
    assert "\txs:string tag;" + "\n" == "\txs:string tag;\n";
    assert "};" + "\n" == "};\n";
  }

  /** The Person example as the text written to the stream. */
  lemma PersonExample(ci: bool)
    ensures Text(EmitNode(ci, PersonSchema, ""))
      == "struct Person {\n" + "\txs:decimal age;\n" + "\txs:string tag;\n" + "};\n"
  {
    PersonLines(ci);
    PersonText();
    ghost var lines := EmitNode(ci, PersonSchema, "");
    assert lines == ["struct Person {", "\txs:decimal age;", "\txs:string tag;", "};"];
  }

  // ---------------------------------------------------------------------
  // The generator object
  // ---------------------------------------------------------------------

  /** An output stream: everything written to it so far. */
  class OStream {
    var text: string

    constructor ()
      ensures text == ""
    {
      text := "";
    }

    method Write(s: string)
      modifies this
      ensures text == old(text) + s
    {
      text := text + s;
    }
  }

  /** `Generate`: bound to one stream, with a type override table and the running indent. */
  class Generate {
    const os: OStream
    var typeOverrides: map<string, string>
    var indent: string

    /** Binds the stream; the indent and the override table start empty. */
    constructor (o: OStream)
      ensures os == o && typeOverrides == map[] && indent == ""
    {
      os := o;
      typeOverrides := map[];
      indent := "";
    }

    /** `setTypeOverrides`: replaces the whole table. */
    method SetTypeOverrides(overrides: map<string, string>)
      modifies this`typeOverrides
      ensures typeOverrides == overrides
    {
      typeOverrides := overrides;
    }

    /** `do_node`: writes the node's text and leaves the indent as it found it. */
    method DoNode(ci: bool, node: Node)
      modifies os, this`indent
      ensures indent == old(indent)
      ensures os.text == old(os.text) + Text(EmitNode(ci, node, old(indent)))
      decreases node, 1
    {
      ghost var t0, ind := os.text, indent;
      if node.tag == "xs:attribute" {
        var nameattr := FindAttr(ci, node.attrs, "name");
        var typeattr := FindAttr(ci, node.attrs, "type");
        if nameattr.Some? && typeattr.Some? {
          var line := indent + node.attrs[typeattr.value].value + " " + node.attrs[nameattr.value].value + ";";
          os.Write(line + "\n");
        }
        AttributeText(ci, node, ind, t0, os.text);
      } else if node.tag == "xs:element" {
        var nameattr := FindAttr(ci, node.attrs, "name");
        if nameattr.Some? {
          var open := indent + "struct " + node.attrs[nameattr.value].value + " {";
          os.Write(open + "\n");
          indent := indent + "\t";
          EachChild(ci, node);
          indent := indent[..|indent| - 1];
          assert indent == ind;
          var close := indent + "};";
          os.Write(close + "\n");
        }
        ElementText(ci, node, ind, t0, os.text);
      } else {
        assert EmitNode(ci, node, ind) == EmitUpTo(ci, node, |node.children|, ind);
        EachChild(ci, node);
      }
    }

    /** `for_each(node, do_node)`: every child, in stored order, at the current indent. */
    method EachChild(ci: bool, node: Node)
      modifies os, this`indent
      ensures indent == old(indent)
      ensures os.text == old(os.text) + Text(EmitUpTo(ci, node, |node.children|, old(indent)))
      decreases node, 0
    {
      ghost var t0, ind := os.text, indent;
      var k := 0;
      while k < |node.children|
        invariant k <= |node.children|
        invariant indent == ind
        invariant os.text == t0 + Text(EmitUpTo(ci, node, k, ind))
        decreases |node.children| - k
      {
        var child := node.children[k];
        ghost var t1 := os.text;
        DoNode(ci, child);
        EmitUpToNext(ci, node, k, ind, t0, t1, os.text);
        k := k + 1;
      }
    }

    /** `operator()(doc)`: the document's top-level children, in stored order. */
    method Run(ci: bool, doc: Node)
      modifies os, this`indent
      ensures indent == old(indent)
      ensures os.text == old(os.text) + Text(EmitUpTo(ci, doc, |doc.children|, old(indent)))
    {
      EachChild(ci, doc);
    }
  }
}
