# xsdmerge, modelled in Dafny

xsdmerge folds many XML Schema documents into one XML tree. It walks each
parsed input and merges every child into the accumulating output. A child
is merged into the first output sibling that stands for the same entity: by
its `name` attribute when it has one, otherwise by its tag. When there is
no such sibling, a childless clone is appended and the merge descends into
it. Beside the merge sits a small generator that writes C++ struct text for
a tree.

The model has five modules:

- `StrEq` (strings.dfy) is the string equality policy of the tool. The
  global case flag becomes a `ci: bool` parameter, and `strncasecmp` is
  ASCII lower-casing compared character by character.
- `XmlTree` (tree.dfy) holds the tree value and the read-only helpers:
  first-match search (`find_if`), attribute lookup, child lookup by tag and
  by attribute, and the non-recursive clone.
- `Merging` (merge.dfy) is `recurse` as a function on tree values, with
  the lemmas about it:
  - the output only grows;
  - siblings stay unique when the merge starts from an empty document;
  - merging again changes nothing;
  - order is kept across documents;
  - the case flag's effect, on two siblings.
- `Arena` (arena.dfy) is the output document as the tool mutates it. It
  is a class over a pool of slots linked by parent and child indices. The
  imperative `Recurse`, which finds or appends and then descends in a
  loop, is proved to compute exactly `Merging.Merge` on the tree the pool
  holds. It is also proved to do so only by appending slots and child
  links.
- `CppGenerator` (generator.dfy) holds the type mapper and the lines each
  node produces. It also holds the `Generate` class, whose `DoNode` and
  `EachChild` write to a stream object and push and pop the indent. They
  are proved to write exactly those lines and to leave the indent as they
  found it.

Two behaviours of the code are easy to miss, and the model keeps them:

- The generator writes the raw `type` attribute value. `xstype_to_cpptype`
  and the override table are never consulted (src/cpp_generator.cpp:45).
- Tags are compared with exact `==` whatever the case flag
  (src/utils.cpp:83-85, src/main.cpp:101-103). Only attribute names and
  values follow the flag. `Merging.TagsExact` shows the consequence: two
  unnamed siblings `A` and `a` stay apart even with the flag on.

## Model

| member | source | states |
|---|---|---|
| StrEq.StrEqualsIff | src/main.cpp:16-28 | With the flag off the policy is exact equality. With it on, strings of different lengths are unequal, and strings of equal length are equal exactly when they agree after ASCII case folding. |
| StrEq.CaseCmpZero | src/main.cpp:26 | The case-insensitive comparison of the first n characters is 0 exactly when every position below n agrees after lower-casing. |
| StrEq.StrEqualsRefl | src/utils.cpp:7-19 | Under either setting of the flag, every string equals itself. |
| StrEq.StrEqualsSym | src/utils.cpp:7-19 | The policy is symmetric in its two arguments. |
| StrEq.StrEqualsTrans | src/utils.cpp:7-19 | The policy is transitive. |
| XmlTree.FindFirst | src/utils.cpp:27-34 | The position found satisfies the predicate and no earlier element does. None when no element satisfies it. |
| XmlTree.FindIf | src/utils.cpp:42-49 | The sibling or attribute walk stops at exactly the first element the predicate accepts, and returns none when there is none. |
| XmlTree.HasAttrIff | src/utils.cpp:87-95 | The inner search of the by-attribute lookup succeeds exactly when the node carries an attribute whose name and value both equal those of the key. |
| XmlTree.GetAttr | src/utils.cpp:79-81 | The result is the first attribute whose name equals the given one under the policy. None when no attribute's name does. |
| XmlTree.FindAttr | src/main.cpp:96-98 | The loop over attributes returns exactly the first attribute whose name matches. |
| XmlTree.GetChildByTag | src/utils.cpp:83-85 | The result is the first child whose tag is exactly the given tag. None when there is none. |
| XmlTree.GetChildByAttr | src/utils.cpp:87-95 | The result is the first child carrying an attribute equal to the key in both name and value. None when no child carries one. |
| XmlTree.MatchFor | src/main.cpp:118-123 | A child with a `name` attribute is matched to the first sibling carrying that attribute, whatever its tag. A child without one is matched to the first sibling with exactly its tag. |
| XmlTree.CloneMatches | src/utils.cpp:65-77 | A clone (same kind, tag, value and attributes) is accepted by the lookup of the node it was cloned from. |
| Merging.MergeChildExtends | src/main.cpp:117-129 | Merging one child only grows the output. When a sibling matched, the child count is unchanged. When none matched, exactly one node was appended, last, with the input child's kind, tag, value and attributes. |
| Merging.MergeExtends | src/main.cpp:116-130 | After `recurse` no existing node is removed, reordered or changed in kind, tag, value or attributes, and every child list only grows. |
| Merging.MergeDocsExtends | src/main.cpp:172-186 | Merging successive documents only grows the accumulator. |
| Merging.OrderAcrossDocuments | src/main.cpp:172-186 | A sibling present after one document keeps its position and head when a later document is merged. Anything the later document adds comes after it. |
| Merging.ConflictMatches | src/main.cpp:118-123 | A sibling that stands for the same entity as the input child is accepted by that child's lookup. |
| Merging.MergeUnique | src/main.cpp:116-130 | If no node of the output has two children standing for the same entity, that still holds after `recurse`. |
| Merging.MergeChildUnique | src/main.cpp:118-127 | One find-or-append step keeps the siblings unique, because a node is appended only when no sibling matches. |
| Merging.MergeDocsUnique | src/main.cpp:172-186 | Starting from an empty document, the accumulator never holds two siblings with equal `name` values, nor two unnamed siblings with the same tag. |
| Merging.MergeCovers | src/main.cpp:116-130 | After `recurse`, every input child at every depth has its first match in the output. |
| Merging.MergeCovered | src/main.cpp:116-130 | Merging an input whose every child already has its match changes nothing. |
| Merging.MergeIdempotent | src/main.cpp:116-130 | Merging the same input a second time adds no nodes: the result is unchanged. |
| Merging.MergeDocsIdempotent | src/main.cpp:172-186 | Running the whole input loop a second time over its own result changes nothing. |
| Merging.TwoSiblings | src/main.cpp:117-127 | Two top-level siblings merged into an empty document give one output child when the second child's lookup accepts the first one's clone, and two otherwise. |
| Merging.CaseToggle | src/main.cpp:119-120 | Two siblings whose `name` values are `Foo` and `foo` give two output children with the flag off and one with it on. |
| Merging.TagsExact | src/main.cpp:122 | Two unnamed siblings tagged `A` and `a` give two output children whatever the flag. |
| Arena.CloneNode | src/utils.cpp:65-77 | The clone has the node's kind, tag and value, every attribute in order, no parent and no children. |
| Arena.Document.constructor | src/main.cpp:171 | A fresh output document is a single document node whose tree is the empty document. |
| Arena.Document.AppendNode | src/main.cpp:126 | The node becomes the last child of the given slot. Nothing else changes, and the parent's tree gains exactly that childless node at the end. |
| Arena.Document.ChildByTag | src/main.cpp:101-103 | The walk over a slot's children returns exactly the tag lookup on the tree the slot holds. |
| Arena.Document.ChildByAttr | src/main.cpp:106-114 | The walk over a slot's children returns exactly the by-attribute lookup on the tree the slot holds. |
| Arena.Document.MatchChild | src/main.cpp:118-123 | The lookup lambda of `recurse` returns exactly the first match of the input child among the slot's children. |
| Arena.Document.Recurse | src/main.cpp:116-130 | The in-place `recurse` makes the subtree at the slot the merge of the input into it. It only appends slots and child links, and leaves every slot outside that subtree untouched. |
| Arena.Document.FindOrAppend | src/main.cpp:118-127 | The returned position holds the first child of the slot that the input child matches, and then the tree is unchanged. When no child matches, a clone of the input child has been appended as the last child and the position is that clone's. Only that slot changes, and only by appending. |
| Arena.Document.Step | src/main.cpp:117-129 | One loop iteration finds or appends the sibling, then descends. The slot's tree becomes the one-child merge, and only its subtree grows. |
| Arena.Document.MergeInputs | src/main.cpp:172-186 | The input loop leaves the document tree equal to the merge of all inputs, in order, and only appends. |
| CppGenerator.XsTypeToCpp | src/cpp_generator.cpp:8-30 | Each of the sixteen known names maps to its listed C++ spelling. Every other string maps to the placeholder. |
| CppGenerator.XsTypeToCppInvalidIff | src/cpp_generator.cpp:26-29 | The placeholder is returned exactly for names outside the table. |
| CppGenerator.XsTypeToCppUnmapped | src/cpp_generator.cpp:26-29 | QName, NOTATION, hexBinary and differently-cased names all yield the placeholder. |
| CppGenerator.EmitNodeIndented | src/cpp_generator.cpp:39-59 | Every line written for a node starts with the indent in force when it is visited. |
| CppGenerator.AttributeLine | src/cpp_generator.cpp:41-46 | An `xs:attribute` with both `name` and `type` writes exactly one line: indent, raw type, a space, the name and `;`. Without either it writes nothing, and its children never matter. |
| CppGenerator.FieldLine | src/cpp_generator.cpp:41-46 | A field declared with `name` then `type` writes the type, a space, the name and `;` at the indent. |
| CppGenerator.ElementBlock | src/cpp_generator.cpp:47-55 | A named `xs:element` opens `struct N {` and closes `};` at the current indent, with every line in between one tab deeper. An unnamed one writes nothing and skips its subtree. |
| CppGenerator.StructOfTwo | src/cpp_generator.cpp:47-55 | An `xs:element` with a `name` attribute and two children, whatever its other attributes, writes `struct N {` with N the value of the first attribute matching `name`, then both children's lines one tab deeper, then the closing line. |
| CppGenerator.WrapperTransparent | src/cpp_generator.cpp:56-58 | Any other tag writes nothing itself: its lines are exactly its children's lines at the same indent, so in any list of siblings the wrapper can be replaced by its children without changing the output. |
| CppGenerator.PersonLines | src/cpp_generator.cpp:39-59 | The Person schema writes the four expected lines. |
| CppGenerator.PersonExample | src/cpp_generator.cpp:39-59 | The Person schema writes exactly `struct Person {`, its two fields with raw type names one tab in, and `};`, each ended by a newline. |
| CppGenerator.OStream.Write | src/cpp_generator.hpp:15 | Writing to the stream appends exactly the given text. |
| CppGenerator.Generate.constructor | src/cpp_generator.cpp:32-33 | A new generator is bound to the given stream, with an empty indent and an empty override table. |
| CppGenerator.Generate.SetTypeOverrides | src/cpp_generator.cpp:35-37 | The override table is replaced as a whole, and nothing else changes. |
| CppGenerator.Generate.DoNode | src/cpp_generator.cpp:39-59 | `do_node` appends exactly the node's lines to the bound stream and leaves the indent as it found it. Only the stream and the indent can change. |
| CppGenerator.Generate.EachChild | src/cpp_generator.cpp:52 | Visiting every child in stored order appends their lines in that order and restores the indent. |
| CppGenerator.Generate.Run | src/cpp_generator.cpp:61-63 | `operator()` writes the document's top-level children in stored order and leaves the indent unchanged. |

## Left out

- Everything in `main` except the `recurse(indoc, outdoc)` call at src/main.cpp:182 and the loop around it is left out, because it is I/O plumbing. That is command-line parsing and the directory scan with its `.xsd` filter (src/main.cpp:132-168), the progress messages (src/main.cpp:154, 173, 179, 185), file reading (src/main.cpp:174-178), writing the output file (src/main.cpp:188) and the exception handlers (src/main.cpp:191-196). The input documents are a parameter of `Arena.Document.MergeInputs`.
- The rapidxml parser (`parse`, `clear`) and the printer that writes the output file are left out. Parsed documents arrive as tree values, and the output is the tree the pool holds.
- `memory_pool` and `allocate_string` are a pool of slots. A clone is a freshly appended slot whose strings are values.
- `StrEq.CaseCmp`: models ASCII folding of strings without NUL characters. The C functions stop at an embedded NUL, and their locale and the platform's `strnicmp`/`strncasecmp` split are not modelled.
- The global `case_insensitive` flag and its `extern` linkage are a `ci` parameter of every operation that compares strings.
- The copies of the helpers in src/main.cpp and src/utils.cpp are identical, and are modelled once.
- `node_name` and `attr_kv` are plain field access on the tree value.
- `CppGenerator.Generate.SetTypeOverrides`: does not model the returned reference. The function has no `return` statement, so its result is undefined.
- The override table is stored but never read, because the generator does not consult it.
- `CppGenerator.Generate.DoNode`: covers a single bound stream with no write failures. Stream state flags and formatting are not modelled.
- `std::bind_front` and `std::function` are direct method calls and named predicate functions.
