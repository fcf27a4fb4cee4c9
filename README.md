# ANTLR tree text utilities, modelled in Dafny

This project models the textual tree utilities of the ANTLR C# runtime
(`Antlr4.Runtime.Tree.Trees`):

- **`GetNodeText`** — the display label of one parse-tree node. With a rule-name table, a
  rule node is named by the table, an error node by its own `ToString()`, and a terminal
  whose symbol is a token by that token's text. In every other case, and always without a
  table, the label is the payload's token text, or the payload's `ToString()`.
- **`ToStringTree`** — the LISP-style rendering of a subtree,
  `tree := label | "(" label (" " tree)+ ")"`. Labels have tab, line feed and carriage
  return escaped.
- **`GetAncestors`** — the ancestors of a node, root first, nearest parent last.

Files:

- `wrappers.dfy` — module `Wrappers`: `Option`, which stands for a C# reference that may be null.
- `whitespace.dfy` — module `Whitespace`: the whitespace escaping applied to every label,
  and a count of a character's occurrences.
- `trees.dfy` — module `Trees`: the node datatype, `GetNodeText`, the rendering `LispForm`
  (a function that follows the output grammar), the `ToStringTree` method (its string
  builder and its loop over the children, proved equal to `LispForm`), and the proof that
  the parentheses balance.
- `ancestors.dfy` — module `TreeAncestors`: `GetAncestors` over an arena of parent links.

Modelling choices:

- A node is a `Tree` value: its `Kind` (`Rule` with its rule index; `Terminal` with its
  symbol, an error flag and, for an error node, its `ToString()`; `Other`), an optional
  payload, and its children in stored order. In the C# hierarchy an error node is also a
  terminal node. This is why it is a `Terminal` with `isError` set, and why the error test
  must come before the token test.
- A payload or symbol is a `Value`. It is either a token, whose `GetText()` is given, or some
  other object, whose `ToString()` is given.
- The rule-name table is `Option<seq<string>>`. A parser supplying the table is a `Parser`
  value holding the optional table that `GetRuleNames()` would return.
- For `GetAncestors`, nodes are indices into `parents: seq<int>`, and `-1` is a null
  parent. In the source the loop only ends if the parent chain is acyclic. The model states
  this with a ghost `rank` that strictly decreases along every parent link.

Two details of the code that the model keeps:

- A missing payload. Where the fallback at `Antlr4.Runtime/Tree/Trees.cs:181` is reached,
  the code calls `ToString()` on the payload, which throws on null. So a non-null payload
  is required wherever that line is reached (`HasLabel`); there is no `"null"` label.
- The terminal test with a name table (`Antlr4.Runtime/Tree/Trees.cs:165-166`) reads the
  terminal's symbol, not the node's payload. The model keeps the two apart:
  `Terminal.symbol` and `Tree.payload`.

## Model

| member | source | states |
|---|---|---|
| `Whitespace.EscapeWhitespace` | Antlr4.Runtime/Tree/Trees.cs:116 | the escaped label holds no tab, line feed or carriage return, and is between one and two times as long as the label |
| `Whitespace.EscapeConcat` | Antlr4.Runtime/Tree/Trees.cs:116 | escaping works character by character: it distributes over concatenation |
| `Whitespace.EscapeIdentity` | Antlr4.Runtime/Tree/Trees.cs:116 | a label with no tab, line feed or carriage return comes out unchanged |
| `Whitespace.EscapeIdempotent` | Antlr4.Runtime/Tree/Trees.cs:116 | an escaped label holds nothing left to escape: escaping it once more changes nothing |
| `Whitespace.EscapeKeepsOccurrences` | Antlr4.Runtime/Tree/Trees.cs:116 | escaping keeps the count of every character that the escape sequences do not introduce, parentheses among them |
| `Whitespace.EscapeNotInjective` | Antlr4.Runtime/Tree/Trees.cs:116 | backslashes are never escaped, so a real tab and the two characters `\t` give the same text |
| `Trees.GetNodeTextWithParser` | Antlr4.Runtime/Tree/Trees.cs:138-143 | with a null parser the label is the label without a table; otherwise it is the label under the parser's rule names, which may themselves be null |
| `Trees.RuleNodeLabel` | Antlr4.Runtime/Tree/Trees.cs:147-153 | with a table, a rule node whose index is in range is labelled by the table entry at that index, whatever its payload |
| `Trees.ErrorNodeLabel` | Antlr4.Runtime/Tree/Trees.cs:155-160 | with a table, an error node is labelled by its own `ToString()`, before the terminal test is reached and whatever its symbol |
| `Trees.TerminalNodeLabel` | Antlr4.Runtime/Tree/Trees.cs:161-170 | with a table, a non-error terminal whose symbol is a token is labelled by the token's text |
| `Trees.FallbackLabel` | Antlr4.Runtime/Tree/Trees.cs:175-181 | when no table branch answers, and always without a table, the label is the payload's token text, or else the payload's `ToString()` |
| `Trees.NoTableIgnoresKind` | Antlr4.Runtime/Tree/Trees.cs:147-181 | without a table the node kind plays no part: two nodes with the same payload get the same label |
| `Trees.LeafForm` | Antlr4.Runtime/Tree/Trees.cs:116-120 | a node with no children renders as exactly its escaped label, with no parentheses |
| `Trees.SingleChildForm` | Antlr4.Runtime/Tree/Trees.cs:121-135 | a node with one child is still parenthesized: `(`, label, space, the child's rendering, `)` |
| `Trees.LispListSnoc` | Antlr4.Runtime/Tree/Trees.cs:126-133 | rendering one more child after at least one adds exactly one space and that child's rendering at the end |
| `Trees.LispListExtend` | Antlr4.Runtime/Tree/Trees.cs:126-133 | one loop step: the children rendered so far grow by a space (none before the first child) and the next child's rendering, in stored order |
| `Trees.ToStringTree` | Antlr4.Runtime/Tree/Trees.cs:114-136 | the builder-and-loop serializer returns exactly the grammar rendering: the bare label for a leaf, otherwise `(`, label, space, the children's renderings separated by single spaces, `)` |
| `Trees.ToStringTreeWithoutNames` | Antlr4.Runtime/Tree/Trees.cs:84-87 | the overload without a table renders as with a null table |
| `Trees.ToStringTreeWithParser` | Antlr4.Runtime/Tree/Trees.cs:98-103 | with a null parser, or a parser without rule names, the result is the rendering with a null table; otherwise it is the rendering under the parser's rule names |
| `Trees.LispFormBalanced` | Antlr4.Runtime/Tree/Trees.cs:114-136 | if no label contains a parenthesis, the rendering's parentheses balance (no prefix closes more than it opens) and there is exactly one `(` per node with children |
| `Trees.LispListBalanced` | Antlr4.Runtime/Tree/Trees.cs:126-134 | the same for the space-separated renderings of a list of children |
| `Trees.ExampleProgram` | Antlr4.Runtime/Tree/Trees.cs:114-136 | a rule node named `prog` with terminal children `a` and `b` renders as `(prog a b)` |
| `Trees.ExampleEscapedLeaf` | Antlr4.Runtime/Tree/Trees.cs:116-120 | a leaf whose text is `foo` and a line feed renders as `foo\n` with a real backslash |
| `TreeAncestors.GetAncestors` | Antlr4.Runtime/Tree/Trees.cs:190-205 | the result is empty for a root. Otherwise it starts at a root, ends at the node's parent, each element is the parent of the next, and the node itself is absent. Its length is the node's depth |
| `TreeAncestors.PathFromRootChain` | Antlr4.Runtime/Tree/Trees.cs:196-203 | the path the loop builds starts at a root, ends at the start node, and links each element to its parent. Every element ranks no higher than the start node, and the path is one longer than the start node's depth |
| `TreeAncestors.AncestorsAreAncestorList` | Antlr4.Runtime/Tree/Trees.cs:184-204 | the path from the root to the parent has every property promised of the ancestor list, and its length is the depth |
| `TreeAncestors.AncestorListUnique` | Antlr4.Runtime/Tree/Trees.cs:184-188 | the promised properties determine the list: two lists that both have them are equal |

## Left out

- `GetPS` and `WritePS` (`Antlr4.Runtime/Tree/Trees.cs:45-73`) are not modelled. They
  generate PostScript through `TreePostScriptGenerator` and write it to a file, and neither
  of those is part of this model.
- `recog.GetRuleNames()` and `Arrays.AsList` in the parser overloads are calls into the
  parser. A parser is reduced to the optional rule-name table those calls would produce.
- `Utils.EscapeWhitespace` is not part of this model. It is modelled by the behaviour it
  has with `escapeSpaces` false, which is the only way this code calls it: tab, line feed
  and carriage return become `\t`, `\n` and `\r`. The mode that also escapes spaces is not
  modelled.
- A rule index outside the table, and a null payload where line 181 is reached, both throw
  in the source. They are preconditions (`HasLabel`, `Labelled`), not modelled errors.
- A cyclic parent chain makes `GetAncestors` loop forever. Acyclicity is a precondition
  (`Ranked`).
- Rule names and token texts are non-null strings in the model. In the source a null table
  entry (line 152) or a null `GetText()` (lines 168 and 179) makes `GetNodeText` return
  null, which is then handed to `Utils.EscapeWhitespace` at line 116; that null label is
  not captured.
- `GetAncestors` works on object references in the source. Here it works on arena indices.
  The mutable `List` and the shared empty list from `Sharpen.Collections.EmptyList()` are
  both modelled as sequence values, so mutating the returned list is not captured.
- Running out of call stack on very deep trees is not modelled.
- `GetNodeText`, `LispForm` and `LispList` carry no `ensures` of their own. What they
  promise is stated by the lemmas above, and `ToStringTree` is proved equal to `LispForm`.
