/**
 The textual tree utilities of the ANTLR runtime: the label of a single node
 (`GetNodeText`) and the LISP-style rendering of a whole subtree (`ToStringTree`).

 A node of the polymorphic C# hierarchy is a `Tree` value whose `kind` says which of the
 interfaces it implements. An error node is a terminal node in that hierarchy, so it is a
 `Terminal` with `isError` set; the order of the type tests in `GetNodeText` matters because
 of that.
 */
module Trees {
  import opened Wrappers
  import opened Whitespace

  /** An object a node hands out (its payload, or a terminal's symbol): either a token,
      whose `GetText()` is `text`, or any other object, whose `ToString()` is `str`. */
  datatype Value = Token(text: string) | Opaque(str: string)

  /** Which node interface a tree node implements. */
  datatype Kind =
    | Rule(ruleIndex: int)                                   // IRuleNode, with its context's rule index
    | Terminal(symbol: Value, isError: bool, errorText: string) // ITerminalNode; IErrorNode when isError, whose ToString() is errorText
    | Other                                                  // any other ITree

  /** A tree node: its kind, its payload (None when `GetPayload()` is null) and its children
      in their stored order. */
  datatype Tree = Node(kind: Kind, payload: Option<Value>, children: seq<Tree>)

  /** The optional rule-name table; None stands for a null list. */
  type RuleNames = Option<seq<string>>

  /** The only part of a parser the overloads taking one use: its rule names, which may be null. */
  datatype Parser = Parser(ruleNames: RuleNames)

  /** The rule names handed on by the overloads taking a parser, which may itself be null. */
  function NamesOf(recog: Option<Parser>): RuleNames
  {
    if recog.Some? then recog.value.ruleNames else None
  }

  // ---------------------------------------------------------------------------------------
  // Node Text Resolver
  // ---------------------------------------------------------------------------------------

  /** The branch of `GetNodeText` that answers for `t` is reached by the name table. */
  predicate NamedByTable(t: Tree, names: RuleNames)
  {
    names.Some? &&
    (t.kind.Rule? || (t.kind.Terminal? && (t.kind.isError || t.kind.symbol.Token?)))
  }

  /** `GetNodeText` returns normally for `t`: a rule index looked up in the table is in
      range, and the payload is not null whenever the fallback is reached. */
  predicate HasLabel(t: Tree, names: RuleNames)
  {
    if names.Some? && t.kind.Rule? then 0 <= t.kind.ruleIndex < |names.value|
    else NamedByTable(t, names) || t.payload.Some?
  }

  /** The text of a node's payload: a token's text, or the payload's own text form. */
  function PayloadText(t: Tree): string
    requires t.payload.Some?
  {
    match t.payload.value
    case Token(text) => text
    case Opaque(str) => str
  }

  /** The label of one node. With a name table: a rule node is named by the table, an error
      node by its own text form, a terminal whose symbol is a token by that token's text.
      Everything else falls back to the payload. */
  function GetNodeText(t: Tree, names: RuleNames): string
    requires HasLabel(t, names)
  {
    if names.Some? then
      match t.kind
      case Rule(ruleIndex) => names.value[ruleIndex]
      case Terminal(symbol, isError, errorText) =>
        if isError then errorText
        else if symbol.Token? then symbol.text
        else PayloadText(t)
      case Other => PayloadText(t)
    else
      PayloadText(t)
  }

  /** The overload taking a parser: it resolves against the parser's rule names, if any. */
  function GetNodeTextWithParser(t: Tree, recog: Option<Parser>): (r: string)
    requires HasLabel(t, NamesOf(recog))
    ensures recog.None? ==> HasLabel(t, None) && r == GetNodeText(t, None)
    ensures recog.Some? ==> r == GetNodeText(t, recog.value.ruleNames)
  {
    GetNodeText(t, NamesOf(recog))
  }

  /** With a table, a rule node is labelled by the table entry at its rule index,
      whatever its payload. */
  lemma RuleNodeLabel(t: Tree, names: seq<string>)
    requires t.kind.Rule? && 0 <= t.kind.ruleIndex < |names|
    ensures HasLabel(t, Some(names))
    ensures GetNodeText(t, Some(names)) == names[t.kind.ruleIndex]
    ensures forall p :: GetNodeText(t.(payload := p), Some(names)) == names[t.kind.ruleIndex]
  {
  }

  /** With a table, an error node is labelled by its own text form, even though it is also a
      terminal node and its symbol may be a token. */
  lemma ErrorNodeLabel(t: Tree, names: seq<string>)
    requires t.kind.Terminal? && t.kind.isError
    ensures HasLabel(t, Some(names))
    ensures GetNodeText(t, Some(names)) == t.kind.errorText
  {
  }

  /** With a table, a terminal (non-error) node whose symbol is a token is labelled by the
      token's text, whatever its payload. */
  lemma TerminalNodeLabel(t: Tree, names: seq<string>)
    requires t.kind.Terminal? && !t.kind.isError && t.kind.symbol.Token?
    ensures HasLabel(t, Some(names))
    ensures GetNodeText(t, Some(names)) == t.kind.symbol.text
  {
  }

  /** When no table branch answers (always so without a table), the label is the payload's
      token text if the payload is a token, and otherwise the payload's text form. */
  lemma FallbackLabel(t: Tree, names: RuleNames)
    requires !NamedByTable(t, names) && t.payload.Some?
    ensures HasLabel(t, names)
    ensures t.payload.value.Token? ==> GetNodeText(t, names) == t.payload.value.text
    ensures t.payload.value.Opaque? ==> GetNodeText(t, names) == t.payload.value.str
  {
  }

  /** Without a table the node kind plays no part: only the payload decides the label. */
  lemma NoTableIgnoresKind(t: Tree, k: Kind)
    requires t.payload.Some?
    ensures GetNodeText(t, None) == GetNodeText(t.(kind := k), None)
  {
  }

  // ---------------------------------------------------------------------------------------
  // Tree Serializer
  // ---------------------------------------------------------------------------------------

  /** Every node of `t` has a label. */
  predicate Labelled(t: Tree, names: RuleNames)
  {
    HasLabel(t, names) &&
    forall i :: 0 <= i < |t.children| ==> Labelled(t.children[i], names)
  }

  /** Every node of every tree in `cs` has a label. */
  predicate AllLabelled(cs: seq<Tree>, names: RuleNames)
    decreases cs
  {
    forall i :: 0 <= i < |cs| ==> Labelled(cs[i], names)
  }

  /** The escaped label of a node, as written into the rendering. */
  function Label(t: Tree, names: RuleNames): string
    requires HasLabel(t, names)
  {
    EscapeWhitespace(GetNodeText(t, names))
  }

  /** The canonical rendering, following the output grammar
        tree := label | "(" label (" " tree)+ ")"
      A node without children is its bare label; otherwise its label and its children's
      renderings, in stored order, each preceded by one space, inside parentheses. */
  function LispForm(t: Tree, names: RuleNames): string
    requires Labelled(t, names)
    decreases t, 1
  {
    if |t.children| == 0 then Label(t, names)
    else "(" + Label(t, names) + " " + LispList(t.children, names) + ")"
  }

  /** The renderings of `cs` separated by single spaces. */
  function LispList(cs: seq<Tree>, names: RuleNames): string
    requires AllLabelled(cs, names)
    decreases cs, 0
  {
    if |cs| == 0 then ""
    else if |cs| == 1 then LispForm(cs[0], names)
    else LispForm(cs[0], names) + " " + LispList(cs[1..], names)
  }

  /** Appending one child to the list adds a space and that child's rendering at the end:
      the shape of the serializer's loop. */
  lemma {:induction false} LispListSnoc(cs: seq<Tree>, c: Tree, names: RuleNames)
    requires |cs| > 0 && AllLabelled(cs + [c], names)
    ensures AllLabelled(cs, names) && Labelled(c, names)
    ensures LispList(cs + [c], names) == LispList(cs, names) + " " + LispForm(c, names)
  {
    assert forall i :: 0 <= i < |cs| ==> cs[i] == (cs + [c])[i];
    assert c == (cs + [c])[|cs|];
    var first := LispForm(cs[0], names);
    if |cs| > 1 {
      assert (cs + [c])[1..] == cs[1..] + [c];
      LispListSnoc(cs[1..], c, names);
      ConcatAssoc(first + " ", LispList(cs[1..], names), " ", LispForm(c, names));
    } else {
      assert (cs + [c])[1..] == [c];
    }
  }

  /** The list form of the first `i + 1` children extends that of the first `i` by a space
      (none before the first child) and the rendering of child `i`. */
  lemma LispListExtend(cs: seq<Tree>, i: nat, names: RuleNames)
    requires i < |cs| && AllLabelled(cs, names)
    ensures AllLabelled(cs[..i], names) && AllLabelled(cs[..i + 1], names)
    ensures LispList(cs[..i + 1], names) ==
      (if i == 0 then "" else LispList(cs[..i], names) + " ") + LispForm(cs[i], names)
  {
    assert cs[..i + 1] == cs[..i] + [cs[i]];
    assert forall j :: 0 <= j <= i ==> cs[..i + 1][j] == cs[j];
    if i > 0 {
      LispListSnoc(cs[..i], cs[i], names);
    }
  }

  /** Regrouping four concatenated strings: one step of sequence associativity, given to the
      solver explicitly to keep the loop proof of `ToStringTree` small. */
  lemma ConcatAssoc(a: string, b: string, c: string, d: string)
    ensures ((a + b) + c) + d == a + ((b + c) + d)
  {
  }

  /** A node without children renders as exactly its escaped label, with no parentheses. */
  lemma LeafForm(t: Tree, names: RuleNames)
    requires HasLabel(t, names) && |t.children| == 0
    ensures Labelled(t, names)
    ensures LispForm(t, names) == EscapeWhitespace(GetNodeText(t, names))
  {
  }

  /** A node with a single child is still parenthesized. */
  lemma SingleChildForm(t: Tree, names: RuleNames)
    requires Labelled(t, names) && |t.children| == 1
    ensures LispForm(t, names) ==
      "(" + EscapeWhitespace(GetNodeText(t, names)) + " " + LispForm(t.children[0], names) + ")"
  {
  }

  /** The serializer. The string builder of the source is the string `buf`; the loop over the
      children appends a separating space before every child but the first. */
  method ToStringTree(t: Tree, names: RuleNames) returns (r: string)
    requires Labelled(t, names)
    ensures r == LispForm(t, names)
    decreases t
  {
    var s := EscapeWhitespace(GetNodeText(t, names));
    if |t.children| == 0 {
      return s;
    }
    var buf := "(";
    // the source computes the same label a second time here
    s := EscapeWhitespace(GetNodeText(t, names));
    buf := buf + s;
    buf := buf + " ";
    ghost var head := buf;
    var i := 0;
    while i < |t.children|
      invariant 0 <= i <= |t.children|
      invariant buf == head + LispList(t.children[..i], names)
    {
      LispListExtend(t.children, i, names);
      ghost var before := buf;
      if i > 0 {
        buf := buf + " ";
      }
      var child := ToStringTree(t.children[i], names);
      buf := buf + child;
      if i > 0 {
        ConcatAssoc(head, LispList(t.children[..i], names), " ", child);
      } else {
        assert before == head;
      }
      i := i + 1;
    }
    assert t.children[..i] == t.children;
    buf := buf + ")";
    return buf;
  }

  /** The overload without a name table renders with a null table. */
  method ToStringTreeWithoutNames(t: Tree) returns (r: string)
    requires Labelled(t, None)
    ensures r == LispForm(t, None)
  {
    r := ToStringTree(t, None);
  }

  /** The overload taking a parser renders with the parser's rule names, and with a null
      table when the parser is null or has no rule names. */
  method ToStringTreeWithParser(t: Tree, recog: Option<Parser>) returns (r: string)
    requires Labelled(t, NamesOf(recog))
    ensures recog.None? ==> r == LispForm(t, None)
    ensures recog.Some? ==> r == LispForm(t, recog.value.ruleNames)
  {
    var ruleNames := if recog.Some? then recog.value.ruleNames else None;
    r := ToStringTree(t, ruleNames);
  }

  // ---------------------------------------------------------------------------------------
  // Parentheses in the rendering
  // ---------------------------------------------------------------------------------------

  /** Opening minus closing parentheses. */
  function Net(s: string): int
  {
    Occurrences(s, '(') - Occurrences(s, ')')
  }

  /** Every prefix closes no more parentheses than it opens, and the whole closes them all. */
  ghost predicate Balanced(s: string)
  {
    Net(s) == 0 && forall k :: 0 <= k <= |s| ==> Net(s[..k]) >= 0
  }

  /** No label in `t` contains a parenthesis. */
  predicate ParenFree(t: Tree, names: RuleNames)
  {
    Labelled(t, names) &&
    '(' !in GetNodeText(t, names) && ')' !in GetNodeText(t, names) &&
    forall i :: 0 <= i < |t.children| ==> ParenFree(t.children[i], names)
  }

  /** No label in any tree of `cs` contains a parenthesis. */
  predicate AllParenFree(cs: seq<Tree>, names: RuleNames)
    decreases cs
  {
    forall i :: 0 <= i < |cs| ==> ParenFree(cs[i], names)
  }

  /** The nodes of `t` that have children. */
  function InnerNodes(t: Tree): nat
    decreases t, 1
  {
    (if |t.children| > 0 then 1 else 0) + InnerNodesList(t.children)
  }

  /** The nodes that have children, over all trees of `cs`. */
  function InnerNodesList(cs: seq<Tree>): nat
    decreases cs, 0
  {
    if |cs| == 0 then 0 else InnerNodes(cs[0]) + InnerNodesList(cs[1..])
  }

  lemma {:induction false} NetConcat(a: string, b: string)
    ensures Net(a + b) == Net(a) + Net(b)
  {
    OccurrencesConcat(a, b, '(');
    OccurrencesConcat(a, b, ')');
  }

  /** A string without parentheses is balanced. */
  lemma NoParensBalanced(s: string)
    requires '(' !in s && ')' !in s
    ensures Balanced(s) && Occurrences(s, '(') == 0
  {
    OccurrencesZero(s, '(');
    OccurrencesZero(s, ')');
    forall k | 0 <= k <= |s|
      ensures Net(s[..k]) == 0
    {
      assert '(' !in s[..k] && ')' !in s[..k] by {
        assert forall j :: 0 <= j < k ==> s[..k][j] == s[j];
      }
      OccurrencesZero(s[..k], '(');
      OccurrencesZero(s[..k], ')');
    }
  }

  /** An escaped label without parentheses keeps none, also with a space appended. */
  lemma EscapedParenFree(text: string)
    requires '(' !in text && ')' !in text
    ensures '(' !in EscapeWhitespace(text) + " " && ')' !in EscapeWhitespace(text) + " "
  {
    EscapeKeepsOccurrences(text, '(');
    EscapeKeepsOccurrences(text, ')');
    OccurrencesZero(text, '(');
    OccurrencesZero(text, ')');
    OccurrencesZero(EscapeWhitespace(text), '(');
    OccurrencesZero(EscapeWhitespace(text), ')');
  }

  lemma BalancedConcat(a: string, b: string)
    requires Balanced(a) && Balanced(b)
    ensures Balanced(a + b)
  {
    NetConcat(a, b);
    forall k | 0 <= k <= |a + b|
      ensures Net((a + b)[..k]) >= 0
    {
      if k <= |a| {
        assert (a + b)[..k] == a[..k];
      } else {
        assert (a + b)[..k] == a + b[..k - |a|];
        NetConcat(a, b[..k - |a|]);
      }
    }
  }

  lemma BalancedWrap(x: string)
    requires Balanced(x)
    ensures Balanced("(" + x + ")")
    ensures Occurrences("(" + x + ")", '(') == Occurrences(x, '(') + 1
  {
    var w := "(" + x + ")";
    NetConcat("(", x);
    NetConcat("(" + x, ")");
    OccurrencesConcat("(", x, '(');
    OccurrencesConcat("(" + x, ")", '(');
    forall k | 0 <= k <= |w|
      ensures Net(w[..k]) >= 0
    {
      if k == 0 {
        assert w[..k] == [];
      } else if k <= |x| + 1 {
        assert w[..k] == "(" + x[..k - 1];
        NetConcat("(", x[..k - 1]);
      } else {
        assert w[..k] == w;
      }
    }
  }

  /** If no label contains a parenthesis, the rendering of `t` is balanced and opens exactly
      one parenthesis per node that has children. */
  lemma {:induction false} LispFormBalanced(t: Tree, names: RuleNames)
    requires ParenFree(t, names)
    ensures Balanced(LispForm(t, names))
    ensures Occurrences(LispForm(t, names), '(') == InnerNodes(t)
    decreases t, 1
  {
    var tag := Label(t, names);
    EscapedParenFree(GetNodeText(t, names));
    if |t.children| > 0 {
      var list := LispList(t.children, names);
      LispListBalanced(t.children, names);
      NoParensBalanced(tag + " ");
      BalancedConcat(tag + " ", list);
      OccurrencesConcat(tag + " ", list, '(');
      BalancedWrap((tag + " ") + list);
      ConcatAssoc("(", tag, " ", list);
    } else {
      NoParensBalanced(tag);
    }
  }

  /** The list form: balanced, with one opening parenthesis per inner node of the trees. */
  lemma {:induction false} LispListBalanced(cs: seq<Tree>, names: RuleNames)
    requires AllParenFree(cs, names)
    ensures AllLabelled(cs, names)
    ensures Balanced(LispList(cs, names))
    ensures Occurrences(LispList(cs, names), '(') == InnerNodesList(cs)
    decreases cs, 0
  {
    if |cs| == 0 {
      NoParensBalanced("");
    } else if |cs| == 1 {
      LispFormBalanced(cs[0], names);
      assert cs[1..] == [];
    } else {
      assert AllParenFree(cs[1..], names) by {
        assert forall i :: 0 <= i < |cs| - 1 ==> cs[1..][i] == cs[i + 1];
      }
      LispFormBalanced(cs[0], names);
      LispListBalanced(cs[1..], names);
      var head := LispForm(cs[0], names) + " ";
      NoParensBalanced(" ");
      BalancedConcat(LispForm(cs[0], names), " ");
      BalancedConcat(head, LispList(cs[1..], names));
      OccurrencesConcat(LispForm(cs[0], names), " ", '(');
      OccurrencesConcat(head, LispList(cs[1..], names), '(');
    }
  }

  // ---------------------------------------------------------------------------------------
  // Worked examples
  // ---------------------------------------------------------------------------------------

  /** A rule node with index 0 under the table ["prog"] and two terminal children whose
      token texts are "a" and "b" renders as "(prog a b)". */
  lemma ExampleProgram()
    ensures var a := Node(Terminal(Token("a"), false, ""), Some(Token("a")), []);
            var b := Node(Terminal(Token("b"), false, ""), Some(Token("b")), []);
            var root := Node(Rule(0), Some(Opaque("[]")), [a, b]);
            Labelled(root, Some(["prog"])) && LispForm(root, Some(["prog"])) == "(prog a b)"
  {
    var a := Node(Terminal(Token("a"), false, ""), Some(Token("a")), []);
    var b := Node(Terminal(Token("b"), false, ""), Some(Token("b")), []);
    var root := Node(Rule(0), Some(Opaque("[]")), [a, b]);
    assert Labelled(a, Some(["prog"])) && Labelled(b, Some(["prog"]));
    EscapeIdentity("a");
    EscapeIdentity("b");
    EscapeIdentity("prog");
    assert LispForm(a, Some(["prog"])) == "a";
    assert LispForm(b, Some(["prog"])) == "b";
    assert [a, b][1..] == [b];
    assert LispList([a, b], Some(["prog"])) == "a" + " " + "b";
    assert Label(root, Some(["prog"])) == "prog";
  }

  /** A leaf terminal whose token text ends in a line feed renders with a backslash and an
      `n` in its place. */
  lemma ExampleEscapedLeaf()
    ensures var t := Node(Terminal(Token("foo\n"), false, ""), Some(Token("foo\n")), []);
            Labelled(t, None) && LispForm(t, None) == "foo\\n"
  {
    var t := Node(Terminal(Token("foo\n"), false, ""), Some(Token("foo\n")), []);
    assert EscapeWhitespace("foo\n") == "foo\\n" by {
      assert "foo\n" == "foo" + "\n";
      EscapeConcat("foo", "\n");
      EscapeIdentity("foo");
      assert EscapeWhitespace("\n") == EscapeChar('\n') + EscapeWhitespace("");
    }
  }
}
