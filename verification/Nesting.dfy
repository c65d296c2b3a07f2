/** The style checker's nesting state: a stack of open blocks, and a stack of saved stacks by which a conditional
    counts as its first branch. */
module Nesting {

  datatype Kind = ClassBlock | NamespaceBlock | PlainBlock

  datatype Block = Block(kind: Kind, seenOpenBrace: bool, openParentheses: int)

  type Stack = seq<Block>

  /** What the loop over the rest of a line reacts to: a semicolon and a closing parenthesis act alike. */
  datatype Token = OpenBrace | Terminator | CloseBrace

  datatype Directive = NoDirective | If | Else | Endif

  /** A line as the nesting state sees it: its directive, its surplus of opening parentheses, its leading namespace
      declarations with whether their brace is on the line, whether what follows declares a class, and the tokens
      after that. */
  datatype Line = Line(directive: Directive, parentheses: int, namespaces: seq<bool>, declaresClass: bool,
                       tokens: seq<Token>)

  datatype PreprocessorInfo = PreprocessorInfo(stackBeforeIf: Stack, stackBeforeElse: Stack, seenElse: bool)

  datatype State = State(stack: Stack, ppStack: seq<PreprocessorInfo>)

  // ----- One line -----

  /** Saved stacks are deep copies, so values are all there is to them. #elif counts as #else. */
  function UpdatePreprocessor(s: State, d: Directive): State {
    match d
    case NoDirective => s
    case If => State(s.stack, s.ppStack + [PreprocessorInfo(s.stack, [], false)])
    case Else =>
      if s.ppStack == [] then s
      else
        var last := |s.ppStack| - 1;
        var info := s.ppStack[last];
        State(info.stackBeforeIf,
              if info.seenElse then s.ppStack
              else s.ppStack[last := info.(seenElse := true, stackBeforeElse := s.stack)])
    case Endif =>
      if s.ppStack == [] then s
      else
        var last := |s.ppStack| - 1;
        var info := s.ppStack[last];
        State(if info.seenElse then info.stackBeforeElse else s.stack, s.ppStack[..last])
  }

  function CountParentheses(stack: Stack, change: int): Stack {
    if stack == [] then stack
    else
      var top := stack[|stack| - 1];
      stack[|stack| - 1 := top.(openParentheses := top.openParentheses + change)]
  }

  function PushNamespaces(stack: Stack, braces: seq<bool>): Stack
    decreases |braces|
  {
    if braces == [] then stack else PushNamespaces(stack + [Block(NamespaceBlock, braces[0], 0)], braces[1..])
  }

  function PushClass(stack: Stack, declares: bool): Stack {
    if declares && (stack == [] || stack[|stack| - 1].openParentheses == 0)
    then stack + [Block(ClassBlock, false, 0)]
    else stack
  }

  predicate SeenOpenBrace(stack: Stack) {
    stack == [] || stack[|stack| - 1].seenOpenBrace
  }

  function Consume(stack: Stack, token: Token): Stack {
    match token
    case OpenBrace =>
      if SeenOpenBrace(stack) then stack + [Block(PlainBlock, true, 0)]
      else stack[|stack| - 1 := stack[|stack| - 1].(seenOpenBrace := true)]
    case Terminator => if SeenOpenBrace(stack) then stack else stack[..|stack| - 1]
    case CloseBrace => if stack == [] then stack else stack[..|stack| - 1]
  }

  function ConsumeAll(stack: Stack, tokens: seq<Token>): Stack
    decreases |tokens|
  {
    if tokens == [] then stack else ConsumeAll(Consume(stack, tokens[0]), tokens[1..])
  }

  /** What the text of a line does to the stack, once its directive is dealt with. */
  function Apply(stack: Stack, line: Line): Stack {
    ConsumeAll(PushClass(PushNamespaces(CountParentheses(stack, line.parentheses), line.namespaces),
                         line.declaresClass), line.tokens)
  }

  function Update(s: State, line: Line): State {
    var t := UpdatePreprocessor(s, line.directive);
    t.(stack := Apply(t.stack, line))
  }

  function Run(s: State, lines: seq<Line>): State
    decreases |lines|
  {
    if lines == [] then s else Run(Update(s, lines[0]), lines[1..])
  }

  lemma {:induction false} RunConcat(s: State, a: seq<Line>, b: seq<Line>)
    ensures Run(s, a + b) == Run(Run(s, a), b)
    decreases |a|
  {
    if a == [] {
      assert a + b == b;
    } else {
      assert (a + b)[0] == a[0] && (a + b)[1..] == a[1..] + b;
      RunConcat(Update(s, a[0]), a[1..], b);
    }
  }

  lemma RunOne(s: State, line: Line)
    ensures Run(s, [line]) == Update(s, line)
  {
    assert [line][1..] == [];
  }

  // ----- Braces -----

  /** Every closing brace has its opening brace, with so many of them open at the start. */
  predicate Balanced(tokens: seq<Token>, open: nat) {
    if tokens == [] then open == 0
    else
      match tokens[0]
      case OpenBrace => Balanced(tokens[1..], open + 1)
      case Terminator => Balanced(tokens[1..], open)
      case CloseBrace => open > 0 && Balanced(tokens[1..], open - 1)
  }

  function PlainBlocks(n: nat): Stack {
    seq(n, i => Block(PlainBlock, true, 0))
  }

  lemma {:induction false} ConsumeConcat(stack: Stack, a: seq<Token>, b: seq<Token>)
    ensures ConsumeAll(stack, a + b) == ConsumeAll(ConsumeAll(stack, a), b)
    decreases |a|
  {
    if a == [] {
      assert a + b == b;
    } else {
      assert (a + b)[0] == a[0] && (a + b)[1..] == a[1..] + b;
      ConsumeConcat(Consume(stack, a[0]), a[1..], b);
    }
  }

  /** Text that closes as many blocks as are open inside a block leaves exactly that block. */
  lemma {:induction false} BalancedKeepsStack(stack: Stack, open: nat, tokens: seq<Token>)
    requires SeenOpenBrace(stack) && Balanced(tokens, open)
    ensures ConsumeAll(stack + PlainBlocks(open), tokens) == stack
    decreases |tokens|
  {
    var here := stack + PlainBlocks(open);
    if tokens == [] {
      assert here == stack;
    } else {
      var next := match tokens[0] case OpenBrace => open + 1 case Terminator => open case CloseBrace => open - 1;
      assert SeenOpenBrace(here);
      assert Consume(here, tokens[0]) == stack + PlainBlocks(next);
      BalancedKeepsStack(stack, next, tokens[1..]);
    }
  }

  /** A class or namespace that still expects its brace: its body opens and closes it; a semicolon or a closing
      parenthesis before the brace drops it, as a forward declaration or a parameter. */
  lemma DeclarationEnds(stack: Stack, block: Block, body: seq<Token>)
    requires !block.seenOpenBrace && Balanced(body, 0)
    ensures ConsumeAll(stack + [block], [OpenBrace] + body + [CloseBrace]) == stack
    ensures ConsumeAll(stack + [block], [Terminator]) == stack
  {
    var entered := stack + [block.(seenOpenBrace := true)];
    ConsumeConcat(stack + [block], [OpenBrace] + body, [CloseBrace]);
    ConsumeConcat(stack + [block], [OpenBrace], body);
    assert [OpenBrace][1..] == [] && [CloseBrace][1..] == [] && [Terminator][1..] == [];
    assert Consume(stack + [block], OpenBrace) == entered;
    BalancedKeepsStack(entered, 0, body);
    assert entered + PlainBlocks(0) == entered;
    assert entered[..|stack|] == stack;
  }

  // ----- Well-nested text -----

  datatype Item =
    | Code(line: Line)
    | Conditional(opening: Line, first: seq<Item>, branches: seq<Branch>, closing: Line)

  /** An #else or #elif line and what it governs. */
  datatype Branch = Branch(head: Line, body: seq<Item>)

  predicate WellNested(items: seq<Item>) {
    items != [] ==> WellNestedItem(items[0]) && WellNested(items[1..])
  }

  predicate WellNestedItem(item: Item) {
    match item
    case Code(line) => line.directive == NoDirective
    case Conditional(opening, first, branches, closing) =>
      opening.directive == If && closing.directive == Endif && WellNested(first) && WellNestedBranches(branches)
  }

  predicate WellNestedBranches(branches: seq<Branch>) {
    branches != [] ==>
      branches[0].head.directive == Else && WellNested(branches[0].body) && WellNestedBranches(branches[1..])
  }

  /** The lines as they stand. */
  function LinesOf(items: seq<Item>): seq<Line> {
    if items == [] then [] else ItemLines(items[0]) + LinesOf(items[1..])
  }

  function ItemLines(item: Item): seq<Line> {
    match item
    case Code(line) => [line]
    case Conditional(opening, first, branches, closing) =>
      [opening] + LinesOf(first) + BranchLines(branches) + [closing]
  }

  function BranchLines(branches: seq<Branch>): seq<Line> {
    if branches == [] then []
    else [branches[0].head] + LinesOf(branches[0].body) + BranchLines(branches[1..])
  }

  /** The same text with every #else and #elif branch deleted, at every depth. */
  function Stripped(items: seq<Item>): seq<Item> {
    if items == [] then [] else [StrippedItem(items[0])] + Stripped(items[1..])
  }

  function StrippedItem(item: Item): Item {
    match item
    case Code(line) => item
    case Conditional(opening, first, branches, closing) => Conditional(opening, Stripped(first), [], closing)
  }

  /** What the text does to the stack of blocks when conditionals count as their first branch. */
  function Effect(stack: Stack, items: seq<Item>): Stack
    decreases items, 1
  {
    if items == [] then stack else Effect(ItemEffect(stack, items[0]), items[1..])
  }

  function ItemEffect(stack: Stack, item: Item): Stack
    decreases item, 0
  {
    match item
    case Code(line) => Apply(stack, line)
    case Conditional(opening, first, branches, closing) =>
      Apply(Effect(Apply(stack, opening), first), closing)
  }

  // ----- The saved stacks implement it -----

  /** Running well-nested text from any state: the block stack is what the first branches make of it, and the saved
      stacks are as before. */
  lemma {:induction false} RunIsEffect(s: State, items: seq<Item>)
    requires WellNested(items)
    ensures Run(s, LinesOf(items)) == State(Effect(s.stack, items), s.ppStack)
    decreases items, 1
  {
    if items != [] {
      RunConcat(s, ItemLines(items[0]), LinesOf(items[1..]));
      ItemIsEffect(s, items[0]);
      RunIsEffect(Run(s, ItemLines(items[0])), items[1..]);
    }
  }

  lemma {:induction false} ItemIsEffect(s: State, item: Item)
    requires WellNestedItem(item)
    ensures Run(s, ItemLines(item)) == State(ItemEffect(s.stack, item), s.ppStack)
    decreases item, 0
  {
    match item
    case Code(line) =>
      RunOne(s, line);
    case Conditional(opening, first, branches, closing) =>
      RunConcat(s, [opening] + LinesOf(first) + BranchLines(branches), [closing]);
      RunConcat(s, [opening] + LinesOf(first), BranchLines(branches));
      RunConcat(s, [opening], LinesOf(first));
      RunOne(s, opening);
      var inside := Update(s, opening);
      RunIsEffect(inside, first);
      var kept := Effect(inside.stack, first);
      var info := PreprocessorInfo(s.stack, [], false);
      BranchesKeep(State(kept, inside.ppStack), s.ppStack, info, s.stack, kept, branches);
      var reached := Run(State(kept, inside.ppStack), BranchLines(branches));
      RunOne(reached, closing);
      assert reached.ppStack[..|reached.ppStack| - 1] == s.ppStack;
  }

  /** What a further branch starts from, and what #endif will go on with. */
  ghost predicate Keeps(s: State, outer: seq<PreprocessorInfo>, before: Stack, kept: Stack) {
    && |s.ppStack| == |outer| + 1 && s.ppStack[..|outer|] == outer
    && var info := s.ppStack[|outer|];
       info.stackBeforeIf == before && if info.seenElse then info.stackBeforeElse == kept else s.stack == kept
  }

  /** The other branches leave the saved stacks below alone, the stack before the conditional for the branches after
      them, and the first branch's stack for #endif. */
  lemma {:induction false} BranchesKeep(s: State, outer: seq<PreprocessorInfo>, info: PreprocessorInfo, before: Stack,
                                        kept: Stack, branches: seq<Branch>)
    requires WellNestedBranches(branches) && s.ppStack == outer + [info] && Keeps(s, outer, before, kept)
    ensures Keeps(Run(s, BranchLines(branches)), outer, before, kept)
    decreases branches, 1
  {
    if branches != [] {
      var head, body := branches[0].head, branches[0].body;
      RunConcat(s, [head] + LinesOf(body), BranchLines(branches[1..]));
      RunConcat(s, [head], LinesOf(body));
      RunOne(s, head);
      var t := Update(s, head);
      var saved := if info.seenElse then info else info.(seenElse := true, stackBeforeElse := s.stack);
      assert t.ppStack == outer + [saved];
      RunIsEffect(t, body);
      BranchesKeep(Run(t, LinesOf(body)), outer, saved, before, kept, branches[1..]);
    }
  }

  lemma {:induction false} StrippedEffect(stack: Stack, items: seq<Item>)
    requires WellNested(items)
    ensures WellNested(Stripped(items)) && Effect(stack, Stripped(items)) == Effect(stack, items)
    decreases items, 1
  {
    if items != [] {
      StrippedItemEffect(stack, items[0]);
      StrippedEffect(ItemEffect(stack, items[0]), items[1..]);
      assert Stripped(items)[1..] == Stripped(items[1..]);
    }
  }

  lemma {:induction false} StrippedItemEffect(stack: Stack, item: Item)
    requires WellNestedItem(item)
    ensures WellNestedItem(StrippedItem(item)) && ItemEffect(stack, StrippedItem(item)) == ItemEffect(stack, item)
    decreases item, 0
  {
    if item.Conditional? {
      StrippedEffect(Apply(stack, item.opening), item.first);
    }
  }

  /** For well-nested conditionals, at any depth and whatever braces the directive lines themselves hold: the
      nesting state after the text is the state after the text without its #else and #elif branches. */
  lemma ConditionalsCountAsFirstBranch(s: State, items: seq<Item>)
    requires WellNested(items)
    ensures Run(s, LinesOf(items)) == Run(s, LinesOf(Stripped(items)))
    ensures Run(s, LinesOf(items)).ppStack == s.ppStack
  {
    RunIsEffect(s, items);
    StrippedEffect(s.stack, items);
    RunIsEffect(s, Stripped(items));
  }

  // ----- Inside a branch -----

  /** How many conditionals are open after a directive. */
  function After(d: Directive, open: nat): nat {
    match d
    case NoDirective => open
    case If => open + 1
    case Else => open
    case Endif => if open > 0 then open - 1 else 0
  }

  function OpenAfter(lines: seq<Line>, open: nat): nat
    decreases |lines|
  {
    if lines == [] then open else OpenAfter(lines[1..], After(lines[0].directive, open))
  }

  /** Never ends or branches a conditional that these lines do not open themselves. */
  predicate StaysInside(lines: seq<Line>, open: nat)
    decreases |lines|
  {
    lines != [] ==>
      && (lines[0].directive == Else || lines[0].directive == Endif ==> open > 0)
      && StaysInside(lines[1..], After(lines[0].directive, open))
  }

  /** Such lines run as if the saved stacks outside were not there. */
  lemma {:induction false} OuterIrrelevant(stack: Stack, outer: seq<PreprocessorInfo>, inner: seq<PreprocessorInfo>,
                                           lines: seq<Line>)
    requires StaysInside(lines, |inner|)
    ensures var t := Run(State(stack, inner), lines);
            Run(State(stack, outer + inner), lines) == State(t.stack, outer + t.ppStack)
    decreases |lines|
  {
    if lines != [] {
      var t := Update(State(stack, inner), lines[0]);
      OneOuterIrrelevant(stack, outer, inner, lines[0]);
      OuterIrrelevant(t.stack, outer, t.ppStack, lines[1..]);
    }
  }

  lemma OneOuterIrrelevant(stack: Stack, outer: seq<PreprocessorInfo>, inner: seq<PreprocessorInfo>, line: Line)
    requires line.directive == Else || line.directive == Endif ==> inner != []
    ensures var t := Update(State(stack, inner), line);
            && Update(State(stack, outer + inner), line) == State(t.stack, outer + t.ppStack)
            && |t.ppStack| == After(line.directive, |inner|)
  {
    var all := outer + inner;
    if line.directive == If {
      var info := PreprocessorInfo(stack, [], false);
      assert outer + (inner + [info]) == all + [info];
    } else if line.directive != NoDirective {
      var last := |inner| - 1;
      assert all[|all| - 1] == inner[last] && all[..|all| - 1] == outer + inner[..last];
      var saved := inner[last].(seenElse := true, stackBeforeElse := stack);
      assert all[|all| - 1 := saved] == outer + inner[last := saved];
    }
  }

  lemma {:induction false} StaysInsideConcat(a: seq<Line>, b: seq<Line>, open: nat)
    requires StaysInside(a, open) && StaysInside(b, OpenAfter(a, open))
    ensures StaysInside(a + b, open) && OpenAfter(a + b, open) == OpenAfter(b, OpenAfter(a, open))
    decreases |a|
  {
    if a == [] {
      assert a + b == b;
    } else {
      assert (a + b)[0] == a[0] && (a + b)[1..] == a[1..] + b;
      StaysInsideConcat(a[1..], b, After(a[0].directive, open));
    }
  }

  lemma {:induction false} StaysInsidePrefix(lines: seq<Line>, prefix: seq<Line>, open: nat)
    requires StaysInside(lines, open) && prefix <= lines
    ensures StaysInside(prefix, open)
    decreases |lines|
  {
    if prefix != [] {
      assert prefix[1..] <= lines[1..];
      StaysInsidePrefix(lines[1..], prefix[1..], After(lines[0].directive, open));
    }
  }

  lemma {:induction false} WellNestedStaysInside(items: seq<Item>, open: nat)
    requires WellNested(items)
    ensures StaysInside(LinesOf(items), open) && OpenAfter(LinesOf(items), open) == open
    decreases items, 1
  {
    if items != [] {
      ItemStaysInside(items[0], open);
      WellNestedStaysInside(items[1..], open);
      StaysInsideConcat(ItemLines(items[0]), LinesOf(items[1..]), open);
    }
  }

  lemma {:induction false} ItemStaysInside(item: Item, open: nat)
    requires WellNestedItem(item)
    ensures StaysInside(ItemLines(item), open) && OpenAfter(ItemLines(item), open) == open
    decreases item, 0
  {
    match item
    case Code(line) =>
      assert [line][1..] == [];
    case Conditional(opening, first, branches, closing) =>
      assert [opening][1..] == [] && [closing][1..] == [];
      WellNestedStaysInside(first, open + 1);
      BranchesStayInside(branches, open + 1);
      StaysInsideConcat([opening], LinesOf(first), open);
      StaysInsideConcat([opening] + LinesOf(first), BranchLines(branches), open);
      StaysInsideConcat([opening] + LinesOf(first) + BranchLines(branches), [closing], open);
  }

  lemma {:induction false} BranchesStayInside(branches: seq<Branch>, open: nat)
    requires WellNestedBranches(branches) && open > 0
    ensures StaysInside(BranchLines(branches), open) && OpenAfter(BranchLines(branches), open) == open
    decreases branches, 1
  {
    if branches != [] {
      var head, body := branches[0].head, branches[0].body;
      assert [head][1..] == [];
      WellNestedStaysInside(body, open);
      BranchesStayInside(branches[1..], open);
      StaysInsideConcat([head], LinesOf(body), open);
      StaysInsideConcat([head] + LinesOf(body), BranchLines(branches[1..]), open);
    }
  }

  /** The saved stacks when a further branch begins. */
  lemma BranchReached(s: State, opening: Line, first: seq<Item>, earlier: seq<Branch>)
    requires opening.directive == If && WellNested(first) && WellNestedBranches(earlier)
    ensures var t := Run(s, [opening] + LinesOf(first) + BranchLines(earlier));
            && |t.ppStack| == |s.ppStack| + 1 && t.ppStack[|s.ppStack|].stackBeforeIf == s.stack
  {
    RunConcat(s, [opening] + LinesOf(first), BranchLines(earlier));
    RunConcat(s, [opening], LinesOf(first));
    RunOne(s, opening);
    var inside := Update(s, opening);
    RunIsEffect(inside, first);
    var kept := Effect(inside.stack, first);
    BranchesKeep(State(kept, inside.ppStack), s.ppStack, PreprocessorInfo(s.stack, [], false), s.stack, kept, earlier);
  }

  /** Every #else or #elif branch starts from the blocks that were open before its conditional: whatever the first
      branch and the branches before it hold, at any point of the branch the blocks are those that its own head line
      and its own lines so far make of the stack before the #if line. */
  lemma BranchStartsAfresh(s: State, opening: Line, first: seq<Item>, earlier: seq<Branch>, branch: Branch,
                           prefix: seq<Line>)
    requires opening.directive == If && WellNested(first) && WellNestedBranches(earlier)
    requires branch.head.directive == Else && WellNested(branch.body) && prefix <= LinesOf(branch.body)
    ensures var before := [opening] + LinesOf(first) + BranchLines(earlier);
            Run(s, before + [branch.head] + prefix).stack ==
            Run(State(Apply(s.stack, branch.head), []), prefix).stack
  {
    var before := [opening] + LinesOf(first) + BranchLines(earlier);
    BranchReached(s, opening, first, earlier);
    var t := Run(s, before);
    RunConcat(s, before + [branch.head], prefix);
    RunConcat(s, before, [branch.head]);
    RunOne(t, branch.head);
    var u := Update(t, branch.head);
    WellNestedStaysInside(branch.body, 0);
    StaysInsidePrefix(LinesOf(branch.body), prefix, 0);
    OuterIrrelevant(u.stack, u.ppStack, [], prefix);
    assert u.ppStack + [] == u.ppStack;
  }

  /** The first branch goes on from the #if line. */
  lemma FirstBranchGoesOn(s: State, opening: Line, first: seq<Item>, prefix: seq<Line>)
    requires opening.directive == If && WellNested(first) && prefix <= LinesOf(first)
    ensures Run(s, [opening] + prefix).stack == Run(State(Apply(s.stack, opening), []), prefix).stack
  {
    RunConcat(s, [opening], prefix);
    RunOne(s, opening);
    var u := Update(s, opening);
    WellNestedStaysInside(first, 0);
    StaysInsidePrefix(LinesOf(first), prefix, 0);
    OuterIrrelevant(u.stack, u.ppStack, [], prefix);
    assert u.ppStack + [] == u.ppStack;
  }

  /** An #else or #endif outside of any conditional counts as a line without a directive. */
  lemma StrayDirective(stack: Stack, line: Line)
    requires line.directive == Else || line.directive == Endif
    ensures Update(State(stack, []), line) == Update(State(stack, []), line.(directive := NoDirective))
  {
  }

  // ----- The declarations on a line -----

  /** Leading namespaces are opened in their order, each still expecting its brace unless that is on the line. */
  lemma {:induction false} NamespacesOpened(stack: Stack, braces: seq<bool>)
    ensures PushNamespaces(stack, braces) == stack + NamespaceBlocks(braces)
    decreases |braces|
  {
    if braces == [] {
      assert stack + NamespaceBlocks(braces) == stack;
    } else {
      NamespacesOpened(stack + [Block(NamespaceBlock, braces[0], 0)], braces[1..]);
      assert NamespaceBlocks(braces) == [Block(NamespaceBlock, braces[0], 0)] + NamespaceBlocks(braces[1..]);
    }
  }

  /** Parentheses are counted in the innermost block that was open before the line, over as many lines as it takes. */
  lemma ParenthesesAddUp(stack: Stack, block: Block, m: int, n: int)
    ensures CountParentheses(CountParentheses(stack + [block], m), n) ==
            stack + [block.(openParentheses := block.openParentheses + m + n)]
    ensures CountParentheses([], m) == []
  {
  }

  function NamespaceBlocks(braces: seq<bool>): Stack {
    seq(|braces|, i requires 0 <= i < |braces| => Block(NamespaceBlock, braces[i], 0))
  }

  /** On one line namespaces come before a class, which is inside the last of them. */
  lemma NamespacesThenClass(stack: Stack, block: Block, parentheses: int, braces: seq<bool>)
    requires braces != []
    ensures Apply(stack + [block], Line(NoDirective, parentheses, braces, true, [])) ==
            stack + [block.(openParentheses := block.openParentheses + parentheses)] + NamespaceBlocks(braces) +
            [Block(ClassBlock, false, 0)]
  {
    var counted := CountParentheses(stack + [block], parentheses);
    assert counted == stack + [block.(openParentheses := block.openParentheses + parentheses)];
    NamespacesOpened(counted, braces);
    var inside := counted + NamespaceBlocks(braces);
    assert inside[|inside| - 1] == NamespaceBlocks(braces)[|braces| - 1];
  }

  /** A class is declared by a line that declares one, unless a parenthesis is open around it; then it expects its
      brace, which opens its body. */
  lemma ClassLine(stack: Stack, block: Block, parentheses: int, body: bool)
    ensures var line := Line(NoDirective, parentheses, [], true, if body then [OpenBrace] else []);
            var inner := block.(openParentheses := block.openParentheses + parentheses);
            inner.openParentheses == 0 ==> Apply(stack + [block], line) == stack + [inner, Block(ClassBlock, body, 0)]
    ensures var line := Line(NoDirective, parentheses, [], true, []);
            var inner := block.(openParentheses := block.openParentheses + parentheses);
            inner.openParentheses != 0 ==> Apply(stack + [block], line) == stack + [inner]
    ensures Apply([], Line(NoDirective, parentheses, [], true, [])) == [Block(ClassBlock, false, 0)]
  {
    var inner := block.(openParentheses := block.openParentheses + parentheses);
    var counted := CountParentheses(stack + [block], parentheses);
    assert counted == stack + [inner];
    assert [OpenBrace][1..] == [];
    if inner.openParentheses == 0 {
      var declared := PushClass(counted, true);
      assert declared == stack + [inner, Block(ClassBlock, false, 0)];
      assert Consume(declared, OpenBrace) == stack + [inner, Block(ClassBlock, true, 0)];
    }
  }

  // ----- The nesting state as it runs -----

  class NestingState {
    var stack: Stack
    var ppStack: seq<PreprocessorInfo>

    constructor ()
      ensures Contents() == State([], [])
    {
      stack, ppStack := [], [];
    }

    ghost function Contents(): State
      reads this
    {
      State(stack, ppStack)
    }

    method Preprocess(d: Directive)
      modifies this
      ensures Contents() == UpdatePreprocessor(old(Contents()), d)
    {
      var last := |ppStack| - 1;
      match d
      case NoDirective =>
      case If =>
        ppStack := ppStack + [PreprocessorInfo(stack, [], false)];
      case Else =>
        if ppStack != [] {
          if !ppStack[last].seenElse {
            ppStack := ppStack[last := ppStack[last].(seenElse := true, stackBeforeElse := stack)];
          }
          stack := ppStack[last].stackBeforeIf;
        }
      case Endif =>
        if ppStack != [] {
          if ppStack[last].seenElse {
            stack := ppStack[last].stackBeforeElse;
          }
          ppStack := ppStack[..last];
        }
    }

    method UpdateLine(line: Line)
      modifies this
      ensures Contents() == Update(old(Contents()), line)
    {
      Preprocess(line.directive);
      if stack != [] {
        var top := stack[|stack| - 1];
        stack := stack[|stack| - 1 := top.(openParentheses := top.openParentheses + line.parentheses)];
      }
      DeclareNamespaces(line.namespaces);
      if line.declaresClass && (stack == [] || stack[|stack| - 1].openParentheses == 0) {
        stack := stack + [Block(ClassBlock, false, 0)];
      }
      ConsumeTokens(line.tokens);
    }

    method DeclareNamespaces(braces: seq<bool>)
      modifies this`stack
      ensures stack == PushNamespaces(old(stack), braces)
    {
      assert braces[0..] == braces;
      for i := 0 to |braces|
        invariant PushNamespaces(old(stack), braces) == PushNamespaces(stack, braces[i..])
      {
        assert braces[i..][0] == braces[i] && braces[i..][1..] == braces[i + 1..];
        stack := stack + [Block(NamespaceBlock, braces[i], 0)];
      }
      assert braces[|braces|..] == [];
    }

    method ConsumeTokens(tokens: seq<Token>)
      modifies this`stack
      ensures stack == ConsumeAll(old(stack), tokens)
    {
      assert tokens[0..] == tokens;
      for i := 0 to |tokens|
        invariant ConsumeAll(old(stack), tokens) == ConsumeAll(stack, tokens[i..])
      {
        assert tokens[i..][0] == tokens[i] && tokens[i..][1..] == tokens[i + 1..];
        match tokens[i]
        case OpenBrace =>
          if !SeenOpenBrace(stack) {
            stack := stack[|stack| - 1 := stack[|stack| - 1].(seenOpenBrace := true)];
          } else {
            stack := stack + [Block(PlainBlock, true, 0)];
          }
        case Terminator =>
          if !SeenOpenBrace(stack) {
            stack := stack[..|stack| - 1];
          }
        case CloseBrace =>
          if stack != [] {
            stack := stack[..|stack| - 1];
          }
      }
      assert tokens[|tokens|..] == [];
    }
  }
}
