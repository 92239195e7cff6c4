/** Prefix to infix conversion of hw1.c: a linked stack of strings, the
    right-to-left conversion that turns each operator and its two operands
    into one parenthesised string, and the filter that prints the result
    without its parentheses. */
module PrefixInfix {
  import opened Chars
  import opened Opt

  /** struct StackNode: a string and the node below it. */
  class Node {
    const data: seq<char>
    var next: Node?

    /** createNode. */
    constructor(d: seq<char>)
      ensures data == d && next == null
    {
      data := d;
      next := null;
    }
  }

  /** The strings held by a chain of nodes, in chain order. */
  function Strings(ns: seq<Node>): (r: seq<seq<char>>)
    ensures |r| == |ns| && forall i :: 0 <= i < |ns| ==> r[i] == ns[i].data
  {
    if ns == [] then [] else [ns[0].data] + Strings(ns[1..])
  }

  /** The stack pointer `top` that hw1.c passes by address, with the chain
      of nodes it heads. */
  class Stack {
    var top: Node?
    ghost var nodes: seq<Node>

    ghost predicate Valid()
      reads this, nodes
    {
      && (top == null <==> nodes == [])
      && (nodes != [] ==> top == nodes[0] && nodes[|nodes| - 1].next == null)
      && (forall i :: 0 <= i < |nodes| - 1 ==> nodes[i].next == nodes[i + 1])
    }

    /** The stacked strings, top first. */
    ghost function Contents(): seq<seq<char>>
      reads this
    {
      Strings(nodes)
    }

    /** An empty stack: a null top pointer. */
    constructor()
      ensures Valid() && Contents() == []
    {
      top := null;
      nodes := [];
    }

    /** push: a new node above the old top. */
    method Push(data: seq<char>)
      requires Valid()
      modifies this
      ensures Valid() && Contents() == [data] + old(Contents())
    {
      var node := new Node(data);
      node.next := top;
      top := node;
      nodes := [node] + nodes;
    }

    /** pop: NULL on an empty stack, otherwise the top string, whose node
        is unlinked. */
    method Pop() returns (r: Option<seq<char>>)
      requires Valid()
      modifies this
      ensures Valid()
      ensures old(Contents()) == [] ==> r == None && Contents() == []
      ensures old(Contents()) != [] ==> r == Some(old(Contents())[0]) && Contents() == old(Contents())[1..]
    {
      if top == null {
        return None;
      }
      var temp := top;
      assert nodes[0].next == if |nodes| > 1 then nodes[1] else null;
      top := top.next;
      nodes := nodes[1..];
      return Some(temp.data);
    }
  }

  /** The text "(o1 c o2)" that snprintf formats for one operator. */
  function Format(o1: seq<char>, c: char, o2: seq<char>): seq<char>
  {
    ['('] + o1 + [c] + o2 + [')']
  }

  /** What snprintf leaves in a buffer of `size` cells: at most size - 1
      characters, then the NUL. */
  function Snprintf(size: int, s: seq<char>): (r: seq<char>)
    requires size > 0
    ensures |r| < size && |r| <= |s| && r == s[..|r|]
    ensures |s| < size ==> r == s
  {
    if |s| < size then s else s[..size - 1]
  }

  /** The string built for one operator in a buffer of len1 + len2 + 4
      cells: that buffer holds the whole text and its NUL, nothing cut. */
  function Combine(o1: seq<char>, c: char, o2: seq<char>): (r: seq<char>)
    ensures r == Format(o1, c, o2) && |r| + 1 == |o1| + |o2| + 4
  {
    Snprintf(|o1| + |o2| + 4, Format(o1, c, o2))
  }

  /** One character of the loop of lines 44-63 on the stack (top first):
      an operand is pushed; an operator pops two strings and pushes their
      combination; anything else is skipped. With fewer than two strings
      stacked, hw1.c would take strlen of a null pointer; `Fed` rules that
      out and the stack is then left as it is. */
  function Feed(st: seq<seq<char>>, c: char): seq<seq<char>>
  {
    if IsAlnum(c) then [[c]] + st
    else if IsOperator(c) && |st| >= 2 then [Combine(st[0], c, st[1])] + st[2..]
    else st
  }

  /** The stack after the loop has read `s`, last character first. */
  function Stacks(s: seq<char>): seq<seq<char>>
  {
    if s == [] then [] else Feed(Stacks(s[1..]), s[0])
  }

  /** Every operator of `s` finds two strings on the stack. */
  ghost predicate Fed(s: seq<char>)
  {
    s == [] || (Fed(s[1..]) && (IsOperator(s[0]) ==> |Stacks(s[1..])| >= 2))
  }

  /** The string popped at the end (line 64): NULL for an empty stack. */
  function Result(s: seq<char>): Option<seq<char>>
  {
    if Stacks(s) == [] then None else Some(Stacks(s)[0])
  }

  lemma {:induction false} FedSuffix(s: seq<char>, k: int)
    requires Fed(s) && 0 <= k <= |s|
    ensures Fed(s[k..])
    decreases k
  {
    if k > 0 {
      FedSuffix(s[1..], k - 1);
      assert s[1..][k - 1..] == s[k..];
    }
  }

  /** prefixToInfix: the string left on top of the stack once the prefix
      text has been read from right to left. */
  method PrefixToInfix(prefix: array<char>) returns (r: Option<seq<char>>)
    requires '\0' in prefix[..] && Fed(CString(prefix[..]))
    ensures r == Result(CString(prefix[..]))
  {
    ghost var text := CString(prefix[..]);
    var length := Strlen(prefix);
    var stack := new Stack();
    var i := length - 1;
    while i >= 0
      invariant -1 <= i < length
      invariant stack.Valid() && stack.Contents() == Stacks(text[i + 1..])
      decreases i
    {
      FedSuffix(text, i);
      assert text[i..][1..] == text[i + 1..];
      var c := prefix[i];
      if IsAlnum(c) {
        stack.Push([c]);
      } else if IsOperator(c) {
        var operand1 := stack.Pop();
        var operand2 := stack.Pop();
        var size := |operand1.value| + |operand2.value| + 4;
        var infix := Snprintf(size, Format(operand1.value, c, operand2.value));
        stack.Push(infix);
      }
      i := i - 1;
    }
    r := stack.Pop();
  }

  /** The expressions the conversion is meant for: an operand, or an
      operator over two subexpressions. */
  datatype Expr = Leaf(c: char) | Bin(op: char, l: Expr, r: Expr)

  ghost predicate WellFormed(e: Expr)
  {
    match e
    case Leaf(c) => IsAlnum(c)
    case Bin(op, l, r) => IsOperator(op) && WellFormed(l) && WellFormed(r)
  }

  /** An expression in prefix notation: the operator before its operands. */
  function PrefixForm(e: Expr): seq<char>
  {
    match e
    case Leaf(c) => [c]
    case Bin(op, l, r) => [op] + PrefixForm(l) + PrefixForm(r)
  }

  /** An expression in fully parenthesised infix notation. */
  function Infix(e: Expr): seq<char>
  {
    match e
    case Leaf(c) => [c]
    case Bin(op, l, r) => Format(Infix(l), op, Infix(r))
  }

  /** An expression in infix notation without parentheses. */
  function Inorder(e: Expr): seq<char>
  {
    match e
    case Leaf(c) => [c]
    case Bin(op, l, r) => Inorder(l) + [op] + Inorder(r)
  }

  /** Reading the prefix form of `e` stacks exactly its parenthesised infix
      form above what the rest of the text stacked. */
  lemma {:induction false} StacksPrefix(e: Expr, s: seq<char>)
    requires WellFormed(e)
    ensures Stacks(PrefixForm(e) + s) == [Infix(e)] + Stacks(s)
  {
    match e
    case Leaf(c) =>
      assert (PrefixForm(e) + s)[1..] == s;
    case Bin(op, l, r) =>
      var t := PrefixForm(l) + (PrefixForm(r) + s);
      assert PrefixForm(e) + s == [op] + t;
      assert ([op] + t)[1..] == t;
      StacksPrefix(r, s);
      StacksPrefix(l, PrefixForm(r) + s);
      StacksOperator(op, t, Infix(l), Infix(r), Stacks(s));
  }

  /** Reading an operator in front of a text that stacked `a` above `b`
      replaces them by their combination. */
  lemma StacksOperator(op: char, t: seq<char>, a: seq<char>, b: seq<char>, rest: seq<seq<char>>)
    requires IsOperator(op) && Stacks(t) == [a] + ([b] + rest)
    ensures Stacks([op] + t) == [Format(a, op, b)] + rest
  {
    assert ([op] + t)[1..] == t;
    var st := Stacks(t);
    assert st[0] == a && st[1] == b && st[2..] == rest;
  }

  /** ... and every operator on the way finds its two operands. */
  lemma {:induction false} FedPrefix(e: Expr, s: seq<char>)
    requires WellFormed(e) && Fed(s)
    ensures Fed(PrefixForm(e) + s)
  {
    match e
    case Leaf(c) =>
      assert (PrefixForm(e) + s)[1..] == s;
    case Bin(op, l, r) =>
      var t := PrefixForm(l) + (PrefixForm(r) + s);
      assert PrefixForm(e) + s == [op] + t;
      assert ([op] + t)[1..] == t;
      FedPrefix(r, s);
      FedPrefix(l, PrefixForm(r) + s);
      StacksPrefix(r, s);
      StacksPrefix(l, PrefixForm(r) + s);
  }

  /** The conversion turns the prefix form of every well-formed expression
      into its fully parenthesised infix form, and such input never makes it
      pop an empty stack. */
  lemma RoundTrip(e: Expr)
    requires WellFormed(e)
    ensures Fed(PrefixForm(e)) && Result(PrefixForm(e)) == Some(Infix(e))
  {
    StacksPrefix(e, []);
    FedPrefix(e, []);
    assert PrefixForm(e) + [] == PrefixForm(e);
  }

  /** The stacked strings, top first, run together. */
  function Flat(st: seq<seq<char>>): seq<char>
  {
    if st == [] then [] else st[0] + Flat(st[1..])
  }

  /** The filters on the text formatted for one operator. */
  lemma FormatFilters(o1: seq<char>, c: char, o2: seq<char>)
    requires IsOperator(c)
    ensures Alnums(Format(o1, c, o2)) == Alnums(o1) + Alnums(o2)
  {
    var p1 := ['('] + o1;
    var p2 := p1 + [c];
    var p3 := p2 + o2;
    assert Format(o1, c, o2) == p3 + [')'];
    assert Alnums(p1) == Alnums(o1) by {
      AppendFilters(['('], o1);
      FilterOne('(');
    }
    assert Alnums(p2) == Alnums(p1) by {
      FilterLast(p1, c);
    }
    assert Alnums(p3) == Alnums(p2) + Alnums(o2) by {
      AppendFilters(p2, o2);
    }
    FilterLast(p3, ')');
  }

  /** Formatting two operands with an operator keeps their operands in
      order, whatever follows. */
  lemma FormatOperands(a: seq<char>, c: char, b: seq<char>, rest: seq<char>)
    requires IsOperator(c)
    ensures Alnums(Format(a, c, b) + rest) == Alnums(a + (b + rest))
  {
    calc {
      Alnums(Format(a, c, b) + rest);
    == { AppendFilters(Format(a, c, b), rest); }
      Alnums(Format(a, c, b)) + Alnums(rest);
    == { FormatFilters(a, c, b); }
      Alnums(a) + (Alnums(b) + Alnums(rest));
    == { AppendFilters(b, rest); }
      Alnums(a) + Alnums(b + rest);
    == { AppendFilters(a, b + rest); }
      Alnums(a + (b + rest));
    }
  }

  /** One operator step replaces the top two strings by their combination:
      the operands stay in order and three characters are added. */
  lemma FeedOperator(st: seq<seq<char>>, c: char)
    requires IsOperator(c) && |st| >= 2
    ensures Alnums(Flat(Feed(st, c))) == Alnums(Flat(st))
    ensures |Flat(Feed(st, c))| == |Flat(st)| + 3
  {
    var rest := Flat(st[2..]);
    assert st[1..][1..] == st[2..];
    assert Flat(st) == st[0] + (st[1] + rest);
    assert Flat(Feed(st, c)) == Format(st[0], c, st[1]) + rest;
    FormatOperands(st[0], c, st[1], rest);
  }

  /** One operand step pushes the operand on top. */
  lemma FeedOperand(st: seq<seq<char>>, c: char)
    requires IsAlnum(c)
    ensures Alnums(Flat(Feed(st, c))) == [c] + Alnums(Flat(st))
    ensures |Flat(Feed(st, c))| == |Flat(st)| + 1
  {
    assert Flat(Feed(st, c)) == [c] + Flat(st);
    FilterOne(c);
    AppendFilters([c], Flat(st));
  }

  /** Reading one more character at the front of the text. */
  lemma FilterFront(c: char, s: seq<char>)
    ensures Alnums([c] + s) == (if IsAlnum(c) then [c] else []) + Alnums(s)
    ensures Ops([c] + s) == (if IsOperator(c) then [c] else []) + Ops(s)
  {
    AppendFilters([c], s);
    FilterOne(c);
  }

  /** The stack, read top to bottom, holds the operands of the text read so
      far in their input order, and one operator and two parentheses for
      each operator read. */
  lemma {:induction false} StacksKeep(s: seq<char>)
    requires Fed(s)
    ensures Alnums(Flat(Stacks(s))) == Alnums(s)
    ensures |Flat(Stacks(s))| == |Alnums(s)| + 3 * |Ops(s)|
  {
    if s != [] {
      var c := s[0];
      StacksKeep(s[1..]);
      FilterFront(c, s[1..]);
      assert s == [c] + s[1..];
      if IsAlnum(c) {
        FeedOperand(Stacks(s[1..]), c);
      } else if IsOperator(c) {
        FeedOperator(Stacks(s[1..]), c);
      }
    }
  }

  /** For a text with one more operand than it needs, the result holds its
      operands in input order, and is as long as the operands plus three
      characters for each operator. */
  lemma ResultKeeps(s: seq<char>)
    requires Fed(s) && |Stacks(s)| == 1
    ensures Result(s).Some?
    ensures Alnums(Result(s).value) == Alnums(s)
    ensures |Result(s).value| == |Alnums(s)| + 3 * |Ops(s)|
  {
    StacksKeep(s);
    var st := Stacks(s);
    assert st[1..] == [];
    assert Flat(st) == st[0] + [] == st[0];
  }

  /** The text with every parenthesis removed. */
  function StripParens(s: seq<char>): seq<char>
  {
    if s == [] then []
    else StripParens(s[..|s| - 1]) + if s[|s| - 1] != '(' && s[|s| - 1] != ')' then [s[|s| - 1]] else []
  }

  lemma {:induction false} StripAppend(a: seq<char>, b: seq<char>)
    ensures StripParens(a + b) == StripParens(a) + StripParens(b)
    decreases |b|
  {
    if b != [] {
      var b' := b[..|b| - 1];
      StripAppend(a, b');
      assert (a + b)[..|a + b| - 1] == a + b';
    } else {
      assert a + b == a;
    }
  }

  /** The filter leaves no parenthesis, and keeps every other character,
      in order. */
  lemma StripKeeps(s: seq<char>)
    ensures forall i :: 0 <= i < |StripParens(s)| ==> StripParens(s)[i] != '(' && StripParens(s)[i] != ')'
    ensures Alnums(StripParens(s)) == Alnums(s) && Ops(StripParens(s)) == Ops(s)
  {
    StripNoParens(s);
    StripFilters(s);
  }

  lemma {:induction false} StripNoParens(s: seq<char>)
    ensures forall i :: 0 <= i < |StripParens(s)| ==> StripParens(s)[i] != '(' && StripParens(s)[i] != ')'
  {
    if s != [] {
      StripNoParens(s[..|s| - 1]);
    }
  }

  lemma {:induction false} StripFilters(s: seq<char>)
    ensures Alnums(StripParens(s)) == Alnums(s) && Ops(StripParens(s)) == Ops(s)
  {
    if s != [] {
      var p, x := s[..|s| - 1], s[|s| - 1];
      StripFilters(p);
      assert s == p + [x];
      FilterLast(p, x);
      if x == '(' || x == ')' {
        assert StripParens(s) == StripParens(p) + [] == StripParens(p);
        assert Alnums(s) == Alnums(p) + [] == Alnums(p);
        assert Ops(s) == Ops(p) + [] == Ops(p);
      } else {
        assert StripParens(s) == StripParens(p) + [x];
        FilterLast(StripParens(p), x);
      }
    }
  }

  /** The filter on the text formatted for one operator. */
  lemma StripFormat(o1: seq<char>, c: char, o2: seq<char>)
    requires IsOperator(c)
    ensures StripParens(Format(o1, c, o2)) == StripParens(o1) + [c] + StripParens(o2)
  {
    var p1 := ['('] + o1;
    var p2 := p1 + [c];
    var p3 := p2 + o2;
    assert Format(o1, c, o2) == p3 + [')'];
    assert StripParens(['(']) == StripParens([]) + [];
    assert StripParens([')']) == StripParens([]) + [];
    assert StripParens([c]) == StripParens([]) + [c];
    StripAppend(['('], o1);
    assert StripParens(p1) == StripParens(o1);
    StripAppend(p1, [c]);
    assert StripParens(p2) == StripParens(o1) + [c];
    StripAppend(p2, o2);
    StripAppend(p3, [')']);
  }

  /** Without its parentheses, the converted text of an expression is its
      plain infix form. */
  lemma {:induction false} StripInfix(e: Expr)
    requires WellFormed(e)
    ensures StripParens(Infix(e)) == Inorder(e)
  {
    match e
    case Leaf(c) =>
      assert StripParens([c]) == StripParens([]) + [c];
    case Bin(op, l, r) =>
      StripInfix(l);
      StripInfix(r);
      StripFormat(Infix(l), op, Infix(r));
  }

  /** printWithoutParentheses: what it writes, the text without its
      parentheses and then a newline. */
  method PrintWithoutParentheses(input: array<char>) returns (written: seq<char>)
    requires '\0' in input[..]
    ensures written == StripParens(CString(input[..])) + ['\n']
  {
    ghost var text := CString(input[..]);
    written := [];
    var i := 0;
    while input[i] != '\0'
      invariant 0 <= i <= |text| && input[..|text|] == text && input[|text|] == '\0'
      invariant written == StripParens(text[..i])
      decreases |text| - i
    {
      assert text[..i + 1][..i] == text[..i];
      if input[i] != '(' && input[i] != ')' {
        written := written + [input[i]];
      }
      i := i + 1;
    }
    assert text[..i] == text;
    written := written + ['\n'];
  }
}
