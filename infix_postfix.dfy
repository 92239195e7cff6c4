/** Infix to postfix conversion of hw1-2.c: a character stack over a fixed
    buffer of MAX cells, and the conversion that sends operands straight to
    the output and holds operators back on the stack by precedence. */
module InfixPostfix {
  import opened Chars

  const MAX := 100

  /** precedence: 1 for + and -, 2 for * and /, 0 for anything else. */
  function Precedence(c: char): (p: int)
    ensures IsOperator(c) <==> p > 0
    ensures p == 1 <==> c == '+' || c == '-'
    ensures p == 2 <==> c == '*' || c == '/'
    ensures 0 <= p <= 2
  {
    if c == '+' || c == '-' then 1
    else if c == '*' || c == '/' then 2
    else 0
  }

  function Reverse(s: seq<char>): (r: seq<char>)
    ensures |r| == |s|
  {
    if s == [] then [] else [s[|s| - 1]] + Reverse(s[..|s| - 1])
  }

  lemma ReverseSame(s: seq<char>)
    ensures multiset(Reverse(s)) == multiset(s)
  {
    if s != [] {
      ReverseSame(s[..|s| - 1]);
      assert s == s[..|s| - 1] + [s[|s| - 1]];
    }
  }

  /** The conversion's state: the operator stack (bottom first) and the
      output written so far. */
  datatype Conv = Conv(stack: seq<char>, out: seq<char>)

  /** The loop of lines 81-84: pop to the output while the top operator
      binds at least as tightly as `c`. */
  function PopWhile(st: Conv, c: char): (r: Conv)
    decreases |st.stack|
  {
    if st.stack != [] && Precedence(st.stack[|st.stack| - 1]) >= Precedence(c) then
      PopWhile(Conv(st.stack[..|st.stack| - 1], st.out + [st.stack[|st.stack| - 1]]), c)
    else st
  }

  /** One character of the main loop (lines 71-92). */
  function Step(st: Conv, c: char): Conv
  {
    if IsAlnum(c) then st.(out := st.out + [c])
    else if IsOperator(c) then
      var p := PopWhile(st, c);
      p.(stack := p.stack + [c])
    else st
  }

  /** The state after the main loop has read `s`. */
  function Run(s: seq<char>): Conv
  {
    if s == [] then Conv([], []) else Step(Run(s[..|s| - 1]), s[|s| - 1])
  }

  /** The postfix text for infix `s`: the output, then the operators left
      on the stack from the top down (lines 95-98). */
  function Postfix(s: seq<char>): seq<char>
  {
    Run(s).out + Reverse(Run(s).stack)
  }

  /** The operator stack holds operators in strictly increasing precedence
      from bottom to top, so at most two of them. */
  ghost predicate StackShape(stack: seq<char>)
  {
    && |stack| <= 2
    && (forall k :: 0 <= k < |stack| ==> IsOperator(stack[k]))
    && (|stack| == 2 ==> Precedence(stack[0]) < Precedence(stack[1]))
  }

  /** How many stacked operators the pop loop leaves for operator `c`:
      those above bind at least as tightly as `c`, the one below less. */
  function Kept(stack: seq<char>, c: char): (k: nat)
    ensures k <= |stack|
    ensures forall i :: k <= i < |stack| ==> Precedence(stack[i]) >= Precedence(c)
    ensures k > 0 ==> Precedence(stack[k - 1]) < Precedence(c)
    decreases |stack|
  {
    if stack != [] && Precedence(stack[|stack| - 1]) >= Precedence(c) then Kept(stack[..|stack| - 1], c)
    else |stack|
  }

  /** What the pop loop does: it keeps the bottom `Kept` operators and
      emits the rest from the top down. */
  lemma {:induction false} PopWhileSpec(st: Conv, c: char)
    ensures var k := Kept(st.stack, c);
      PopWhile(st, c) == Conv(st.stack[..k], st.out + Reverse(st.stack[k..]))
    decreases |st.stack|
  {
    var s := st.stack;
    if s != [] && Precedence(s[|s| - 1]) >= Precedence(c) {
      var s' := s[..|s| - 1];
      var st' := Conv(s', st.out + [s[|s| - 1]]);
      PopWhileSpec(st', c);
      ReverseFromTop(s, Kept(s', c));
    } else {
      assert s[|s|..] == [];
    }
  }

  /** Taking the top of `s` first and then reversing the rest of it from
      `k` up reverses all of `s` from `k` up. */
  lemma ReverseFromTop(s: seq<char>, k: nat)
    requires k < |s|
    ensures Reverse(s[k..]) == [s[|s| - 1]] + Reverse(s[..|s| - 1][k..])
    ensures s[..|s| - 1][..k] == s[..k]
  {
    var t := s[k..];
    assert t[..|t| - 1] == s[..|s| - 1][k..];
  }

  /** Popping `top` off `before` to the output keeps the output followed by
      the reversed stack unchanged. */
  lemma PopToOutput(out: seq<char>, before: seq<char>, rest: seq<char>, top: char)
    requires before == rest + [top]
    ensures out + [top] + Reverse(rest) == out + Reverse(before)
  {
    assert before[..|before| - 1] == rest;
  }

  /** The stack keeps its shape through every step of the main loop. */
  lemma StepShape(st: Conv, c: char)
    requires StackShape(st.stack)
    ensures StackShape(Step(st, c).stack)
  {
    if !IsAlnum(c) && IsOperator(c) {
      PopWhileSpec(st, c);
    }
  }

  lemma {:induction false} RunShape(s: seq<char>)
    ensures StackShape(Run(s).stack)
  {
    if s != [] {
      RunShape(s[..|s| - 1]);
      StepShape(Run(s[..|s| - 1]), s[|s| - 1]);
    }
  }

  /** An operator step keeps the bottom `Kept` operators, moves the rest to
      the output from the top down, and stacks `c`. */
  lemma OperatorStepShape(st: Conv, c: char)
    requires IsOperator(c) && !IsAlnum(c)
    ensures Step(st, c) == Moved(st, Kept(st.stack, c), c)
  {
    PopWhileSpec(st, c);
  }

  /** The state after moving the stacked operators above the bottom `k` to
      the output, top first, and stacking `c` on what is left. */
  function Moved(st: Conv, k: nat, c: char): Conv
    requires k <= |st.stack|
  {
    Conv(st.stack[..k] + [c], st.out + Reverse(st.stack[k..]))
  }

  /** Such a move touches no operand... */
  lemma MoveKeepsOperands(st: Conv, k: nat, c: char)
    requires IsOperator(c) && k <= |st.stack|
    requires forall i :: 0 <= i < |st.stack| ==> IsOperator(st.stack[i])
    ensures Alnums(Moved(st, k, c).out) == Alnums(st.out) && Alnums(Moved(st, k, c).stack) == []
  {
    var low, high := st.stack[..k], st.stack[k..];
    ReverseOps(high);
    AllOps(Reverse(high));
    var top := low + [c];
    assert forall i :: 0 <= i < |top| ==> IsOperator(top[i]) by {
      forall i | 0 <= i < |top| ensures IsOperator(top[i]) {
        if i < k { assert top[i] == st.stack[i]; }
      }
    }
    AllOps(top);
    AppendFilters(st.out, Reverse(high));
    assert Alnums(st.out + Reverse(high)) == Alnums(st.out) + [];
  }

  /** ... loses no operator... */
  lemma MoveKeepsOperators(st: Conv, k: nat, c: char)
    requires IsOperator(c) && k <= |st.stack|
    requires forall i :: 0 <= i < |st.stack| ==> IsOperator(st.stack[i])
    ensures multiset(Ops(Moved(st, k, c).out)) + multiset(Moved(st, k, c).stack) == multiset(Ops(st.out)) + multiset(st.stack) + multiset{c}
  {
    var low, high := st.stack[..k], st.stack[k..];
    assert st.stack == low + high;
    ReverseSame(high);
    ReverseOps(high);
    AllOps(Reverse(high));
    AppendFilters(st.out, Reverse(high));
  }

  /** Every character is an operand or an operator. */
  ghost predicate Clean(s: seq<char>)
  {
    forall i :: 0 <= i < |s| ==> IsAlnum(s[i]) || IsOperator(s[i])
  }

  /** ... and adds nothing but operators to the output, one character to
      output and stack together. */
  lemma MoveAddsOperators(st: Conv, k: nat, c: char)
    requires Clean(st.out) && k <= |st.stack|
    requires forall i :: 0 <= i < |st.stack| ==> IsOperator(st.stack[i])
    ensures Clean(Moved(st, k, c).out)
    ensures |Moved(st, k, c).out| + |Moved(st, k, c).stack| == |st.out| + |st.stack| + 1
  {
    ReverseOps(st.stack[k..]);
  }

  /** Reversing a run of operators gives a run of operators. */
  lemma {:induction false} ReverseOps(s: seq<char>)
    requires forall i :: 0 <= i < |s| ==> IsOperator(s[i])
    ensures forall i :: 0 <= i < |Reverse(s)| ==> IsOperator(Reverse(s)[i])
  {
    if s != [] {
      ReverseOps(s[..|s| - 1]);
    }
  }

  /** An operator step touches no operand. */
  lemma OperatorStepOperands(st: Conv, c: char)
    requires IsOperator(c) && StackShape(st.stack)
    ensures Alnums(Step(st, c).out) == Alnums(st.out) && Alnums(Step(st, c).stack) == []
  {
    OperatorStepShape(st, c);
    MoveKeepsOperands(st, Kept(st.stack, c), c);
  }

  /** An operator step loses no operator and stacks `c`. */
  lemma OperatorStepOperators(st: Conv, c: char)
    requires IsOperator(c) && StackShape(st.stack)
    ensures multiset(Ops(Step(st, c).out)) + multiset(Step(st, c).stack) == multiset(Ops(st.out)) + multiset(st.stack) + multiset{c}
  {
    OperatorStepShape(st, c);
    MoveKeepsOperators(st, Kept(st.stack, c), c);
  }

  /** An operator step adds only operators to the output, and one character
      to output and stack together. */
  lemma OperatorStepClean(st: Conv, c: char)
    requires IsOperator(c) && StackShape(st.stack) && Clean(st.out)
    ensures Clean(Step(st, c).out)
    ensures |Step(st, c).out| + |Step(st, c).stack| == |st.out| + |st.stack| + 1
  {
    OperatorStepShape(st, c);
    MoveAddsOperators(st, Kept(st.stack, c), c);
  }

  /** The main loop keeps the operands in input order and stacks none. */
  lemma {:induction false} RunOperands(s: seq<char>)
    ensures Alnums(Run(s).out) == Alnums(s) && Alnums(Run(s).stack) == []
  {
    if s != [] {
      var p := s[..|s| - 1];
      var c := s[|s| - 1];
      RunOperands(p);
      RunShape(p);
      assert s == p + [c];
      AppendFilters(p, [c]);
      if IsAlnum(c) {
        AppendFilters(Run(p).out, [c]);
      } else if IsOperator(c) {
        OperatorStepOperands(Run(p), c);
      }
    }
  }

  /** The operators of the input are exactly those of the output and the
      stack. */
  lemma {:induction false} RunOperators(s: seq<char>)
    ensures multiset(Ops(Run(s).out)) + multiset(Run(s).stack) == multiset(Ops(s))
  {
    if s != [] {
      var p := s[..|s| - 1];
      var c := s[|s| - 1];
      RunOperators(p);
      RunShape(p);
      assert s == p + [c];
      AppendFilters(p, [c]);
      if IsAlnum(c) {
        AppendFilters(Run(p).out, [c]);
      } else if IsOperator(c) {
        OperatorStepOperators(Run(p), c);
      }
    }
  }

  /** The output holds only operands and operators, one for each character
      of the input that is either, less those still stacked. */
  lemma {:induction false} RunClean(s: seq<char>)
    ensures Clean(Run(s).out)
    ensures |Run(s).out| + |Run(s).stack| == |Alnums(s)| + |Ops(s)|
  {
    if s != [] {
      var p := s[..|s| - 1];
      var c := s[|s| - 1];
      RunClean(p);
      RunShape(p);
      assert s == p + [c];
      AppendFilters(p, [c]);
      if IsOperator(c) && !IsAlnum(c) {
        OperatorStepClean(Run(p), c);
      }
    }
  }

  /** The postfix text keeps the operands in input order. */
  lemma PostfixOperands(s: seq<char>)
    ensures Alnums(Postfix(s)) == Alnums(s)
  {
    RunOperands(s);
    RunShape(s);
    var st := Run(s);
    ReverseOps(st.stack);
    AllOps(Reverse(st.stack));
    AppendFilters(st.out, Reverse(st.stack));
  }

  /** The postfix text holds each operator of the input exactly once. */
  lemma PostfixOperators(s: seq<char>)
    ensures multiset(Ops(Postfix(s))) == multiset(Ops(s))
  {
    RunOperators(s);
    RunShape(s);
    var st := Run(s);
    ReverseSame(st.stack);
    ReverseOps(st.stack);
    AllOps(Reverse(st.stack));
    AppendFilters(st.out, Reverse(st.stack));
  }

  /** The postfix text holds nothing but operands and operators: one
      character for each of them in the input. */
  lemma PostfixClean(s: seq<char>)
    ensures Clean(Postfix(s))
    ensures |Postfix(s)| == |Alnums(s)| + |Ops(s)| <= |s|
  {
    RunClean(s);
    RunShape(s);
    ReverseOps(Run(s).stack);
    CountBound(s);
  }

  /** The stack of hw1-2.c: `top` indexes the topmost of data[0..top]. */
  class Stack {
    const data: array<char>
    var top: int

    ghost predicate Valid()
      reads this
    {
      data.Length == MAX && -1 <= top < MAX
    }

    /** The stacked characters, bottom first. */
    ghost function Contents(): seq<char>
      requires Valid()
      reads this, data
    {
      data[..top + 1]
    }

    /** initStack: an empty stack. */
    constructor()
      ensures Valid() && Contents() == [] && fresh(data)
    {
      data := new char[MAX];
      top := -1;
    }

    /** isEmpty. */
    method IsEmpty() returns (b: bool)
      requires Valid()
      ensures b <==> Contents() == []
    {
      return top == -1;
    }

    /** peek: the top character, or NUL on an empty stack. */
    method Peek() returns (c: char)
      requires Valid()
      ensures Contents() == [] ==> c == '\0'
      ensures Contents() != [] ==> c == Contents()[|Contents()| - 1]
    {
      if top != -1 {
        return data[top];
      }
      return '\0';
    }

    /** push: on a full stack (top == MAX - 1) nothing happens. */
    method Push(item: char)
      requires Valid()
      modifies this, data
      ensures Valid()
      ensures old(top) < MAX - 1 ==> Contents() == old(Contents()) + [item]
      ensures old(top) >= MAX - 1 ==> top == old(top) && data[..] == old(data[..])
    {
      if top < MAX - 1 {
        top := top + 1;
        data[top] := item;
      }
    }

    /** pop: NUL on an empty stack, which stays empty; otherwise the top. */
    method Pop() returns (c: char)
      requires Valid()
      modifies this
      ensures Valid()
      ensures old(Contents()) == [] ==> c == '\0' && top == -1
      ensures old(Contents()) != [] ==> c == old(Contents()[|Contents()| - 1]) && Contents() == old(Contents()[..|Contents()| - 1])
    {
      if top != -1 {
        c := data[top];
        top := top - 1;
        return;
      }
      return '\0';
    }
  }

  /** One pass of either pop loop (lines 82-83, 96-97): the top operator
      is popped and written to the output at `j`. */
  method MoveTop(stack: Stack, postfix: array<char>, j: int) returns (j': int)
    requires stack.Valid() && stack.data != postfix
    requires stack.Contents() != [] && 0 <= j < postfix.Length
    modifies stack, postfix
    ensures stack.Valid() && j' == j + 1
    ensures Conv(stack.Contents(), postfix[..j']) == Conv(old(stack.Contents())[..|old(stack.Contents())| - 1], old(postfix[..j]) + [old(stack.Contents())[|old(stack.Contents())| - 1]])
  {
    ghost var out := postfix[..j];
    var popped := stack.Pop();
    postfix[j] := popped;
    assert postfix[..j + 1] == out + [popped];
    j' := j + 1;
  }

  /** The pop loop of lines 81-84: move operators from the stack to the
      output while the top binds at least as tightly as `c`. */
  method PopHigher(stack: Stack, postfix: array<char>, j: int, c: char, ghost st: Conv) returns (j': int)
    requires stack.Valid() && stack.data != postfix
    requires StackShape(st.stack) && stack.Contents() == st.stack
    requires 0 <= j && j + |st.stack| < postfix.Length && postfix[..j] == st.out
    modifies stack, postfix
    ensures stack.Valid() && j' + |stack.Contents()| == j + |st.stack| && j <= j' < postfix.Length
    ensures Conv(stack.Contents(), postfix[..j']) == PopWhile(st, c)
    ensures stack.Contents() == [] || Precedence(stack.Contents()[|stack.Contents()| - 1]) < Precedence(c)
  {
    j' := j;
    var empty := stack.IsEmpty();
    var topc := stack.Peek();
    while !empty && Precedence(topc) >= Precedence(c)
      invariant stack.Valid()
      invariant 0 <= j' && j' + |stack.Contents()| == j + |st.stack|
      invariant PopWhile(Conv(stack.Contents(), postfix[..j']), c) == PopWhile(st, c)
      invariant empty <==> stack.Contents() == []
      invariant !empty ==> topc == stack.Contents()[|stack.Contents()| - 1]
      decreases |stack.Contents()|
    {
      j' := MoveTop(stack, postfix, j');
      empty := stack.IsEmpty();
      topc := stack.Peek();
    }
  }

  /** The operator branch of the main loop (lines 79-91): the pop loop, then
      `c` is pushed, on an empty stack or above a weaker operator. */
  method PushOperator(stack: Stack, postfix: array<char>, j: int, c: char, ghost st: Conv) returns (j': int)
    requires stack.Valid() && stack.data != postfix
    requires IsOperator(c) && StackShape(st.stack) && stack.Contents() == st.stack
    requires 0 <= j && j + |st.stack| < postfix.Length && postfix[..j] == st.out
    modifies stack, stack.data, postfix
    ensures stack.Valid()
    ensures j' + |stack.Contents()| == j + |st.stack| + 1 && 0 <= j' <= postfix.Length
    ensures stack.Contents() == Step(st, c).stack && postfix[..j'] == Step(st, c).out
  {
    j' := PopHigher(stack, postfix, j, c, st);
    var empty := stack.IsEmpty();
    var topc := stack.Peek();
    if !empty && Precedence(topc) < Precedence(c) {
      stack.Push(c);
    } else if empty {
      stack.Push(c);
    }
  }

  /** The operand branch of the main loop (lines 73-77): the operand is
      pushed and popped straight back, so it reaches the output and the
      stack is as before. */
  method EmitOperand(stack: Stack, postfix: array<char>, j: int, c: char, ghost st: Conv) returns (j': int)
    requires stack.Valid() && stack.data != postfix
    requires StackShape(st.stack) && stack.Contents() == st.stack
    requires 0 <= j < postfix.Length && postfix[..j] == st.out
    modifies stack, stack.data, postfix
    ensures stack.Valid() && stack.Contents() == st.stack
    ensures j' == j + 1 && postfix[..j'] == st.out + [c]
  {
    stack.Push(c);
    var popped := stack.Pop();
    postfix[j] := popped;
    assert postfix[..j + 1] == st.out + [c];
    j' := j + 1;
  }

  /** The final loop (lines 95-98): pop every remaining operator to the
      output, so the stack reaches the output top first. */
  method Flush(stack: Stack, postfix: array<char>, j: int, ghost st: Conv) returns (j': int)
    requires stack.Valid() && stack.data != postfix
    requires stack.Contents() == st.stack
    requires 0 <= j && j + |st.stack| <= postfix.Length && postfix[..j] == st.out
    modifies stack, postfix
    ensures stack.Valid() && stack.Contents() == []
    ensures j' == j + |st.stack| && postfix[..j'] == st.out + Reverse(st.stack)
  {
    j' := j;
    while true
      invariant stack.Valid()
      invariant j <= j' && j' + |stack.Contents()| == j + |st.stack|
      invariant postfix[..j'] + Reverse(stack.Contents()) == st.out + Reverse(st.stack)
      decreases |stack.Contents()|
    {
      var empty := stack.IsEmpty();
      if empty {
        assert Reverse(stack.Contents()) == [];
        break;
      }
      ghost var before, out := stack.Contents(), postfix[..j'];
      j' := MoveTop(stack, postfix, j');
      PopToOutput(out, before, stack.Contents(), before[|before| - 1]);
    }
  }

  /** One pass of the main loop (lines 71-92): an operand goes to the
      output, an operator through the stack, anything else is skipped. */
  method ReadChar(stack: Stack, postfix: array<char>, j: int, c: char, ghost st: Conv) returns (j': int)
    requires stack.Valid() && stack.data != postfix
    requires StackShape(st.stack) && stack.Contents() == st.stack
    requires 0 <= j && j + |st.stack| < postfix.Length && postfix[..j] == st.out
    modifies stack, stack.data, postfix
    ensures stack.Valid() && StackShape(stack.Contents())
    ensures j' + |stack.Contents()| <= j + |st.stack| + 1 && 0 <= j'
    ensures Conv(stack.Contents(), postfix[..j']) == Step(st, c)
  {
    StepShape(st, c);
    j' := j;
    if IsAlnum(c) {
      j' := EmitOperand(stack, postfix, j, c, st);
    } else if IsOperator(c) {
      j' := PushOperator(stack, postfix, j, c, st);
    }
  }

  /** The main loop reads one more character. */
  lemma RunNext(text: seq<char>, i: int)
    requires 0 <= i < |text|
    ensures Run(text[..i + 1]) == Step(Run(text[..i]), text[i])
  {
    assert text[..i + 1][..i] == text[..i];
  }

  /** infixToPostfix: `postfix` receives the postfix text of the C string in
      `infix`, NUL-terminated. */
  method InfixToPostfix(infix: array<char>, postfix: array<char>)
    requires '\0' in infix[..] && infix != postfix
    requires |CString(infix[..])| < postfix.Length
    modifies postfix
    ensures |Postfix(CString(infix[..]))| < postfix.Length
    ensures postfix[..|Postfix(CString(infix[..]))| + 1] == Postfix(CString(infix[..])) + ['\0']
  {
    ghost var text := CString(infix[..]);
    var stack := new Stack();
    var j := 0;
    var i := 0;
    while infix[i] != '\0'
      invariant 0 <= i <= |text| && text == infix[..|text|] && infix[|text|] == '\0'
      invariant stack.Valid() && fresh(stack.data)
      invariant 0 <= j && j + |stack.Contents()| <= i
      invariant Conv(stack.Contents(), postfix[..j]) == Run(text[..i])
      invariant StackShape(stack.Contents())
      decreases |text| - i
    {
      ghost var st := Run(text[..i]);
      var c := infix[i];
      RunNext(text, i);
      j := ReadChar(stack, postfix, j, c, st);
      i := i + 1;
    }
    assert text[..i] == text;
    Finish(stack, postfix, j, text);
  }

  /** Lines 95-99: the stacked operators follow the output, then the NUL. */
  method Finish(stack: Stack, postfix: array<char>, j: int, ghost text: seq<char>)
    requires stack.Valid() && stack.data != postfix
    requires 0 <= j && j + |stack.Contents()| < postfix.Length
    requires Conv(stack.Contents(), postfix[..j]) == Run(text)
    modifies stack, postfix
    ensures |Postfix(text)| < postfix.Length
    ensures postfix[..|Postfix(text)| + 1] == Postfix(text) + ['\0']
  {
    var j' := Flush(stack, postfix, j, Run(text));
    postfix[j'] := '\0';
    assert postfix[..j' + 1] == Postfix(text) + ['\0'];
  }
}
