/** Character classes and C-string helpers shared by the expression
    converters of hw1.c and hw1-2.c. */
module Chars {
  /** isalnum in the C locale. */
  predicate IsAlnum(c: char)
  {
    ('a' <= c <= 'z') || ('A' <= c <= 'Z') || ('0' <= c <= '9')
  }

  /** isOperator (hw1.c, hw1-2.c): exactly the four arithmetic operators. */
  predicate IsOperator(c: char)
  {
    c == '+' || c == '-' || c == '*' || c == '/'
  }

  /** The characters of a C string: everything before the first NUL. */
  function CString(s: seq<char>): (r: seq<char>)
    requires '\0' in s
    ensures |r| < |s| && s[|r|] == '\0' && r == s[..|r|] && '\0' !in r
  {
    if s[0] == '\0' then [] else assert '\0' in s[1..]; [s[0]] + CString(s[1..])
  }

  /** The operands of `s`, in order. */
  function Alnums(s: seq<char>): (r: seq<char>)
    ensures |r| <= |s|
  {
    if s == [] then [] else Alnums(s[..|s| - 1]) + if IsAlnum(s[|s| - 1]) then [s[|s| - 1]] else []
  }

  /** The operators of `s`, in order. */
  function Ops(s: seq<char>): (r: seq<char>)
    ensures |r| <= |s|
  {
    if s == [] then [] else Ops(s[..|s| - 1]) + if IsOperator(s[|s| - 1]) then [s[|s| - 1]] else []
  }

  /** Filtering distributes over concatenation. */
  lemma {:induction false} AppendFilters(a: seq<char>, b: seq<char>)
    ensures Alnums(a + b) == Alnums(a) + Alnums(b)
    ensures Ops(a + b) == Ops(a) + Ops(b)
    decreases |b|
  {
    if b != [] {
      var b' := b[..|b| - 1];
      AppendFilters(a, b');
      assert (a + b)[..|a + b| - 1] == a + b' && (a + b)[|a + b| - 1] == b[|b| - 1];
      assert Alnums(a + b) == Alnums(a + b') + if IsAlnum(b[|b| - 1]) then [b[|b| - 1]] else [];
      assert Ops(a + b) == Ops(a + b') + if IsOperator(b[|b| - 1]) then [b[|b| - 1]] else [];
    } else {
      assert a + b == a;
    }
  }

  /** The filters on a text with one more character at the end. */
  lemma FilterLast(a: seq<char>, c: char)
    ensures Alnums(a + [c]) == Alnums(a) + if IsAlnum(c) then [c] else []
    ensures Ops(a + [c]) == Ops(a) + if IsOperator(c) then [c] else []
  {
    assert (a + [c])[..|a|] == a;
  }

  /** The filters on a single character. */
  lemma FilterOne(c: char)
    ensures Alnums([c]) == if IsAlnum(c) then [c] else []
    ensures Ops([c]) == if IsOperator(c) then [c] else []
  {
    assert [c][..0] == [];
  }

  /** A run of operators is its own operator filter and has no operands. */
  lemma {:induction false} AllOps(s: seq<char>)
    requires forall i :: 0 <= i < |s| ==> IsOperator(s[i])
    ensures Ops(s) == s && Alnums(s) == []
  {
    if s != [] {
      AllOps(s[..|s| - 1]);
    }
  }

  /** A character is never both an operand and an operator. */
  lemma {:induction false} CountBound(s: seq<char>)
    ensures |Alnums(s)| + |Ops(s)| <= |s|
  {
    if s != [] {
      CountBound(s[..|s| - 1]);
    }
  }

  /** strlen: the length of the C string held in `a`. */
  method Strlen(a: array<char>) returns (n: int)
    requires '\0' in a[..]
    ensures n == |CString(a[..])|
  {
    ghost var text := CString(a[..]);
    n := 0;
    while a[n] != '\0'
      invariant 0 <= n <= |text| && a[..n] == text[..n]
      decreases |text| - n
    {
      n := n + 1;
    }
  }
}
