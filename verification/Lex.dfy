/** Lexicographic order on strings. */
module Lex {

  predicate LexLeq(a: string, b: string) {
    a == [] || (b != [] && (a[0] < b[0] || (a[0] == b[0] && LexLeq(a[1..], b[1..]))))
  }

  predicate LexLess(a: string, b: string) {
    a != b && LexLeq(a, b)
  }

  lemma LexTotal(a: string, b: string)
    ensures LexLeq(a, b) || LexLeq(b, a)
    ensures LexLeq(a, b) && LexLeq(b, a) ==> a == b
  {
    if a != [] && b != [] && a[0] == b[0] {
      LexTotal(a[1..], b[1..]);
      assert a == [a[0]] + a[1..] && b == [b[0]] + b[1..];
    }
  }

  lemma LexTransitive(a: string, b: string, c: string)
    requires LexLeq(a, b) && LexLeq(b, c)
    ensures LexLeq(a, c)
  {
    if a != [] && a[0] == b[0] && b[0] == c[0] {
      LexTransitive(a[1..], b[1..], c[1..]);
    }
  }

  lemma LessTransitive(a: string, b: string, c: string)
    requires LexLess(a, b) && LexLess(b, c)
    ensures LexLess(a, c)
  {
    LexTransitive(a, b, c);
    LexTotal(a, b);
  }

  lemma LessTrichotomy(a: string, b: string)
    ensures LexLess(a, b) || a == b || LexLess(b, a)
    ensures !(LexLess(a, b) && LexLess(b, a))
  {
    LexTotal(a, b);
  }

  /** The strings with a given prefix form one interval that starts at the prefix. */
  lemma PrefixInterval(p: string, x: string, y: string)
    requires LexLeq(p, x) && LexLeq(x, y) && p <= y
    ensures p <= x
  {
    if p != [] {
      assert p[1..] <= y[1..];
      assert x[0] == p[0];
      PrefixInterval(p[1..], x[1..], y[1..]);
      assert p == [p[0]] + p[1..] && x == [x[0]] + x[1..];
    }
  }

  lemma PrefixIsLeast(p: string, y: string)
    requires p <= y
    ensures LexLeq(p, y)
  {
    if p != [] {
      assert p[1..] <= y[1..];
      PrefixIsLeast(p[1..], y[1..]);
    }
  }
}
