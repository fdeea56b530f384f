/** Python's str.replace for a pattern of one character, and what follows for chains of it. */
module Replacement {

  function Replace(s: string, c: char, t: string): string {
    if s == "" then "" else (if s[0] == c then t else [s[0]]) + Replace(s[1..], c, t)
  }

  lemma {:induction false} ReplaceConcat(a: string, b: string, c: char, t: string)
    ensures Replace(a + b, c, t) == Replace(a, c, t) + Replace(b, c, t)
  {
    if a == "" {
      assert a + b == b;
    } else {
      ReplaceConcat(a[1..], b, c, t);
      assert (a + b)[1..] == a[1..] + b;
    }
  }

  lemma {:induction false} ReplaceAbsent(s: string, c: char, t: string)
    requires c !in s
    ensures Replace(s, c, t) == s
  {
    if s != "" {
      ReplaceAbsent(s[1..], c, t);
    }
  }

  lemma ReplaceChar(d: char, c: char, t: string)
    ensures Replace([d], c, t) == if d == c then t else [d]
  {
    assert [d][1..] == "";
  }
}
