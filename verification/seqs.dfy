/** Small facts about sequence concatenation shared by the other modules. */
module Sequences {

  lemma AppendAssoc<T>(a: seq<T>, b: seq<T>, c: seq<T>)
    ensures (a + b) + c == a + (b + c)
  {
  }

  lemma AppendTwo<T>(s: seq<T>, x: T, y: T)
    ensures (s + [x]) + [y] == s + [x, y]
  {
  }

  lemma HeadTail<T>(p: seq<T>, s: seq<T>)
    requires |s| > 0
    ensures p + [s[0]] + s[1..] == p + s
  {
    assert s == [s[0]] + s[1..];
  }
}
