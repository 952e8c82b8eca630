/** Facts about string concatenation that the solver does not find on its own in a busy context. */
module SeqFacts {
  lemma AppendAssoc(a: string, b: string, c: string)
    ensures a + (b + c) == (a + b) + c
  {
  }

  lemma AppendTail(c: char, x: string)
    ensures ([c] + x)[1..] == x
  {
  }

  lemma TakeDrop(s: string, n: nat)
    requires n <= |s|
    ensures s[..n] + s[n..] == s
  {
  }

  lemma AppendEmpty(x: string)
    ensures [] + x == x && x + [] == x
  {
  }

  lemma HeadTail(s: string)
    requires s != []
    ensures [s[0]] + s[1..] == s
  {
  }

  lemma TailOfAppend(x: string, y: string)
    requires x != []
    ensures (x + y)[0] == x[0] && (x + y)[1..] == x[1..] + y
  {
  }

  lemma NotInTail(c: char, x: string)
    requires x != [] && c !in x
    ensures c !in x[1..]
  {
    assert x == [x[0]] + x[1..];
  }
}
