/** Subsequences of sequences, and the facts about them the model needs. */
module Subsequences {

  /** `a` can be obtained from `b` by deleting elements. */
  predicate IsSubseq<T(==)>(a: seq<T>, b: seq<T>)
    decreases |b|
  {
    a == [] || (b != [] && ((a[0] == b[0] && IsSubseq(a[1..], b[1..])) || IsSubseq(a, b[1..])))
  }

  lemma {:induction false} SubseqRefl<T>(a: seq<T>)
    ensures IsSubseq(a, a)
    decreases |a|
  {
    if a != [] {
      SubseqRefl(a[1..]);
    }
  }

  /** Inserting anything in front of the larger sequence keeps the relation. */
  lemma {:induction false} SubseqPrependRight<T>(a: seq<T>, x: seq<T>, b: seq<T>)
    requires IsSubseq(a, b)
    ensures IsSubseq(a, x + b)
    decreases |x|
  {
    if x != [] {
      SubseqPrependRight(a, x[1..], b);
      assert (x + b)[1..] == x[1..] + b;
      assert IsSubseq(a, (x + b)[1..]);
    } else {
      assert x + b == b;
    }
  }

  /** A common prefix can be added on both sides. */
  lemma {:induction false} SubseqPrependBoth<T>(x: seq<T>, a: seq<T>, b: seq<T>)
    requires IsSubseq(a, b)
    ensures IsSubseq(x + a, x + b)
    decreases |x|
  {
    if x != [] {
      SubseqPrependBoth(x[1..], a, b);
      assert (x + a)[1..] == x[1..] + a;
      assert (x + b)[1..] == x[1..] + b;
      assert (x + a)[0] == (x + b)[0];
      assert IsSubseq((x + a)[1..], (x + b)[1..]);
    } else {
      assert x + a == a && x + b == b;
    }
  }

  lemma {:induction false} SubseqTrans<T>(a: seq<T>, b: seq<T>, c: seq<T>)
    requires IsSubseq(a, b) && IsSubseq(b, c)
    ensures IsSubseq(a, c)
    decreases |c|
  {
    if a != [] {
      if a[0] == b[0] && IsSubseq(a[1..], b[1..]) {
        if b[0] == c[0] && IsSubseq(b[1..], c[1..]) {
          SubseqTrans(a[1..], b[1..], c[1..]);
        } else {
          SubseqTrans(a, b, c[1..]);
        }
      } else {
        if b[0] == c[0] && IsSubseq(b[1..], c[1..]) {
          SubseqTrans(a, b[1..], c[1..]);
        } else {
          SubseqTrans(a, b, c[1..]);
        }
      }
    }
  }
}
