/** Sequence facts the verifier should not rediscover in every proof. */
module Seqs {
  lemma Assoc<T>(a: seq<T>, b: seq<T>, c: seq<T>)
    ensures a + b + c == a + (b + c)
  {
  }

  lemma Assoc4<T>(a: seq<T>, b: seq<T>, c: seq<T>, d: seq<T>)
    ensures a + b + c + d == a + (b + c + d)
  {
    Assoc(a, b, c);
    Assoc(a, b + c, d);
  }

  lemma SplitAt<T>(s: seq<T>, n: nat)
    requires n <= |s|
    ensures s[..n] + s[n..] == s
  {
  }

  lemma DropPrefix<T>(a: seq<T>, b: seq<T>)
    ensures (a + b)[|a|..] == b
  {
  }

  lemma TakePrefix<T>(a: seq<T>, b: seq<T>)
    ensures (a + b)[..|a|] == a
  {
  }

  lemma SplitEqual<T>(a: seq<T>, x: seq<T>, b: seq<T>, y: seq<T>)
    requires |a| == |b| && a + x == b + y
    ensures a == b && x == y
  {
    DropPrefix(a, x);
    DropPrefix(b, y);
    assert (a + x)[..|a|] == a && (b + y)[..|b|] == b;
  }

  lemma TakeTake<T>(s: seq<T>, k: nat, n: nat)
    requires n <= k <= |s|
    ensures s[..k][..n] == s[..n]
  {
  }

  lemma AddNothing<T>(s: seq<T>)
    ensures s + [] == s && s[..|s|] == s
  {
  }

  /** An element of a concatenation is in one of its parts. */
  lemma InEither<T>(a: seq<T>, b: seq<T>, e: T)
    ensures e in a + b <==> e in a || e in b
  {
  }

  lemma PrefixOfPrefix<T>(a: seq<T>, b: seq<T>, c: seq<T>)
    requires a <= b <= c
    ensures a <= c
  {
  }

  lemma SplitPrefix<T>(a: seq<T>, s: seq<T>)
    requires a <= s
    ensures s == a + s[|a|..]
  {
  }
}
