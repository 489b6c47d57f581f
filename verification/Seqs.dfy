/** Small facts about sequences, stated apart so that other proofs need not unfold them. */
module Seqs {

  lemma Assoc<T>(a: seq<T>, b: seq<T>, c: seq<T>)
    ensures (a + b) + c == a + (b + c)
  {
  }

  lemma SplitAt<T>(s: seq<T>, k: nat)
    requires k <= |s|
    ensures s[..k] + s[k..] == s
  {
  }

  lemma DropTwice<T>(s: seq<T>, i: nat, j: nat)
    requires i + j <= |s|
    ensures s[i..][j..] == s[i + j..]
  {
  }

  lemma DropFront<T>(a: seq<T>, b: seq<T>)
    ensures (a + b)[|a|..] == b && (a + b)[..|a|] == a
  {
  }

  // What was not kept in front of equal pieces is not kept behind them.
  lemma PrefixBehind<T>(a: seq<T>, b: seq<T>, c: seq<T>)
    requires a + b <= a + c
    ensures b <= c
  {
    assert (a + b)[|a|..] == b && (a + c)[|a|..] == c;
  }

  /** The sequences one after the other. */
  function Concat<T>(xs: seq<seq<T>>): seq<T> {
    if xs == [] then [] else Concat(xs[..|xs| - 1]) + xs[|xs| - 1]
  }

  lemma {:induction false} ConcatAppend<T>(xs: seq<seq<T>>, ys: seq<seq<T>>)
    ensures Concat(xs + ys) == Concat(xs) + Concat(ys)
  {
    if ys == [] {
      assert xs + ys == xs;
    } else {
      var init, last := ys[..|ys| - 1], ys[|ys| - 1];
      ConcatAppend(xs, init);
      assert (xs + ys)[..|xs + ys| - 1] == xs + init;
      Assoc(Concat(xs), Concat(init), last);
    }
  }

  lemma ConcatOne<T>(x: seq<T>)
    ensures Concat([x]) == x
  {
    assert [x][..0] == [] && Concat<T>([]) == [] && [] + x == x;
  }

  lemma ConcatCons<T>(xs: seq<seq<T>>)
    requires xs != []
    ensures Concat(xs) == xs[0] + Concat(xs[1..])
  {
    assert xs == [xs[0]] + xs[1..];
    ConcatAppend([xs[0]], xs[1..]);
    ConcatOne(xs[0]);
  }

  /** The last `n` elements, or all if there are fewer. */
  function LastN<T>(xs: seq<T>, n: nat): (ys: seq<T>)
    ensures |ys| == if |xs| < n then |xs| else n
  {
    if |xs| <= n then xs else xs[|xs| - n..]
  }
}
