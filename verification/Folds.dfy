/** Left folds and iteration, shared by the byte-at-a-time protocols and the CRC.
    Everything here is generic, so its proofs see no machine words. */
module Folds {

  function Fold<S, A>(f: (S, A) -> S, s: S, xs: seq<A>): S
    decreases |xs|
  {
    if xs == [] then s else Fold(f, f(s, xs[0]), xs[1..])
  }

  function Iterate<S>(f: S -> S, s: S, n: nat): S
    decreases n
  {
    if n == 0 then s else Iterate(f, f(s), n - 1)
  }

  /** The n values read from a shrinking register. */
  function Outputs<W, A>(read: W -> A, drop: W -> W, w: W, n: nat): (r: seq<A>)
    ensures |r| == n
    decreases n
  {
    if n == 0 then [] else [read(w)] + Outputs(read, drop, drop(w), n - 1)
  }

  lemma FoldEmpty<S, A>(f: (S, A) -> S, s: S, xs: seq<A>)
    requires |xs| == 0
    ensures Fold(f, s, xs) == s
  {
  }

  lemma {:induction false} FoldAppend<S, A>(f: (S, A) -> S, s: S, xs: seq<A>, ys: seq<A>)
    ensures Fold(f, s, xs + ys) == Fold(f, Fold(f, s, xs), ys)
    decreases |xs|
  {
    if xs == [] {
      assert xs + ys == ys;
    } else {
      assert (xs + ys)[1..] == xs[1..] + ys;
      FoldAppend(f, f(s, xs[0]), xs[1..], ys);
    }
  }

  lemma {:induction false} IterateSplit<S>(f: S -> S, s: S, m: nat, n: nat)
    ensures Iterate(f, s, m + n) == Iterate(f, Iterate(f, s, m), n)
    decreases m
  {
    if m != 0 {
      IterateSplit(f, f(s), m - 1, n);
    }
  }

  lemma {:induction false} IterateBlocks<S>(f: S -> S, block: S -> S, m: nat, s: S, n: nat)
    requires forall x :: block(x) == Iterate(f, x, m)
    ensures Iterate(f, s, m * n) == Iterate(block, s, n)
    decreases n
  {
    if n != 0 {
      assert m * n == m + m * (n - 1);
      IterateSplit(f, s, m, m * (n - 1));
      IterateBlocks(f, block, m, block(s), n - 1);
    }
  }

  lemma {:induction false} IterateInjective<S>(f: S -> S, s: S, t: S, n: nat)
    requires forall x, y :: f(x) == f(y) ==> x == y
    requires Iterate(f, s, n) == Iterate(f, t, n)
    ensures s == t
    decreases n
  {
    if n != 0 {
      IterateInjective(f, f(s), f(t), n - 1);
    }
  }

  /** If one step on a mixed register acts as feeding the first output of w and
      keeping the rest mixed in, then n steps feed the first n outputs. */
  lemma {:induction false} StepsFeedOutputs<S, W, A>(
    step: S -> S, feed: (S, A) -> S, mix: (S, W) -> S, read: W -> A, drop: W -> W, s: S, w: W, n: nat)
    requires forall s, w :: step(mix(s, w)) == mix(feed(s, read(w)), drop(w))
    ensures Iterate(step, mix(s, w), n) == mix(Fold(feed, s, Outputs(read, drop, w, n)), Iterate(drop, w, n))
    decreases n
  {
    if n != 0 {
      var outs := Outputs(read, drop, w, n);
      assert outs[1..] == Outputs(read, drop, drop(w), n - 1);
      StepsFeedOutputs(step, feed, mix, read, drop, feed(s, read(w)), drop(w), n - 1);
    }
  }

  lemma {:induction false} OutputsSplit<W, A>(read: W -> A, drop: W -> W, w: W, m: nat, n: nat)
    ensures Outputs(read, drop, w, m + n) == Outputs(read, drop, w, m) + Outputs(read, drop, Iterate(drop, w, m), n)
    decreases m
  {
    if m != 0 {
      OutputsSplit(read, drop, drop(w), m - 1, n);
    }
  }

  lemma Two<W, A>(read: W -> A, drop: W -> W, w: W)
    ensures Iterate(drop, w, 2) == drop(drop(w))
    ensures Outputs(read, drop, w, 2) == [read(w), read(drop(w))]
  {
    assert Outputs(read, drop, drop(w), 1) == [read(drop(w))];
  }

  lemma Four<W, A>(read: W -> A, drop: W -> W, w: W)
    ensures Iterate(drop, w, 4) == drop(drop(drop(drop(w))))
    ensures Outputs(read, drop, w, 4) == [read(w), read(drop(w)), read(drop(drop(w))), read(drop(drop(drop(w))))]
  {
    IterateSplit(drop, w, 2, 2);
    OutputsSplit(read, drop, w, 2, 2);
    Two(read, drop, w);
    Two(read, drop, drop(drop(w)));
  }

  lemma Eight<W, A>(read: W -> A, drop: W -> W, w: W, w4: W)
    requires w4 == drop(drop(drop(drop(w))))
    ensures Iterate(drop, w, 8) == drop(drop(drop(drop(w4))))
    ensures Outputs(read, drop, w, 8)
      == [read(w), read(drop(w)), read(drop(drop(w))), read(drop(drop(drop(w)))),
          read(w4), read(drop(w4)), read(drop(drop(w4))), read(drop(drop(drop(w4))))]
  {
    IterateSplit(drop, w, 4, 4);
    OutputsSplit(read, drop, w, 4, 4);
    Four(read, drop, w);
    Four(read, drop, w4);
  }
}
