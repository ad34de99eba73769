/** Subsequences and concatenation of groups, used to state "in order" and "at most once". */
module Seqs {

  /**
   * `xs` is obtained from `ys` by leaving elements out: every element of `xs`
   * is taken from `ys`, each position of `ys` at most once, in the order of `ys`.
   */
  predicate Subseq<T(==)>(xs: seq<T>, ys: seq<T>)
    decreases |ys|
  {
    if xs == [] then true
    else if ys == [] then false
    else
      (xs[|xs| - 1] == ys[|ys| - 1] && Subseq(xs[..|xs| - 1], ys[..|ys| - 1]))
      || Subseq(xs, ys[..|ys| - 1])
  }

  lemma {:induction false} SubseqRefl<T>(xs: seq<T>)
    ensures Subseq(xs, xs)
  {
    if xs != [] {
      SubseqRefl(xs[..|xs| - 1]);
    }
  }

  /** Appending to the larger sequence keeps a subsequence a subsequence. */
  lemma {:induction false} SubseqExtend<T>(xs: seq<T>, ys: seq<T>, zs: seq<T>)
    requires Subseq(xs, ys)
    ensures Subseq(xs, ys + zs)
  {
    if zs == [] {
      assert ys + zs == ys;
    } else {
      SubseqExtend(xs, ys, zs[..|zs| - 1]);
      assert (ys + zs)[..|ys + zs| - 1] == ys + zs[..|zs| - 1];
    }
  }

  /** Appending the same elements to both sides keeps a subsequence a subsequence. */
  lemma {:induction false} SubseqAppend<T>(xs: seq<T>, ys: seq<T>, zs: seq<T>)
    requires Subseq(xs, ys)
    ensures Subseq(xs + zs, ys + zs)
  {
    if zs == [] {
      assert xs + zs == xs && ys + zs == ys;
    } else {
      SubseqAppend(xs, ys, zs[..|zs| - 1]);
      assert (xs + zs)[..|xs + zs| - 1] == xs + zs[..|zs| - 1];
      assert (ys + zs)[..|ys + zs| - 1] == ys + zs[..|zs| - 1];
    }
  }

  /** A subsequence uses no element more often than the sequence holds it. */
  lemma {:induction false} SubseqMultiset<T>(xs: seq<T>, ys: seq<T>)
    requires Subseq(xs, ys)
    ensures multiset(xs) <= multiset(ys)
  {
    if xs != [] {
      var ys', y := ys[..|ys| - 1], ys[|ys| - 1];
      assert ys == ys' + [y];
      if xs[|xs| - 1] == y && Subseq(xs[..|xs| - 1], ys') {
        SubseqMultiset(xs[..|xs| - 1], ys');
        assert xs == xs[..|xs| - 1] + [y];
      } else {
        SubseqMultiset(xs, ys');
      }
    }
  }

  /** Subsequence is transitive. */
  lemma {:induction false} SubseqTransitive<T>(xs: seq<T>, ys: seq<T>, zs: seq<T>)
    requires Subseq(xs, ys) && Subseq(ys, zs)
    ensures Subseq(xs, zs)
    decreases |zs|
  {
    if xs != [] {
      var zs' := zs[..|zs| - 1];
      if ys[|ys| - 1] == zs[|zs| - 1] && Subseq(ys[..|ys| - 1], zs') {
        if xs[|xs| - 1] == ys[|ys| - 1] && Subseq(xs[..|xs| - 1], ys[..|ys| - 1]) {
          SubseqTransitive(xs[..|xs| - 1], ys[..|ys| - 1], zs');
        } else {
          SubseqTransitive(xs, ys[..|ys| - 1], zs');
        }
      } else {
        SubseqTransitive(xs, ys, zs');
      }
    }
  }

  /** The groups laid end to end. */
  function Flatten<T>(gs: seq<seq<T>>): seq<T> {
    if gs == [] then [] else Flatten(gs[..|gs| - 1]) + gs[|gs| - 1]
  }

  /** Flattening distributes over concatenation of the groups. */
  lemma {:induction false} FlattenConcat<T>(a: seq<seq<T>>, b: seq<seq<T>>)
    ensures Flatten(a + b) == Flatten(a) + Flatten(b)
  {
    if b == [] {
      assert a + b == a;
    } else {
      FlattenConcat(a, b[..|b| - 1]);
      assert (a + b)[..|a + b| - 1] == a + b[..|b| - 1];
    }
  }

  /** Walking one more group extends the walked prefix by that group. */
  lemma FlattenPrefixStep<T>(gs: seq<seq<T>>, i: nat)
    requires i < |gs|
    ensures Flatten(gs[..i + 1]) == Flatten(gs[..i]) + gs[i]
  {
    assert gs[..i + 1][..i] == gs[..i];
  }
}
