/** Cutting a stream of keys into batches, as the unlink loop does. */
module Batches {
  import opened Arith

  /** Cut `xs` into runs of `n`, the last one possibly shorter. */
  function Chunks<T>(xs: seq<T>, n: nat): (cs: seq<seq<T>>)
    requires n > 0
  {
    if xs == [] then []
    else if |xs| <= n then [xs]
    else [xs[..n]] + Chunks(xs[n..], n)
  }

  function Flatten<T>(cs: seq<seq<T>>): seq<T> {
    if cs == [] then [] else cs[0] + Flatten(cs[1..])
  }

  ghost predicate AllFull<T>(cs: seq<seq<T>>, n: nat) {
    forall i :: 0 <= i < |cs| ==> |cs[i]| == n
  }

  lemma {:induction false} FlattenAppend<T>(cs: seq<seq<T>>, c: seq<T>)
    ensures Flatten(cs + [c]) == Flatten(cs) + c
  {
    if cs == [] {
      assert cs + [c] == [c] && Flatten([c][1..]) == [];
    } else {
      assert (cs + [c])[1..] == cs[1..] + [c];
      FlattenAppend(cs[1..], c);
    }
  }

  /** Full batches taken so far are a prefix of the batches of the whole stream. */
  lemma {:induction false} FullBatchesLead<T>(cs: seq<seq<T>>, rest: seq<T>, n: nat)
    requires n > 0 && AllFull(cs, n)
    ensures Chunks(Flatten(cs) + rest, n) == cs + Chunks(rest, n)
  {
    if cs == [] {
      assert Flatten(cs) + rest == rest;
    } else {
      var c, front := cs[0], cs[1..];
      FullBatchesLead(front, rest, n);
      ChunkOff(c, Flatten(front) + rest, n);
      Associate(c, Flatten(front), rest);
      Associate([c], front, Chunks(rest, n));
      assert cs == [c] + front;
    }
  }

  lemma Associate<T>(a: seq<T>, b: seq<T>, c: seq<T>)
    ensures a + (b + c) == (a + b) + c
  {
  }

  lemma ChunkOff<T>(c: seq<T>, tail: seq<T>, n: nat)
    requires n > 0 && |c| == n
    ensures Chunks(c + tail, n) == [c] + Chunks(tail, n)
  {
    if tail == [] {
      assert c + tail == c;
    } else {
      assert (c + tail)[..n] == c && (c + tail)[n..] == tail;
    }
  }

  /** The batches carry exactly the stream, none is empty or over the limit, all but the last
      are full, and there are as many as the ceiling quotient. */
  lemma {:induction false} ChunksAreExact<T>(xs: seq<T>, n: nat)
    requires n > 0
    ensures var cs := Chunks(xs, n);
            && Flatten(cs) == xs
            && |cs| == CeilDiv(|xs|, n)
            && (forall i :: 0 <= i < |cs| ==> 0 < |cs[i]| <= n)
            && (forall i :: 0 <= i < |cs| - 1 ==> |cs[i]| == n)
  {
    if xs != [] { CeilStep(|xs|, n); } else { CeilBrackets(0, n); }
    if |xs| > n {
      var rest := Chunks(xs[n..], n);
      ChunksAreExact(xs[n..], n);
      assert ([xs[..n]] + rest)[1..] == rest;
    } else if xs != [] {
      assert [xs][1..] == [] && xs + Flatten([xs][1..]) == xs;
    }
  }
}
