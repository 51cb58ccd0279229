/** Cutting the directory listing into consecutive batches, as the loop at the
    end of `Main` does with LINQ's `Skip` and `Take`. */
module Batching {

  /** LINQ `Skip(n)`: everything after the first n elements. */
  function Skip<T>(s: seq<T>, n: nat): seq<T>
  {
    if n >= |s| then [] else s[n..]
  }

  /** LINQ `Take(n)`: the first n elements, or all of them when there are fewer. */
  function Take<T>(s: seq<T>, n: nat): seq<T>
  {
    if n >= |s| then s else s[..n]
  }

  /** The concatenation of a sequence of batches. */
  function Flatten<T>(ss: seq<seq<T>>): seq<T>
  {
    if |ss| == 0 then [] else ss[0] + Flatten(ss[1..])
  }

  /** The batches of size b, peeled off the front one at a time. */
  function Batches<T>(s: seq<T>, b: nat): seq<seq<T>>
    requires b > 0
    decreases |s|
  {
    if |s| == 0 then [] else [Take(s, b)] + Batches(Skip(s, b), b)
  }

  lemma FlattenCons<U>(x: seq<U>, rest: seq<seq<U>>)
    ensures Flatten([x] + rest) == x + Flatten(rest)
  {
    assert ([x] + rest)[1..] == rest;
  }

  lemma TakeSkip<U>(s: seq<U>, n: nat)
    ensures Take(s, n) + Skip(s, n) == s
  {
  }

  /** Concatenating the batches gives back the whole list, in order: nothing
      is lost, repeated or moved. */
  lemma {:induction false} BatchesFlatten<T>(s: seq<T>, b: nat)
    requires b > 0
    ensures Flatten(Batches(s, b)) == s
    decreases |s|
  {
    if |s| > 0 {
      var rest := Batches(Skip(s, b), b);
      BatchesFlatten(Skip(s, b), b);
      FlattenCons(Take(s, b), rest);
      TakeSkip(s, b);
    }
  }

  /** Every batch is non-empty and holds at most b elements, and every batch
      but the last holds exactly b. */
  lemma {:induction false} BatchSizes<T>(s: seq<T>, b: nat)
    requires b > 0
    ensures forall i :: 0 <= i < |Batches(s, b)| ==> 0 < |Batches(s, b)[i]| <= b
    ensures forall i :: 0 <= i < |Batches(s, b)| - 1 ==> |Batches(s, b)[i]| == b
    decreases |s|
  {
    if |s| > 0 {
      BatchSizes(Skip(s, b), b);
      var rest := Batches(Skip(s, b), b);
      assert forall i :: 0 < i < |Batches(s, b)| ==> Batches(s, b)[i] == rest[i - 1];
    }
  }

  lemma SkipSkip<T>(s: seq<T>, m: nat, n: nat)
    ensures Skip(Skip(s, m), n) == Skip(s, m + n)
  {
  }

  /** ceil(n / b), counted by repeated subtraction. */
  function CeilDiv(n: nat, b: nat): nat
    requires b > 0
    decreases n
  {
    if n == 0 then 0 else if n <= b then 1 else 1 + CeilDiv(n - b, b)
  }

  /** The offset b*i of batch i, written as i-fold addition of b. */
  function Times(b: nat, i: nat): nat
  {
    if i == 0 then 0 else Times(b, i - 1) + b
  }

  /** The offset is the product the source computes. */
  lemma {:induction false} TimesIsProduct(b: nat, i: nat)
    ensures Times(b, i) == b * i
  {
    if i > 0 {
      TimesIsProduct(b, i - 1);
      assert b * i == b * (i - 1) + b;
    }
  }

  /** The repeated-subtraction count is the ceiling of n / b: the least q
      with n <= b*q. */
  lemma {:induction false} CeilDivIsCeiling(n: nat, b: nat)
    requires b > 0
    ensures n <= Times(b, CeilDiv(n, b))
    ensures n > 0 ==> Times(b, CeilDiv(n, b) - 1) < n
    decreases n
  {
    if n > b {
      CeilDivIsCeiling(n - b, b);
    }
  }

  /** `n > b*i` holds exactly for the i below ceil(n / b). */
  lemma {:induction false} CeilDivGuard(n: nat, b: nat, i: nat)
    requires b > 0
    ensures n > Times(b, i) <==> i < CeilDiv(n, b)
    decreases i
  {
    if i > 0 && n > b {
      CeilDivGuard(n - b, b, i - 1);
    }
  }

  /** A list of n elements gives ceil(n / b) batches; in particular the empty
      list gives none. */
  lemma {:induction false} BatchCount<T>(s: seq<T>, b: nat)
    requires b > 0
    ensures |Batches(s, b)| == CeilDiv(|s|, b)
    ensures |s| <= Times(b, |Batches(s, b)|)
    ensures |s| > 0 ==> Times(b, |Batches(s, b)| - 1) < |s|
    decreases |s|
  {
    if |s| > 0 {
      BatchCount(Skip(s, b), b);
    }
    CeilDivIsCeiling(|s|, b);
  }

  /** Dropping the first batch shifts the rest down by one. */
  lemma BatchesTail<T>(s: seq<T>, b: nat, i: nat)
    requires b > 0
    requires 0 < i < |Batches(s, b)|
    ensures i - 1 < |Batches(Skip(s, b), b)|
    ensures Batches(s, b)[i] == Batches(Skip(s, b), b)[i - 1]
  {
    assert Batches(s, b) == [Take(s, b)] + Batches(Skip(s, b), b);
  }

  /** The first batch is the first b elements. */
  lemma BatchesHead<T>(s: seq<T>, b: nat)
    requires b > 0
    requires 0 < |Batches(s, b)|
    ensures Batches(s, b)[0] == Take(Skip(s, Times(b, 0)), b)
  {
    assert Batches(s, b) == [Take(s, b)] + Batches(Skip(s, b), b);
    assert Skip(s, 0) == s;
  }

  lemma SkipBatch<T>(s: seq<T>, b: nat, i: nat)
    requires i > 0
    ensures Skip(Skip(s, b), Times(b, i - 1)) == Skip(s, Times(b, i))
  {
    SkipSkip(s, b, Times(b, i - 1));
  }

  /** The i-th batch is exactly what the source's loop body passes on in its
      i-th round: `Skip(i*b).Take(b)`. */
  lemma {:induction false} BatchAt<T>(s: seq<T>, b: nat, i: nat)
    requires b > 0
    requires i < |Batches(s, b)|
    ensures Batches(s, b)[i] == Take(Skip(s, Times(b, i)), b)
    decreases i
  {
    if i == 0 {
      BatchesHead(s, b);
    } else {
      var rest := Skip(s, b);
      BatchesTail(s, b, i);
      BatchAt(rest, b, i - 1);
      SkipBatch(s, b, i);
      assert Batches(s, b)[i] == Take(Skip(rest, Times(b, i - 1)), b);
    }
  }

  /** The source's loop condition `Count > b*i` holds exactly while i is
      below the number of batches. */
  lemma LoopGuard<T>(s: seq<T>, b: nat, i: nat)
    requires b > 0
    ensures |s| > Times(b, i) <==> i < |Batches(s, b)|
  {
    BatchCount(s, b);
    CeilDivGuard(|s|, b, i);
  }

  /** Element j of batch i is element b*i + j of the list. */
  lemma BatchElement<T>(s: seq<T>, b: nat, i: nat, j: nat)
    requires b > 0
    requires i < |Batches(s, b)|
    requires j < |Batches(s, b)[i]|
    ensures Times(b, i) + j < |s|
    ensures Batches(s, b)[i][j] == s[Times(b, i) + j]
  {
    BatchAt(s, b, i);
    WindowAt(s, Times(b, i), b, j);
  }

  /** Element j of `Skip(n).Take(b)` is element n + j of the list. */
  lemma WindowAt<T>(s: seq<T>, n: nat, b: nat, j: nat)
    requires j < |Take(Skip(s, n), b)|
    ensures n + j < |s| && Take(Skip(s, n), b)[j] == s[n + j]
  {
    assert n < |s|;
  }

  lemma PrefixSnoc<U>(a: seq<U>, i: nat)
    requires i < |a|
    ensures a[..i + 1] == a[..i] + [a[i]]
  {
  }

  /** While the loop condition holds, the loop body's `Skip(b*i).Take(b)` is
      batch i. */
  lemma NextBatch<T>(s: seq<T>, b: nat, i: nat)
    requires b > 0
    requires |s| > Times(b, i)
    ensures i < |Batches(s, b)|
    ensures Take(Skip(s, Times(b, i)), b) == Batches(s, b)[i]
  {
    LoopGuard(s, b, i);
    BatchAt(s, b, i);
  }

  /** One round of the batching loop extends the batches made so far by the
      next one. */
  lemma PartitionStep<T>(s: seq<T>, b: nat, i: nat, batches: seq<seq<T>>)
    requires b > 0
    requires |s| > Times(b, i)
    requires i <= |Batches(s, b)|
    requires batches == Batches(s, b)[..i]
    ensures i < |Batches(s, b)|
    ensures batches + [Take(Skip(s, Times(b, i)), b)] == Batches(s, b)[..i + 1]
  {
    NextBatch(s, b, i);
    PrefixSnoc(Batches(s, b), i);
  }

  /** The batching loop of `Main`, with the per-batch work left out: for
      i = 0, 1, ... while the list is longer than b*i, take the b elements
      after the first b*i. It yields exactly the partition of the file list
      into batches, so the batches concatenate back to the list and there
      are ceil(n / b) of them. `Driver.ProcessBatches` is the same loop with
      each batch processed; both visit the batches `Batches(s, b)` in order. */
  method Partition(s: seq<string>, b: nat) returns (batches: seq<seq<string>>)
    requires b > 0
    ensures batches == Batches(s, b)
    ensures Flatten(batches) == s
    ensures |batches| == CeilDiv(|s|, b)
  {
    batches := [];
    var i: nat := 0;
    while |s| > Times(b, i)
      invariant i <= |Batches(s, b)|
      invariant batches == Batches(s, b)[..i]
      decreases |s| - Times(b, i)
    {
      PartitionStep(s, b, i, batches);
      batches := batches + [Take(Skip(s, Times(b, i)), b)];
      i := i + 1;
    }
    LoopGuard(s, b, i);
    BatchCount(s, b);
    BatchesFlatten(s, b);
    assert batches == Batches(s, b);
  }
}
