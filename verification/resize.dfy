/** `ChangeImageResolution` with the pixels abstracted away: for each file of
    a batch, search for the first compression level whose PNG encoding is
    under the size ceiling, and collect the accepted files by base name. */
module Resize {
  import opened Wrappers
  import Paths

  /** The ceiling an encoded PNG must stay strictly below: 8 MiB. */
  const MaxFileSize: nat := 8388608

  /** The image library as the search sees it. `decodes(f)` says whether
      `Image.FromFile(f)` succeeds; `encodedSize(f, level)` is the byte length
      of the PNG of f resampled at that compression level, or None when
      resampling or encoding at that level throws. */
  datatype Codec = Codec(decodes: string -> bool, encodedSize: (string, nat) -> Option<nat>)

  /** What the result map holds for an accepted file: the bitmap made from
      `source` at compression `level`. */
  datatype Resized = Resized(source: string, level: nat)

  /** The encoding at this level is under the ceiling. */
  predicate Fits(c: Codec, f: string, level: nat)
  {
    var size := c.encodedSize(f, level);
    size.Some? && size.value < MaxFileSize
  }

  /** The search stops at this level: the encoding either fits or throws. */
  predicate Stops(c: Codec, f: string, level: nat)
  {
    c.encodedSize(f, level).None? || Fits(c, f, level)
  }

  /** The search for f finishes: f does not decode, or some level stops it.
      (With a positive compression step, shrinking eventually yields a
      zero-sized bitmap, whose construction throws, so the search finishes.
      With a step of 0 every level encodes the same image, and a file whose
      level-0 encoding is too large is searched forever.) */
  ghost predicate SearchEnds(c: Codec, f: string)
  {
    !c.decodes(f) || exists level: nat :: Stops(c, f, level)
  }

  /** At every level below `level` the encoding succeeded but was too large. */
  ghost predicate TooLargeBelow(c: Codec, f: string, level: nat)
  {
    forall j :: 0 <= j < level ==> !Stops(c, f, j)
  }

  /** f is accepted at `level`: it decodes, the encoding at `level` fits, and
      at every lower level the encoding succeeded but was too large. */
  ghost predicate AcceptedAt(c: Codec, f: string, level: nat)
  {
    && c.decodes(f)
    && Fits(c, f, level)
    && TooLargeBelow(c, f, level)
  }

  /** f is skipped: it does not decode, or some encoding throws before any
      level fits. */
  ghost predicate Skipped(c: Codec, f: string)
  {
    || !c.decodes(f)
    || exists level: nat {:trigger TooLargeBelow(c, f, level)} ::
         c.encodedSize(f, level).None? && TooLargeBelow(c, f, level)
  }

  /** The least level at least `from` where the search stops, given that it
      stops at `bound`. */
  ghost function LeastStopFrom(c: Codec, f: string, from: nat, bound: nat): (l: nat)
    requires from <= bound && Stops(c, f, bound)
    ensures from <= l <= bound && Stops(c, f, l)
    ensures forall j :: from <= j < l ==> !Stops(c, f, j)
    decreases bound - from
  {
    if Stops(c, f, from) then from else LeastStopFrom(c, f, from + 1, bound)
  }

  /** The fate of one file: Some(level) when it is accepted at that level,
      None when it is skipped. */
  ghost function Outcome(c: Codec, f: string): (r: Option<nat>)
    requires SearchEnds(c, f)
    ensures r.Some? ==> AcceptedAt(c, f, r.value)
    ensures r.None? ==> Skipped(c, f)
  {
    if !c.decodes(f) then None
    else
      var bound: nat :| Stops(c, f, bound);
      var l := LeastStopFrom(c, f, 0, bound);
      assert TooLargeBelow(c, f, l);
      if Fits(c, f, l) then Some(l) else None
  }

  /** A file is accepted at one level at most. */
  lemma AcceptedAtUnique(c: Codec, f: string, l1: nat, l2: nat)
    requires AcceptedAt(c, f, l1) && AcceptedAt(c, f, l2)
    ensures l1 == l2
  {
    if l1 < l2 {
      assert Stops(c, f, l1);
    } else if l2 < l1 {
      assert Stops(c, f, l2);
    }
  }

  /** An accepted file is not skipped. */
  lemma AcceptedNotSkipped(c: Codec, f: string, l: nat)
    requires AcceptedAt(c, f, l)
    ensures !Skipped(c, f)
  {
    if Skipped(c, f) {
      var level: nat :| c.encodedSize(f, level).None? && TooLargeBelow(c, f, level);
      if level < l {
        assert Stops(c, f, level);
      } else if l < level {
        assert Stops(c, f, l);
      }
    }
  }

  /** Being accepted at a level and being skipped rule each other out, so a
      result that is an acceptance level or a skip, as the case may be, is
      the file's outcome. */
  lemma OutcomeUnique(c: Codec, f: string, r: Option<nat>)
    requires SearchEnds(c, f)
    requires r.Some? ==> AcceptedAt(c, f, r.value)
    requires r.None? ==> Skipped(c, f)
    ensures r == Outcome(c, f)
  {
    var o := Outcome(c, f);
    if r.Some? && o.Some? {
      AcceptedAtUnique(c, f, r.value, o.value);
    } else if r.Some? {
      AcceptedNotSkipped(c, f, r.value);
    } else if o.Some? {
      AcceptedNotSkipped(c, f, o.value);
    }
  }

  /** The try block for one file: decode, then for level = 0, 1, 2, ...
      encode at that level and accept the first encoding under the ceiling;
      a decode or encode failure skips the file. A file whose PNG encoding at
      level 0 already fits is accepted at level 0. */
  method ResizeToFit(c: Codec, f: string) returns (r: Option<nat>)
    requires SearchEnds(c, f)
    ensures r.Some? ==> AcceptedAt(c, f, r.value)
    ensures r.None? ==> Skipped(c, f)
    ensures c.decodes(f) && Fits(c, f, 0) ==> r == Some(0)
  {
    if !c.decodes(f) {
      return None;
    }
    ghost var bound: nat :| Stops(c, f, bound);
    var level: nat := 0;
    while true
      invariant level <= bound
      invariant TooLargeBelow(c, f, level)
      decreases bound - level
    {
      assert level > 0 ==> !Stops(c, f, 0);
      var size := c.encodedSize(f, level);
      if size.None? {
        return None;
      }
      if size.value < MaxFileSize {
        return Some(level);
      }
      level := level + 1;
    }
  }

  /** Every file of the batch has a search that finishes. */
  ghost predicate AllSearchesEnd(c: Codec, files: seq<string>)
  {
    forall i :: 0 <= i < |files| ==> SearchEnds(c, files[i])
  }

  /** The result map of a batch, with the files handled one after another:
      an accepted file is added under its base name unless that name is
      already present (`Dictionary.Add` then throws, and the catch block skips
      the file). */
  ghost function BatchResult(c: Codec, files: seq<string>): map<string, Resized>
    requires AllSearchesEnd(c, files)
    decreases |files|
  {
    if |files| == 0 then map[]
    else
      var front := files[..|files| - 1];
      assert forall i :: 0 <= i < |front| ==> front[i] == files[i];
      AddFile(c, BatchResult(c, front), files[|files| - 1])
  }

  /** One file's contribution to the result map. */
  ghost function AddFile(c: Codec, m: map<string, Resized>, f: string): map<string, Resized>
    requires SearchEnds(c, f)
  {
    match Outcome(c, f)
    case None => m
    case Some(level) =>
      var key := Paths.BaseName(f);
      if key in m then m else m[key := Resized(f, level)]
  }

  lemma PrefixSearchesEnd(c: Codec, files: seq<string>, n: nat)
    requires AllSearchesEnd(c, files)
    requires n <= |files|
    ensures AllSearchesEnd(c, files[..n])
  {
    assert forall i :: 0 <= i < n ==> files[..n][i] == files[i];
  }

  /** The result of a batch is the result of all but its last file, plus the
      last file. */
  lemma BatchResultLast(c: Codec, files: seq<string>)
    requires AllSearchesEnd(c, files)
    requires |files| > 0
    ensures AllSearchesEnd(c, files[..|files| - 1])
    ensures BatchResult(c, files) == AddFile(c, BatchResult(c, files[..|files| - 1]), files[|files| - 1])
  {
    PrefixSearchesEnd(c, files, |files| - 1);
  }

  /** No two files of the batch share a base name, as in one directory's
      listing. */
  ghost predicate DistinctBaseNames(files: seq<string>)
  {
    forall i, j :: 0 <= i < j < |files| ==> Paths.BaseName(files[i]) != Paths.BaseName(files[j])
  }

  /** Entry (k, v) of a result map comes from a file of the batch: v holds
      that file at the level it was accepted at, and k is its base name. */
  ghost predicate KeyFromBatch(c: Codec, files: seq<string>, k: string, v: Resized)
  {
    exists i :: 0 <= i < |files| && files[i] == v.source && Paths.BaseName(files[i]) == k
      && AcceptedAt(c, files[i], v.level)
  }

  lemma KeyWitness(c: Codec, files: seq<string>, k: string, v: Resized, i: nat)
    requires i < |files| && files[i] == v.source && Paths.BaseName(files[i]) == k
    requires AcceptedAt(c, files[i], v.level)
    ensures KeyFromBatch(c, files, k, v)
  {
  }

  /** Adding a file never overwrites an entry. */
  lemma AddFileKeeps(c: Codec, m: map<string, Resized>, f: string, k: string)
    requires SearchEnds(c, f)
    requires k in m
    ensures k in AddFile(c, m, f) && AddFile(c, m, f)[k] == m[k]
  {
  }

  /** A new entry made by adding a file is that file, accepted at the stored
      level, under its base name; and an accepted file's base name is
      present afterwards. */
  lemma AddFileNew(c: Codec, m: map<string, Resized>, f: string)
    requires SearchEnds(c, f)
    ensures forall k :: k in AddFile(c, m, f) && k !in m ==>
      k == Paths.BaseName(f) && AddFile(c, m, f)[k].source == f && AcceptedAt(c, f, AddFile(c, m, f)[k].level)
    ensures Outcome(c, f).Some? ==> Paths.BaseName(f) in AddFile(c, m, f)
  {
  }

  /** Every key of a batch's result map is the base name of a file of the
      batch accepted at the stored level. */
  lemma {:induction false} BatchResultSources(c: Codec, files: seq<string>)
    requires AllSearchesEnd(c, files)
    ensures forall k :: k in BatchResult(c, files) ==> KeyFromBatch(c, files, k, BatchResult(c, files)[k])
    decreases |files|
  {
    if |files| > 0 {
      var n := |files| - 1;
      var front := files[..n];
      var f := files[n];
      BatchResultLast(c, files);
      BatchResultSources(c, front);
      var m := BatchResult(c, front);
      var r := AddFile(c, m, f);
      AddFileNew(c, m, f);
      forall k | k in r
        ensures KeyFromBatch(c, files, k, r[k])
      {
        if k in m {
          AddFileKeeps(c, m, f, k);
          SourceInFront(c, files, k, m[k]);
        } else {
          KeyWitness(c, files, k, r[k], n);
        }
      }
    }
  }

  /** An entry that comes from the files before the last comes from the
      whole batch. */
  lemma SourceInFront(c: Codec, files: seq<string>, k: string, v: Resized)
    requires |files| > 0
    requires KeyFromBatch(c, files[..|files| - 1], k, v)
    ensures KeyFromBatch(c, files, k, v)
  {
    var front := files[..|files| - 1];
    var i :| 0 <= i < |front| && front[i] == v.source && Paths.BaseName(front[i]) == k
      && AcceptedAt(c, front[i], v.level);
    assert files[i] == front[i];
    KeyWitness(c, files, k, v, i);
  }

  /** Every accepted file's base name is a key of the batch's result map. */
  lemma {:induction false} BatchResultHasAccepted(c: Codec, files: seq<string>)
    requires AllSearchesEnd(c, files)
    ensures forall i :: 0 <= i < |files| && Outcome(c, files[i]).Some? ==>
      Paths.BaseName(files[i]) in BatchResult(c, files)
    decreases |files|
  {
    if |files| > 0 {
      var n := |files| - 1;
      var front := files[..n];
      var f := files[n];
      BatchResultLast(c, files);
      BatchResultHasAccepted(c, front);
      var m := BatchResult(c, front);
      AddFileNew(c, m, f);
      forall i | 0 <= i < n && Outcome(c, files[i]).Some?
        ensures Paths.BaseName(files[i]) in AddFile(c, m, f)
      {
        assert files[i] == front[i];
        AddFileKeeps(c, m, f, Paths.BaseName(files[i]));
      }
    }
  }

  /** Adding a file leaves the entries under other names as they were. */
  lemma AddFileOther(c: Codec, m: map<string, Resized>, f: string, k: string)
    requires SearchEnds(c, f)
    requires k != Paths.BaseName(f)
    ensures k in AddFile(c, m, f) <==> k in m
    ensures k in m ==> AddFile(c, m, f)[k] == m[k]
  {
  }

  /** Adding a file under a name not yet present stores it exactly when it
      is accepted. */
  lemma AddFileFresh(c: Codec, m: map<string, Resized>, f: string)
    requires SearchEnds(c, f)
    requires Paths.BaseName(f) !in m
    ensures Paths.BaseName(f) in AddFile(c, m, f) <==> Outcome(c, f).Some?
    ensures Outcome(c, f).Some? ==> AddFile(c, m, f)[Paths.BaseName(f)] == Resized(f, Outcome(c, f).value)
  {
  }

  /** With distinct base names, the last file's name is not yet a key of the
      result of the files before it. */
  lemma LastKeyFresh(c: Codec, files: seq<string>)
    requires AllSearchesEnd(c, files)
    requires DistinctBaseNames(files)
    requires |files| > 0
    ensures AllSearchesEnd(c, files[..|files| - 1])
    ensures Paths.BaseName(files[|files| - 1]) !in BatchResult(c, files[..|files| - 1])
  {
    var n := |files| - 1;
    var front := files[..n];
    PrefixSearchesEnd(c, files, n);
    BatchResultSources(c, front);
  }

  lemma DistinctPrefix(files: seq<string>, n: nat)
    requires DistinctBaseNames(files)
    requires n <= |files|
    ensures DistinctBaseNames(files[..n])
  {
    assert forall i :: 0 <= i < n ==> files[..n][i] == files[i];
  }

  /** When base names are distinct, the result map holds exactly the accepted
      files: a file's base name is a key if and only if the file is accepted,
      and then it maps to that file at its acceptance level. */
  lemma {:induction false} BatchResultExact(c: Codec, files: seq<string>)
    requires AllSearchesEnd(c, files)
    requires DistinctBaseNames(files)
    ensures forall i :: 0 <= i < |files| ==>
      (Paths.BaseName(files[i]) in BatchResult(c, files) <==> Outcome(c, files[i]).Some?)
    ensures forall i :: 0 <= i < |files| && Outcome(c, files[i]).Some? ==>
      BatchResult(c, files)[Paths.BaseName(files[i])] == Resized(files[i], Outcome(c, files[i]).value)
    decreases |files|
  {
    if |files| > 0 {
      var n := |files| - 1;
      var front := files[..n];
      var last := files[n];
      BatchResultLast(c, files);
      DistinctPrefix(files, n);
      BatchResultExact(c, front);
      LastKeyFresh(c, files);
      var m := BatchResult(c, front);
      var r := BatchResult(c, files);
      assert r == AddFile(c, m, last);
      AddFileFresh(c, m, last);
      forall i | 0 <= i < n
        ensures Paths.BaseName(files[i]) in r <==> Outcome(c, files[i]).Some?
        ensures Outcome(c, files[i]).Some? ==>
          r[Paths.BaseName(files[i])] == Resized(files[i], Outcome(c, files[i]).value)
      {
        assert front[i] == files[i];
        AddFileOther(c, m, last, Paths.BaseName(files[i]));
      }
    }
  }

  /** Removing a skipped file from a batch leaves the result map unchanged:
      whatever happens to one file does not affect the others. */
  lemma {:induction false} SkippedFileIrrelevant(c: Codec, xs: seq<string>, f: string, ys: seq<string>)
    requires AllSearchesEnd(c, xs + [f] + ys)
    requires SearchEnds(c, f) && Outcome(c, f) == None
    ensures AllSearchesEnd(c, xs + ys)
    ensures BatchResult(c, xs + [f] + ys) == BatchResult(c, xs + ys)
    decreases |ys|
  {
    var all := xs + [f] + ys;
    assert AllSearchesEnd(c, xs + ys) by {
      forall i | 0 <= i < |xs + ys|
        ensures SearchEnds(c, (xs + ys)[i])
      {
        if i < |xs| {
          assert (xs + ys)[i] == all[i];
        } else {
          assert (xs + ys)[i] == all[i + 1];
        }
      }
    }
    if |ys| == 0 {
      assert all == xs + [f];
      assert xs + ys == xs;
      BatchResultLast(c, all);
      assert all[..|all| - 1] == xs;
    } else {
      var ys' := ys[..|ys| - 1];
      var y := ys[|ys| - 1];
      BatchResultLast(c, all);
      assert all[..|all| - 1] == xs + [f] + ys';
      SkippedFileIrrelevant(c, xs, f, ys');
      BatchResultLast(c, xs + ys);
      assert (xs + ys)[..|xs + ys| - 1] == xs + ys';
      assert all[|all| - 1] == y && (xs + ys)[|xs + ys| - 1] == y;
    }
  }

  /** The per-file loop of `ChangeImageResolution`, run sequentially: each file
      is searched, and an accepted one is added under its base name unless
      the name is already taken. It builds exactly the batch's result map. */
  method ChangeImageResolution(c: Codec, files: seq<string>) returns (result: map<string, Resized>)
    requires AllSearchesEnd(c, files)
    ensures result == BatchResult(c, files)
  {
    result := map[];
    for i := 0 to |files|
      invariant AllSearchesEnd(c, files[..i])
      invariant result == BatchResult(c, files[..i])
    {
      PrefixSearchesEnd(c, files, i + 1);
      assert files[..i + 1][..i] == files[..i];
      var f := files[i];
      var r := ResizeToFit(c, f);
      OutcomeUnique(c, f, r);
      if r.Some? {
        var key := Paths.BaseName(f);
        if key !in result {
          result := result[key := Resized(f, r.value)];
        }
      }
    }
    assert files[..|files|] == files;
  }
}
