/** `CreateFolder`: choosing a name for the output directory that does not
    exist yet. Which directories exist is a finite set of paths. */
module Folders {
  import Decimal

  /** The name tried at attempt k: `path\name` first, then `path\name(0)`,
      `path\name(1)`, ... -- the k-th retry carries the suffix k-1. */
  function Candidate(path: string, name: string, k: nat): string
  {
    path + "\\" + name + (if k == 0 then "" else "(" + Decimal.NatToString(k - 1) + ")")
  }

  /** Different attempts produce different names. */
  lemma CandidateInjective(path: string, name: string, j: nat, k: nat)
    requires Candidate(path, name, j) == Candidate(path, name, k)
    ensures j == k
  {
    var p := path + "\\" + name;
    var cj := Candidate(path, name, j);
    if j > 0 && k > 0 {
      var dj := Decimal.NatToString(j - 1);
      var dk := Decimal.NatToString(k - 1);
      assert cj == p + "(" + dj + ")";
      assert |dj| == |dk|;
      assert dj == cj[|p| + 1..|cj| - 1];
      assert dk == cj[|p| + 1..|cj| - 1];
      Decimal.NatToStringInjective(j - 1, k - 1);
    }
  }

  /** The names of the first n attempts. */
  ghost function Attempts(path: string, name: string, n: nat): set<string>
  {
    set k | 0 <= k < n :: Candidate(path, name, k)
  }

  lemma {:induction false} AttemptsSize(path: string, name: string, n: nat)
    ensures |Attempts(path, name, n)| == n
    decreases n
  {
    if n > 0 {
      AttemptsSize(path, name, n - 1);
      AttemptsSnoc(path, name, n - 1);
    }
  }

  /** One more attempt adds one new name. */
  lemma AttemptsSnoc(path: string, name: string, n: nat)
    ensures Attempts(path, name, n + 1) == Attempts(path, name, n) + {Candidate(path, name, n)}
    ensures Candidate(path, name, n) !in Attempts(path, name, n)
  {
    var c := Candidate(path, name, n);
    if c in Attempts(path, name, n) {
      var k :| 0 <= k < n && Candidate(path, name, k) == c;
      CandidateInjective(path, name, k, n);
    }
  }

  /** If the first n attempts all exist, there are at least n directories. */
  lemma AllTakenBound(existing: set<string>, path: string, name: string, n: nat)
    requires forall k :: 0 <= k < n ==> Candidate(path, name, k) in existing
    ensures n <= |existing|
  {
    AttemptsSize(path, name, n);
    var a := Attempts(path, name, n);
    assert existing == a + (existing - a);
  }

  /** Attempt k is the one `CreateFolder` settles on: its name is free and
      every earlier name is taken. */
  ghost predicate IsFirstFree(existing: set<string>, path: string, name: string, k: nat)
  {
    && Candidate(path, name, k) !in existing
    && forall j :: 0 <= j < k ==> Candidate(path, name, j) in existing
  }

  /** However many directories exist, some attempt among the first
      |existing| + 1 is free. */
  lemma FirstFreeExists(existing: set<string>, path: string, name: string)
    ensures exists k: nat :: k <= |existing| && IsFirstFree(existing, path, name, k)
  {
    var k: nat := 0;
    while Candidate(path, name, k) in existing
      invariant k <= |existing|
      invariant forall j :: 0 <= j < k ==> Candidate(path, name, j) in existing
      decreases |existing| - k
    {
      AllTakenBound(existing, path, name, k + 1);
      k := k + 1;
    }
    assert IsFirstFree(existing, path, name, k);
  }

  /** The loop of `CreateFolder`: try each name in turn and create the first
      one that does not exist. The result was absent before, afterwards the
      directories are the old ones plus exactly it, and it is the first free
      name of the sequence; when `path\name` is free it is taken unsuffixed. */
  method CreateFolder(existing: set<string>, path: string, name: string)
    returns (folder: string, dirs: set<string>)
    ensures folder !in existing
    ensures dirs == existing + {folder}
    ensures exists k :: folder == Candidate(path, name, k) && IsFirstFree(existing, path, name, k)
    ensures path + "\\" + name !in existing ==> folder == path + "\\" + name
  {
    var str := "";
    var i: nat := 0;
    while true
      invariant i <= |existing|
      invariant path + "\\" + name + str == Candidate(path, name, i)
      invariant forall j :: 0 <= j < i ==> Candidate(path, name, j) in existing
      decreases |existing| - i
    {
      folder := path + "\\" + name + str;
      if folder !in existing {
        dirs := existing + {folder};
        assert Candidate(path, name, 0) == path + "\\" + name;
        assert IsFirstFree(existing, path, name, i);
        return;
      }
      AllTakenBound(existing, path, name, i + 1);
      str := "(" + Decimal.NatToString(i) + ")";
      i := i + 1;
    }
  }

  /** Running `CreateFolder` a second time, against the directories the first
      run left, yields a different name: a later attempt, also absent before
      the first run. */
  lemma SecondRunDiffers(existing: set<string>, path: string, name: string, k1: nat, k2: nat)
    requires IsFirstFree(existing, path, name, k1)
    requires IsFirstFree(existing + {Candidate(path, name, k1)}, path, name, k2)
    ensures k1 < k2
    ensures Candidate(path, name, k2) != Candidate(path, name, k1)
    ensures Candidate(path, name, k2) !in existing
  {
  }

  /** When `path\name` exists and `path\name(0)` does not, the folder is
      `path\name(0)`. */
  lemma TakenBaseGetsSuffixZero(existing: set<string>, path: string, name: string, k: nat)
    requires path + "\\" + name in existing
    requires path + "\\" + name + "(0)" !in existing
    requires IsFirstFree(existing, path, name, k)
    ensures Candidate(path, name, k) == path + "\\" + name + "(0)"
  {
    assert Decimal.NatToString(0) == "0";
    assert Candidate(path, name, 0) == path + "\\" + name;
    assert Candidate(path, name, 1) == path + "\\" + name + "(0)";
  }
}
