/** Windows paths as plain strings: `String.Split` on a separator, its
    inverse, and the base name `ChangeImageResolution` keys its results by. */
module Paths {

  /** The separator the source splits file paths on. */
  const Separator: char := '\\'

  /** `s.Split(c)`: the pieces between occurrences of c, empty pieces kept,
      built from the end of s. There is always at least one piece. */
  function Split(s: string, c: char): (parts: seq<string>)
    ensures |parts| >= 1
    decreases |s|
  {
    if |s| == 0 then [""]
    else
      var init := Split(s[..|s| - 1], c);
      var x := s[|s| - 1];
      if x == c then init + [""]
      else init[..|init| - 1] + [init[|init| - 1] + [x]]
  }

  /** `String.Join(c, parts)`: the pieces with c between neighbours. */
  function Join(parts: seq<string>, c: char): string
    requires |parts| >= 1
  {
    if |parts| == 1 then parts[0]
    else Join(parts[..|parts| - 1], c) + [c] + parts[|parts| - 1]
  }

  /** No piece of a split contains the separator. */
  lemma {:induction false} SplitPiecesClean(s: string, c: char)
    ensures forall i :: 0 <= i < |Split(s, c)| ==> c !in Split(s, c)[i]
    decreases |s|
  {
    if |s| > 0 {
      SplitPiecesClean(s[..|s| - 1], c);
    }
  }

  /** Appending a character to the last piece appends it to the joined string. */
  lemma {:induction false} JoinExtendLast(parts: seq<string>, x: char, c: char)
    requires |parts| >= 1
    ensures Join(parts[..|parts| - 1] + [parts[|parts| - 1] + [x]], c) == Join(parts, c) + [x]
  {
    var q := parts[..|parts| - 1] + [parts[|parts| - 1] + [x]];
    if |parts| > 1 {
      assert q[..|q| - 1] == parts[..|parts| - 1];
    }
  }

  /** Appending an empty piece appends the separator to the joined string. */
  lemma JoinAppendEmpty(parts: seq<string>, c: char)
    requires |parts| >= 1
    ensures Join(parts + [""], c) == Join(parts, c) + [c]
  {
    var q := parts + [""];
    assert q[..|q| - 1] == parts;
  }

  /** Split of a string with one more character at the end. */
  lemma SplitSnoc(front: string, x: char, c: char)
    ensures x == c ==> Split(front + [x], c) == Split(front, c) + [""]
    ensures x != c ==>
              Split(front + [x], c) ==
              Split(front, c)[..|Split(front, c)| - 1] + [Split(front, c)[|Split(front, c)| - 1] + [x]]
  {
    var s := front + [x];
    assert s[..|s| - 1] == front;
  }

  /** Splitting loses nothing: joining the pieces with the separator gives the
      original string back. */
  lemma {:induction false} SplitJoin(s: string, c: char)
    ensures Join(Split(s, c), c) == s
    decreases |s|
  {
    if |s| > 0 {
      var front := s[..|s| - 1];
      var x := s[|s| - 1];
      assert s == front + [x];
      SplitJoin(front, c);
      SplitSnoc(front, x, c);
      if x == c {
        JoinAppendEmpty(Split(front, c), c);
      } else {
        JoinExtendLast(Split(front, c), x, c);
      }
    }
  }

  /** The last piece of a split is the suffix of s after the last c: a suffix
      of s, and either all of s or preceded by c. */
  lemma {:induction false} SplitLast(s: string, c: char)
    ensures var parts := Split(s, c);
      var last := parts[|parts| - 1];
      && |last| <= |s|
      && s[|s| - |last|..] == last
      && (|last| < |s| ==> s[|s| - |last| - 1] == c)
    decreases |s|
  {
    if |s| > 0 {
      var front := s[..|s| - 1];
      var x := s[|s| - 1];
      assert s == front + [x];
      SplitLast(front, c);
      SplitSnoc(front, x, c);
    }
  }

  /** `file.Split('\\').Last()`: the last piece of the path. */
  function BaseName(file: string): string
  {
    var parts := Split(file, Separator);
    parts[|parts| - 1]
  }

  /** The base name is the part of the path after the last backslash. It
      contains no backslash and ends the path; the path has a backslash just
      before it unless it is the whole path; and a path without backslashes is
      its own base name. */
  lemma BaseNameIsLastSegment(file: string)
    ensures Separator !in BaseName(file)
    ensures |BaseName(file)| <= |file| && file[|file| - |BaseName(file)|..] == BaseName(file)
    ensures |BaseName(file)| < |file| ==> file[|file| - |BaseName(file)| - 1] == Separator
    ensures Separator !in file ==> BaseName(file) == file
  {
    SplitLast(file, Separator);
    SplitPiecesClean(file, Separator);
  }
}
