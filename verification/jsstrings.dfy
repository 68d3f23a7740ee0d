/**
  The JavaScript string operations behind `split` with a non-empty
  separator and `pop` on the array it returns. `IndexOf` is the search
  `split` performs for each separator occurrence, and `Join` is the inverse
  used to specify `split`: neither is called by the views themselves.
  Strings are `seq<char>`, sequences of Unicode scalar values, where
  JavaScript uses UTF-16 code units; for the ASCII separators used here the
  pieces agree on well-formed strings.
 */
module JsStrings {
  import opened Outcomes

  /** `sep` occurs in `s` starting at index `i`. */
  predicate OccursAt(s: string, sep: string, i: nat) {
    i + |sep| <= |s| && s[i..i + |sep|] == sep
  }

  /** `sep` occurs somewhere in `s`. */
  ghost predicate Contains(s: string, sep: string) {
    exists i: nat :: OccursAt(s, sep, i)
  }

  /** `s.indexOf(sep, from)`: the first occurrence at or after `from`, if any. */
  function IndexOfFrom(s: string, sep: string, from: nat): (r: Option<nat>)
    decreases |s| - from
    ensures r.Some? ==> from <= r.value && OccursAt(s, sep, r.value)
    ensures r.Some? ==> forall j :: from <= j < r.value ==> !OccursAt(s, sep, j)
    ensures r.None? ==> forall j: nat :: from <= j ==> !OccursAt(s, sep, j)
  {
    if from + |sep| > |s| then None
    else if s[from..from + |sep|] == sep then Some(from)
    else IndexOfFrom(s, sep, from + 1)
  }

  /** `s.indexOf(sep)`: the first occurrence in the whole string. */
  function IndexOf(s: string, sep: string): (r: Option<nat>)
    ensures r.Some? ==> OccursAt(s, sep, r.value)
    ensures r.Some? ==> forall j :: 0 <= j < r.value ==> !OccursAt(s, sep, j)
    ensures r.None? <==> !Contains(s, sep)
  {
    IndexOfFrom(s, sep, 0)
  }

  /** `parts.join(sep)`. */
  function Join(parts: seq<string>, sep: string): string {
    if |parts| == 0 then ""
    else if |parts| == 1 then parts[0]
    else parts[0] + sep + Join(parts[1..], sep)
  }

  /** A stretch of `s` in which no occurrence of `sep` starts is free of `sep`. */
  lemma StretchIsFree(s: string, sep: string, start: nat, end: nat)
    requires |sep| > 0 && start <= end <= |s|
    requires forall j :: start <= j < end ==> !OccursAt(s, sep, j)
    ensures !Contains(s[start..end], sep)
  {
    var piece := s[start..end];
    forall p: nat
      ensures !OccursAt(piece, sep, p)
    {
      if p + |sep| <= |piece| {
        var here, there := piece[p..p + |sep|], s[start + p..start + p + |sep|];
        forall q | 0 <= q < |sep|
          ensures here[q] == there[q]
        {
        }
        assert here == there;
        assert !OccursAt(s, sep, start + p);
      }
    }
  }

  /**
    The pieces of `s[start..]` between the non-overlapping occurrences of a
    non-empty `sep`, scanning left to right as `split` does.
   */
  function SplitFrom(s: string, sep: string, start: nat): (parts: seq<string>)
    requires |sep| > 0 && start <= |s|
    decreases |s| - start
    ensures |parts| >= 1
  {
    match IndexOfFrom(s, sep, start)
    case None => [s[start..]]
    case Some(j) => [s[start..j]] + SplitFrom(s, sep, j + |sep|)
  }

  /** Joining the pieces with the separator gives back the text they were cut from. */
  lemma {:induction false} SplitFromJoin(s: string, sep: string, start: nat)
    requires |sep| > 0 && start <= |s|
    ensures Join(SplitFrom(s, sep, start), sep) == s[start..]
    decreases |s| - start
  {
    match IndexOfFrom(s, sep, start)
    case None =>
    case Some(j) =>
      var rest := SplitFrom(s, sep, j + |sep|);
      assert SplitFrom(s, sep, start) == [s[start..j]] + rest;
      JoinCons(s[start..j], rest, sep);
      SplitFromJoin(s, sep, j + |sep|);
      SliceAround(s, sep, start, j);
  }

  /** Joining a first piece in front of at least one more. */
  lemma JoinCons(first: string, rest: seq<string>, sep: string)
    requires |rest| >= 1
    ensures Join([first] + rest, sep) == first + sep + Join(rest, sep)
  {
    assert ([first] + rest)[1..] == rest;
  }

  /** Cutting `s[start..]` around an occurrence of `sep` at `j`. */
  lemma SliceAround(s: string, sep: string, start: nat, j: nat)
    requires start <= j && OccursAt(s, sep, j)
    ensures s[start..] == s[start..j] + sep + s[j + |sep|..]
  {
  }

  /** Where the piece that starts at `start` ends: at the next occurrence of `sep`, or at the end. */
  function PieceEnd(s: string, sep: string, start: nat): (end: nat)
    requires start <= |s|
    ensures start <= end <= |s|
  {
    match IndexOfFrom(s, sep, start)
    case None => |s|
    case Some(j) => j
  }

  /** The first piece from `start` runs up to the next occurrence or the end. */
  lemma SplitFromFirstPiece(s: string, sep: string, start: nat)
    requires |sep| > 0 && start <= |s|
    ensures SplitFrom(s, sep, start)[0] == s[start..PieceEnd(s, sep, start)]
  {
  }

  /** No piece contains the separator. */
  lemma {:induction false} SplitFromPiecesFree(s: string, sep: string, start: nat)
    requires |sep| > 0 && start <= |s|
    ensures forall k :: 0 <= k < |SplitFrom(s, sep, start)| ==> !Contains(SplitFrom(s, sep, start)[k], sep)
    decreases |s| - start
  {
    var parts := SplitFrom(s, sep, start);
    match IndexOfFrom(s, sep, start)
    case None =>
      StretchIsFree(s, sep, start, |s|);
      assert s[start..|s|] == s[start..];
    case Some(j) =>
      StretchIsFree(s, sep, start, j);
      SplitFromPiecesFree(s, sep, j + |sep|);
      assert parts == [s[start..j]] + SplitFrom(s, sep, j + |sep|);
  }

  /** `s.split(sep)` for a non-empty separator. */
  function Split(s: string, sep: string): (parts: seq<string>)
    requires |sep| > 0
    ensures |parts| >= 1
    ensures |parts| == 1 <==> !Contains(s, sep)
  {
    SplitFrom(s, sep, 0)
  }

  /** `s.split(sep).join(sep)` is `s`. */
  lemma SplitJoin(s: string, sep: string)
    requires |sep| > 0
    ensures Join(Split(s, sep), sep) == s
  {
    SplitFromJoin(s, sep, 0);
    assert s[0..] == s;
  }

  /** No piece of a split contains the separator. */
  lemma SplitPiecesFree(s: string, sep: string)
    requires |sep| > 0
    ensures forall k :: 0 <= k < |Split(s, sep)| ==> !Contains(Split(s, sep)[k], sep)
  {
    SplitFromPiecesFree(s, sep, 0);
  }

  /** When the first occurrence is at `i`, the second piece starts right after it. */
  lemma SecondPieceAt(s: string, sep: string, i: nat)
    requires |sep| > 0 && IndexOfFrom(s, sep, 0) == Some(i)
    ensures |Split(s, sep)| >= 2
    ensures Split(s, sep)[1] == s[i + |sep|..PieceEnd(s, sep, i + |sep|)]
  {
    var start := i + |sep|;
    assert Split(s, sep) == [s[0..i]] + SplitFrom(s, sep, start);
    SplitFromFirstPiece(s, sep, start);
  }

  /**
    `s.split(sep)[1]` exists exactly when `sep` occurs, and it is the text
    after the first occurrence up to the next occurrence (or the end).
   */
  lemma SplitSecondPiece(s: string, sep: string)
    requires |sep| > 0
    ensures |Split(s, sep)| >= 2 <==> IndexOf(s, sep).Some?
    ensures IndexOf(s, sep).Some? ==>
              var start := IndexOf(s, sep).value + |sep|;
              |Split(s, sep)| >= 2 && Split(s, sep)[1] == s[start..PieceEnd(s, sep, start)]
  {
    var found := IndexOfFrom(s, sep, 0);
    if found.Some? {
      SecondPieceAt(s, sep, found.value);
    } else {
      assert Split(s, sep) == [s[0..]];
    }
  }

  /** Text appended after a first occurrence does not move it. */
  lemma FirstOccurrenceStays(head: string, tail: string, sep: string, at: nat)
    requires IndexOf(head, sep) == Some(at)
    ensures IndexOf(head + tail, sep) == Some(at)
  {
    var s := head + tail;
    assert s[at..at + |sep|] == head[at..at + |sep|];
    var r := IndexOf(s, sep);
    assert OccursAt(s, sep, at);
    assert r.Some? && r.value <= at;
    assert s[r.value..r.value + |sep|] == head[r.value..r.value + |sep|];
    assert OccursAt(head, sep, r.value);
  }

  /** Past the start of a tail free of `sep`, no occurrence starts. */
  lemma NoOccurrenceInTail(head: string, tail: string, sep: string)
    requires |sep| > 0
    requires !Contains(tail, sep)
    ensures PieceEnd(head + tail, sep, |head|) == |head + tail|
  {
    var s := head + tail;
    forall j: nat | |head| <= j
      ensures !OccursAt(s, sep, j)
    {
      if j + |sep| <= |s| {
        assert s[j..j + |sep|] == tail[j - |head|..j - |head| + |sep|];
        assert !OccursAt(tail, sep, j - |head|);
      }
    }
  }

  /**
    Splitting `<head><sep><tail>` where `sep` first occurs right after
    `<head>` and `<tail>` is free of `sep` gives `<tail>` as second piece.
   */
  lemma SecondPieceOfComposite(head: string, sep: string, tail: string)
    requires |sep| > 0
    requires IndexOf(head + sep, sep) == Some(|head|)
    requires !Contains(tail, sep)
    ensures |Split(head + sep + tail, sep)| >= 2
    ensures Split(head + sep + tail, sep)[1] == tail
  {
    var front := head + sep;
    var s := front + tail;
    FirstOccurrenceStays(front, tail, sep, |head|);
    NoOccurrenceInTail(front, tail, sep);
    SecondPieceAt(s, sep, |head|);
    assert s[|front|..] == tail;
  }

  /** Joining all but the last piece, then the separator, then the last piece. */
  lemma {:induction false} JoinLast(parts: seq<string>, sep: string)
    requires |parts| >= 2
    ensures Join(parts, sep) == Join(parts[..|parts| - 1], sep) + sep + parts[|parts| - 1]
  {
    if |parts| == 2 {
      assert parts[..1] == [parts[0]];
    } else {
      var tail := parts[1..];
      JoinLast(tail, sep);
      assert tail[..|tail| - 1] == parts[..|parts| - 1][1..];
      assert tail[|tail| - 1] == parts[|parts| - 1];
    }
  }

  /** For a one-character separator, occurring is being an element. */
  lemma ContainsChar(s: string, c: char)
    ensures Contains(s, [c]) <==> c in s
  {
    if c in s {
      var i :| 0 <= i < |s| && s[i] == c;
      assert OccursAt(s, [c], i);
    }
    if Contains(s, [c]) {
      var i: nat :| OccursAt(s, [c], i);
      assert s[i] == s[i..i + 1][0];
    }
  }

  /**
    A string in which character `c` stands at most at index `k` cannot hold a
    separator that has `c` at two distinct offsets.
   */
  lemma NoOccurrenceWithOneMark(s: string, sep: string, c: char, k: nat, a: nat, b: nat)
    requires a < b < |sep| && sep[a] == c && sep[b] == c
    requires forall p :: 0 <= p < |s| && p != k ==> s[p] != c
    ensures !Contains(s, sep)
  {
    forall i: nat
      ensures !OccursAt(s, sep, i)
    {
      if i + |sep| <= |s| {
        if i + a != k {
          assert s[i..i + |sep|][a] != sep[a];
        } else {
          assert s[i..i + |sep|][b] != sep[b];
        }
      }
    }
  }

  /**
    `s.split(c).pop()` for a one-character separator: the text after the
    last `c`, or all of `s` when `c` does not occur.
   */
  function AfterLast(s: string, c: char): (r: string)
    ensures |r| <= |s| && s[|s| - |r|..] == r
    ensures c !in r
    ensures |r| == |s| || s[|s| - |r| - 1] == c
    ensures c !in s ==> r == s
  {
    var parts := Split(s, [c]);
    var last := parts[|parts| - 1];
    SplitPiecesFree(s, [c]);
    SplitJoin(s, [c]);
    ContainsChar(last, c);
    ContainsChar(s, c);
    if |parts| >= 2 then
      JoinLast(parts, [c]);
      assert s == Join(parts[..|parts| - 1], [c]) + [c] + last;
      last
    else
      last
  }

  /** The text after the last separator is unique: any dot-free suffix after a separator (or the whole string) is it. */
  lemma AfterLastUnique(s: string, c: char, e: string)
    requires |e| <= |s| && s[|s| - |e|..] == e
    requires c !in e
    requires |e| == |s| || s[|s| - |e| - 1] == c
    ensures AfterLast(s, c) == e
  {
    var r := AfterLast(s, c);
  }
}
