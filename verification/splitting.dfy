/** Rust's `str::split` on a non-empty literal pattern and `[&str]::join`,
    as used by `execute_raw` (split on `" | "`) and, as a reference, by the
    tokenizer's lemmas (split on `' '`). */
module Splitting {

  /** `d` occurs in `s` starting at index `i`. */
  predicate OccursAt(s: string, d: string, i: int)
  {
    0 <= i && i + |d| <= |s| && s[i..i + |d|] == d
  }

  predicate Contains(s: string, d: string)
  {
    exists i :: 0 <= i <= |s| && OccursAt(s, d, i)
  }

  /** Leftmost, non-overlapping split of `s` on `d`: scanning from the left,
      an occurrence of `d` ends the current piece and the scan resumes right
      after it; `s` without any occurrence is one piece. */
  function Split(s: string, d: string): (pieces: seq<string>)
    requires |d| > 0
    ensures |pieces| >= 1
    decreases |s|
  {
    if |s| < |d| then [s]
    else if s[..|d|] == d then [[]] + Split(s[|d|..], d)
    else
      var rest := Split(s[1..], d);
      [[s[0]] + rest[0]] + rest[1..]
  }

  /** Dropping the first character shifts every occurrence one place left. */
  lemma OccursShift(s: string, d: string, i: nat)
    requires |s| >= 1
    ensures OccursAt(s[1..], d, i) <==> OccursAt(s, d, i + 1)
  {
    if i + 1 + |d| <= |s| {
      assert s[1..][i..i + |d|] == s[i + 1..i + 1 + |d|];
    }
  }

  /** The first occurrence of `d` in `s` starts at index `k`. */
  predicate FirstOccurrence(s: string, d: string, k: nat)
  {
    OccursAt(s, d, k) && forall i :: 0 <= i < k ==> !OccursAt(s, d, i)
  }

  lemma FirstOccurrenceCons(s: string, d: string, k: nat)
    requires |s| >= 1 && !OccursAt(s, d, 0)
    requires FirstOccurrence(s[1..], d, k)
    ensures FirstOccurrence(s, d, k + 1)
  {
    OccursShift(s, d, k);
    forall i | 0 < i < k + 1
      ensures !OccursAt(s, d, i)
    {
      OccursShift(s, d, i - 1);
    }
  }

  /** `pieces`, if more than one, start with the text before the first
      occurrence of `d` in `s`, followed by the split of what comes after
      that occurrence. */
  predicate SplitsLeftmost(s: string, d: string, pieces: seq<string>)
    requires |d| > 0
  {
    |pieces| >= 2 ==>
      && |pieces[0]| + |d| <= |s|
      && FirstOccurrence(s, d, |pieces[0]|)
      && pieces[1..] == Split(s[|pieces[0]| + |d|..], d)
  }

  lemma LeftmostAtDelimiter(s: string, d: string)
    requires |d| > 0 && |s| >= |d| && s[..|d|] == d
    ensures SplitsLeftmost(s, d, Split(s, d))
  {
    var rest := Split(s[|d|..], d);
    assert Split(s, d) == [[]] + rest;
    assert OccursAt(s, d, 0);
    assert ([[]] + rest)[1..] == rest;
  }

  /** Putting a character that starts no occurrence in front of the text
      and of the first piece keeps a split leftmost. */
  lemma LeftmostCons(s: string, d: string, rest: seq<string>)
    requires |d| > 0 && |s| >= 1 && !OccursAt(s, d, 0)
    requires |rest| >= 1 && SplitsLeftmost(s[1..], d, rest)
    ensures SplitsLeftmost(s, d, [[s[0]] + rest[0]] + rest[1..])
  {
    var pieces := [[s[0]] + rest[0]] + rest[1..];
    if |pieces| >= 2 {
      var k := |rest[0]|;
      FirstOccurrenceCons(s, d, k);
      assert s[1..][k + |d|..] == s[k + 1 + |d|..];
      assert pieces[1..] == rest[1..];
    }
  }

  lemma LeftmostAfterChar(s: string, d: string)
    requires |d| > 0 && |s| >= |d| && s[..|d|] != d
    requires SplitsLeftmost(s[1..], d, Split(s[1..], d))
    ensures SplitsLeftmost(s, d, Split(s, d))
  {
    var rest := Split(s[1..], d);
    assert Split(s, d) == [[s[0]] + rest[0]] + rest[1..];
    assert !OccursAt(s, d, 0) by {
      assert s[0..|d|] == s[..|d|];
    }
    LeftmostCons(s, d, rest);
  }

  /** The split is leftmost, as `str::split` promises: the first piece runs
      up to the first occurrence of the delimiter, and the other pieces are
      the split of what follows that occurrence. */
  lemma {:induction false} SplitLeftmost(s: string, d: string)
    requires |d| > 0
    ensures var pieces := Split(s, d);
      |pieces| >= 2 ==>
        && FirstOccurrence(s, d, |pieces[0]|)
        && pieces[1..] == Split(s[|pieces[0]| + |d|..], d)
    decreases |s|
  {
    if |s| < |d| {
      assert Split(s, d) == [s];
    } else if s[..|d|] == d {
      LeftmostAtDelimiter(s, d);
    } else {
      SplitLeftmost(s[1..], d);
      LeftmostAfterChar(s, d);
    }
  }

  /** The pieces glued back with `d` between neighbours; no pieces give `""`. */
  function Join(pieces: seq<string>, d: string): string
  {
    if |pieces| == 0 then []
    else if |pieces| == 1 then pieces[0]
    else pieces[0] + d + Join(pieces[1..], d)
  }

  lemma {:induction false} JoinStartsWithHead(pieces: seq<string>, d: string)
    requires |pieces| >= 1
    ensures |pieces[0]| <= |Join(pieces, d)|
    ensures Join(pieces, d)[..|pieces[0]|] == pieces[0]
  {
    if |pieces| > 1 {
      var tail := d + Join(pieces[1..], d);
      assert Join(pieces, d) == pieces[0] + tail;
    }
  }

  /** Putting one character in front of the first piece puts it in front of
      the joined string. */
  lemma {:induction false} JoinConsFirst(c: char, pieces: seq<string>, d: string)
    requires |pieces| >= 1
    ensures Join([[c] + pieces[0]] + pieces[1..], d) == [c] + Join(pieces, d)
  {
    var ps := [[c] + pieces[0]] + pieces[1..];
    assert ps[1..] == pieces[1..];
  }

  /** Joining the pieces of a split rebuilds the input. */
  lemma {:induction false} JoinSplit(s: string, d: string)
    requires |d| > 0
    ensures Join(Split(s, d), d) == s
    decreases |s|
  {
    if |s| < |d| {
    } else if s[..|d|] == d {
      JoinSplit(s[|d|..], d);
      JoinAfterEmpty(Split(s[|d|..], d), d);
      assert s == d + s[|d|..];
    } else {
      var rest := Split(s[1..], d);
      JoinSplit(s[1..], d);
      JoinConsFirst(s[0], rest, d);
      assert s == [s[0]] + s[1..];
    }
  }

  /** A piece that starts a string which does not itself start with `d`,
      and whose tail avoids `d`, avoids `d`. */
  lemma ConsAvoidsDelimiter(c: char, w: string, s: string, d: string)
    requires |d| > 0
    requires |[c] + w| <= |s| && s[..|[c] + w|] == [c] + w
    requires |s| < |d| || s[..|d|] != d
    requires !Contains(w, d)
    ensures !Contains([c] + w, d)
  {
    var first := [c] + w;
    forall i | 0 <= i <= |first|
      ensures !OccursAt(first, d, i)
    {
      if i == 0 {
        if |d| <= |first| {
          assert first[..|d|] == s[..|d|];
        }
      } else if i + |d| <= |first| {
        assert first[1..] == w;
        assert first[i..i + |d|] == first[1..][i - 1..i - 1 + |d|];
        assert !OccursAt(w, d, i - 1);
      }
    }
  }

  /** No piece of a split contains the delimiter. */
  lemma {:induction false} SplitPiecesAvoidDelimiter(s: string, d: string)
    requires |d| > 0
    ensures forall k :: 0 <= k < |Split(s, d)| ==> !Contains(Split(s, d)[k], d)
    decreases |s|
  {
    var pieces := Split(s, d);
    if |s| < |d| {
      assert pieces == [s];
      assert !Contains(s, d);
    } else if s[..|d|] == d {
      var rest := Split(s[|d|..], d);
      SplitPiecesAvoidDelimiter(s[|d|..], d);
      assert pieces == [[]] + rest;
      forall k | 0 <= k < |pieces|
        ensures !Contains(pieces[k], d)
      {
        if k > 0 {
          assert pieces[k] == rest[k - 1];
        } else {
          assert pieces[k] == [];
        }
      }
    } else {
      var rest := Split(s[1..], d);
      SplitPiecesAvoidDelimiter(s[1..], d);
      JoinSplit(s[1..], d);
      JoinStartsWithHead(rest, d);
      var first := [s[0]] + rest[0];
      assert pieces == [first] + rest[1..];
      assert first == s[..|first|] by {
        assert s == [s[0]] + Join(rest, d);
      }
      ConsAvoidsDelimiter(s[0], rest[0], s, d);
      forall k | 0 <= k < |pieces|
        ensures !Contains(pieces[k], d)
      {
        if k > 0 {
          assert pieces[k] == rest[k];
        }
      }
    }
  }

  /** The last piece splits off from the rest with one delimiter. */
  lemma {:induction false} JoinSnoc(pieces: seq<string>, d: string)
    requires |pieces| >= 2
    ensures Join(pieces, d) == Join(pieces[..|pieces| - 1], d) + d + pieces[|pieces| - 1]
    decreases |pieces|
  {
    if |pieces| > 2 {
      JoinSnoc(pieces[1..], d);
      assert pieces[1..][..|pieces| - 2] == pieces[..|pieces| - 1][1..];
    }
  }

  /** Each join adds one delimiter between neighbours. */
  lemma {:induction false} JoinLength(pieces: seq<string>, d: string)
    requires |pieces| >= 1
    ensures |Join(pieces, d)| >= |d| * (|pieces| - 1)
    decreases |pieces|
  {
    if |pieces| > 1 {
      JoinLength(pieces[1..], d);
    }
  }

  /** A string is one piece exactly when it does not contain the delimiter. */
  lemma SplitIsSingleIff(s: string, d: string)
    requires |d| > 0
    ensures |Split(s, d)| == 1 <==> !Contains(s, d)
  {
    var pieces := Split(s, d);
    JoinSplit(s, d);
    SplitPiecesAvoidDelimiter(s, d);
    if |pieces| == 1 {
      assert !Contains(pieces[0], d);
    } else {
      JoinStartsWithHead(pieces, d);
      assert Join(pieces, d) == pieces[0] + d + Join(pieces[1..], d);
      assert OccursAt(s, d, |pieces[0]|);
    }
  }

  /** One more character read into a sequence of pieces: a character that
      breaks starts a new empty piece, any other joins the last piece. */
  function SnocPieces(pieces: seq<string>, c: char, breaks: bool): seq<string>
    requires |pieces| >= 1
  {
    if breaks then pieces + [[]]
    else pieces[..|pieces| - 1] + [pieces[|pieces| - 1] + [c]]
  }

  lemma SnocPiecesAfterEmpty(inner: seq<string>, c: char, breaks: bool)
    requires |inner| >= 1
    ensures [[]] + SnocPieces(inner, c, breaks) == SnocPieces([[]] + inner, c, breaks)
  {
    if !breaks {
      assert ([[]] + inner)[..|inner|] == [[]] + inner[..|inner| - 1];
    }
  }

  lemma SnocPiecesAfterChar(x: char, inner: seq<string>, c: char, breaks: bool)
    requires |inner| >= 1
    ensures var r := SnocPieces(inner, c, breaks);
      [[x] + r[0]] + r[1..] == SnocPieces([[x] + inner[0]] + inner[1..], c, breaks)
  {
    var k := |inner|;
    var outer := [[x] + inner[0]] + inner[1..];
    var r := SnocPieces(inner, c, breaks);
    if !breaks {
      if k == 1 {
        assert r == [inner[0] + [c]];
        assert outer[..0] == [] && outer[0] == [x] + inner[0];
        assert [x] + (inner[0] + [c]) == ([x] + inner[0]) + [c];
      } else {
        assert r[0] == inner[0];
        assert r[1..] == inner[1..k - 1] + [inner[k - 1] + [c]];
        assert outer[..k - 1] == [[x] + inner[0]] + inner[1..k - 1];
      }
    }
  }

  /** With a one-character delimiter, appending a character either starts a
      new empty piece (the delimiter) or extends the last piece. */
  lemma {:induction false} SplitSnocChar(s: string, c: char, d: char)
    ensures Split(s + [c], [d]) == SnocPieces(Split(s, [d]), c, c == d)
    decreases |s|
  {
    var t := s + [c];
    if s == [] {
      assert t[1..] == [];
      assert t[..1] == [c];
      assert Split([], [d]) == [[]];
      assert Split(s, [d]) == [[]];
      if c == d {
        assert Split(t, [d]) == [[]] + Split([], [d]);
      } else {
        assert t[..1] != [d];
        assert Split(t, [d]) == [[t[0]] + Split(t[1..], [d])[0]] + Split(t[1..], [d])[1..];
        assert t[1..] == [];
        assert Split(t[1..], [d]) == [[]];
        assert [t[0]] + Split(t[1..], [d])[0] == [c];
        assert Split(t[1..], [d])[1..] == [];
        assert Split(t, [d]) == [[c]];
        var empty: string := [];
        var single: seq<string> := [empty];
        assert single[..0] == [];
        assert empty + [c] == [c];
        assert SnocPieces(single, c, false) == [[c]];
      }
    } else {
      assert t[1..] == s[1..] + [c];
      assert t[..1] == s[..1];
      SplitSnocChar(s[1..], c, d);
      var inner := Split(s[1..], [d]);
      if s[..1] == [d] {
        assert Split(s, [d]) == [[]] + inner;
        SnocPiecesAfterEmpty(inner, c, c == d);
      } else {
        assert Split(s, [d]) == [[s[0]] + inner[0]] + inner[1..];
        SnocPiecesAfterChar(s[0], inner, c, c == d);
      }
    }
  }

  /** A leading delimiter splits off an empty first piece. */
  lemma SplitAfterDelimiter(j: string, d: string)
    requires |d| > 0
    ensures Split(d + j, d) == [[]] + Split(j, d)
  {
    assert (d + j)[..|d|] == d;
    assert (d + j)[|d|..] == j;
  }

  /** A string that does not start with the delimiter splits like its tail,
      with the first character added to the first piece. */
  lemma SplitCons(x: char, j: string, front: seq<string>, d: string)
    requires |d| > 0
    requires |[x] + j| < |d| || ([x] + j)[..|d|] != d
    requires Split(j, d) == front
    ensures Split([x] + j, d) == [[x] + front[0]] + front[1..]
  {
    var t := [x] + j;
    assert t[1..] == j;
    if |t| < |d| {
      assert Split(j, d) == [j];
    }
  }

  lemma JoinAfterEmpty(front: seq<string>, d: string)
    requires |front| >= 1
    ensures Join([[]] + front, d) == d + Join(front, d)
  {
    assert ([[]] + front)[1..] == front;
  }

  /** `t` is a prefix of `s`. */
  predicate PrefixOf(t: string, s: string)
  {
    |t| <= |s| && s[..|t|] == t
  }

  /** `s` does not begin with the delimiter `d`. */
  predicate StartsApart(s: string, d: string)
  {
    |s| < |d| || s[..|d|] != d
  }

  /** Joining all pieces but the last and splitting again gives back exactly
      those pieces. */
  predicate FrontResplits(pieces: seq<string>, d: string)
    requires |d| > 0
  {
    |pieces| >= 1 && Split(Join(pieces[..|pieces| - 1], d), d) == pieces[..|pieces| - 1]
  }

  /** Replacing the head of a sequence commutes with dropping its last
      element. */
  lemma FrontOfReplacedHead<T>(x: T, rest: seq<T>)
    requires |rest| >= 2
    ensures ([x] + rest[1..])[..|rest| - 1] == [x] + rest[..|rest| - 1][1..]
  {
  }

  /** Joining all pieces but the last gives a prefix of joining them all. */
  lemma JoinFrontIsPrefix(pieces: seq<string>, d: string)
    requires |pieces| >= 2
    ensures PrefixOf(Join(pieces[..|pieces| - 1], d), Join(pieces, d))
  {
    var front := Join(pieces[..|pieces| - 1], d);
    JoinSnoc(pieces, d);
    assert Join(pieces, d) == front + (d + pieces[|pieces| - 1]);
  }

  /** The joined front of a split is a prefix of the split string. */
  lemma JoinedFrontIsPrefix(s: string, d: string)
    requires |d| > 0
    requires |Split(s, d)| >= 2
    ensures var pieces := Split(s, d);
      PrefixOf(Join(pieces[..|pieces| - 1], d), s)
  {
    JoinSplit(s, d);
    JoinFrontIsPrefix(Split(s, d), d);
  }

  /** Re-splitting the joined front after putting an empty piece before it. */
  lemma ResplitAfterEmpty(rest: seq<string>, pieces: seq<string>, d: string)
    requires |d| > 0 && |rest| >= 2
    requires FrontResplits(rest, d)
    requires pieces == [[]] + rest
    ensures FrontResplits(pieces, d)
  {
    var front := rest[..|rest| - 1];
    assert pieces[..|pieces| - 1] == [[]] + front;
    JoinAfterEmpty(front, d);
    SplitAfterDelimiter(Join(front, d), d);
  }

  /** A prefix of a string that does not start with `d` does not either. */
  lemma PrefixAvoidsStart(s: string, t: string, d: string)
    requires PrefixOf(t, s) && StartsApart(s, d)
    ensures StartsApart(t, d)
  {
    if |d| <= |t| {
      assert t[..|d|] == s[..|t|][..|d|];
    }
  }

  /** The first character of `s` followed by the joined front of the split
      of the rest of `s` is a prefix of `s`. */
  lemma ConsFrontIsPrefix(s: string, d: string)
    requires |d| > 0 && |s| >= |d| && s[..|d|] != d
    requires |Split(s[1..], d)| >= 2
    ensures var rest := Split(s[1..], d);
      PrefixOf([s[0]] + Join(rest[..|rest| - 1], d), s)
  {
    var rest := Split(s[1..], d);
    var pieces := Split(s, d);
    var n := |rest|;
    var front := rest[..n - 1];
    assert pieces == [[s[0]] + rest[0]] + rest[1..];
    FrontOfReplacedHead([s[0]] + rest[0], rest);
    JoinConsFirst(s[0], front, d);
    JoinedFrontIsPrefix(s, d);
  }

  /** The inductive step of `SplitOfJoinedPrefix` when `s` does not start
      with the delimiter: `pieces` are the pieces of `s`, built from the
      pieces `rest` of its tail. */
  lemma ResplitAfterFirstChar(s: string, rest: seq<string>, pieces: seq<string>, d: string)
    requires |d| > 0 && |s| >= 1 && StartsApart(s, d) && |rest| >= 2
    requires FrontResplits(rest, d)
    requires PrefixOf([s[0]] + Join(rest[..|rest| - 1], d), s)
    requires pieces == [[s[0]] + rest[0]] + rest[1..]
    ensures FrontResplits(pieces, d)
  {
    var front := rest[..|rest| - 1];
    var t := [s[0]] + Join(front, d);
    PrefixAvoidsStart(s, t, d);
    JoinConsFirst(s[0], front, d);
    SplitCons(s[0], Join(front, d), front, d);
    FrontOfReplacedHead([s[0]] + rest[0], rest);
  }

  /** Dropping the last piece of a split and joining the others gives a string
      whose own split is exactly those other pieces. */
  lemma {:induction false} SplitOfJoinedPrefix(s: string, d: string)
    requires |d| > 0
    requires |Split(s, d)| >= 2
    ensures FrontResplits(Split(s, d), d)
    decreases |s|
  {
    var pieces := Split(s, d);
    assert |s| >= |d|;
    if s[..|d|] == d {
      var rest := Split(s[|d|..], d);
      assert pieces == [[]] + rest;
      if |rest| == 1 {
        assert pieces[..|pieces| - 1] == [[]];
      } else {
        SplitOfJoinedPrefix(s[|d|..], d);
        ResplitAfterEmpty(rest, pieces, d);
      }
    } else {
      var rest := Split(s[1..], d);
      assert pieces == [[s[0]] + rest[0]] + rest[1..];
      SplitOfJoinedPrefix(s[1..], d);
      ConsFrontIsPrefix(s, d);
      ResplitAfterFirstChar(s, rest, pieces, d);
    }
  }
}
