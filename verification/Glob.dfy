/** The importer's ref globs: a greedy leftmost matcher against the meaning of `*`
    (crates/walgit-cli/src/import.rs:25-72). */
module Glob {
  import opened RefNames
  import opened Seqs

  /** What a pattern means: a star stands for any run of characters, anything else for itself. */
  ghost predicate Means(pattern: string, s: string) {
    if pattern == [] then s == []
    else if pattern[0] == '*' then exists k | 0 <= k <= |s| :: Means(pattern[1..], s[k..])
    else s != [] && s[0] == pattern[0] && Means(pattern[1..], s[1..])
  }

  /** The literal pieces between the stars. */
  function Split(pattern: string): (pieces: seq<string>)
    ensures |pieces| >= 1
    ensures |pieces| == 1 ==> pieces == [pattern]
  {
    if pattern == [] then [[]]
    else
      var rest := Split(pattern[1..]);
      assert pattern == [pattern[0]] + pattern[1..];
      if pattern[0] == '*' then [[]] + rest else [[pattern[0]] + rest[0]] + rest[1..]
  }

  /** s is the first piece, then anything, then the next piece, and so on to the last. */
  ghost predicate PiecesMatch(pieces: seq<string>, s: string)
    requires pieces != []
    decreases |pieces|, 0
  {
    if |pieces| == 1 then s == pieces[0]
    else StartsWith(s, pieces[0]) && Gap(pieces[1..], s[|pieces[0]|..])
  }

  ghost predicate Gap(pieces: seq<string>, s: string)
    requires pieces != []
    decreases |pieces|, 1
  {
    exists k | 0 <= k <= |s| :: PiecesMatch(pieces, s[k..])
  }

  lemma {:induction false} SplitKeepsMeaning(pattern: string, s: string)
    ensures Means(pattern, s) <==> PiecesMatch(Split(pattern), s)
    decreases pattern
  {
    if pattern != [] {
      var pieces := Split(pattern);
      var rest := Split(pattern[1..]);
      if pattern[0] == '*' {
        assert pieces[1..] == rest && s[0..] == s;
        forall k | 0 <= k <= |s|
          ensures Means(pattern[1..], s[k..]) <==> PiecesMatch(rest, s[k..])
        {
          SplitKeepsMeaning(pattern[1..], s[k..]);
        }
      } else if s != [] {
        SplitKeepsMeaning(pattern[1..], s[1..]);
        FirstCharacter(pattern[0], rest, pieces, s);
      }
    }
  }

  lemma FirstCharacter(c: char, rest: seq<string>, pieces: seq<string>, s: string)
    requires rest != [] && s != [] && pieces == [[c] + rest[0]] + rest[1..]
    ensures PiecesMatch(pieces, s) <==> s[0] == c && PiecesMatch(rest, s[1..])
  {
    assert pieces[1..] == rest[1..];
    assert s == [s[0]] + s[1..];
    if |pieces| > 1 {
      assert StartsWith(s, pieces[0]) <==> s[0] == c && StartsWith(s[1..], rest[0]) by {
        if StartsWith(s, pieces[0]) {
          assert s[0] == pieces[0][0];
          assert s[1..][..|rest[0]|] == s[..|pieces[0]|][1..];
        }
      }
      if StartsWith(s, pieces[0]) {
        DropDrop(s, 1, |rest[0]|);
      }
    }
  }

  /** Starting to look earlier loses no match. */
  lemma GapMonotone(pieces: seq<string>, s: string, i: nat, j: nat)
    requires pieces != [] && i <= j <= |s| && Gap(pieces, s[j..])
    ensures Gap(pieces, s[i..])
  {
    var k :| 0 <= k <= |s[j..]| && PiecesMatch(pieces, s[j..][k..]);
    DropDrop(s, j, k);
    DropDrop(s, i, j - i + k);
    assert PiecesMatch(pieces, s[i..][j - i + k..]);
  }

  /** The piece occurs in s at position at and nowhere before. */
  ghost predicate Leftmost(s: string, piece: string, at: nat) {
    && at <= |s| && StartsWith(s[at..], piece)
    && forall k | 0 <= k < at :: !StartsWith(s[k..], piece)
  }

  method Find(s: string, piece: string) returns (found: bool, at: nat)
    ensures found ==> Leftmost(s, piece, at)
    ensures !found ==> forall k | 0 <= k <= |s| :: !StartsWith(s[k..], piece)
  {
    at := 0;
    while at <= |s|
      invariant at <= |s| + 1
      invariant forall k | 0 <= k < at :: !StartsWith(s[k..], piece)
    {
      if StartsWith(s[at..], piece) {
        return true, at;
      }
      at := at + 1;
    }
    found := false;
  }

  /** Taking the leftmost occurrence of a middle piece decides the gap. */
  lemma GreedyStep(pieces: seq<string>, s: string, at: nat)
    requires |pieces| > 1 && Leftmost(s, pieces[0], at)
    ensures at + |pieces[0]| <= |s|
    ensures Gap(pieces, s) <==> Gap(pieces[1..], s[at + |pieces[0]|..])
  {
    assert at + |pieces[0]| <= |s| by {
      assert |pieces[0]| <= |s[at..]|;
    }
    hide Gap, StartsWith;
    if Gap(pieces, s) {
      NoMatchLost(pieces, s, at);
    }
    if Gap(pieces[1..], s[at + |pieces[0]|..]) {
      LeftmostMatches(pieces, s, at);
    }
  }

  lemma NoMatchLost(pieces: seq<string>, s: string, at: nat)
    requires |pieces| > 1 && Leftmost(s, pieces[0], at) && at + |pieces[0]| <= |s| && Gap(pieces, s)
    ensures Gap(pieces[1..], s[at + |pieces[0]|..])
  {
    hide StartsWith, PiecesMatch;
    var k := MatchPlace(pieces, s);
    hide Gap;
    MatchFollows(pieces, s[k..]);
    assert at <= k;
    DropDrop(s, k, |pieces[0]|);
    GapMonotone(pieces[1..], s, at + |pieces[0]|, k + |pieces[0]|);
  }

  lemma MatchPlace(pieces: seq<string>, s: string) returns (k: nat)
    requires pieces != [] && Gap(pieces, s)
    ensures k <= |s| && PiecesMatch(pieces, s[k..])
  {
    hide PiecesMatch;
    k :| 0 <= k <= |s| && PiecesMatch(pieces, s[k..]);
  }

  lemma MatchFollows(pieces: seq<string>, t: string)
    requires |pieces| > 1 && PiecesMatch(pieces, t)
    ensures StartsWith(t, pieces[0]) && |pieces[0]| <= |t| && Gap(pieces[1..], t[|pieces[0]|..])
  {
    hide Gap;
  }

  lemma LeftmostMatches(pieces: seq<string>, s: string, at: nat)
    requires |pieces| > 1 && at <= |s| && StartsWith(s[at..], pieces[0]) && at + |pieces[0]| <= |s|
    requires Gap(pieces[1..], s[at + |pieces[0]|..])
    ensures Gap(pieces, s)
  {
    hide StartsWith;
    DropDrop(s, at, |pieces[0]|);
    assert PiecesMatch(pieces, s[at..]);
  }

  lemma LastPiece(piece: string, s: string)
    ensures Gap([piece], s) <==> EndsWith(s, piece)
  {
    if Gap([piece], s) {
      var k :| 0 <= k <= |s| && PiecesMatch([piece], s[k..]);
      assert k == |s| - |piece|;
    }
    if EndsWith(s, piece) {
      assert PiecesMatch([piece], s[|s| - |piece|..]);
    }
  }

  method GlobMatch(pattern: string, s: string) returns (matches: bool)
    ensures matches <==> Means(pattern, s)
  {
    hide Means, PiecesMatch, Split;
    SplitKeepsMeaning(pattern, s);
    var parts := Split(pattern);
    if |parts| == 1 {
      OnePiece(pattern, s);
      return pattern == s;
    }
    if !StartsWith(s, parts[0]) {
      FirstPiece(parts, s);
      return false;
    }
    FirstPiece(parts, s);
    var pos: nat := |parts[0]|;
    for i := 1 to |parts| - 1
      invariant pos <= |s|
      invariant Means(pattern, s) <==> Gap(parts[i..], s[pos..])
    {
      var part := parts[i];
      DropDrop(parts, i, 1);
      if part != [] {
        var found, at := Find(s[pos..], part);
        if !found {
          NoOccurrence(parts[i..], s[pos..]);
          return false;
        }
        GreedyStep(parts[i..], s[pos..], at);
        DropDrop(s, pos, at + |part|);
        pos := pos + at + |part|;
      } else {
        GreedyStep(parts[i..], s[pos..], 0);
        DropDrop(s, pos, 0);
      }
    }
    assert parts[|parts| - 1..] == [parts[|parts| - 1]];
    LastPiece(parts[|parts| - 1], s[pos..]);
    matches := EndsWith(s[pos..], parts[|parts| - 1]);
  }

  lemma OnePiece(pattern: string, s: string)
    ensures PiecesMatch([pattern], s) <==> s == pattern
  {
  }

  lemma FirstPiece(pieces: seq<string>, s: string)
    requires |pieces| > 1
    ensures PiecesMatch(pieces, s) <==> StartsWith(s, pieces[0]) && Gap(pieces[1..], s[|pieces[0]|..])
  {
  }

  lemma NoOccurrence(pieces: seq<string>, s: string)
    requires |pieces| > 1 && forall k | 0 <= k <= |s| :: !StartsWith(s[k..], pieces[0])
    ensures !Gap(pieces, s)
  {
  }

  /** Which refs an import publishes: HEAD's target always; without globs, branches and tags. */
  method Keep(globs: seq<string>, name: string, headTarget: string) returns (keep: bool)
    ensures keep <==>
      || (headTarget != [] && name == headTarget)
      || (globs == [] && (StartsWith(name, "refs/heads/") || StartsWith(name, "refs/tags/")))
      || exists g :: g in globs && Means(g, name)
  {
    hide Means;
    if headTarget != [] && name == headTarget {
      return true;
    }
    if globs == [] {
      return StartsWith(name, "refs/heads/") || StartsWith(name, "refs/tags/");
    }
    for i := 0 to |globs|
      invariant forall k | 0 <= k < i :: !Means(globs[k], name)
    {
      var matches := GlobMatch(globs[i], name);
      if matches {
        return true;
      }
    }
    return false;
  }
}
