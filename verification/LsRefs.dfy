/** ls-refs: selecting refs by prefix with one range per prefix over the sorted list
    (crates/walgit-git/src/lib.rs:1842-1945). */
module LsRefs {
  import opened Basics
  import opened Lex
  import opened RefNames
  import opened RefStore
  import opened Seqs

  /** Half-open index ranges. */
  datatype Range = Range(start: nat, end: nat)

  ghost predicate MatchesAny(name: string, prefixes: seq<string>) {
    exists p :: p in prefixes && StartsWith(name, p)
  }

  /** Exactly the indices of the refs whose names start with the prefix. */
  ghost predicate IsPrefixRange(refs: seq<Ref>, p: string, r: Range) {
    && r.start <= r.end <= |refs|
    && forall k | 0 <= k < |refs| :: StartsWith(refs[k].name, p) <==> r.start <= k < r.end
  }

  /** The first index whose name is not below the prefix, by binary search. */
  method PartitionPoint(refs: seq<Ref>, p: string) returns (at: nat)
    requires Sorted(refs)
    ensures at <= |refs|
    ensures forall k | 0 <= k < at :: LexLess(refs[k].name, p)
    ensures forall k | at <= k < |refs| :: LexLeq(p, refs[k].name)
  {
    hide LexLess, LexLeq;
    var hi: nat := |refs|;
    at := 0;
    while at < hi
      invariant at <= hi <= |refs|
      invariant forall k | 0 <= k < at :: LexLess(refs[k].name, p)
      invariant forall k | hi <= k < |refs| :: LexLeq(p, refs[k].name)
    {
      var mid := (at + hi) / 2;
      if LexLess(refs[mid].name, p) {
        forall k | 0 <= k < mid
          ensures LexLess(refs[k].name, p)
        {
          LessTransitive(refs[k].name, refs[mid].name, p);
        }
        at := mid + 1;
      } else {
        NotLess(refs[mid].name, p);
        forall k | mid < k < |refs|
          ensures LexLeq(p, refs[k].name)
        {
          LessIsLeq(refs[mid].name, refs[k].name);
          LexTransitive(p, refs[mid].name, refs[k].name);
        }
        hi := mid;
      }
    }
  }

  lemma NotLess(a: string, b: string)
    requires !LexLess(a, b)
    ensures LexLeq(b, a)
  {
    LexTotal(a, b);
  }

  lemma LessIsLeq(a: string, b: string)
    requires LexLess(a, b)
    ensures LexLeq(a, b)
  {
  }

  /** Binary search for the start, then a scan while the prefix matches, finds every match. */
  method PrefixRange(refs: seq<Ref>, p: string) returns (r: Range)
    requires Sorted(refs)
    ensures IsPrefixRange(refs, p, r)
  {
    hide LexLess, LexLeq, StartsWith;
    var start := PartitionPoint(refs, p);
    var end := start;
    while end < |refs| && StartsWith(refs[end].name, p)
      invariant start <= end <= |refs|
      invariant forall k | start <= k < end :: StartsWith(refs[k].name, p)
    {
      end := end + 1;
    }
    r := Range(start, end);
    forall k | 0 <= k < |refs|
      ensures StartsWith(refs[k].name, p) <==> start <= k < end
    {
      if StartsWith(refs[k].name, p) {
        MatchNotBelow(p, refs[k].name);
        if end <= k {
          MatchesAreContiguous(refs, p, end, k);
        }
      }
    }
  }

  lemma MatchNotBelow(p: string, name: string)
    requires StartsWith(name, p)
    ensures !LexLess(name, p)
  {
    PrefixIsLeast(p, name);
    LexTotal(p, name);
  }

  lemma MatchesAreContiguous(refs: seq<Ref>, p: string, i: nat, k: nat)
    requires Sorted(refs) && i <= k < |refs| && LexLeq(p, refs[i].name) && StartsWith(refs[k].name, p)
    ensures StartsWith(refs[i].name, p)
  {
    if i < k {
      PrefixInterval(p, refs[i].name, refs[k].name);
    }
  }

  // ---- sorting the ranges ----

  predicate RangeLeq(a: Range, b: Range) {
    a.start < b.start || (a.start == b.start && a.end <= b.end)
  }

  ghost predicate RangesSorted(s: seq<Range>) {
    forall i, j | 0 <= i < j < |s| :: RangeLeq(s[i], s[j])
  }

  function InsertRange(s: seq<Range>, r: Range): (t: seq<Range>)
    ensures forall x :: x in t <==> x == r || x in s
    ensures RangesSorted(s) ==> RangesSorted(t)
  {
    if s == [] || RangeLeq(r, s[0]) then [r] + s
    else
      var rest := InsertRange(s[1..], r);
      assert s == [s[0]] + s[1..];
      assert RangesSorted(s) ==> forall x | x in s[1..] :: RangeLeq(s[0], x);
      [s[0]] + rest
  }

  function SortRanges(s: seq<Range>): (t: seq<Range>)
    ensures RangesSorted(t)
    ensures forall x :: x in t <==> x in s
  {
    if s == [] then [] else
      assert s == [s[0]] + s[1..];
      InsertRange(SortRanges(s[1..]), s[0])
  }

  // ---- merging them with a cursor ----

  ghost predicate Covered(ranges: seq<Range>, k: nat) {
    exists r :: r in ranges && r.start <= k < r.end
  }

  /** out lists, in order and once each, the refs at the covered indices, all below the cursor. */
  ghost predicate Merged(refs: seq<Ref>, done: seq<Range>, out: seq<Ref>, at: seq<nat>, cursor: nat) {
    && |at| == |out| && cursor <= |refs|
    && (forall i | 0 <= i < |at| :: at[i] < cursor && out[i] == refs[at[i]])
    && (forall i, j | 0 <= i < j < |at| :: at[i] < at[j])
    && (forall k: nat | k < |refs| :: k in at <==> Covered(done, k))
  }

  /** Everything below the cursor from a later range's start on was already listed. */
  ghost predicate Caught(done: seq<Range>, from: nat, cursor: nat) {
    forall k | from <= k < cursor :: Covered(done, k)
  }

  ghost predicate ListsCovered(refs: seq<Ref>, ranges: seq<Range>, out: seq<Ref>) {
    exists at, cursor :: Merged(refs, ranges, out, at, cursor)
  }

  method MergeRanges(refs: seq<Ref>, ranges: seq<Range>) returns (out: seq<Ref>)
    requires RangesSorted(ranges) && forall r | r in ranges :: r.start <= r.end <= |refs|
    ensures ListsCovered(refs, ranges, out)
  {
    hide Covered;
    out := [];
    ghost var at: seq<nat> := [];
    var cursor: nat := 0;
    NothingCovered();
    for i := 0 to |ranges|
      invariant Merged(refs, ranges[..i], out, at, cursor)
      invariant forall j | i <= j < |ranges| :: Caught(ranges[..i], ranges[j].start, cursor)
    {
      var r := ranges[i];
      assert r in ranges;
      var a := if r.start < cursor then cursor else r.start;
      TakeNext(ranges, i);
      CoveredAppend(ranges[..i], r);
      assert Caught(ranges[..i], r.start, cursor);
      if a < r.end {
        forall j | i < j < |ranges|
          ensures Caught(ranges[..i + 1], ranges[j].start, r.end)
        {
          assert RangeLeq(r, ranges[j]);
        }
        at := MergeNext(refs, ranges[..i], r, out, at, cursor, a);
        out := out + refs[a..r.end];
        cursor := r.end;
      } else {
        forall j | i < j < |ranges|
          ensures Caught(ranges[..i + 1], ranges[j].start, cursor)
        {
          assert Caught(ranges[..i], ranges[j].start, cursor);
        }
        SkipNext(refs, ranges[..i], r, out, at, cursor);
      }
    }
    TakeAll(ranges);
  }

  lemma MergeNext(refs: seq<Ref>, done: seq<Range>, r: Range, out: seq<Ref>, at: seq<nat>, cursor: nat, a: nat)
    returns (more: seq<nat>)
    requires Merged(refs, done, out, at, cursor) && Caught(done, r.start, cursor)
    requires a == (if r.start < cursor then cursor else r.start) && a < r.end <= |refs|
    ensures Merged(refs, done + [r], out + refs[a..r.end], more, r.end)
  {
    hide Covered;
    CoveredAppend(done, r);
    var next := seq(r.end - a, k requires 0 <= k < r.end - a => a + k);
    more := at + next;
    forall k: nat | k < |refs|
      ensures k in more <==> Covered(done + [r], k)
    {
      assert k in next <==> a <= k < r.end by {
        if a <= k < r.end {
          assert next[k - a] == k;
        }
      }
    }
  }

  lemma SkipNext(refs: seq<Ref>, done: seq<Range>, r: Range, out: seq<Ref>, at: seq<nat>, cursor: nat)
    requires Merged(refs, done, out, at, cursor) && Caught(done, r.start, cursor)
    requires r.end <= cursor || r.end <= r.start
    ensures Merged(refs, done + [r], out, at, cursor)
  {
    hide Covered;
    CoveredAppend(done, r);
  }

  lemma NothingCovered()
    ensures forall k: nat :: !Covered([], k)
  {
  }

  lemma CoveredAppend(done: seq<Range>, r: Range)
    ensures forall k: nat :: Covered(done + [r], k) <==> Covered(done, k) || r.start <= k < r.end
  {
    forall k: nat | Covered(done, k) || r.start <= k < r.end
      ensures Covered(done + [r], k)
    {
      if Covered(done, k) {
        var x :| x in done && x.start <= k < x.end;
        assert x in done + [r];
      } else {
        assert r in done + [r];
      }
    }
  }

  /** The refs a request selects: exactly the matching ones, once each, in name order. */
  ghost predicate Selected(refs: seq<Ref>, prefixes: seq<string>, out: seq<Ref>) {
    && Sorted(out)
    && (forall r :: r in out <==> r in refs && (prefixes == [] || MatchesAny(r.name, prefixes)))
  }

  method SelectPrefixes(refs: seq<Ref>, prefixes: seq<string>) returns (out: seq<Ref>)
    requires Sorted(refs)
    ensures Selected(refs, prefixes, out)
  {
    hide Sorted, IsPrefixRange, Merged, MatchesAny;
    if prefixes == [] {
      return refs;
    }
    var ranges: seq<Range> := [];
    for i := 0 to |prefixes|
      invariant |ranges| == i && forall k | 0 <= k < i :: IsPrefixRange(refs, prefixes[k], ranges[k])
    {
      var r := PrefixRange(refs, prefixes[i]);
      ranges := ranges + [r];
    }
    forall r | r in ranges
      ensures r.start <= r.end <= |refs|
    {
      var k :| 0 <= k < |ranges| && ranges[k] == r;
      RangeBounds(refs, prefixes[k], r);
    }
    out := MergeRanges(refs, SortRanges(ranges));
    ghost var at, cursor :| Merged(refs, SortRanges(ranges), out, at, cursor);
    MergedIsSelected(refs, prefixes, ranges, out, at, cursor);
  }

  lemma RangeBounds(refs: seq<Ref>, p: string, r: Range)
    requires IsPrefixRange(refs, p, r)
    ensures r.start <= r.end <= |refs|
  {
  }

  lemma CoveredMeansMatch(refs: seq<Ref>, prefixes: seq<string>, ranges: seq<Range>, k: nat)
    requires |ranges| == |prefixes| && k < |refs|
    requires forall i | 0 <= i < |prefixes| :: IsPrefixRange(refs, prefixes[i], ranges[i])
    ensures Covered(SortRanges(ranges), k) <==> MatchesAny(refs[k].name, prefixes)
  {
    hide StartsWith;
    if Covered(SortRanges(ranges), k) {
      var r :| r in SortRanges(ranges) && r.start <= k < r.end;
      var i :| 0 <= i < |ranges| && ranges[i] == r;
      assert IsPrefixRange(refs, prefixes[i], ranges[i]);
      assert prefixes[i] in prefixes && StartsWith(refs[k].name, prefixes[i]);
    }
    if MatchesAny(refs[k].name, prefixes) {
      var p :| p in prefixes && StartsWith(refs[k].name, p);
      var i :| 0 <= i < |prefixes| && prefixes[i] == p;
      assert IsPrefixRange(refs, prefixes[i], ranges[i]);
      assert ranges[i] in SortRanges(ranges);
    }
  }

  lemma MergedIsSelected(refs: seq<Ref>, prefixes: seq<string>, ranges: seq<Range>, out: seq<Ref>, at: seq<nat>, cursor: nat)
    requires Sorted(refs) && prefixes != [] && |ranges| == |prefixes|
    requires forall i | 0 <= i < |prefixes| :: IsPrefixRange(refs, prefixes[i], ranges[i])
    requires Merged(refs, SortRanges(ranges), out, at, cursor)
    ensures Selected(refs, prefixes, out)
  {
    hide IsPrefixRange, MatchesAny, Covered, LexLess, SortRanges;
    forall r | r in out
      ensures r in refs && MatchesAny(r.name, prefixes)
    {
      var i :| 0 <= i < |out| && out[i] == r;
      assert at[i] in at;
      CoveredMeansMatch(refs, prefixes, ranges, at[i]);
    }
    forall r | r in refs && MatchesAny(r.name, prefixes)
      ensures r in out
    {
      var k :| 0 <= k < |refs| && refs[k] == r;
      CoveredMeansMatch(refs, prefixes, ranges, k);
      var i :| 0 <= i < |at| && at[i] == k;
      assert out[i] == r;
    }
  }

  // ---- the advertised lines ----

  datatype Line = Line(name: string, oid: string, peeled: string, symrefTarget: Option<string>)

  function RefLine(r: Ref): Line {
    Line(r.name, r.oid, r.peeled, None)
  }

  /** HEAD is advertised last when a prefix of HEAD was asked for: through its target's id, or as
      unborn on request, and this does not depend on whether the target itself was selected. */
  ghost predicate HeadLines(st: RefState, prefixes: seq<string>, unborn: bool, lines: seq<Line>) {
    if (prefixes != [] && !MatchesHead(prefixes)) || st.headTarget == [] then lines == []
    else
      match OidOf(st, st.headTarget)
      case Some(oid) => lines == [Line("HEAD", oid, [], Some(st.headTarget))]
      case None => lines == if unborn then [Line("HEAD", "unborn", [], Some(st.headTarget))] else []
  }

  ghost predicate MatchesHead(prefixes: seq<string>) {
    exists p :: p in prefixes && StartsWith("HEAD", p)
  }

  method ListHead(snap: RefSnapshot, prefixes: seq<string>, unborn: bool, ghost st: RefState) returns (lines: seq<Line>)
    requires Represents(snap.refs, st.refs) && snap.headTarget == st.headTarget
    ensures HeadLines(st, prefixes, unborn, lines)
  {
    SortedOf(snap.refs, st.refs);
    var matches := prefixes == [];
    for i := 0 to |prefixes|
      invariant matches <==> prefixes == [] || exists k :: 0 <= k < i && StartsWith("HEAD", prefixes[k])
    {
      if StartsWith("HEAD", prefixes[i]) {
        matches := true;
      }
    }
    assert matches <==> prefixes == [] || MatchesHead(prefixes);
    if !matches || snap.headTarget == [] {
      return [];
    }
    var found, at := BinarySearch(snap.refs, snap.headTarget);
    if found {
      assert snap.refs[at] in snap.refs;
      return [Line("HEAD", snap.refs[at].oid, [], Some(snap.headTarget))];
    }
    NotFoundAbsent(snap.refs, st.refs, snap.headTarget, at);
    return if unborn then [Line("HEAD", "unborn", [], Some(snap.headTarget))] else [];
  }

  /** The lines of the selected refs, and then those for HEAD. */
  ghost predicate Answer(refs: seq<Ref>, st: RefState, prefixes: seq<string>, unborn: bool, lines: seq<Line>) {
    exists selected, head :: Selected(refs, prefixes, selected) && HeadLines(st, prefixes, unborn, head)
                             && lines == Advertised(selected) + head
  }

  method LsRefs(snap: RefSnapshot, prefixes: seq<string>, unborn: bool, ghost st: RefState)
    returns (lines: seq<Line>)
    requires Represents(snap.refs, st.refs) && snap.headTarget == st.headTarget
    ensures Answer(snap.refs, st, prefixes, unborn, lines)
    ensures exists k :: 0 <= k <= |lines| && RefLines(st.refs, prefixes, lines[..k]) && HeadLine(st, prefixes, unborn, lines[k..])
  {
    hide Selected, Represents, HeadLines, RefLines, HeadLine;
    SortedOf(snap.refs, st.refs);
    var refs := SelectPrefixes(snap.refs, prefixes);
    lines := [];
    for i := 0 to |refs|
      invariant lines + Advertised(refs[i..]) == Advertised(refs)
    {
      DropDrop(refs, i, 1);
      if refs[i].name != "HEAD" {
        Associative(lines, [RefLine(refs[i])], Advertised(refs[i + 1..]));
        lines := lines + [RefLine(refs[i])];
      } else {
        NothingAppended(Advertised(refs[i + 1..]));
      }
    }
    NothingAppended(lines);
    var headLines := ListHead(snap, prefixes, unborn, st);
    AdvertisedAreRefLines(snap.refs, st.refs, prefixes, refs);
    HeadLinesAreHeadLine(st, prefixes, unborn, headLines);
    assert (lines + headLines)[..|lines|] == lines && (lines + headLines)[|lines|..] == headLines;
    lines := lines + headLines;
  }

  /** This name is asked for: no prefixes are given, or it starts with one of them. */
  ghost predicate Asked(prefixes: seq<string>, name: string) {
    prefixes == [] || exists p :: p in prefixes && p <= name
  }

  /** One line for each ref that is asked for and not named HEAD, with its own id and peel, in name order. */
  ghost predicate RefLines(refs: map<string, Ref>, prefixes: seq<string>, lines: seq<Line>) {
    && (forall line | line in lines :: line.name in refs && line.name != "HEAD" && Asked(prefixes, line.name)
          && line.oid == refs[line.name].oid && line.peeled == refs[line.name].peeled && line.symrefTarget == None)
    && (forall n | n in refs && n != "HEAD" && Asked(prefixes, n) :: exists line :: line in lines && line.name == n)
    && forall i, j | 0 <= i < j < |lines| :: LexLess(lines[i].name, lines[j].name)
  }

  /** The HEAD line, when HEAD is asked for and points at a ref, or at none and an unborn one may be listed. */
  ghost predicate HeadLine(st: RefState, prefixes: seq<string>, unborn: bool, lines: seq<Line>) {
    if Asked(prefixes, "HEAD") && st.headTarget != [] && (st.headTarget in st.refs || unborn) then
      && |lines| == 1 && lines[0].name == "HEAD" && lines[0].symrefTarget == Some(st.headTarget) && lines[0].peeled == []
      && lines[0].oid == if st.headTarget in st.refs then st.refs[st.headTarget].oid else "unborn"
    else lines == []
  }

  lemma HeadLinesAreHeadLine(st: RefState, prefixes: seq<string>, unborn: bool, lines: seq<Line>)
    requires HeadLines(st, prefixes, unborn, lines)
    ensures HeadLine(st, prefixes, unborn, lines)
  {
    assert MatchesHead(prefixes) <==> exists p :: p in prefixes && p <= "HEAD";
  }

  lemma {:induction false} AdvertisedSorted(refs: seq<Ref>)
    requires Sorted(refs)
    ensures forall line | line in Advertised(refs) :: exists r :: r in refs && r.name != "HEAD" && line == RefLine(r)
    ensures forall r | r in refs && r.name != "HEAD" :: RefLine(r) in Advertised(refs)
    ensures forall i, j | 0 <= i < j < |Advertised(refs)| :: LexLess(Advertised(refs)[i].name, Advertised(refs)[j].name)
  {
    hide LexLess;
    if refs != [] {
      AdvertisedSorted(refs[1..]);
      assert refs == [refs[0]] + refs[1..];
      forall line | line in Advertised(refs[1..])
        ensures LexLess(refs[0].name, line.name)
      {
        var r :| r in refs[1..] && r.name != "HEAD" && line == RefLine(r);
        var k :| 0 <= k < |refs[1..]| && refs[1..][k] == r;
        assert refs[k + 1] == r;
      }
      var rest := Advertised(refs[1..]);
      assert forall j | 0 <= j < |rest| :: rest[j] in rest;
    }
  }

  lemma AdvertisedAreRefLines(all: seq<Ref>, m: map<string, Ref>, prefixes: seq<string>, refs: seq<Ref>)
    requires Represents(all, m) && Selected(all, prefixes, refs)
    ensures RefLines(m, prefixes, Advertised(refs))
  {
    hide LexLess;
    AdvertisedSorted(refs);
    var lines := Advertised(refs);
    forall n | Asked(prefixes, n)
      ensures prefixes == [] || MatchesAny(n, prefixes)
    {
    }
    forall line | line in lines
      ensures line.name in m && line.name != "HEAD" && Asked(prefixes, line.name)
      ensures line.oid == m[line.name].oid && line.peeled == m[line.name].peeled && line.symrefTarget == None
    {
      var r :| r in refs && r.name != "HEAD" && line == RefLine(r);
      assert r in all && m[r.name] == r;
    }
    forall n | n in m && n != "HEAD" && Asked(prefixes, n)
      ensures exists line :: line in lines && line.name == n
    {
      assert m[n] in all && m[n].name == n && m[n] in refs && RefLine(m[n]) in lines;
    }
  }

  /** A ref literally named HEAD is left to the HEAD line. */
  function Advertised(refs: seq<Ref>): seq<Line> {
    if refs == [] then []
    else (if refs[0].name == "HEAD" then [] else [RefLine(refs[0])]) + Advertised(refs[1..])
  }
}
