/** The ordered-map merge and the packed-refs text it is written to and read back from
    (crates/walgit-git/src/lib.rs:116-129, 1439-1482, 1504-1548, 3027-3051). */
module PackedRefs {
  import opened Basics
  import opened Lex
  import opened RefNames
  import opened RefStore
  import opened Seqs

  // ---- the ordered map ----

  lemma LeastName(m: map<string, Ref>) returns (least: string)
    requires m != map[]
    ensures least in m && forall n | n in m :: LexLeq(least, n)
    decreases m.Keys
  {
    var n :| n in m;
    var rest := m - {n};
    if rest == map[] {
      forall x | x in m
        ensures LexLeq(n, x)
      {
        assert x == n by { assert x !in rest; }
        LexTotal(n, n);
      }
      return n;
    }
    assert rest.Keys == m.Keys - {n};
    var other := LeastName(rest);
    LexTotal(n, other);
    LexTotal(n, n);
    least := if LexLeq(n, other) then n else other;
    forall x | x in m
      ensures LexLeq(least, x)
    {
      if x != n {
        assert x in rest;
        if LexLeq(n, other) {
          LexTransitive(n, other, x);
        }
      }
    }
  }

  /** The records of a map in the order of their names. */
  ghost function Values(m: map<string, Ref>): (refs: seq<Ref>)
    requires forall n | n in m :: m[n].name == n
    ensures Represents(refs, m)
    decreases m.Keys
  {
    if m == map[] then []
    else
      assert exists least :: least in m && forall n | n in m :: LexLeq(least, n) by {
        var least := LeastName(m);
      }
      var least :| least in m && forall n | n in m :: LexLeq(least, n);
      var rest := m - {least};
      assert rest.Keys == m.Keys - {least};
      ConsRepresents(Values(rest), m, least);
      [m[least]] + Values(rest)
  }

  lemma ConsRepresents(refs: seq<Ref>, m: map<string, Ref>, least: string)
    requires least in m && (forall n | n in m :: LexLeq(least, n) && m[n].name == n)
    requires Represents(refs, m - {least})
    ensures Represents([m[least]] + refs, m)
  {
    hide LexLeq;
    var first := m[least];
    var all := [first] + refs;
    forall k | 0 <= k < |refs|
      ensures LexLess(least, refs[k].name)
    {
      assert refs[k] in refs;
    }
    hide LexLess;
    assert Sorted(all);
    forall n | n in m
      ensures m[n] in all
    {
      if n != least {
        assert n in m - {least} && m[n] in refs;
      }
    }
  }

  predicate ValidOidField(oid: string) {
    IsZero(oid) || IsObjectId(oid)
  }

  predicate ValidUpdate(u: RefUpdate) {
    if u.newSymbolicTarget != [] then u.name == "HEAD" && ValidRefName(u.newSymbolicTarget)
    else ValidRefName(u.name) && ValidOidField(u.oldOid) && ValidOidField(u.newOid)
  }

  /** An update that may be merged: HEAD pointed at a ref name, or a ref name with ids that are empty, zeros or
      full hexadecimal ones. */
  ghost predicate Acceptable(u: RefUpdate) {
    if u.newSymbolicTarget != [] then u.name == "HEAD" && NameSpelled(u.newSymbolicTarget)
    else NameSpelled(u.name) && IdOrZeros(u.oldOid) && IdOrZeros(u.newOid)
  }

  ghost predicate IdOrZeros(oid: string) {
    (forall i | 0 <= i < |oid| :: oid[i] == '0') || IdSpelled(oid)
  }

  lemma UpdateSpelled(u: RefUpdate)
    ensures ValidUpdate(u) <==> Acceptable(u)
  {
    hide ValidRefName, NameSpelled, IsObjectId, IdSpelled;
    NameSpelledExactly(u.newSymbolicTarget);
    NameSpelledExactly(u.name);
    IdSpelledExactly(u.oldOid);
    IdSpelledExactly(u.newOid);
    ZerosSpelled(u.oldOid);
    ZerosSpelled(u.newOid);
  }

  lemma ZerosSpelled(oid: string)
    ensures IsZero(oid) <==> forall i | 0 <= i < |oid| :: oid[i] == '0'
  {
    assert forall i | 0 <= i < |oid| :: oid[i] in oid;
  }

  /** The merge of committed transactions into a map, update by update; an invalid update refuses all. */
  method MergeTxns(st0: RefState, txns: seq<RefTxn>, peel: string -> string) returns (ok: bool, st: RefState)
    requires WellNamed(st0)
    ensures ok <==> forall t | t in txns :: forall u | u in t :: Acceptable(u)
    ensures ok ==> st == ApplyAll(st0, txns, peel) && WellNamed(st) && Patched(st0, st, Flat(txns), peel)
  {
    hide ApplyUpdate, ValidUpdate, Acceptable, WellNamed, Patched;
    forall u: RefUpdate
      ensures ValidUpdate(u) <==> Acceptable(u)
    {
      UpdateSpelled(u);
    }
    AllPatch(st0, txns, peel);
    st := st0;
    for i := 0 to |txns|
      invariant ApplyAll(st, txns[i..], peel) == ApplyAll(st0, txns, peel) && WellNamed(st)
      invariant forall k | 0 <= k < i :: forall u | u in txns[k] :: ValidUpdate(u)
    {
      ghost var before := st;
      for k := 0 to |txns[i]|
        invariant ApplyTxn(st, txns[i][k..], peel) == ApplyTxn(before, txns[i], peel) && WellNamed(st)
        invariant forall j | 0 <= j < k :: ValidUpdate(txns[i][j])
      {
        var u := txns[i][k];
        if !ValidUpdate(u) {
          assert u in txns[i] && txns[i] in txns;
          return false, st;
        }
        DropDrop(txns[i], k, 1);
        st := MergeUpdate(st, u, peel);
      }
      DropDrop(txns, i, 1);
    }
    ok := true;
  }

  method MergeUpdate(st: RefState, u: RefUpdate, peel: string -> string) returns (r: RefState)
    requires WellNamed(st)
    ensures r == ApplyUpdate(st, u, peel) && WellNamed(r)
  {
    r := st;
    if u.newSymbolicTarget != [] {
      if u.name == "HEAD" {
        r := r.(headTarget := u.newSymbolicTarget);
      }
    } else if IsZero(u.newOid) {
      r := r.(refs := r.refs - {u.name});
    } else {
      var peeled := if u.newPeeled != [] then u.newPeeled
                    else if StartsWith(u.name, "refs/tags/") then peel(u.newOid) else [];
      r := r.(refs := r.refs[u.name := Ref(u.name, u.newOid, peeled)]);
    }
  }

  /** The map merge and the vector patch agree: same records, same order, same HEAD. */
  lemma MergeAgreesWithPatch(base: RefSnapshot, patched: RefSnapshot, st: RefState, txns: seq<RefTxn>, peel: string -> string)
    requires WellNamed(ApplyAll(st, txns, peel))
    requires Represents(patched.refs, ApplyAll(st, txns, peel).refs)
    ensures Values(ApplyAll(st, txns, peel).refs) == patched.refs
  {
    VectorUnique(Values(ApplyAll(st, txns, peel).refs), patched.refs, ApplyAll(st, txns, peel).refs);
  }

  // ---- the text ----

  const HEADER: string := "# pack-refs " + "with: " + "peeled " + "fully-peeled " + "sorted "

  lemma HeaderSpelled()
    ensures HEADER == "# pack-refs with: peeled fully-peeled sorted "
  {
  }

  function RefLines(r: Ref): seq<string> {
    [r.oid + " " + r.name] + if r.peeled == [] then [] else ["^" + r.peeled]
  }

  function AllLines(refs: seq<Ref>): seq<string> {
    if refs == [] then [] else RefLines(refs[0]) + AllLines(refs[1..])
  }

  /** Lines as text, each ended by a newline. */
  function Unlines(lines: seq<string>): string {
    if lines == [] then [] else lines[0] + "\n" + Unlines(lines[1..])
  }

  method WritePackedRefs(refs: seq<Ref>) returns (text: string)
    ensures text == Unlines([HEADER] + AllLines(refs))
  {
    text := HEADER + "\n";
    assert ([HEADER] + AllLines(refs))[1..] == AllLines(refs);
    for i := 0 to |refs|
      invariant text + Unlines(AllLines(refs[i..])) == Unlines([HEADER] + AllLines(refs))
    {
      var r := refs[i];
      ghost var rest := AllLines(refs[i + 1..]);
      DropDrop(refs, i, 1);
      RefText(r, rest);
      Associative(text, Unlines(RefLines(r)), Unlines(rest));
      ghost var before := text;
      text := text + (r.oid + " " + r.name + "\n");
      if r.peeled != [] {
        Associative(before, r.oid + " " + r.name + "\n", "^" + r.peeled + "\n");
        text := text + ("^" + r.peeled + "\n");
      }
    }
    NothingAppended(text);
  }

  lemma RefText(r: Ref, rest: seq<string>)
    ensures Unlines(RefLines(r) + rest) == Unlines(RefLines(r)) + Unlines(rest)
    ensures Unlines(RefLines(r)) == (r.oid + " " + r.name + "\n") + if r.peeled == [] then [] else "^" + r.peeled + "\n"
  {
    UnlinesConcat(RefLines(r), rest);
    var first := r.oid + " " + r.name;
    assert RefLines(r)[0] == first;
    if r.peeled == [] {
      assert RefLines(r)[1..] == [];
      NothingAppended(first + "\n");
    } else {
      var second := "^" + r.peeled;
      assert RefLines(r)[1..] == [second] && [second][1..] == [];
      NothingAppended(second + "\n");
    }
  }

  lemma {:induction false} UnlinesConcat(a: seq<string>, b: seq<string>)
    ensures Unlines(a + b) == Unlines(a) + Unlines(b)
    decreases a
  {
    if a == [] {
      NothingAppended(b);
      NothingAppended(Unlines(b));
    } else {
      DropAppend(a, b, 1);
      UnlinesConcat(a[1..], b);
      Associative(a[0] + "\n", Unlines(a[1..]), Unlines(b));
    }
  }

  /** The text up to the first newline, and what follows it. */
  function FirstLine(text: string): (r: (string, string))
    ensures text != [] ==> |r.1| < |text|
  {
    if text == [] then ([], [])
    else if text[0] == '\n' then ([], text[1..])
    else var (line, rest) := FirstLine(text[1..]); ([text[0]] + line, rest)
  }

  /** A carriage return before the newline belongs to the line's end. */
  function StripReturn(line: string): string {
    if EndsWith(line, "\r") then line[..|line| - 1] else line
  }

  function Lines(text: string): seq<string>
    decreases |text|
  {
    if text == [] then []
    else var (line, rest) := FirstLine(text); [if '\n' in text then StripReturn(line) else line] + Lines(rest)
  }

  lemma {:induction false} OnlyLine(line: string)
    requires '\n' !in line
    ensures FirstLine(line) == (line, [])
  {
    if line != [] {
      OnlyLine(line[1..]);
      assert line == [line[0]] + line[1..];
    }
  }

  /** Lines end at a newline with or without a carriage return before it; the last one may lack both. */
  lemma LinesSay(line: string, rest: string)
    requires '\n' !in line
    ensures (forall text :: line != text + "\r") ==> Lines(line + "\n" + rest) == [line] + Lines(rest)
    ensures Lines(line + "\r\n" + rest) == [line] + Lines(rest)
    ensures line != [] ==> Lines(line) == [line]
  {
    hide FirstLine;
    FirstLineOf(line, rest);
    var text := line + "\n" + rest;
    assert '\n' == text[|line|];
    if EndsWith(line, "\r") {
      assert line == line[..|line| - 1] + "\r";
    }
    var longer := line + "\r";
    FirstLineOf(longer, rest);
    assert longer + "\n" + rest == line + "\r\n" + rest && '\n' == (longer + "\n" + rest)[|longer|];
    assert longer[..|longer| - 1] == line && longer[|line|..] == "\r";
    OnlyLine(line);
  }

  lemma {:induction false} FirstLineOf(line: string, rest: string)
    requires '\n' !in line
    ensures FirstLine(line + "\n" + rest) == (line, rest)
    decreases line
  {
    var text := line + "\n" + rest;
    if line == [] {
      assert text[1..] == rest;
    } else {
      FirstLineOf(line[1..], rest);
      assert text[1..] == line[1..] + "\n" + rest;
      assert line == [line[0]] + line[1..];
    }
  }

  ghost predicate IsLine(line: string) {
    '\n' !in line && '\r' !in line
  }

  lemma NoReturn(line: string)
    requires IsLine(line)
    ensures StripReturn(line) == line
  {
    if line != [] {
      assert line[|line| - 1] in line;
      assert line[|line| - 1..][0] == line[|line| - 1];
    }
  }

  lemma {:induction false} LinesOfUnlines(lines: seq<string>)
    requires forall l | l in lines :: IsLine(l)
    ensures Lines(Unlines(lines)) == lines
    decreases lines
  {
    if lines != [] {
      var l := lines[0];
      assert IsLine(l) && Unlines(lines)[|l|] == '\n';
      FirstLineOf(l, Unlines(lines[1..]));
      NoReturn(l);
      LinesOfUnlines(lines[1..]);
    }
  }

  /** The Unicode property White_Space, which trimming goes by. */
  predicate Whitespace(c: char) {
    '\t' <= c <= '\r' || c == ' ' || c == '\U{85}' || c == '\U{A0}' || c == '\U{1680}' || '\U{2000}' <= c <= '\U{200A}'
    || c == '\U{2028}' || c == '\U{2029}' || c == '\U{202F}' || c == '\U{205F}' || c == '\U{3000}'
  }

  lemma WhitespaceSpelled(c: char)
    ensures Whitespace(c) <==> c as int in {0x9, 0xA, 0xB, 0xC, 0xD, 0x20, 0x85, 0xA0, 0x1680, 0x2000, 0x2001, 0x2002, 0x2003, 0x2004, 0x2005,
                                            0x2006, 0x2007, 0x2008, 0x2009, 0x200A, 0x2028, 0x2029, 0x202F, 0x205F, 0x3000}
  {
  }

  function TrimStart(s: string): string {
    if s != [] && Whitespace(s[0]) then TrimStart(s[1..]) else s
  }

  function TrimEnd(s: string): string {
    if s != [] && Whitespace(s[|s| - 1]) then TrimEnd(s[..|s| - 1]) else s
  }

  function Trim(s: string): string {
    TrimEnd(TrimStart(s))
  }

  /** The parts of a line before and after its first space. */
  function SplitSpace(line: string): (string, string) {
    if line == [] then ([], [])
    else if line[0] == ' ' then ([], line[1..])
    else var (a, b) := SplitSpace(line[1..]); ([line[0]] + a, b)
  }

  /** What the reader has collected: the refs, and the one a peel line would belong to. */
  datatype Parsed = Parsed(refs: map<string, Ref>, last: Option<string>)

  function ParseLine(p: Parsed, line: string): Parsed {
    if line == [] || line[0] == '#' then p
    else if line[0] == '^' then
      match p.last
      case None => p
      case Some(name) =>
        if name in p.refs then p.(refs := p.refs[name := p.refs[name].(peeled := Trim(line[1..]))]) else p
    else
      var (oid, name) := SplitSpace(line);
      if Trim(name) == [] then p
      else Parsed(p.refs[Trim(name) := Ref(Trim(name), Trim(oid), [])], Some(Trim(name)))
  }

  function ParseLines(p: Parsed, lines: seq<string>): Parsed
    decreases |lines|
  {
    if lines == [] then p else ParseLines(ParseLine(p, lines[0]), lines[1..])
  }

  /** middle is s without the White_Space around it. */
  ghost predicate Strips(s: string, middle: string) {
    && (middle == [] || (!Whitespace(middle[0]) && !Whitespace(middle[|middle| - 1])))
    && exists before, after :: s == before + middle + after && (forall c | c in before + after :: Whitespace(c))
  }

  lemma {:induction false} TrimStartCuts(s: string)
    ensures |TrimStart(s)| <= |s| && TrimStart(s) == s[|s| - |TrimStart(s)|..]
    ensures forall i | 0 <= i < |s| - |TrimStart(s)| :: Whitespace(s[i])
  {
    hide Whitespace;
    if s != [] && Whitespace(s[0]) {
      TrimStartCuts(s[1..]);
    }
  }

  lemma {:induction false} TrimEndCuts(s: string)
    ensures |TrimEnd(s)| <= |s| && TrimEnd(s) == s[..|TrimEnd(s)|]
    ensures forall i | |TrimEnd(s)| <= i < |s| :: Whitespace(s[i])
    decreases |s|
  {
    hide Whitespace;
    if s != [] && Whitespace(s[|s| - 1]) {
      TrimEndCuts(s[..|s| - 1]);
    }
  }

  lemma TrimStrips(s: string)
    ensures Strips(s, Trim(s))
  {
    hide Whitespace, TrimStart, TrimEnd;
    var a := TrimStart(s);
    TrimStartCuts(s);
    TrimEndCuts(a);
    TrimStartKeeps(s);
    TrimEndKeeps(a);
    var before, after := s[..|s| - |a|], a[|Trim(s)|..];
    assert s == before + Trim(s) + after && forall c | c in before + after :: Whitespace(c);
  }

  /** The line is split at its first space. */
  ghost predicate SplitsInto(line: string, left: string, right: string) {
    line == left + " " + right && ' ' !in left
  }

  /** The line names a ref: it is no comment and no peel line, and something stands behind its first space. */
  ghost predicate NamesRef(line: string, name: string, oid: string) {
    && name != [] && !("#" <= line) && !("^" <= line)
    && exists left, right :: SplitsInto(line, left, right) && Strips(left, oid) && Strips(right, name)
  }

  ghost predicate AnyRef(line: string) {
    exists name, oid :: NamesRef(line, name, oid)
  }

  /** Of the lines up to the n-th, the k-th is the last that names this ref. */
  ghost predicate LastNaming(lines: seq<string>, n: nat, k: nat, name: string, oid: string) {
    && k < n <= |lines| && NamesRef(lines[k], name, oid)
    && forall j, other | k < j < n :: !NamesRef(lines[j], name, other)
  }

  /** The j-th line is the last peel line before the next ref after the k-th. */
  ghost predicate PeelOf(lines: seq<string>, n: nat, k: nat, j: nat) {
    && k < j < n <= |lines| && "^" <= lines[j] && (forall m | k < m < j :: !AnyRef(lines[m]))
    && forall m | j < m < n && "^" <= lines[m] :: exists r | j < r < m :: AnyRef(lines[r])
  }

  ghost predicate Named(lines: seq<string>, n: nat, name: string) {
    exists k: nat, oid :: k < n <= |lines| && NamesRef(lines[k], name, oid)
  }

  ghost predicate Recorded(lines: seq<string>, n: nat, k: nat, name: string, oid: string, r: Ref) {
    && r.name == name && r.oid == oid
    && (forall j: nat | PeelOf(lines, n, k, j) :: Strips(lines[j][1..], r.peeled))
    && ((forall j: nat :: !PeelOf(lines, n, k, j)) ==> r.peeled == [])
  }

  /** A packed-refs text read plainly: a ref is there when some line names it, with the id of the last such
      line, and the peel that follows that line before the next ref. */
  ghost predicate Holds(lines: seq<string>, n: nat, refs: map<string, Ref>) {
    && n <= |lines|
    && (forall name :: name in refs <==> Named(lines, n, name))
    && (forall k: nat, name, oid | LastNaming(lines, n, k, name, oid) && name in refs :: Recorded(lines, n, k, name, oid, refs[name]))
  }

  method ReadPackedRefs(text: string) returns (refs: map<string, Ref>)
    ensures refs == ParseLines(Parsed(map[], None), Lines(text)).refs
    ensures Holds(Lines(text), |Lines(text)|, refs)
  {
    hide ParseLine, Holds;
    var lines := Lines(text);
    var p := Parsed(map[], None);
    for i := 0 to |lines|
      invariant ParseLines(p, lines[i..]) == ParseLines(Parsed(map[], None), lines)
    {
      DropDrop(lines, i, 1);
      p := ParseLine(p, lines[i]);
    }
    refs := p.refs;
    TextHolds(text);
  }

  lemma TextHolds(text: string)
    ensures Holds(Lines(text), |Lines(text)|, ParseLines(Parsed(map[], None), Lines(text)).refs)
  {
    hide Holds, Pending, ParseLines;
    NothingRead(Lines(text));
    assert Lines(text)[0..] == Lines(text);
    RestHolds(Lines(text), 0, Parsed(map[], None));
  }

  lemma {:induction false} RestHolds(lines: seq<string>, n: nat, p: Parsed)
    requires n <= |lines| && Holds(lines, n, p.refs) && Pending(lines, n, p.last)
    ensures Holds(lines, |lines|, ParseLines(p, lines[n..]).refs)
    decreases |lines| - n
  {
    hide Holds, Pending, ParseLine;
    if n < |lines| {
      ReadOneMore(lines, n, p);
      DropDrop(lines, n, 1);
      RestHolds(lines, n + 1, ParseLine(p, lines[n]));
    }
  }

  /** The last ref that was named, to which a peel line belongs. */
  ghost predicate Pending(lines: seq<string>, n: nat, last: Option<string>) {
    && n <= |lines|
    && if last.None? then forall k | 0 <= k < n :: !AnyRef(lines[k])
       else exists k: nat, oid :: k < n && NamesRef(lines[k], last.value, oid) && forall j | k < j < n :: !AnyRef(lines[j])
  }

  lemma {:induction false} TrimStartPast(before: string, rest: string)
    requires (forall c | c in before :: Whitespace(c)) && (rest == [] || !Whitespace(rest[0]))
    ensures TrimStart(before + rest) == rest
  {
    hide Whitespace;
    if before == [] {
      assert before + rest == rest;
    } else {
      TrimStartPast(before[1..], rest);
      assert (before + rest)[1..] == before[1..] + rest;
    }
  }

  lemma {:induction false} TrimEndPast(rest: string, after: string)
    requires (forall c | c in after :: Whitespace(c)) && (rest == [] || !Whitespace(rest[|rest| - 1]))
    ensures TrimEnd(rest + after) == rest
    decreases |after|
  {
    hide Whitespace;
    if after == [] {
      assert rest + after == rest;
    } else {
      TrimEndPast(rest, after[..|after| - 1]);
      assert (rest + after)[..|rest + after| - 1] == rest + after[..|after| - 1];
    }
  }

  lemma StripsOnce(s: string, middle: string)
    requires Strips(s, middle)
    ensures middle == Trim(s)
  {
    hide Whitespace, TrimStart, TrimEnd;
    var before, after :| s == before + middle + after && forall c | c in before + after :: Whitespace(c);
    assert forall c | c in before :: c in before + after;
    assert forall c | c in after :: c in before + after;
    if middle == [] {
      TrimStartPast(before + after, []);
      assert s == before + after + [];
      assert TrimEnd([]) == [] by { TrimNothing(); TrimEndPast([], []); assert [] + [] == ""; }
    } else {
      TrimStartPast(before, middle + after);
      assert s == before + (middle + after);
      TrimEndPast(middle, after);
    }
  }

  lemma {:induction false} SplitSpaceSays(line: string)
    ensures ' ' in line ==> SplitsInto(line, SplitSpace(line).0, SplitSpace(line).1)
    ensures ' ' !in line ==> SplitSpace(line).1 == []
  {
    if line != [] && line[0] != ' ' {
      SplitSpaceSays(line[1..]);
      assert line == [line[0]] + line[1..];
    } else if line != [] {
      assert line == [] + " " + line[1..];
    }
  }

  /** What the reader makes of one line is what the line names. */
  lemma NamesWhatIsParsed(line: string, name: string, oid: string)
    ensures NamesRef(line, name, oid) <==>
              && line != [] && line[0] != '#' && line[0] != '^' && Trim(SplitSpace(line).1) != []
              && name == Trim(SplitSpace(line).1) && oid == Trim(SplitSpace(line).0)
  {
    hide Strips, Trim, SplitSpace;
    var (a, b) := SplitSpace(line);
    SplitSpaceSays(line);
    TrimStrips(a);
    TrimStrips(b);
    TrimNothing();
    if NamesRef(line, name, oid) {
      var left, right :| SplitsInto(line, left, right) && Strips(left, oid) && Strips(right, name);
      SplitAtSpace(left, right);
      StripsOnce(left, oid);
      StripsOnce(right, name);
    }
  }

  lemma NothingRead(lines: seq<string>)
    ensures Holds(lines, 0, map[]) && Pending(lines, 0, None)
  {
  }

  lemma ReadOneMore(lines: seq<string>, n: nat, p: Parsed)
    requires n < |lines| && Holds(lines, n, p.refs) && Pending(lines, n, p.last)
    ensures Holds(lines, n + 1, ParseLine(p, lines[n]).refs) && Pending(lines, n + 1, ParseLine(p, lines[n]).last)
  {
    hide Holds, Pending, NamesRef, AnyRef, Trim, SplitSpace, Strips;
    var line := lines[n];
    var name, oid := Trim(SplitSpace(line).1), Trim(SplitSpace(line).0);
    NamesWhatIsParsed(line, name, oid);
    if NamesRef(line, name, oid) {
      RefRead(lines, n, p, name, oid);
    } else {
      assert !AnyRef(line) by { NoneNamed(line); }
      if "^" <= line {
        PeelRead(lines, n, p);
      } else {
        LineSkipped(lines, n, p);
      }
    }
  }

  lemma NoneNamed(line: string)
    requires !NamesRef(line, Trim(SplitSpace(line).1), Trim(SplitSpace(line).0))
    ensures !AnyRef(line)
  {
    hide NamesRef, Trim, SplitSpace;
    forall name, oid
      ensures !NamesRef(line, name, oid)
    {
      NamesWhatIsParsed(line, name, oid);
    }
  }

  lemma NamingIsAny(line: string)
    ensures forall name, oid :: NamesRef(line, name, oid) ==> AnyRef(line)
    ensures AnyRef(line) ==> !("^" <= line)
    ensures forall name, oid, other, another :: NamesRef(line, name, oid) && NamesRef(line, other, another) ==> name == other && oid == another
  {
    forall name, oid
      ensures NamesRef(line, name, oid) ==> name == Trim(SplitSpace(line).1) && oid == Trim(SplitSpace(line).0)
    {
      hide NamesRef;
      NamesWhatIsParsed(line, name, oid);
    }
  }

  lemma NamedNext(lines: seq<string>, n: nat, name: string)
    requires n < |lines|
    ensures Named(lines, n + 1, name) <==> Named(lines, n, name) || exists oid :: NamesRef(lines[n], name, oid)
  {
    hide NamesRef;
    if oid :| NamesRef(lines[n], name, oid) {
      assert n < n + 1 && NamesRef(lines[n], name, oid);
    }
    if Named(lines, n + 1, name) {
      var k: nat, oid :| k < n + 1 && NamesRef(lines[k], name, oid);
      assert k < n || NamesRef(lines[n], name, oid);
    }
    if Named(lines, n, name) {
      var k: nat, oid :| k < n && NamesRef(lines[k], name, oid);
      assert k < n + 1;
    }
  }

  /** The record of a ref whose last line and peel lines are the same a line later is right then too. */
  lemma SamePeels(lines: seq<string>, n: nat, k: nat, name: string, oid: string, r: Ref)
    requires Recorded(lines, n, k, name, oid, r) && forall j: nat :: PeelOf(lines, n + 1, k, j) <==> PeelOf(lines, n, k, j)
    ensures Recorded(lines, n + 1, k, name, oid, r)
  {
    hide PeelOf, Strips;
  }

  lemma PlainLine(lines: seq<string>, n: nat, k: nat)
    requires k < n < |lines| && !("^" <= lines[n])
    ensures forall j: nat :: PeelOf(lines, n + 1, k, j) <==> PeelOf(lines, n, k, j)
  {
    hide AnyRef;
  }

  lemma LastBefore(lines: seq<string>, n: nat, k: nat, name: string, oid: string)
    requires k < n < |lines| && LastNaming(lines, n + 1, k, name, oid)
    ensures LastNaming(lines, n, k, name, oid) && forall other :: !NamesRef(lines[n], name, other)
    ensures Named(lines, n, name)
  {
    hide NamesRef;
  }

  lemma PendingNext(lines: seq<string>, n: nat, last: Option<string>)
    requires n < |lines| && Pending(lines, n, last) && !AnyRef(lines[n])
    ensures Pending(lines, n + 1, last)
  {
    hide NamesRef, AnyRef;
  }

  lemma PendingHere(lines: seq<string>, n: nat, name: string, oid: string)
    requires n < |lines| && NamesRef(lines[n], name, oid)
    ensures Pending(lines, n + 1, Some(name))
  {
    hide NamesRef, AnyRef;
    assert n < n + 1 && NamesRef(lines[n], name, oid);
  }

  lemma LineSkipped(lines: seq<string>, n: nat, p: Parsed)
    requires n < |lines| && Holds(lines, n, p.refs) && Pending(lines, n, p.last) && !AnyRef(lines[n]) && !("^" <= lines[n])
    ensures Holds(lines, n + 1, p.refs) && Pending(lines, n + 1, p.last)
  {
    hide NamesRef, AnyRef, Strips, Pending, Recorded, Named, LastNaming, PeelOf;
    NamingIsAny(lines[n]);
    PendingNext(lines, n, p.last);
    forall name
      ensures Named(lines, n + 1, name) <==> Named(lines, n, name)
    {
      NamedNext(lines, n, name);
    }
    var m: nat := n + 1;
    forall k: nat, name, oid | LastNaming(lines, m, k, name, oid) && name in p.refs
      ensures Recorded(lines, n + 1, k, name, oid, p.refs[name])
    {
      NotTheLast(lines, n, k, name, oid);
      LastBefore(lines, n, k, name, oid);
      PlainLine(lines, n, k);
      SamePeels(lines, n, k, name, oid, p.refs[name]);
    }
  }

  lemma NotTheLast(lines: seq<string>, n: nat, k: nat, name: string, oid: string)
    requires n < |lines| && LastNaming(lines, n + 1, k, name, oid) && !AnyRef(lines[n])
    ensures k < n
  {
    NamingIsAny(lines[k]);
  }

  lemma RefRead(lines: seq<string>, n: nat, p: Parsed, name: string, oid: string)
    requires n < |lines| && Holds(lines, n, p.refs) && NamesRef(lines[n], name, oid)
    ensures var refs := p.refs[name := Ref(name, oid, [])];
            Holds(lines, n + 1, refs) && Pending(lines, n + 1, Some(name))
  {
    hide NamesRef, AnyRef, Strips, Pending, Recorded, Named, LastNaming, PeelOf;
    var refs := p.refs[name := Ref(name, oid, [])];
    NamingIsAny(lines[n]);
    PendingHere(lines, n, name, oid);
    forall other
      ensures Named(lines, n + 1, other) <==> other in refs
    {
      NamedNext(lines, n, other);
    }
    var m: nat := n + 1;
    forall k: nat, other, id | LastNaming(lines, m, k, other, id) && other in refs
      ensures Recorded(lines, n + 1, k, other, id, refs[other])
    {
      LastIsNaming(lines, n + 1, k, other, id);
      if k == n {
        NoPeelYet(lines, n, name, oid);
      } else {
        LastBefore(lines, n, k, other, id);
        PlainLine(lines, n, k);
        SamePeels(lines, n, k, other, id, p.refs[other]);
      }
    }
  }

  lemma LastIsNaming(lines: seq<string>, n: nat, k: nat, name: string, oid: string)
    requires LastNaming(lines, n, k, name, oid)
    ensures k < n <= |lines| && NamesRef(lines[k], name, oid)
  {
  }

  lemma NoPeelYet(lines: seq<string>, n: nat, name: string, oid: string)
    ensures Recorded(lines, n + 1, n, name, oid, Ref(name, oid, []))
  {
    hide AnyRef, Strips;
  }

  /** A peel line belongs to the last ref named, and replaces what was read for it before. */
  lemma PeelRead(lines: seq<string>, n: nat, p: Parsed)
    requires n < |lines| && Holds(lines, n, p.refs) && Pending(lines, n, p.last) && !AnyRef(lines[n]) && "^" <= lines[n]
    ensures Holds(lines, n + 1, ParseLine(p, lines[n]).refs) && Pending(lines, n + 1, ParseLine(p, lines[n]).last)
  {
    hide NamesRef, AnyRef, Strips, Trim, SplitSpace, Recorded, Named, LastNaming, PeelOf;
    NamingIsAny(lines[n]);
    TrimStrips(lines[n][1..]);
    PendingNext(lines, n, p.last);
    forall name
      ensures Named(lines, n + 1, name) <==> Named(lines, n, name)
    {
      NamedNext(lines, n, name);
    }
    var after := ParseLine(p, lines[n]);
    var m: nat := n + 1;
    forall k: nat, name, oid | LastNaming(lines, m, k, name, oid) && name in after.refs
      ensures Recorded(lines, n + 1, k, name, oid, after.refs[name])
    {
      NotTheLast(lines, n, k, name, oid);
      LastBefore(lines, n, k, name, oid);
      LastIsNaming(lines, n, k, name, oid);
      NamingIsAny(lines[k]);
      assert p.last.Some?;
      var at: nat, id :| at < n && NamesRef(lines[at], p.last.value, id) && forall j | at < j < n :: !AnyRef(lines[j]);
      NamingIsAny(lines[at]);
      PeelMoves(lines, n, at, k);
      if k == at {
        PeelHere(lines, n, k, name, oid, p.refs[name]);
      } else {
        NamedLater(lines, n, k, at, name, oid);
        SamePeels(lines, n, k, name, oid, p.refs[name]);
      }
    }
  }

  lemma NamedLater(lines: seq<string>, n: nat, k: nat, at: nat, name: string, oid: string)
    requires LastNaming(lines, n, k, name, oid) && k < at < n
    ensures forall id :: !NamesRef(lines[at], name, id)
  {
    hide NamesRef;
  }

  lemma PeelHere(lines: seq<string>, n: nat, k: nat, name: string, oid: string, r: Ref)
    requires k < n < |lines| && "^" <= lines[n] && Recorded(lines, n, k, name, oid, r) && Strips(lines[n][1..], Trim(lines[n][1..]))
    requires OnlyPeel(lines, n + 1, k, n)
    ensures Recorded(lines, n + 1, k, name, oid, r.(peeled := Trim(lines[n][1..])))
  {
    hide Strips, PeelOf, Trim;
    assert PeelOf(lines, n + 1, k, n);
  }

  ghost predicate OnlyPeel(lines: seq<string>, n: nat, k: nat, at: nat) {
    forall j: nat :: PeelOf(lines, n, k, j) <==> j == at
  }

  /** With a peel line behind the ref at the given place, that line is the place's peel, and no other's. */
  lemma PeelMoves(lines: seq<string>, n: nat, at: nat, k: nat)
    requires n < |lines| && at < n && k < n && AnyRef(lines[at]) && (forall j | at < j < n :: !AnyRef(lines[j])) && AnyRef(lines[k])
    requires "^" <= lines[n] && !AnyRef(lines[n])
    ensures k <= at
    ensures k == at ==> OnlyPeel(lines, n + 1, k, n)
    ensures k < at ==> forall j: nat :: PeelOf(lines, n + 1, k, j) <==> PeelOf(lines, n, k, j)
  {
    hide AnyRef;
    forall j: nat
      ensures k == at ==> (PeelOf(lines, n + 1, k, j) <==> j == n)
      ensures k < at ==> (PeelOf(lines, n + 1, k, j) <==> PeelOf(lines, n, k, j))
    {
      if PeelOf(lines, n, k, j) && k < at {
        NamingIsAny(lines[at]);
        assert j < at;
      }
    }
  }

  // ---- the round trip ----

  /** Trimming changes nothing. */
  ghost predicate Trimmed(s: string) {
    Trim(s) == s
  }

  lemma {:induction false} TrimEndKeeps(s: string)
    ensures TrimEnd(s) <= s && (TrimEnd(s) == s <==> s == [] || !Whitespace(s[|s| - 1]))
    ensures TrimEnd(s) != [] ==> !Whitespace(TrimEnd(s)[|TrimEnd(s)| - 1])
    decreases |s|
  {
    if s != [] && Whitespace(s[|s| - 1]) {
      TrimEndKeeps(s[..|s| - 1]);
    }
  }

  lemma {:induction false} TrimStartKeeps(s: string)
    ensures |TrimStart(s)| <= |s| && (TrimStart(s) == s <==> s == [] || !Whitespace(s[0]))
    ensures TrimStart(s) != [] ==> !Whitespace(TrimStart(s)[0])
    decreases |s|
  {
    if s != [] && Whitespace(s[0]) {
      TrimStartKeeps(s[1..]);
    }
  }

  /** What trimming leaves alone: text that neither starts nor ends with White_Space. */
  lemma TrimKeepsExactly(s: string)
    ensures Trimmed(s) <==> s == [] || (!Whitespace(s[0]) && !Whitespace(s[|s| - 1]))
    ensures Trimmed(Trim(s))
  {
    hide Whitespace;
    TrimStartKeeps(s);
    TrimEndKeeps(TrimStart(s));
    TrimEndKeeps(s);
    var t := Trim(s);
    TrimStartKeeps(t);
    TrimEndKeeps(t);
    if t != [] {
      assert t[0] == TrimStart(s)[0];
    }
  }

  /** Records that make well-formed lines; names and ids that validation admits do. */
  ghost predicate Writable(r: Ref) {
    && IsLine(r.name) && r.name != [] && IsLine(r.peeled)
    && IsLine(r.oid) && r.oid != [] && ' ' !in r.oid && r.oid[0] != '#' && r.oid[0] != '^'
  }

  lemma ValidIsWritable(r: Ref)
    requires ValidRefName(r.name) && IsObjectId(r.oid) && (r.peeled == [] || IsObjectId(r.peeled))
    ensures Writable(r) && Trimmed(r.oid) && Trimmed(r.peeled)
    ensures Trimmed(r.name) <==> !Whitespace(r.name[|r.name| - 1])
  {
    hide ValidRefName, IsObjectId, Trimmed;
    IdIsPlain(r.oid);
    if r.peeled == [] {
      TrimKeepsExactly(r.peeled);
    } else {
      IdIsPlain(r.peeled);
    }
    NameIsPlain(r.name);
    TrimKeepsExactly(r.name);
  }

  lemma IdIsPlain(oid: string)
    requires IsObjectId(oid)
    ensures Trimmed(oid) && oid != [] && IsLine(oid) && ' ' !in oid && oid[0] != '#' && oid[0] != '^'
  {
    hide Trimmed;
    TrimKeepsExactly(oid);
    assert oid[0] in oid && oid[|oid| - 1] in oid;
  }

  lemma NameIsPlain(name: string)
    requires ValidRefName(name)
    ensures name != [] && IsLine(name) && !Whitespace(name[0])
  {
    hide Contains;
    if name != "HEAD" {
      assert '\n' in FORBIDDEN && '\r' in FORBIDDEN && "refs/"[0] == 'r';
    }
  }

  ghost predicate AllTrimmed(r: Ref) {
    Trimmed(r.name) && Trimmed(r.oid) && Trimmed(r.peeled)
  }

  lemma {:induction false} SplitAtSpace(a: string, b: string)
    requires ' ' !in a
    ensures SplitSpace(a + " " + b) == (a, b)
    decreases a
  {
    var line := a + " " + b;
    if a == [] {
      assert line[1..] == b;
    } else {
      assert a[0] in a && line[0] == a[0];
      SplitAtSpace(a[1..], b);
      assert line[1..] == a[1..] + " " + b;
      assert a == [a[0]] + a[1..];
    }
  }

  lemma {:induction false} ParseConcat(p: Parsed, a: seq<string>, b: seq<string>)
    ensures ParseLines(p, a + b) == ParseLines(ParseLines(p, a), b)
    decreases a
  {
    if a == [] {
      NothingAppended(b);
    } else {
      DropAppend(a, b, 1);
      ParseConcat(ParseLine(p, a[0]), a[1..], b);
    }
  }

  lemma ParseRef(p: Parsed, r: Ref)
    requires Writable(r) && AllTrimmed(r)
    ensures ParseLines(p, RefLines(r)) == Parsed(p.refs[r.name := r], Some(r.name))
  {
    hide Trim;
    var first := r.oid + " " + r.name;
    assert first[0] == r.oid[0];
    SplitAtSpace(r.oid, r.name);
    var p1 := ParseLine(p, first);
    assert p1 == Parsed(p.refs[r.name := Ref(r.name, r.oid, [])], Some(r.name));
    if r.peeled == [] {
      assert RefLines(r) == [first];
      assert [first][1..] == [];
    } else {
      var second := "^" + r.peeled;
      assert second[1..] == r.peeled;
      assert RefLines(r) == [first] + [second];
      ParseConcat(p, [first], [second]);
      assert [first][1..] == [] && [second][1..] == [];
      assert p1.refs[r.name := r] == p.refs[r.name := r];
    }
  }

  lemma {:induction false} ParseAll(p: Parsed, refs: seq<Ref>)
    requires forall r | r in refs :: Writable(r) && AllTrimmed(r)
    ensures ParseLines(p, AllLines(refs)).refs == p.refs + ByName(refs)
    decreases refs
  {
    hide Writable, AllTrimmed, RefLines, ParseLines;
    NoLines(p);
    if refs != [] {
      var r := refs[0];
      ParseConcat(p, RefLines(r), AllLines(refs[1..]));
      ParseRef(p, r);
      ParseAll(Parsed(p.refs[r.name := r], Some(r.name)), refs[1..]);
      UpdateThenMerge(p.refs, r.name, r, ByName(refs[1..]));
    }
  }

  lemma NoLines(p: Parsed)
    ensures ParseLines(p, []) == p
  {
  }

  lemma UpdateThenMerge<K, V>(m: map<K, V>, k: K, v: V, rest: map<K, V>)
    ensures m[k := v] + rest == m + (map[k := v] + rest)
  {
  }

  /** Later records win. */
  function ByName(refs: seq<Ref>): map<string, Ref> {
    if refs == [] then map[] else map[refs[0].name := refs[0]] + ByName(refs[1..])
  }

  lemma EmptyMeansEmpty(m: map<string, Ref>)
    requires Represents([], m)
    ensures m == map[]
  {
    var none: seq<Ref> := [];
    assert forall n | n in m :: m[n] in none;
  }

  lemma FirstRecorded(refs: seq<Ref>, m: map<string, Ref>)
    requires Represents(refs, m) && refs != []
    ensures refs[0].name in m && m[refs[0].name] == refs[0]
  {
    assert refs[0] in refs;
  }

  lemma {:induction false} ByNameOfSorted(refs: seq<Ref>, m: map<string, Ref>)
    requires Represents(refs, m)
    ensures ByName(refs) == m
    decreases refs
  {
    hide Represents;
    if refs == [] {
      EmptyMeansEmpty(m);
    } else {
      RemoveRepresents(refs, m, 0);
      assert Without(refs, 0) == refs[1..];
      ByNameOfSorted(refs[1..], m - {refs[0].name});
      FirstRecorded(refs, m);
    }
  }

  lemma CleanLines(refs: seq<Ref>)
    requires forall r | r in refs :: Writable(r)
    ensures forall l | l in AllLines(refs) :: IsLine(l)
  {
    if refs != [] {
      assert Writable(refs[0]);
      CleanLines(refs[1..]);
      forall l | l in RefLines(refs[0])
        ensures IsLine(l)
      {
      }
    }
  }

  /** Whatever the reader finds was trimmed. */
  ghost predicate ReadTrimmed(p: Parsed) {
    forall n | n in p.refs :: AllTrimmed(p.refs[n]) && Trimmed(n)
  }

  lemma LineReadTrimmed(p: Parsed, line: string)
    requires ReadTrimmed(p)
    ensures ReadTrimmed(ParseLine(p, line))
  {
    hide Trim, SplitSpace;
    TrimNothing();
    if line != [] && line[0] == '^' {
      TrimKeepsExactly(line[1..]);
    } else if line != [] {
      TrimKeepsExactly(SplitSpace(line).0);
      TrimKeepsExactly(SplitSpace(line).1);
    }
  }

  lemma TrimNothing()
    ensures Trimmed([])
  {
  }

  lemma {:induction false} LinesReadTrimmed(p: Parsed, lines: seq<string>)
    requires ReadTrimmed(p)
    ensures ReadTrimmed(ParseLines(p, lines))
    decreases |lines|
  {
    hide ParseLine, ReadTrimmed;
    if lines != [] {
      LineReadTrimmed(p, lines[0]);
      LinesReadTrimmed(ParseLine(p, lines[0]), lines[1..]);
    }
  }

  function PackedText(refs: seq<Ref>): string {
    Unlines([HEADER] + AllLines(refs))
  }

  function ReadText(text: string): map<string, Ref> {
    ParseLines(Parsed(map[], None), Lines(text)).refs
  }

  /** The text written for a sorted vector reads back as exactly its records if and only if no name or id
      starts or ends with White_Space. */
  lemma WrittenReadsBack(refs: seq<Ref>, m: map<string, Ref>)
    requires Represents(refs, m) && forall r | r in refs :: Writable(r)
    ensures ReadText(PackedText(refs)) == m <==> forall r | r in refs :: AllTrimmed(r)
  {
    hide Represents, Writable, IsLine, AllTrimmed, ParseLines;
    if forall r | r in refs :: AllTrimmed(r) {
      TrimmedReadsBack(refs, m);
    }
    EmptyReadTrimmed();
    LinesReadTrimmed(Parsed(map[], None), Lines(PackedText(refs)));
    RecordsOf(refs, m);
  }

  lemma EmptyReadTrimmed()
    ensures ReadTrimmed(Parsed(map[], None))
  {
  }

  lemma RecordsOf(refs: seq<Ref>, m: map<string, Ref>)
    requires Represents(refs, m)
    ensures forall r | r in refs :: r.name in m && m[r.name] == r
  {
  }

  lemma TrimmedReadsBack(refs: seq<Ref>, m: map<string, Ref>)
    requires Represents(refs, m) && forall r | r in refs :: Writable(r) && AllTrimmed(r)
    ensures ReadText(PackedText(refs)) == m
  {
    hide Represents, Writable, AllTrimmed, IsLine;
    CleanLines(refs);
    var lines := [HEADER] + AllLines(refs);
    HeaderIsComment();
    LinesOfUnlines(lines);
    assert lines[0] == HEADER && lines[1..] == AllLines(refs);
    ParseAll(Parsed(map[], None), refs);
    ByNameOfSorted(refs, m);
    assert map[] + m == m;
  }

  /** A valid name that does not survive: it ends with a no-break space, which trimming takes off. */
  lemma NameThatIsTrimmed() returns (name: string)
    ensures ValidRefName(name) && !Trimmed(name) && Trim(name) == "refs/heads/x"
  {
    name := "refs/heads/x\U{A0}";
    var n := |name| - 1;
    assert name[n] == '\U{A0}' && name[..n] == "refs/heads/x" && Whitespace(name[n]);
    TrimStartKeeps(name);
    TrimEndKeeps("refs/heads/x");
    assert TrimEnd(name) == TrimEnd(name[..n]);
    NoParts(name);
  }

  predicate Plain(c: char) {
    'a' <= c <= 'z' || c == '/' || c == '\U{A0}'
  }

  lemma NoParts(name: string)
    requires name == "refs/heads/x\U{A0}"
    ensures ValidRefName(name)
  {
    hide HasAt;
    assert name[|name| - 1] == '\U{A0}' && |name| == 13;
    forall i | 0 <= i <= |name|
      ensures !HasAt(name, i, "..") && !HasAt(name, i, "@{") && !HasAt(name, i, "//")
    {
      NoPairAt(name, i);
    }
    assert forall c | c in name :: Plain(c) && c !in FORBIDDEN;
    assert !EndsWith(name, ".lock") by {
      assert name[8..] != ".lock" by {
        assert name[8..][4] == '\U{A0}';
      }
    }
  }

  lemma NoPairAt(name: string, i: nat)
    requires name == "refs/heads/x\U{A0}" && i <= |name|
    ensures !HasAt(name, i, "..") && !HasAt(name, i, "@{") && !HasAt(name, i, "//")
  {
    if i + 2 <= |name| {
      assert name[i..][0] == name[i] && name[i..][1] == name[i + 1];
      assert name[i] != '.' && name[i] != '@' && (name[i] != '/' || name[i + 1] != '/');
    }
  }

  lemma HeaderIsComment()
    ensures IsLine(HEADER)
    ensures ParseLine(Parsed(map[], None), HEADER) == Parsed(map[], None)
  {
    assert IsLine("# pack-refs ") && IsLine("with: ") && IsLine("peeled ") && IsLine("fully-peeled ") && IsLine("sorted ");
  }

  // ---- the whole repository on disk ----

  /** The refs of a repository: packed text, the HEAD file, and loose refs that hold an id. */
  datatype Disk = Disk(packed: string, head: Option<string>, loose: map<string, string>)

  const REF_PREFIX: string := "ref: "

  /** HEAD's symbolic target; anything else is a detached HEAD. */
  function ReadHead(head: Option<string>): string {
    if head.Some? && REF_PREFIX <= Trim(head.value) then Trim(Trim(head.value)[|REF_PREFIX|..]) else []
  }

  function WithLoose(refs: map<string, Ref>, loose: map<string, string>): map<string, Ref> {
    map n | n in refs.Keys + loose.Keys ::
      if n in loose then Ref(n, Trim(loose[n]), []) else refs[n]
  }

  /** A tag without a recorded peel is peeled in the object store. */
  function Repeeled(r: Ref, peel: string -> string): Ref {
    if r.peeled == [] && StartsWith(r.name, "refs/tags/") then r.(peeled := peel(r.oid)) else r
  }

  function AllRepeeled(refs: map<string, Ref>, peel: string -> string): map<string, Ref> {
    map n | n in refs :: Repeeled(refs[n], peel)
  }

  /** Packed text, loose refs over it, tags peeled. */
  function ReadRefs(d: Disk, peel: string -> string): RefState {
    var loose := map n | n in d.loose && Trim(d.loose[n]) != [] :: d.loose[n];
    RefState(AllRepeeled(WithLoose(ReadText(d.packed), loose), peel), ReadHead(d.head))
  }

  /** A ref as the disk has it: a loose file with something in it wins over the packed text and has no
      recorded peel; a tag without one is peeled in the object store, and only a tag. */
  ghost predicate OnDisk(d: Disk, packed: map<string, Ref>, peel: string -> string, refs: map<string, Ref>, n: string) {
    if n in d.loose && !Strips(d.loose[n], []) then
      && n in refs && refs[n].name == n && Strips(d.loose[n], refs[n].oid)
      && refs[n].peeled == if "refs/tags/" <= n then peel(refs[n].oid) else []
    else
      && (n in refs <==> n in packed)
      && (n in refs ==>
            && refs[n].name == packed[n].name && refs[n].oid == packed[n].oid
            && refs[n].peeled == if packed[n].peeled == [] && "refs/tags/" <= packed[n].name then peel(packed[n].oid) else packed[n].peeled)
  }

  /** HEAD is symbolic when its trimmed text starts with "ref: ", and then points to the rest, trimmed. */
  ghost predicate PointsTo(head: Option<string>, target: string) {
    if head.None? then target == []
    else exists text :: Strips(head.value, text) && if "ref: " <= text then Strips(text[5..], target) else target == []
  }

  /** Everything the next read finds, told from the files themselves. */
  lemma ReadFromDisk(d: Disk, peel: string -> string)
    ensures PointsTo(d.head, ReadRefs(d, peel).headTarget)
    ensures exists packed :: Holds(Lines(d.packed), |Lines(d.packed)|, packed)
                             && forall n :: OnDisk(d, packed, peel, ReadRefs(d, peel).refs, n)
  {
    hide Holds, Strips, Trim, ParseLines, Lines;
    TextHolds(d.packed);
    var packed := ReadText(d.packed);
    forall n
      ensures OnDisk(d, packed, peel, ReadRefs(d, peel).refs, n)
    {
      if n in d.loose {
        TrimStrips(d.loose[n]);
        BlankOnce(d.loose[n]);
      }
    }
    assert Holds(Lines(d.packed), |Lines(d.packed)|, packed);
    if d.head.Some? {
      TrimStrips(d.head.value);
      var text := Trim(d.head.value);
      TrimStrips(if "ref: " <= text then text[5..] else []);
      assert Strips(d.head.value, text);
    }
  }

  lemma BlankOnce(s: string)
    ensures Strips(s, []) ==> Trim(s) == []
  {
    hide Strips;
    if Strips(s, []) {
      StripsOnce(s, []);
    }
  }

  /** Replaces all refs: new packed text, no loose refs, and HEAD rewritten when there is a target. */
  function LoadSnapshot(d: Disk, snap: RefSnapshot): Disk {
    Disk(PackedText(snap.refs), if snap.headTarget == [] then d.head else Some(REF_PREFIX + snap.headTarget + "\n"), map[])
  }

  /** HEAD's target reads back if and only if trimming leaves it alone. */
  lemma HeadReadsBack(target: string)
    requires target != []
    ensures ReadHead(Some("ref: " + target + "\n")) == target <==> Trimmed(target)
  {
    var text := REF_PREFIX + target + "\n";
    var line := REF_PREFIX + target;
    assert text[..|text| - 1] == line && Whitespace('\n') && !Whitespace('r') && line[0] == 'r' && text[0] == 'r';
    TrimStartKeeps(text);
    assert Trim(text) == TrimEnd(line);
    TrimEndKeeps(line);
    TrimKeepsExactly(target);
    assert line[|line| - 1] == target[|target| - 1] && line[|REF_PREFIX|..] == target;
    TrimNothing();
    TrimKeepsExactly(Trim(text)[if REF_PREFIX <= Trim(text) then |REF_PREFIX| else 0..]);
  }

  lemma {:induction false} TxnKeepsHead(st: RefState, txn: RefTxn, peel: string -> string)
    ensures ApplyTxn(st, txn, peel).headTarget == [] ==> st.headTarget == []
    decreases |txn|
  {
    if txn != [] {
      TxnKeepsHead(ApplyUpdate(st, txn[0], peel), txn[1..], peel);
    }
  }

  lemma {:induction false} AllKeepHead(st: RefState, txns: seq<RefTxn>, peel: string -> string)
    ensures ApplyAll(st, txns, peel).headTarget == [] ==> st.headTarget == []
    decreases |txns|
  {
    if txns != [] {
      TxnKeepsHead(st, txns[0], peel);
      AllKeepHead(ApplyTxn(st, txns[0], peel), txns[1..], peel);
    }
  }

  /** No name, id or target of HEAD starts or ends with White_Space. */
  ghost predicate AllSurvive(t: RefState) {
    (forall n | n in t.refs :: AllTrimmed(t.refs[n])) && Trimmed(t.headTarget)
  }

  lemma RefsReadBack(refs: seq<Ref>, m: map<string, Ref>, peel: string -> string)
    requires Represents(refs, m) && (forall r | r in refs :: Writable(r)) && forall o :: Trimmed(peel(o))
    ensures AllRepeeled(ReadText(PackedText(refs)), peel) == AllRepeeled(m, peel) <==> forall n | n in m :: AllTrimmed(m[n])
  {
    hide Writable, AllTrimmed, ReadText, PackedText, Repeeled, AllRepeeled, Represents, Trimmed;
    WrittenReadsBack(refs, m);
    ReadIsTrimmed(PackedText(refs));
    SameWhenRepeeled(ReadText(PackedText(refs)), m, peel);
    SameRecords(refs, m);
  }

  lemma SameRecords(refs: seq<Ref>, m: map<string, Ref>)
    requires Represents(refs, m)
    ensures (forall r | r in refs :: AllTrimmed(r)) <==> forall n | n in m :: AllTrimmed(m[n])
  {
    hide AllTrimmed;
  }

  lemma NoLooseRefs(d: Disk, snap: RefSnapshot, peel: string -> string)
    ensures ReadRefs(LoadSnapshot(d, snap), peel)
         == RefState(AllRepeeled(ReadText(PackedText(snap.refs)), peel), ReadHead(LoadSnapshot(d, snap).head))
  {
    hide ReadText, PackedText, AllRepeeled, ReadHead;
    assert WithLoose(ReadText(PackedText(snap.refs)), map[]) == ReadText(PackedText(snap.refs));
  }

  /** The offline writer end to end: what the next read of the repository finds is the state with all
      transactions applied, its tags peeled and HEAD included, if and only if nothing in that state starts
      or ends with White_Space. */
  lemma OfflineReadsBack(d: Disk, st: RefState, txns: seq<RefTxn>, peel: string -> string)
    requires st.headTarget == ReadHead(d.head) && WellNamed(ApplyAll(st, txns, peel)) && forall o :: Trimmed(peel(o))
    requires forall n | n in ApplyAll(st, txns, peel).refs :: Writable(ApplyAll(st, txns, peel).refs[n])
    ensures var t := ApplyAll(st, txns, peel);
            ReadRefs(LoadSnapshot(d, RefSnapshot(Values(t.refs), t.headTarget)), peel) == RefState(AllRepeeled(t.refs, peel), t.headTarget)
            <==> AllSurvive(t)
  {
    hide Writable, AllTrimmed, ApplyAll, ReadText, PackedText, AllRepeeled, ReadHead, LoadSnapshot, ReadRefs, Trimmed, Represents;
    var t := ApplyAll(st, txns, peel);
    var refs := Values(t.refs);
    HeadAfter(d, st, txns, peel);
    RecordsOf(refs, t.refs);
    forall r | r in refs
      ensures Writable(r)
    {
      assert t.refs[r.name] == r;
    }
    RefsReadBack(refs, t.refs, peel);
    NoLooseRefs(d, RefSnapshot(refs, t.headTarget), peel);
  }

  lemma ReadIsTrimmed(text: string)
    ensures forall n | n in ReadText(text) :: AllTrimmed(ReadText(text)[n])
  {
    hide AllTrimmed, Trimmed, ParseLines;
    EmptyReadTrimmed();
    LinesReadTrimmed(Parsed(map[], None), Lines(text));
  }

  /** Peeling hides no difference that trimming made. */
  lemma SameWhenRepeeled(read: map<string, Ref>, m: map<string, Ref>, peel: string -> string)
    requires (forall n | n in read :: AllTrimmed(read[n])) && forall o :: Trimmed(peel(o))
    ensures AllRepeeled(read, peel) == AllRepeeled(m, peel) ==> forall n | n in m :: AllTrimmed(m[n])
  {
    hide Trimmed;
    TrimNothing();
    if AllRepeeled(read, peel) == AllRepeeled(m, peel) {
      forall n | n in m
        ensures AllTrimmed(m[n])
      {
        assert n in AllRepeeled(m, peel) && n in read;
        assert AllRepeeled(read, peel)[n] == AllRepeeled(m, peel)[n];
      }
    }
  }

  lemma HeadAfter(d: Disk, st: RefState, txns: seq<RefTxn>, peel: string -> string)
    requires st.headTarget == ReadHead(d.head)
    ensures var t := ApplyAll(st, txns, peel);
            ReadHead(LoadSnapshot(d, RefSnapshot(Values(t.refs), t.headTarget)).head) == t.headTarget <==> Trimmed(t.headTarget)
    requires WellNamed(ApplyAll(st, txns, peel))
  {
    hide ApplyAll, ReadHead;
    AllKeepHead(st, txns, peel);
    TrimNothing();
    var t := ApplyAll(st, txns, peel);
    if t.headTarget != [] {
      HeadReadsBack(t.headTarget);
    }
  }
}
