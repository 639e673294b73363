/** Ref names, object ids and ref selectors as strings (crates/walgit-git/src/lib.rs:77-114,
    crates/walgit-config/src/refs.rs). */
module RefNames {

  /** A ref as a snapshot records it; peeled is empty unless the ref is an annotated tag. */
  datatype Ref = Ref(name: string, oid: string, peeled: string)

  predicate StartsWith(s: string, prefix: string) {
    prefix <= s
  }

  predicate EndsWith(s: string, suffix: string) {
    |suffix| <= |s| && s[|s| - |suffix|..] == suffix
  }

  predicate Contains(s: string, part: string) {
    exists i | 0 <= i <= |s| :: HasAt(s, i, part)
  }

  predicate HasAt(s: string, i: nat, part: string)
    requires i <= |s|
  {
    StartsWith(s[i..], part)
  }

  const FORBIDDEN: set<char> := {'\0', '\n', '\r', ' ', '~', '^', ':', '?', '*', '[', '\\'}

  predicate ValidRefName(name: string) {
    name == "HEAD" ||
    (&& StartsWith(name, "refs/")
     && (forall c | c in name :: c !in FORBIDDEN)
     && !Contains(name, "..") && !Contains(name, "@{") && !Contains(name, "//")
     && !EndsWith(name, "/") && !EndsWith(name, ".") && !EndsWith(name, ".lock"))
  }

  predicate IsHex(c: char) {
    '0' <= c <= '9' || 'a' <= c <= 'f' || 'A' <= c <= 'F'
  }

  /** The empty and the all-zero id both mean "no object". */
  predicate IsZero(oid: string) {
    forall c | c in oid :: c == '0'
  }

  predicate IsObjectId(oid: string) {
    (|oid| == 40 || |oid| == 64) && forall c | c in oid :: IsHex(c)
  }

  predicate IsMetadataRef(name: string) {
    name == "refs/meta" || StartsWith(name, "refs/meta/")
  }

  /** One positive pattern: HEAD stands for its target, a trailing star for any continuation. */
  predicate SelectorMatches(pattern: string, name: string, headTarget: string) {
    if pattern == "HEAD" then headTarget != [] && name == headTarget
    else if EndsWith(pattern, "*") then StartsWith(name, pattern[..|pattern| - 1])
    else name == pattern
  }

  predicate Negative(selector: string) {
    StartsWith(selector, "!")
  }

  function Pattern(selector: string): string {
    if Negative(selector) then selector[1..] else selector
  }

  /** The pieces between slashes. */
  function Components(name: string): (r: seq<string>)
    ensures |r| > 0
  {
    if name == [] then [[]]
    else
      var rest := Components(name[1..]);
      if name[0] == '/' then [[]] + rest else [[name[0]] + rest[0]] + rest[1..]
  }

  const UNWANTED := "~^:?*[\\"

  /** Which names a selector may spell out: Git's ref name rules, component by component. */
  predicate ValidSelectorName(name: string) {
    && StartsWith(name, "refs/") && !EndsWith(name, "/") && !EndsWith(name, ".")
    && !Contains(name, "..") && !Contains(name, "@{")
    && (forall c | c in name :: c > ' ' && c != '\U{7F}' && c !in UNWANTED)
    && (forall part | part in Components(name) :: part != [] && !StartsWith(part, ".") && !EndsWith(part, ".lock"))
  }

  /** A selector names a ref, HEAD, or everything that starts with a piece of a ref name. */
  predicate ValidSelector(selector: string) {
    var pattern := Pattern(selector);
    if pattern == "HEAD" then true
    else if EndsWith(pattern, "*") then ValidSelectorName(pattern[..|pattern| - 1] + "x")
    else ValidSelectorName(pattern)
  }

  const MAX_SELECTORS := 256

  predicate ValidSelectors(selectors: seq<string>) {
    |selectors| <= 256 && forall s | s in selectors :: ValidSelector(s)
  }

  method ValidateSelectors(selectors: seq<string>) returns (ok: bool)
    ensures ok <==> ValidSelectors(selectors)
    ensures ok <==> |selectors| <= 256 && forall s | s in selectors :: SelectorAllowed(s)
  {
    hide ValidSelector, SelectorAllowed;
    forall s
      ensures ValidSelector(s) <==> SelectorAllowed(s)
    {
      AllowedExactly(s);
    }
    if |selectors| > MAX_SELECTORS {
      return false;
    }
    for i := 0 to |selectors|
      invariant forall k | 0 <= k < i :: ValidSelector(selectors[k])
    {
      if !ValidSelector(selectors[i]) {
        return false;
      }
    }
    return true;
  }

  // ---- the same rules position by position ----

  ghost predicate PairAt(s: string, i: nat, a: char, b: char) {
    i + 1 < |s| && s[i] == a && s[i + 1] == b
  }

  /** Ref names by their characters: control codes, space and the characters of patterns are left out, and so
      are doubled dots and slashes, "@{", and a slash, a dot or ".lock" at the end. */
  ghost predicate NameSpelled(name: string) {
    name == "HEAD" ||
    (&& "refs/" <= name
     && (forall i | 0 <= i < |name| :: name[i] as int !in {0, 10, 13, 32, 42, 58, 63, 91, 92, 94, 126})
     && (forall i: nat :: !PairAt(name, i, '.', '.') && !PairAt(name, i, '@', '{') && !PairAt(name, i, '/', '/'))
     && name[|name| - 1] !in {'/', '.'} && name[|name| - 5..] != ".lock")
  }

  ghost predicate IdSpelled(oid: string) {
    (|oid| == 40 || |oid| == 64)
    && forall i | 0 <= i < |oid| :: 48 <= oid[i] as int <= 57 || 97 <= oid[i] as int <= 102 || 65 <= oid[i] as int <= 70
  }

  lemma ContainsPair(s: string, a: char, b: char)
    ensures Contains(s, [a, b]) <==> exists i: nat :: PairAt(s, i, a, b)
  {
    if i :| 0 <= i <= |s| && HasAt(s, i, [a, b]) {
      assert s[i..][0] == a && s[i..][1] == b;
      assert PairAt(s, i, a, b);
    }
    if i: nat :| PairAt(s, i, a, b) {
      assert s[i..][0] == a && s[i..][1] == b && [a, b] <= s[i..];
      assert HasAt(s, i, [a, b]);
    }
  }

  lemma EndsWithChar(s: string, c: char)
    requires s != []
    ensures EndsWith(s, [c]) <==> s[|s| - 1] == c
  {
    assert s[|s| - 1..] == [s[|s| - 1]];
  }

  lemma NameSpelledExactly(name: string)
    ensures ValidRefName(name) <==> NameSpelled(name)
  {
    hide Contains;
    ContainsPair(name, '.', '.');
    ContainsPair(name, '@', '{');
    ContainsPair(name, '/', '/');
    if "refs/" <= name {
      EndsWithChar(name, '/');
      EndsWithChar(name, '.');
      forall c: char
        ensures c in FORBIDDEN <==> c as int in {0, 10, 13, 32, 42, 58, 63, 91, 92, 94, 126}
      {
        ForbiddenSpelled(c);
      }
      assert forall i | 0 <= i < |name| :: name[i] in name;
    }
  }

  lemma ForbiddenSpelled(c: char)
    ensures c in FORBIDDEN <==> c as int in {0, 10, 13, 32, 42, 58, 63, 91, 92, 94, 126}
  {
    assert c in FORBIDDEN <==> c == '\0' || c == '\n' || c == '\r' || c == ' ' || c == '~' || c == '^' || c == ':' || c == '?' || c == '*' || c == '[' || c == '\\';
  }

  lemma IdSpelledExactly(oid: string)
    ensures IsObjectId(oid) <==> IdSpelled(oid)
  {
    assert forall i | 0 <= i < |oid| :: oid[i] in oid;
    if IdSpelled(oid) {
      forall c | c in oid
        ensures IsHex(c)
      {
        var i :| 0 <= i < |oid| && oid[i] == c;
      }
    }
  }

  /** This part is a longest stretch without slashes. */
  ghost predicate PartAt(name: string, i: nat, j: nat, part: string) {
    && i <= j <= |name| && part == name[i..j] && (i == 0 || name[i - 1] == '/') && (j == |name| || name[j] == '/')
    && forall k | i <= k < j :: name[k] != '/'
  }

  /** The components are these stretches; the first is the one at the start. */
  lemma {:induction false} ComponentsAreParts(name: string)
    ensures exists k: nat :: PartAt(name, 0, k, Components(name)[0])
    ensures forall part | part in Components(name)[1..] :: exists i: nat, j: nat :: i > 0 && PartAt(name, i, j, part)
    ensures forall i: nat, j: nat, part | i > 0 && PartAt(name, i, j, part) :: part in Components(name)[1..]
  {
    hide PartAt;
    if name == [] {
      EmptyParts();
      var nothing: string := [];
      assert Components(name)[0] == nothing && Components(name)[1..] == [];
      assert PartAt(name, 0, 0, Components(name)[0]);
    } else {
      ComponentsAreParts(name[1..]);
      var rest := Components(name[1..]);
      var k: nat :| PartAt(name[1..], 0, k, rest[0]);
      if name[0] == '/' {
        FirstIsEmpty(name);
        assert Components(name)[0] == [] && Components(name)[1..] == rest;
        assert rest == [rest[0]] + rest[1..];
        forall part | part in rest
          ensures exists i: nat, j: nat :: i > 0 && PartAt(name, i, j, part)
        {
          var i: nat, j: nat := 0, k;
          if part != rest[0] {
            i, j :| i > 0 && PartAt(name[1..], i, j, part);
          }
          PartShifts(name, i, j, part);
        }
        forall i: nat, j: nat, part | i > 0 && PartAt(name, i, j, part)
          ensures part in rest
        {
          PartBounds(name, i, j, part);
          PartShifts(name, i - 1, j - 1, part);
          if i == 1 {
            OnePart(name[1..], 0, k, rest[0], j - 1, part);
          }
        }
      } else {
        FirstPartGrows(name, k, rest[0]);
        assert Components(name)[0] == [name[0]] + rest[0] && Components(name)[1..] == rest[1..];
        forall part | part in rest[1..]
          ensures exists i: nat, j: nat :: i > 0 && PartAt(name, i, j, part)
        {
          var i: nat, j: nat :| i > 0 && PartAt(name[1..], i, j, part);
          PartShifts(name, i, j, part);
        }
        forall i: nat, j: nat, part | i > 0 && PartAt(name, i, j, part)
          ensures part in rest[1..]
        {
          PartBounds(name, i, j, part);
          PartShifts(name, i - 1, j - 1, part);
        }
      }
    }
  }

  lemma EmptyParts()
    ensures PartAt([], 0, 0, []) && forall i: nat, j: nat, part :: PartAt([], i, j, part) ==> i == 0
  {
  }

  lemma FirstIsEmpty(name: string)
    requires name != [] && name[0] == '/'
    ensures PartAt(name, 0, 0, [])
  {
  }

  lemma PartBounds(name: string, i: nat, j: nat, part: string)
    requires PartAt(name, i, j, part)
    ensures i <= j <= |name| && part == name[i..j] && (i > 0 ==> name[i - 1] == '/')
  {
  }

  lemma OnePart(name: string, i: nat, j: nat, a: string, k: nat, b: string)
    requires PartAt(name, i, j, a) && PartAt(name, i, k, b)
    ensures j == k && a == b
  {
  }

  /** Stretches of a string without its first character, and of the string. */
  lemma PartShifts(name: string, i: nat, j: nat, part: string)
    requires name != [] && (i > 0 || name[0] == '/')
    ensures PartAt(name[1..], i, j, part) <==> PartAt(name, i + 1, j + 1, part)
  {
    if i <= j <= |name| - 1 {
      assert name[1..][i..j] == name[i + 1..j + 1];
      if PartAt(name, i + 1, j + 1, part) {
        forall k | i <= k < j
          ensures name[1..][k] != '/'
        {
          assert name[k + 1] != '/';
        }
      }
    }
  }

  lemma FirstPartGrows(name: string, j: nat, part: string)
    requires name != [] && name[0] != '/' && PartAt(name[1..], 0, j, part)
    ensures PartAt(name, 0, j + 1, [name[0]] + part)
  {
    assert [name[0]] + name[1..][..j] == name[..j + 1];
  }

  /** What a selector may spell, position by position: codes from 33 on without 127 and those of patterns, no
      doubled dots, no "@{", no slash or dot at the end, and no component that is empty, starts with a dot or
      ends with ".lock". */
  ghost predicate SelectorSpelled(name: string) {
    && "refs/" <= name && name[|name| - 1] !in {'/', '.'}
    && (forall i: nat :: !PairAt(name, i, '.', '.') && !PairAt(name, i, '@', '{'))
    && (forall i | 0 <= i < |name| :: name[i] as int > 32 && name[i] as int !in {42, 58, 63, 91, 92, 94, 126, 127})
    && forall i: nat, j: nat, part | PartAt(name, i, j, part) :: part != [] && part[0] != '.' && !(|part| >= 5 && part[|part| - 5..] == ".lock")
  }

  lemma SelectorSpelledExactly(name: string)
    ensures ValidSelectorName(name) <==> SelectorSpelled(name)
  {
    hide Contains, Components, PartAt;
    if "refs/" <= name {
      EndsWithChar(name, '/');
      EndsWithChar(name, '.');
      ContainsPair(name, '.', '.');
      ContainsPair(name, '@', '{');
      forall c: char
        ensures c > ' ' && c != '\U{7F}' && c !in UNWANTED <==> c as int > 32 && c as int !in {42, 58, 63, 91, 92, 94, 126, 127}
      {
        UnwantedSpelled(c);
      }
      assert forall i | 0 <= i < |name| :: name[i] in name;
      PartsSpelled(name);
    }
  }

  /** A pattern, with or without an exclamation mark before it. */
  ghost predicate Selects(selector: string, pattern: string) {
    if "!" <= selector then selector == "!" + pattern else selector == pattern
  }

  /** HEAD, a spelled name, or a prefix before a star that a name can continue. */
  ghost predicate SelectorAllowed(selector: string) {
    exists pattern :: Selects(selector, pattern) &&
      (pattern == "HEAD"
       || (exists p :: pattern == p + "*" && SelectorSpelled(p + "x"))
       || ((forall p :: pattern != p + "*") && SelectorSpelled(pattern)))
  }

  lemma AllowedExactly(selector: string)
    ensures ValidSelector(selector) <==> SelectorAllowed(selector)
  {
    hide ValidSelectorName, SelectorSpelled;
    var pattern := Pattern(selector);
    assert Selects(selector, pattern) by {
      assert Negative(selector) ==> selector == "!" + selector[1..];
    }
    forall other | Selects(selector, other)
      ensures other == pattern
    {
      assert ("!" + other)[1..] == other;
    }
    if EndsWith(pattern, "*") {
      var p := pattern[..|pattern| - 1];
      assert pattern == p + "*";
      SelectorSpelledExactly(p + "x");
      forall q | pattern == q + "*"
        ensures q == p
      {
        assert (q + "*")[..|q|] == q;
      }
    } else {
      forall q
        ensures pattern != q + "*"
      {
        assert (q + "*")[|q|..] == "*";
      }
      SelectorSpelledExactly(pattern);
    }
  }

  lemma UnwantedSpelled(c: char)
    ensures c > ' ' && c != '\U{7F}' && c !in UNWANTED <==> c as int > 32 && c as int !in {42, 58, 63, 91, 92, 94, 126, 127}
  {
    assert c in UNWANTED <==> c == '~' || c == '^' || c == ':' || c == '?' || c == '*' || c == '[' || c == '\\' by {
      var u := UNWANTED;
      assert u[0] == '~' && u[1] == '^' && u[2] == ':' && u[3] == '?' && u[4] == '*' && u[5] == '[' && u[6] == '\\' && |u| == 7;
    }
  }

  lemma PartsSpelled(name: string)
    ensures (forall part | part in Components(name) :: part != [] && !StartsWith(part, ".") && !EndsWith(part, ".lock"))
       <==> forall i: nat, j: nat, part | PartAt(name, i, j, part) :: part != [] && part[0] != '.' && !(|part| >= 5 && part[|part| - 5..] == ".lock")
  {
    hide Components, PartAt;
    ComponentsAreParts(name);
    var parts := Components(name);
    assert parts == [parts[0]] + parts[1..];
    var k: nat :| PartAt(name, 0, k, parts[0]);
    forall i: nat, j: nat, part | PartAt(name, i, j, part)
      ensures part in parts
    {
      if i == 0 {
        OnePart(name, 0, k, parts[0], j, part);
      }
    }
    forall part | part in parts
      ensures exists i: nat, j: nat :: PartAt(name, i, j, part)
    {
      if part != parts[0] {
        var i: nat, j: nat :| i > 0 && PartAt(name, i, j, part);
      }
    }
  }

  /** The i-th selector is the last one that matches. */
  ghost predicate LastMatch(selectors: seq<string>, i: nat, name: string, headTarget: string)
    requires i < |selectors|
  {
    && SelectorMatches(Pattern(selectors[i]), name, headTarget)
    && forall j | i < j < |selectors| :: !SelectorMatches(Pattern(selectors[j]), name, headTarget)
  }

  /** The last selector that matches decides, and it is positive. */
  ghost predicate Included(selectors: seq<string>, name: string, headTarget: string) {
    exists i | 0 <= i < |selectors| :: LastMatch(selectors, i, name, headTarget) && !Negative(selectors[i])
  }

  /** What the text of a positive selector covers: HEAD the current target, p followed by a star every name
      that starts with p, anything else the name it spells. */
  ghost predicate Covers(text: string, name: string, headTarget: string) {
    || (text == "HEAD" && headTarget != [] && name == headTarget)
    || (text != "HEAD" && exists p :: text == p + "*" && p <= name)
    || (text != "HEAD" && (forall p :: text != p + "*") && name == text)
  }

  /** Selectors read from the end: the first one found that covers the name decides, and one that starts with
      an exclamation mark covers what its rest covers, to leave it out. */
  ghost predicate Decided(selectors: seq<string>, name: string, headTarget: string)
    decreases |selectors|
  {
    selectors != [] &&
    var last := selectors[|selectors| - 1];
    if exists text :: last == "!" + text && Covers(text, name, headTarget) then false
    else if (forall text :: last != "!" + text) && Covers(last, name, headTarget) then true
    else Decided(selectors[..|selectors| - 1], name, headTarget)
  }

  lemma MatchCovers(text: string, name: string, headTarget: string)
    ensures SelectorMatches(text, name, headTarget) <==> Covers(text, name, headTarget)
  {
    if EndsWith(text, "*") {
      var p := text[..|text| - 1];
      assert text == p + "*";
    }
    if q :| text == q + "*" {
      assert q == text[..|text| - 1] && text[|text| - 1..] == "*";
    }
  }

  lemma NegativeText(selector: string)
    ensures Negative(selector) ==> selector == "!" + Pattern(selector)
    ensures forall text :: selector == "!" + text ==> Negative(selector) && text == Pattern(selector)
  {
    if Negative(selector) {
      assert selector == selector[..1] + selector[1..];
    }
    forall text | selector == "!" + text
      ensures Negative(selector) && text == Pattern(selector)
    {
      assert text == selector[1..] && selector[..1] == "!";
    }
  }

  lemma {:induction false} IncludedIsDecided(selectors: seq<string>, name: string, headTarget: string)
    ensures Included(selectors, name, headTarget) <==> Decided(selectors, name, headTarget)
    decreases |selectors|
  {
    hide SelectorMatches, Covers, Negative;
    if selectors != [] {
      var n := |selectors| - 1;
      var last, rest := selectors[n], selectors[..n];
      IncludedIsDecided(rest, name, headTarget);
      MatchCovers(Pattern(last), name, headTarget);
      NegativeText(last);
      if SelectorMatches(Pattern(last), name, headTarget) {
        assert LastMatch(selectors, n, name, headTarget);
      } else {
        RestDecides(selectors, name, headTarget);
      }
    }
  }

  lemma RestDecides(selectors: seq<string>, name: string, headTarget: string)
    requires selectors != [] && !SelectorMatches(Pattern(selectors[|selectors| - 1]), name, headTarget)
    ensures Included(selectors, name, headTarget) <==> Included(selectors[..|selectors| - 1], name, headTarget)
  {
    hide SelectorMatches, Pattern, Negative;
    var rest := selectors[..|selectors| - 1];
    forall i: nat | i < |rest|
      ensures LastMatch(selectors, i, name, headTarget) <==> LastMatch(rest, i, name, headTarget)
    {
      assert forall j | i < j < |rest| :: selectors[j] == rest[j];
    }
  }

  /** What the last selector of a list does, spelled out. */
  lemma LastSelector(rest: seq<string>, p: string, s: string, name: string, headTarget: string)
    ensures !("!" <= p) ==> Included(rest + [p + "*"], p + s, headTarget)
    ensures !Included(rest + ["!" + p + "*"], p + s, headTarget)
    ensures !("!" <= p) && p != "HEAD" && (p == [] || p[|p| - 1] != '*') ==>
              (Included(rest + [p], name, headTarget) <==> name == p || Included(rest, name, headTarget))
    ensures p != "HEAD" && (p == [] || p[|p| - 1] != '*') ==>
              (Included(rest + ["!" + p], name, headTarget) <==> name != p && Included(rest, name, headTarget))
    ensures Included(rest + ["HEAD"], name, headTarget) <==> (headTarget != [] && name == headTarget) || Included(rest, name, headTarget)
    ensures Included(rest + ["!HEAD"], name, headTarget) <==> Included(rest, name, headTarget) && !(headTarget != [] && name == headTarget)
    ensures !(p <= name) && !("!" <= p) ==> (Included(rest + [p + "*"], name, headTarget) <==> Included(rest, name, headTarget))
    ensures !(p <= name) ==> (Included(rest + ["!" + p + "*"], name, headTarget) <==> Included(rest, name, headTarget))
  {
    hide Included, Decided, Covers;
    CoversStar(p, p + s, headTarget);
    CoversStar(p, name, headTarget);
    CoversLiteral(p, name, headTarget);
    CoversHead(name, headTarget);
    assert "!" + p + "*" == "!" + (p + "*") && "!HEAD" == "!" + "HEAD";
    assert "HEAD"[0] == 'H' && "!"[0] == '!';
    LastDecides(rest, "HEAD", name, headTarget);
    LastDecides(rest, p + "*", name, headTarget);
    LastDecides(rest, p + "*", p + s, headTarget);
    LastDecides(rest, p, name, headTarget);
    assert !("!" <= p) ==> !("!" <= p + "*") by {
      assert p != [] ==> (p + "*")[0] == p[0];
    }
  }

  lemma CoversStar(p: string, name: string, headTarget: string)
    ensures Covers(p + "*", name, headTarget) <==> p <= name
  {
    assert (p + "*")[|p|] == '*' && "HEAD"[3] == 'D';
    forall q | p + "*" == q + "*"
      ensures p == q
    {
      assert p == (p + "*")[..|p|] && q == (q + "*")[..|q|];
    }
  }

  lemma CoversLiteral(p: string, name: string, headTarget: string)
    ensures p != "HEAD" && (p == [] || p[|p| - 1] != '*') ==> (Covers(p, name, headTarget) <==> name == p)
  {
    forall q | p == q + "*"
      ensures p[|p| - 1] == '*'
    {
    }
  }

  lemma CoversHead(name: string, headTarget: string)
    ensures Covers("HEAD", name, headTarget) <==> headTarget != [] && name == headTarget
  {
  }

  lemma LastDecides(rest: seq<string>, text: string, name: string, headTarget: string)
    ensures !("!" <= text) ==> (Included(rest + [text], name, headTarget) <==> Covers(text, name, headTarget) || Included(rest, name, headTarget))
    ensures Included(rest + ["!" + text], name, headTarget) <==> Included(rest, name, headTarget) && !Covers(text, name, headTarget)
  {
    hide Included, Covers;
    IncludedIsDecided(rest, name, headTarget);
    IncludedIsDecided(rest + [text], name, headTarget);
    IncludedIsDecided(rest + ["!" + text], name, headTarget);
    assert (rest + [text])[..|rest|] == rest && (rest + ["!" + text])[..|rest|] == rest;
    forall other | text == "!" + other
      ensures "!" <= text
    {
    }
    forall other | "!" + text == "!" + other
      ensures text == other
    {
      assert text == ("!" + text)[1..] && other == ("!" + other)[1..];
    }
  }

  method SelectorsMatch(selectors: seq<string>, name: string, headTarget: string) returns (included: bool)
    ensures included <==> Included(selectors, name, headTarget)
    ensures included <==> Decided(selectors, name, headTarget)
  {
    hide SelectorMatches, Pattern, Negative, Decided;
    IncludedIsDecided(selectors, name, headTarget);
    included := false;
    ghost var last := -1;
    for i := 0 to |selectors|
      invariant -1 <= last < i
      invariant forall j | last < j < i :: !SelectorMatches(Pattern(selectors[j]), name, headTarget)
      invariant last == -1 ==> !included
      invariant last >= 0 ==> SelectorMatches(Pattern(selectors[last]), name, headTarget) && included == !Negative(selectors[last])
    {
      if SelectorMatches(Pattern(selectors[i]), name, headTarget) {
        included := !Negative(selectors[i]);
        last := i;
      }
    }
    assert last >= 0 ==> LastMatch(selectors, last, name, headTarget);
    forall i | 0 <= i < |selectors| && LastMatch(selectors, i, name, headTarget)
      ensures i == last
    {
    }
  }
}
