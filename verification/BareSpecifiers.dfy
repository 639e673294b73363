/** Stable bare specifiers: one per chunk, from its name and how often the name was seen before
    (web/plugins/importmap.ts:45-52). */
module BareSpecifiers {

  function Decimal(n: nat): (r: string)
    ensures '~' !in r && |r| >= 1 && (n < 10 <==> |r| == 1)
  {
    var digit := [['0', '1', '2', '3', '4', '5', '6', '7', '8', '9'][n % 10]];
    if n < 10 then digit else Decimal(n / 10) + digit
  }

  lemma DecimalInjective(m: nat, n: nat)
    requires Decimal(m) == Decimal(n)
    ensures m == n
  {
    var a, b := Decimal(m), Decimal(n);
    assert a[|a| - 1] == b[|b| - 1];
    assert m % 10 == n % 10;
    if m >= 10 {
      assert a[..|a| - 1] == Decimal(m / 10) && b[..|b| - 1] == Decimal(n / 10);
      DecimalInjective(m / 10, n / 10);
    }
  }

  /** How many of the first i chunks bear the name. */
  function Count(names: seq<string>, name: string, i: nat): nat
    requires i <= |names|
  {
    if i == 0 then 0 else Count(names, name, i - 1) + if names[i - 1] == name then 1 else 0
  }

  function Suffix(n: nat): string {
    if n == 0 then "" else "~" + Decimal(n)
  }

  /** The i-th chunk's specifier: a repeated name is numbered in emission order. */
  function Bare(names: seq<string>, prefix: string, i: nat): string
    requires i < |names|
  {
    prefix + (names[i] + Suffix(Count(names, names[i], i)))
  }

  /** The number a row of decimal digits stands for. */
  ghost function NumberOf(digits: string): int {
    if digits == [] then 0 else NumberOf(digits[..|digits| - 1]) * 10 + digits[|digits| - 1] as int - 48
  }

  /** digits is the usual spelling of n, with no zero in front. */
  ghost predicate Writes(digits: string, n: nat) {
    && digits != [] && NumberOf(digits) == n && (n > 0 ==> digits[0] != '0')
    && forall i | 0 <= i < |digits| :: '0' <= digits[i] <= '9'
  }

  lemma {:induction false} DecimalWrites(n: nat)
    ensures Writes(Decimal(n), n)
  {
    var s := Decimal(n);
    assert s[|s| - 1] as int - 48 == n % 10;
    if n >= 10 {
      DecimalWrites(n / 10);
      assert s[..|s| - 1] == Decimal(n / 10);
    } else {
      assert s[..|s| - 1] == [];
    }
  }

  /** The chunks before the i-th that bear its name. */
  ghost function Earlier(names: seq<string>, i: nat): set<nat>
    requires i < |names|
  {
    set k | 0 <= k < i && names[k] == names[i]
  }

  lemma {:induction false} CountIsEarlier(names: seq<string>, name: string, i: nat)
    requires i <= |names|
    ensures Count(names, name, i) == |set k | 0 <= k < i && names[k] == name|
  {
    if i > 0 {
      CountIsEarlier(names, name, i - 1);
      var before, now := set k | 0 <= k < i - 1 && names[k] == name, set k | 0 <= k < i && names[k] == name;
      assert now == if names[i - 1] == name then before + {i - 1} else before;
    }
  }

  /** The i-th specifier read plainly: the name, and from its second chunk on a number behind a tilde. */
  ghost predicate Specified(names: seq<string>, prefix: string, i: nat, bare: string)
    requires i < |names|
  {
    if Earlier(names, i) == {} then bare == prefix + names[i]
    else exists digits :: Writes(digits, |Earlier(names, i)|) && bare == prefix + names[i] + "~" + digits
  }

  lemma BareIsSpecified(names: seq<string>, prefix: string, i: nat)
    requires i < |names|
    ensures Specified(names, prefix, i, Bare(names, prefix, i))
  {
    hide Decimal, Writes;
    CountIsEarlier(names, names[i], i);
    var n := Count(names, names[i], i);
    if n == 0 {
      assert names[i] + "" == names[i];
    } else {
      DecimalWrites(n);
      assert prefix + (names[i] + ("~" + Decimal(n))) == prefix + names[i] + "~" + Decimal(n);
    }
  }

  method Assign(names: seq<string>, prefix: string) returns (bare: seq<string>)
    ensures |bare| == |names|
    ensures forall i | 0 <= i < |names| :: bare[i] == Bare(names, prefix, i)
    ensures forall i | 0 <= i < |names| :: Specified(names, prefix, i, bare[i])
  {
    hide Decimal, Specified;
    bare := [];
    var seen: map<string, nat> := map[];
    for i := 0 to |names|
      invariant |bare| == i && forall k | 0 <= k < i :: bare[k] == Bare(names, prefix, k)
      invariant forall name :: Seen(seen, name) == Count(names, name, i)
    {
      var n := Seen(seen, names[i]);
      bare := bare + [prefix + (names[i] + if n > 0 then "~" + Decimal(n) else "")];
      seen := seen[names[i] := n + 1];
    }
    forall i | 0 <= i < |names|
      ensures Specified(names, prefix, i, bare[i])
    {
      BareIsSpecified(names, prefix, i);
    }
  }

  function Seen(seen: map<string, nat>, name: string): nat {
    if name in seen then seen[name] else 0
  }

  /** Some chunk is literally named like the numbered specifier of a repeated name. */
  ghost predicate NameClash(names: seq<string>) {
    exists i, j | 0 <= i < |names| && 0 <= j < |names| :: Imitates(names, i, j)
  }

  predicate Imitates(names: seq<string>, i: nat, j: nat)
    requires i < |names| && j < |names|
  {
    var n := Count(names, names[j], j);
    n > 0 && names[i] == names[j] + Suffix(n)
  }

  ghost predicate BareDistinct(names: seq<string>, prefix: string) {
    forall i, j | 0 <= i < |names| && 0 <= j < |names| && Bare(names, prefix, i) == Bare(names, prefix, j) :: i == j
  }

  lemma CountMonotone(names: seq<string>, name: string, i: nat, j: nat)
    requires i <= j <= |names|
    ensures Count(names, name, i) <= Count(names, name, j)
    ensures i < j && names[i] == name ==> Count(names, name, i) < Count(names, name, j)
    decreases j - i
  {
    if i < j {
      CountMonotone(names, name, i, j - 1);
    }
  }

  lemma SuffixSplits(a: string, m: nat, c: string, n: nat)
    requires a + Suffix(m) == c + Suffix(n) && m > 0 && n > 0
    ensures a == c && m == n
  {
    var s := a + Suffix(m);
    var x, y := Decimal(m), Decimal(n);
    assert s[|s| - |x| - 1] == '~' && s[|s| - |y| - 1] == '~';
    assert s[|s| - |x|..] == x && s[|s| - |y|..] == y;
    assert forall p | |s| - |x| <= p < |s| :: s[p] == x[p - (|s| - |x|)];
    assert forall p | |s| - |y| <= p < |s| :: s[p] == y[p - (|s| - |y|)];
    assert |x| == |y|;
    DecimalInjective(m, n);
    assert a == s[..|a|] && c == s[..|c|];
  }

  /** The first chunk that bears a name. */
  lemma FirstWithName(names: seq<string>, i: nat) returns (j: nat)
    requires i < |names|
    ensures j <= i && names[j] == names[i] && Count(names, names[i], j) == 0
  {
    j := i;
    var n := i;
    while Count(names, names[i], n) > 0
      invariant 0 <= n <= j <= i && names[j] == names[i]
      invariant Count(names, names[i], n) == Count(names, names[i], j)
      decreases n
    {
      n := n - 1;
      if names[n] == names[i] {
        j := n;
      }
    }
  }

  /** The specifiers are pairwise distinct exactly when no chunk name imitates a numbered one. */
  lemma BareDistinctExactly(names: seq<string>, prefix: string)
    ensures BareDistinct(names, prefix) <==> !NameClash(names)
  {
    if NameClash(names) {
      var i, j :| 0 <= i < |names| && 0 <= j < |names| && Imitates(names, i, j);
      var first := FirstWithName(names, i);
      assert names[first] + Suffix(0) == names[first];
      assert Bare(names, prefix, first) == Bare(names, prefix, j);
    } else {
      forall i, j | 0 <= i < |names| && 0 <= j < |names| && Bare(names, prefix, i) == Bare(names, prefix, j)
        ensures i == j
      {
        BareCollision(names, prefix, i, j);
      }
    }
  }

  lemma BareCollision(names: seq<string>, prefix: string, i: nat, j: nat)
    requires i < |names| && j < |names|
    requires !NameClash(names) && Bare(names, prefix, i) == Bare(names, prefix, j)
    ensures i == j
  {
    var a, c := names[i], names[j];
    var m, n := Count(names, a, i), Count(names, c, j);
    assert a + Suffix(m) == Bare(names, prefix, i)[|prefix|..];
    assert c + Suffix(n) == Bare(names, prefix, j)[|prefix|..];
    if m > 0 && n > 0 {
      SuffixSplits(a, m, c, n);
    } else {
      assert a + Suffix(0) == a && c + Suffix(0) == c;
      assert !Imitates(names, i, j) && !Imitates(names, j, i);
    }
    assert a == c && m == n;
    if i < j {
      CountMonotone(names, a, i, j);
    } else if j < i {
      CountMonotone(names, a, j, i);
    }
  }

  /** Two chunks named a and one named a~1 share a specifier. */
  lemma ClashExample(prefix: string)
    ensures !BareDistinct(["a", "a", "a~1"], prefix)
  {
    var names := ["a", "a", "a~1"];
    assert Count(names, "a", 1) == 1 by { assert Count(names, "a", 0) == 0; }
    assert Count(names, "a~1", 2) == 0 by {
      assert Count(names, "a~1", 0) == 0 && Count(names, "a~1", 1) == 0;
    }
    assert names[1] + Suffix(1) == "a~1" && names[2] + Suffix(0) == "a~1";
    assert Bare(names, prefix, 1) == Bare(names, prefix, 2);
  }
}
