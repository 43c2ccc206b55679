/**
  Addition (functions/operations/Addition.java): the constructor's stable
  sort of its operands under the canonical comparator, and the textual
  rendering of a sum.

  `List.sort` is a stable sort; it is modelled by a stable insertion sort.
  For ranked operands the comparator is a total preorder and a stable sort's
  output is unique (`StableSortIsUnique`), so any stable algorithm gives the
  same operand list.
 */
module Addition {
  import opened Expr
  import opened Ordering

  // ---------------------------------------------------------------------
  // Sorting the operands
  // ---------------------------------------------------------------------

  predicate AllRanked(s: seq<Function>)
  {
    forall i :: 0 <= i < |s| ==> Ranked(s[i])
  }

  /** Every earlier operand sorts no later than every later one. */
  predicate Sorted(s: seq<Function>)
  {
    forall i, j :: 0 <= i < j < |s| ==> Le(s[i], s[j])
  }

  /** The operands of `s` tied with `x`, in their order in `s`. */
  function Tier(s: seq<Function>, x: Function): (r: seq<Function>)
  {
    if s == [] then []
    else if Tied(s[0], x) then [s[0]] + Tier(s[1..], x)
    else Tier(s[1..], x)
  }

  /** Places `a` in front of the first element of `t` it sorts no later than;
      `a` therefore lands before every element it ties with. */
  function Insert(a: Function, t: seq<Function>): seq<Function>
  {
    if t == [] then [a]
    else if Le(a, t[0]) then [a] + t
    else [t[0]] + Insert(a, t[1..])
  }

  /** Stable insertion sort by the canonical comparator. */
  function Sort(s: seq<Function>): seq<Function>
  {
    if s == [] then [] else Insert(s[0], Sort(s[1..]))
  }

  lemma {:induction false} InsertPermutes(a: Function, t: seq<Function>)
    ensures multiset(Insert(a, t)) == multiset([a] + t)
  {
    if t != [] && !Le(a, t[0]) {
      InsertPermutes(a, t[1..]);
      assert t == [t[0]] + t[1..];
    }
  }

  lemma {:induction false} SortPermutes(s: seq<Function>)
    ensures multiset(Sort(s)) == multiset(s)
  {
    if s != [] {
      SortPermutes(s[1..]);
      InsertPermutes(s[0], Sort(s[1..]));
      assert s == [s[0]] + s[1..];
    }
  }

  /** The constructor `new Addition(args...)`: operands stored sorted. */
  function MakeAdd(args: seq<Function>): (r: Function)
    ensures r.Add?
    ensures |r.operands| == |args|
    ensures multiset(r.operands) == multiset(args)
    ensures AllRanked(args) ==> Sorted(r.operands)
    ensures AllRanked(args) ==> forall x :: Ranked(x) ==> Tier(r.operands, x) == Tier(args, x)
  {
    var sorted := Sort(args);
    SortPermutes(args);
    assert |sorted| == |multiset(sorted)| == |multiset(args)| == |args|;
    SortIsStableSort(args);
    Add(sorted)
  }

  lemma RankedByMultiset(s: seq<Function>, t: seq<Function>)
    requires multiset(s) == multiset(t) && AllRanked(t)
    ensures AllRanked(s)
  {
    forall i | 0 <= i < |s|
      ensures Ranked(s[i])
    {
      assert s[i] in multiset(s);
      var j :| 0 <= j < |t| && t[j] == s[i];
    }
  }

  lemma {:induction false} TierAppend(a: seq<Function>, b: seq<Function>, x: Function)
    ensures Tier(a + b, x) == Tier(a, x) + Tier(b, x)
    decreases |a|
  {
    if a == [] {
      assert a + b == b;
    } else {
      assert (a + b)[1..] == a[1..] + b;
      TierAppend(a[1..], b, x);
    }
  }

  lemma TierSingle(a: Function, x: Function)
    ensures Tier([a], x) == if Tied(a, x) then [a] else []
  {
    assert [a][1..] == [];
  }

  /** A value that sorts no later than every element of a sorted list can
      go in front of it. */
  lemma ConsSorted(a: Function, t: seq<Function>)
    requires Sorted(t)
    requires forall k :: 0 <= k < |t| ==> Le(a, t[k])
    ensures Sorted([a] + t)
  {
    var r := [a] + t;
    forall i, j | 0 <= i < j < |r|
      ensures Le(r[i], r[j])
    {
      assert r[j] == t[j - 1];
      if i > 0 {
        assert r[i] == t[i - 1];
      }
    }
  }

  lemma {:induction false} InsertSorted(a: Function, t: seq<Function>)
    requires Ranked(a) && AllRanked(t) && Sorted(t)
    ensures Sorted(Insert(a, t))
    decreases |t|
  {
    if t == [] {
    } else if Le(a, t[0]) {
      forall k | 0 <= k < |t|
        ensures Le(a, t[k])
      {
        CompareTotalPreorder(a, t[0], t[k]);
      }
      ConsSorted(a, t);
    } else {
      var rest := Insert(a, t[1..]);
      InsertSorted(a, t[1..]);
      InsertPermutes(a, t[1..]);
      CompareAntisymmetric(a, t[0]);
      forall k | 0 <= k < |rest|
        ensures Le(t[0], rest[k])
      {
        var y := rest[k];
        assert y in multiset([a] + t[1..]);
        if y != a {
          assert y in t;
          FirstIsLeast(t, y);
        }
      }
      ConsSorted(t[0], rest);
    }
  }

  lemma NotBothTied(a: Function, b: Function, x: Function)
    requires Ranked(a) && Ranked(b) && Ranked(x) && !Tied(a, b)
    ensures !Tied(a, x) || !Tied(b, x)
  {
    TiedCongruence(a, x, b);
    TiedCongruence(x, b, a);
  }

  lemma {:induction false} InsertStable(a: Function, t: seq<Function>, x: Function)
    requires Ranked(a) && AllRanked(t) && Ranked(x)
    ensures Tier(Insert(a, t), x) == Tier([a] + t, x)
  {
    if t == [] || Le(a, t[0]) {
      assert Insert(a, t) == [a] + t;
    } else {
      var b, rest := t[0], t[1..];
      assert t == [b] + rest;
      var ins := Insert(a, rest);
      assert Insert(a, t) == [b] + ins;
      InsertStable(a, rest, x);
      var ta, tb := Tier([a], x), Tier([b], x);
      TierSingle(a, x);
      TierSingle(b, x);
      // `a` and `b` are not tied, so at most one of them joins x's tier.
      NotBothTied(a, b, x);
      assert ta == [] || tb == [];
      calc {
        Tier(Insert(a, t), x);
        { TierAppend([b], ins, x); }
        tb + Tier(ins, x);
        tb + Tier([a] + rest, x);
        { TierAppend([a], rest, x); }
        tb + (ta + Tier(rest, x));
        ta + (tb + Tier(rest, x));
        { TierAppend([b], rest, x); }
        ta + Tier(t, x);
        { TierAppend([a], t, x); }
        Tier([a] + t, x);
      }
    }
  }

  lemma {:induction false} SortProperties(s: seq<Function>)
    requires AllRanked(s)
    ensures Sorted(Sort(s))
    ensures forall x :: Ranked(x) ==> Tier(Sort(s), x) == Tier(s, x)
  {
    if s != [] {
      SortProperties(s[1..]);
      SortPermutes(s[1..]);
      RankedByMultiset(Sort(s[1..]), s[1..]);
      InsertSorted(s[0], Sort(s[1..]));
      forall x | Ranked(x)
        ensures Tier(Sort(s), x) == Tier(s, x)
      {
        InsertStable(s[0], Sort(s[1..]), x);
        TierAppend([s[0]], Sort(s[1..]), x);
        TierAppend([s[0]], s[1..], x);
        assert [s[0]] + s[1..] == s;
      }
    }
  }

  /** After the constructor the operands are the arguments, sorted, with tied
      arguments kept in argument order; for ranked operands this is the only
      list with those properties. */
  lemma SortIsStableSort(args: seq<Function>)
    ensures multiset(Sort(args)) == multiset(args)
    ensures AllRanked(args) ==> Sorted(Sort(args))
    ensures AllRanked(args) ==> forall x :: Ranked(x) ==> Tier(Sort(args), x) == Tier(args, x)
  {
    SortPermutes(args);
    if AllRanked(args) {
      SortProperties(args);
    }
  }

  lemma {:induction false} TierMember(s: seq<Function>, x: Function, y: Function)
    requires y in Tier(s, x)
    ensures y in s && Tied(y, x)
  {
    if s != [] && y !in (if Tied(s[0], x) then [s[0]] else []) {
      TierMember(s[1..], x, y);
    }
  }

  lemma FirstIsLeast(t: seq<Function>, y: Function)
    requires Sorted(t) && |t| > 0 && y in t
    ensures Le(t[0], y)
  {
    var j :| 0 <= j < |t| && t[j] == y;
    if j == 0 {
      assert Tied(y, y);
    }
  }

  /** Two sorted lists of ranked values whose tiers agree start alike. */
  lemma HeadsAgree(t1: seq<Function>, t2: seq<Function>)
    requires AllRanked(t1) && AllRanked(t2) && Sorted(t1) && Sorted(t2)
    requires forall x :: Ranked(x) ==> Tier(t1, x) == Tier(t2, x)
    requires t1 != [] && t2 != []
    ensures t1[0] == t2[0]
  {
    var a, b := t1[0], t2[0];
    assert Tied(a, a) && Tied(b, b);
    assert Tier(t1, a) == Tier(t2, a) && Tier(t1, b) == Tier(t2, b);
    var ya := Tier(t2, a)[0];
    var yb := Tier(t1, b)[0];
    TierMember(t2, a, ya);
    TierMember(t1, b, yb);
    FirstIsLeast(t2, ya);
    FirstIsLeast(t1, yb);
    TiedCongruence(ya, a, b);
    TiedCongruence(yb, b, a);
    CompareTotalPreorder(a, b, a);
    TiedCongruence(a, b, a);
  }

  /** Two sorted lists of ranked values whose tiers agree are equal. */
  lemma {:induction false} SortedTiersDetermine(t1: seq<Function>, t2: seq<Function>)
    requires AllRanked(t1) && AllRanked(t2) && Sorted(t1) && Sorted(t2)
    requires forall x :: Ranked(x) ==> Tier(t1, x) == Tier(t2, x)
    ensures t1 == t2
    decreases |t1|
  {
    if t1 != [] {
      assert Tied(t1[0], t1[0]) && Tier(t1, t1[0]) == Tier(t2, t1[0]);
    }
    if t2 != [] {
      assert Tied(t2[0], t2[0]) && Tier(t1, t2[0]) == Tier(t2, t2[0]);
    }
    if t1 == [] || t2 == [] {
      return;
    }
    HeadsAgree(t1, t2);
    var a := t1[0];
    forall x | Ranked(x)
      ensures Tier(t1[1..], x) == Tier(t2[1..], x)
    {
      assert Tier(t1, x) == Tier(t2, x);
      if Tied(a, x) {
        assert Tier(t1, x)[1..] == Tier(t1[1..], x);
        assert Tier(t2, x)[1..] == Tier(t2[1..], x);
      }
    }
    SortedTiersDetermine(t1[1..], t2[1..]);
    assert t1 == [a] + t1[1..] && t2 == [a] + t2[1..];
  }

  /** Any stable sort of ranked operands produces exactly `Sort(args)`, so the
      choice of stable algorithm does not change the stored operands. */
  lemma StableSortIsUnique(args: seq<Function>, t: seq<Function>)
    requires AllRanked(args) && AllRanked(t) && Sorted(t)
    requires forall x :: Ranked(x) ==> Tier(t, x) == Tier(args, x)
    ensures t == Sort(args)
  {
    SortProperties(args);
    SortPermutes(args);
    RankedByMultiset(Sort(args), args);
    SortedTiersDetermine(t, Sort(args));
  }

  // ---------------------------------------------------------------------
  // Rendering a sum
  // ---------------------------------------------------------------------

  /** `String.startsWith("-")`. */
  predicate Negative(s: string)
  {
    |s| > 0 && s[0] == '-'
  }

  /** What goes in front of an operand that is not the first. */
  function Separator(next: string): string
  {
    if Negative(next) then "" else " + "
  }

  /** The operands' strings joined, separators included, no parentheses. */
  function Joined(texts: seq<string>): string
    requires |texts| > 0
  {
    if |texts| == 1 then texts[0]
    else Joined(texts[..|texts| - 1]) + Separator(texts[|texts| - 1]) + texts[|texts| - 1]
  }

  /** The string of an Addition whose operands render as `texts`. */
  function SumText(texts: seq<string>): string
  {
    if |texts| == 0 then ""
    else if |texts| == 1 then texts[0]
    else "(" + Joined(texts) + ")"
  }

  /** The rendering loop of `Addition.toString`, over the operands' strings. */
  method RenderSum(texts: seq<string>) returns (r: string)
    ensures r == SumText(texts)
  {
    if |texts| == 0 {
      return "";
    }
    var sb := "";
    var next := texts[0];
    var i := 0;
    while i < |texts|
      invariant 0 <= i <= |texts|
      invariant i < |texts| ==> next == texts[i]
      invariant i == 0 ==> sb == ""
      invariant 0 < i < |texts| ==> sb == Joined(texts[..i]) + Separator(texts[i])
      invariant i == |texts| ==> sb == Joined(texts)
    {
      if i > 0 {
        assert texts[..i + 1][..i] == texts[..i];
      }
      sb := sb + next;
      if i < |texts| - 1 {
        next := texts[i + 1];
        if !Negative(next) {
          sb := sb + " + ";
        }
      }
      i := i + 1;
      if i == |texts| {
        assert texts[..i] == texts;
      }
    }
    if |texts| > 1 {
      sb := "(" + sb + ")";
    }
    r := sb;
  }

  /** Plain concatenation. */
  function Concat(texts: seq<string>): string
  {
    if texts == [] then "" else texts[0] + Concat(texts[1..])
  }

  /** The strings with `sep` between neighbours. */
  function Intercalate(sep: string, texts: seq<string>): string
  {
    if |texts| <= 1 then Concat(texts)
    else texts[0] + sep + Intercalate(sep, texts[1..])
  }

  /** An empty sum renders empty, a single operand bare, and more than one
      operand inside one pair of parentheses. */
  lemma SumTextShape(texts: seq<string>)
    ensures |texts| == 0 ==> SumText(texts) == ""
    ensures |texts| == 1 ==> SumText(texts) == texts[0]
    ensures |texts| > 1 ==> var r := SumText(texts);
      |r| >= 2 && r[0] == '(' && r[|r| - 1] == ')' && r[1..|r| - 1] == Joined(texts)
  {
  }

  lemma {:induction false} JoinedFront(texts: seq<string>)
    requires |texts| > 1
    ensures Joined(texts) == texts[0] + Separator(texts[1]) + Joined(texts[1..])
    decreases |texts|
  {
    var n := |texts|;
    var tl := texts[1..];
    if n > 2 {
      var init := texts[..n - 1];
      var last := texts[n - 1];
      JoinedFront(init);
      assert tl[..|tl| - 1] == init[1..] && tl[|tl| - 1] == last;
      assert init[0] == texts[0] && init[1] == texts[1];
    } else {
      assert tl == [texts[1]];
      assert texts[..1] == [texts[0]];
    }
  }

  /** When no later operand starts with '-', the operands are separated by
      " + " exactly. */
  lemma {:induction false} JoinedWithoutNegatives(texts: seq<string>)
    requires |texts| > 0
    requires forall i :: 1 <= i < |texts| ==> !Negative(texts[i])
    ensures Joined(texts) == Intercalate(" + ", texts)
    decreases |texts|
  {
    if |texts| == 1 {
      assert Concat(texts) == texts[0] + Concat([]);
    } else {
      JoinedFront(texts);
      JoinedWithoutNegatives(texts[1..]);
    }
  }

  /** When every later operand starts with '-', the strings are simply
      concatenated: the operand's own sign stands in for " + ". */
  lemma {:induction false} JoinedAllNegative(texts: seq<string>)
    requires |texts| > 0
    requires forall i :: 1 <= i < |texts| ==> Negative(texts[i])
    ensures Joined(texts) == Concat(texts)
    decreases |texts|
  {
    if |texts| == 1 {
      assert Concat(texts) == texts[0] + Concat([]);
    } else {
      JoinedFront(texts);
      JoinedAllNegative(texts[1..]);
    }
  }
}
