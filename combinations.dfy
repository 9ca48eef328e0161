/** Bounded enumeration of schedules: one candidate per group, taken in
    depth-first (lexicographic) order, stopping at a global cap, after every group
    has been cut to a common prefix length when the full product is too large. */
module Combinations {
  import opened SeqUtil

  /** `MAX_COMBINATIONS`: the cap on the product and on the enumeration. */
  const MaxCombinations: nat := 50000
  /** `MAX_SECTIONS_PER_COURSE`: the first per-course ceiling tried. */
  const MaxSectionsPerCourse: nat := 8

  /** The naive number of combinations: the product of the group sizes. */
  function Product<T>(groups: seq<seq<T>>): nat {
    if groups == [] then 1 else |groups[0]| * Product(groups[1..])
  }

  lemma {:induction false} ProductSnoc<T>(groups: seq<seq<T>>, g: seq<T>)
    ensures Product(groups + [g]) == Product(groups) * |g|
  {
    if groups != [] {
      assert (groups + [g])[1..] == groups[1..] + [g];
      ProductSnoc(groups[1..], g);
    }
  }

  /** The product is zero exactly when some group is empty. */
  lemma {:induction false} ProductZero<T>(groups: seq<seq<T>>)
    ensures Product(groups) == 0 <==> exists i :: 0 <= i < |groups| && groups[i] == []
  {
    if groups != [] {
      ProductZero(groups[1..]);
      if exists i :: 0 <= i < |groups[1..]| && groups[1..][i] == [] {
        var i :| 0 <= i < |groups[1..]| && groups[1..][i] == [];
        assert groups[i + 1] == [];
      }
      if exists i :: 0 <= i < |groups| && groups[i] == [] {
        var i :| 0 <= i < |groups| && groups[i] == [];
        if i > 0 { assert groups[1..][i - 1] == []; }
      }
    }
  }

  /** `totalCombinations *= group.length` over all groups. */
  method CountCombinations<T>(groups: seq<seq<T>>) returns (total: nat)
    ensures total == Product(groups)
    ensures total == 0 <==> exists i :: 0 <= i < |groups| && groups[i] == []
  {
    total := 1;
    var i := 0;
    while i < |groups|
      invariant 0 <= i <= |groups|
      invariant total == Product(groups[..i])
    {
      ProductSnoc(groups[..i], groups[i]);
      assert groups[..i + 1] == groups[..i] + [groups[i]];
      total := total * |groups[i]|;
      i := i + 1;
    }
    assert groups[..i] == groups;
    ProductZero(groups);
  }

  /** `groupsArray.map(g => g.slice(0, k))`. */
  function Truncate<T>(groups: seq<seq<T>>, k: nat): seq<seq<T>> {
    seq(|groups|, i requires 0 <= i < |groups| => groups[i][..Min(|groups[i]|, k)])
  }

  /** Each truncated group is the prefix of its original of length `min(size, k)`;
      empty groups stay empty and non-empty ones stay non-empty. */
  lemma TruncateIsPrefix<T>(groups: seq<seq<T>>, k: nat)
    requires k > 0
    ensures |Truncate(groups, k)| == |groups|
    ensures forall i :: 0 <= i < |groups| ==>
      && Truncate(groups, k)[i] <= groups[i]
      && |Truncate(groups, k)[i]| == Min(|groups[i]|, k)
      && (Truncate(groups, k)[i] == [] <==> groups[i] == [])
  {
  }

  /** Cutting groups never increases the number of combinations. */
  lemma {:induction false} TruncateProduct<T>(groups: seq<seq<T>>, k: nat)
    ensures Product(Truncate(groups, k)) <= Product(groups)
  {
    if groups != [] {
      assert Truncate(groups, k)[1..] == Truncate(groups[1..], k);
      TruncateProduct(groups[1..], k);
      MulMono(|Truncate(groups, k)[0]|, |groups[0]|, Product(Truncate(groups[1..], k)), Product(groups[1..]));
    }
  }

  lemma MulMono(a: nat, b: nat, c: nat, d: nat)
    requires a <= b && c <= d
    ensures a * c <= b * d
  {
    assert a * c <= b * c;
    assert b * c <= b * d;
  }

  /** The ceiling the `while (maxPerCourse > 2)` loop settles on when it starts at `k`:
      the first value going down from `k` whose cut product fits under the cap, and 3
      when none does (the loop exits at 2 with the 3-cut still in place). */
  function CeilingFrom<T>(groups: seq<seq<T>>, k: nat): (r: nat)
    requires 3 <= k
    ensures 3 <= r <= k
    ensures r == 3 || Product(Truncate(groups, r)) <= MaxCombinations
    ensures forall j :: r < j <= k ==> Product(Truncate(groups, j)) > MaxCombinations
    decreases k
  {
    if k == 3 || Product(Truncate(groups, k)) <= MaxCombinations then k
    else CeilingFrom(groups, k - 1)
  }

  /** The ceiling used by `processGeneration`: the largest k in 8..3 whose cut fits, or 3. */
  function Ceiling<T>(groups: seq<seq<T>>): nat {
    CeilingFrom(groups, MaxSectionsPerCourse)
  }

  /** The groups `processGeneration` enumerates: unchanged when the full product fits
      under the cap, otherwise cut to the ceiling. */
  function Limited<T>(groups: seq<seq<T>>): seq<seq<T>> {
    if Product(groups) <= MaxCombinations then groups else Truncate(groups, Ceiling(groups))
  }

  /** The limiting step of `processGeneration`. */
  method LimitGroups<T>(groups: seq<seq<T>>) returns (limited: seq<seq<T>>)
    ensures limited == Limited(groups)
    ensures Product(groups) <= MaxCombinations ==> limited == groups
    ensures Product(groups) > MaxCombinations ==>
      var k := Ceiling(groups);
      && 3 <= k <= MaxSectionsPerCourse
      && limited == Truncate(groups, k)
      && (k == 3 || Product(limited) <= MaxCombinations)
      && (forall j :: k < j <= MaxSectionsPerCourse ==> Product(Truncate(groups, j)) > MaxCombinations)
  {
    var total := CountCombinations(groups);
    limited := groups;
    if total > MaxCombinations {
      var maxPerCourse := MaxSectionsPerCourse;
      while maxPerCourse > 2
        invariant 2 <= maxPerCourse <= MaxSectionsPerCourse
        invariant maxPerCourse >= 3 ==> Ceiling(groups) == CeilingFrom(groups, maxPerCourse)
        invariant maxPerCourse == 2 ==> Ceiling(groups) == 3 && limited == Truncate(groups, 3)
      {
        var newTotal := 1;
        limited := Truncate(groups, maxPerCourse);
        newTotal := CountCombinations(limited);
        if newTotal <= MaxCombinations {
          break;
        }
        maxPerCourse := maxPerCourse - 1;
      }
    }
  }

  // ---- the enumeration ---------------------------------------------------

  /** `[prefix + t | t in tails]`. */
  function Extend<T>(prefix: seq<T>, tails: seq<seq<T>>): seq<seq<T>> {
    seq(|tails|, i requires 0 <= i < |tails| => prefix + tails[i])
  }

  /** The leaves under one level of the tree: for each item in order, the item
      followed by every tail. */
  function Row<T>(items: seq<T>, tails: seq<seq<T>>): seq<seq<T>> {
    if items == [] then []
    else Row(items[..|items| - 1], tails) + Extend([items[|items| - 1]], tails)
  }

  /** Every choice of one element per group, in depth-first order. */
  function Combos<T>(groups: seq<seq<T>>): seq<seq<T>>
    decreases |groups|
  {
    if groups == [] then [[]] else Row(groups[0], Combos(groups[1..]))
  }

  lemma {:induction false} RowLength<T>(items: seq<T>, tails: seq<seq<T>>)
    ensures |Row(items, tails)| == |items| * |tails|
  {
    if items != [] {
      RowLength(items[..|items| - 1], tails);
      assert (|items| - 1) * |tails| + |tails| == |items| * |tails|;
    }
  }

  /** There are exactly as many combinations as the naive product says. */
  lemma {:induction false} CombosCount<T>(groups: seq<seq<T>>)
    ensures |Combos(groups)| == Product(groups)
  {
    if groups != [] {
      CombosCount(groups[1..]);
      RowLength(groups[0], Combos(groups[1..]));
    }
  }

  /** A well-formed choice: one element drawn from each group, in group order. */
  ghost predicate IsChoice<T>(groups: seq<seq<T>>, c: seq<T>) {
    |c| == |groups| && forall i :: 0 <= i < |c| ==> c[i] in groups[i]
  }

  lemma {:induction false} RowMembers<T>(items: seq<T>, tails: seq<seq<T>>, c: seq<T>)
    ensures c in Row(items, tails) <==> |c| > 0 && c[0] in items && c[1..] in tails
  {
    if items != [] {
      var p := items[..|items| - 1];
      var x := items[|items| - 1];
      RowMembers(p, tails, c);
      assert c in Extend([x], tails) <==> |c| > 0 && c[0] == x && c[1..] in tails by {
        if c in Extend([x], tails) {
          var i :| 0 <= i < |tails| && Extend([x], tails)[i] == c;
          assert c[1..] == tails[i];
        }
        if |c| > 0 && c[0] == x && c[1..] in tails {
          var i :| 0 <= i < |tails| && tails[i] == c[1..];
          assert Extend([x], tails)[i] == [x] + c[1..] == c;
        }
      }
      if |c| > 0 {
        assert c[0] in items <==> c[0] in p || c[0] == x by {
          assert items == p + [x];
        }
      }
    }
  }

  /** The enumeration is exactly the Cartesian product: every member is a choice and
      every choice is a member. */
  lemma {:induction false} CombosAreChoices<T>(groups: seq<seq<T>>, c: seq<T>)
    ensures c in Combos(groups) <==> IsChoice(groups, c)
  {
    if groups == [] {
      assert c in [[]] <==> c == [];
    } else {
      RowMembers(groups[0], Combos(groups[1..]), c);
      if |c| > 0 {
        CombosAreChoices(groups[1..], c[1..]);
        if IsChoice(groups, c) {
          assert IsChoice(groups[1..], c[1..]) by {
            forall i | 0 <= i < |c[1..]| ensures c[1..][i] in groups[1..][i] {
              assert c[i + 1] in groups[i + 1];
            }
          }
        }
        if c[0] in groups[0] && IsChoice(groups[1..], c[1..]) {
          forall i | 0 <= i < |c| ensures c[i] in groups[i] {
            if i > 0 { assert c[1..][i - 1] in groups[1..][i - 1]; }
          }
        }
      }
    }
  }

  lemma {:induction false} RowAt<T>(items: seq<T>, tails: seq<seq<T>>, q: nat, r: nat)
    requires q < |items| && r < |tails|
    ensures q * |tails| + r < |Row(items, tails)|
    ensures Row(items, tails)[q * |tails| + r] == [items[q]] + tails[r]
  {
    var m := |tails|;
    var n := |items|;
    var init := items[..n - 1];
    RowLength(items, tails);
    RowLength(init, tails);
    MulMono(q + 1, n, m, m);
    assert q * m + r < (q + 1) * m;
    if q < n - 1 {
      RowAt(init, tails, q, r);
      MulMono(q + 1, n - 1, m, m);
      assert Row(items, tails)[q * m + r] == Row(init, tails)[q * m + r];
      assert init[q] == items[q];
    } else {
      assert Row(items, tails)[q * m + r] == Extend([items[n - 1]], tails)[r];
    }
  }

  /** Depth-first order is lexicographic order: with `P` tail combinations, entry
      `q * P + r` takes element `q` of the first group followed by tail combination
      `r` (mixed-radix counting, the first group most significant). */
  lemma CombosAt<T>(groups: seq<seq<T>>, q: nat, r: nat)
    requires |groups| > 0 && q < |groups[0]| && r < Product(groups[1..])
    ensures q * Product(groups[1..]) + r < |Combos(groups)|
    ensures |Combos(groups[1..])| == Product(groups[1..])
    ensures Combos(groups)[q * Product(groups[1..]) + r] == [groups[0][q]] + Combos(groups[1..])[r]
  {
    CombosCount(groups[1..]);
    RowAt(groups[0], Combos(groups[1..]), q, r);
  }

  // ---- the generator -----------------------------------------------------

  lemma ExtendAppend<T>(prefix: seq<T>, a: seq<seq<T>>, b: seq<seq<T>>)
    ensures Extend(prefix, a + b) == Extend(prefix, a) + Extend(prefix, b)
  {
  }

  lemma ExtendExtend<T>(prefix: seq<T>, x: T, tails: seq<seq<T>>)
    ensures Extend(prefix, Extend([x], tails)) == Extend(prefix + [x], tails)
  {
    forall i | 0 <= i < |tails| ensures prefix + ([x] + tails[i]) == (prefix + [x]) + tails[i] {
    }
  }

  lemma ExtendPrefix<T>(prefix: seq<T>, a: seq<seq<T>>, b: seq<seq<T>>)
    requires a <= b
    ensures Extend(prefix, a) <= Extend(prefix, b)
  {
  }

  lemma {:induction false} RowPrefix<T>(items: seq<T>, tails: seq<seq<T>>, j: nat)
    requires j <= |items|
    ensures Row(items[..j], tails) <= Row(items, tails)
    decreases |items| - j
  {
    if j < |items| {
      RowPrefix(items, tails, j + 1);
      assert items[..j + 1][..j] == items[..j];
    } else {
      assert items[..j] == items;
    }
  }

  /** Consuming one more item of the level extends the depth-first leaves by its subtree. */
  lemma RowStep<T>(current: seq<T>, items: seq<T>, tails: seq<seq<T>>, j: nat)
    requires j < |items|
    ensures Extend(current, Row(items[..j + 1], tails))
         == Extend(current, Row(items[..j], tails)) + Extend(current + [items[j]], tails)
  {
    assert items[..j + 1][..j] == items[..j];
    assert Row(items[..j + 1], tails) == Row(items[..j], tails) + Extend([items[j]], tails);
    ExtendAppend(current, Row(items[..j], tails), Extend([items[j]], tails));
    ExtendExtend(current, items[j], tails);
  }

  /** Once the leaves seen so far fill the quota, the rest of the level adds nothing. */
  lemma RowQuotaFull<T>(current: seq<T>, items: seq<T>, tails: seq<seq<T>>, j: nat, n: int)
    requires j <= |items| && n <= |Extend(current, Row(items[..j], tails))|
    ensures Take(Extend(current, Row(items[..j], tails)), n) == Take(Extend(current, Row(items, tails)), n)
  {
    RowPrefix(items, tails, j);
    ExtendPrefix(current, Row(items[..j], tails), Row(items, tails));
    TakeOfPrefix(Extend(current, Row(items[..j], tails)), Extend(current, Row(items, tails)), n);
  }

  /** Appending the next subtree's output continues the capped enumeration. */
  lemma QuotaStep<T>(result: seq<seq<T>>, done: seq<seq<T>>, next: seq<seq<T>>, limit: nat, out: seq<seq<T>>)
    requires out == result + Take(done, limit - |result|) && |out| < limit
    ensures out + Take(next, limit - |out|) == result + Take(done + next, limit - |result|)
  {
    TakeAppend(done, next, limit - |result|);
  }

  /** The recursive `generate(index, current)`: append to `result`, in depth-first
      order, every completion of `current` through the groups from `index` on, but
      stop as soon as `result` holds `limit` entries. The backtracking stack
      `current` is passed by value. */
  method Generate<T>(groups: seq<seq<T>>, index: nat, current: seq<T>, result: seq<seq<T>>, limit: nat)
    returns (out: seq<seq<T>>)
    requires index <= |groups|
    ensures out == result + Take(Extend(current, Combos(groups[index..])), limit - |result|)
    decreases |groups| - index
  {
    if |result| >= limit {
      return result;
    }
    if index == |groups| {
      assert groups[index..] == [];
      assert Combos(groups[index..]) == [[]];
      assert Extend(current, [[]])[0] == current + [] == current;
      assert Extend(current, [[]]) == [current];
      return result + [current];
    }
    var items := groups[index];
    ghost var tails := Combos(groups[index + 1..]);
    assert groups[index..][1..] == groups[index + 1..];
    assert Combos(groups[index..]) == Row(items, tails);
    out := result;
    var j := 0;
    while j < |items|
      invariant 0 <= j <= |items|
      invariant out == result + Take(Extend(current, Row(items[..j], tails)), limit - |result|)
    {
      if |out| >= limit {
        RowQuotaFull(current, items, tails, j, limit - |result|);
        return;
      }
      ghost var before := out;
      out := Generate(groups, index + 1, current + [items[j]], out, limit);
      QuotaStep(result, Extend(current, Row(items[..j], tails)), Extend(current + [items[j]], tails), limit, before);
      RowStep(current, items, tails, j);
      j := j + 1;
    }
    assert items[..j] == items;
  }

  lemma ExtendEmpty<T>(tails: seq<seq<T>>)
    ensures Extend([], tails) == tails
  {
    forall i | 0 <= i < |tails| ensures [] + tails[i] == tails[i] {
    }
  }

  /** `generateCombinationsLimited(groups, limit)`: the first `limit` combinations in
      depth-first order, and the single empty schedule when there are no groups. */
  method GenerateCombinationsLimited<T>(groups: seq<seq<T>>, limit: nat) returns (result: seq<seq<T>>)
    ensures groups == [] ==> result == [[]]
    ensures groups != [] ==> result == Take(Combos(groups), limit)
    ensures groups != [] ==> |result| <= limit
    ensures groups != [] ==> |result| == Min(limit, Product(groups))
  {
    if |groups| == 0 {
      return [[]];
    }
    result := Generate(groups, 0, [], [], limit);
    assert groups[0..] == groups;
    ExtendEmpty(Combos(groups));
    CombosCount(groups);
  }
}
