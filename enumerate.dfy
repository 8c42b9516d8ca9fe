/** The two enumerations the search draws on, as finite lists: the
    cartesian power of a list of items (every game) and the ordered
    selections of distinct positions (every candidate cut sequence), each
    in the order the standard library emits them. */
module Enumerate {

  /** No element of `s` occurs twice. */
  predicate Distinct<T(==)>(s: seq<T>)
  {
    forall i, j | 0 <= i < j < |s| :: s[i] != s[j]
  }

  /** The positions `0 .. n-1`, in increasing order. */
  function Range(n: nat): seq<nat>
  {
    seq(n, i => i)
  }

  /** `x` put in front of each sequence of `ps`. */
  function PrependAll<T>(x: T, ps: seq<seq<T>>): seq<seq<T>>
  {
    seq(|ps|, j requires 0 <= j < |ps| => [x] + ps[j])
  }

  /** `pool` with its element at position `i` removed. */
  function Without<T>(pool: seq<T>, i: nat): seq<T>
    requires i < |pool|
  {
    pool[..i] + pool[i + 1..]
  }

  // ---------------------------------------------------------------------------
  // Cartesian power

  /** The sequences of length `n` over `items`, the first element varying
      slowest. */
  function Product<T>(items: seq<T>, n: nat): seq<seq<T>>
    decreases n, |items| + 1
  {
    if n == 0 then [[]] else ProductFrom(items, n, 0)
  }

  /** The part of `Product(items, n)` whose first element is `items[i]`
      or a later item. */
  function ProductFrom<T>(items: seq<T>, n: nat, i: nat): seq<seq<T>>
    requires n > 0 && i <= |items|
    decreases n, |items| - i
  {
    if i == |items| then []
    else PrependAll(items[i], Product(items, n - 1)) + ProductFrom(items, n, i + 1)
  }

  // ---------------------------------------------------------------------------
  // Ordered selections of distinct elements

  /** The sequences of `k` distinct elements of `pool`, ordered by the
      positions of their elements in `pool`, earliest first. */
  function Permutations(pool: seq<nat>, k: nat): seq<seq<nat>>
    decreases k, |pool| + 1
  {
    if k == 0 then [[]] else PermutationsFrom(pool, k, 0)
  }

  /** The part of `Permutations(pool, k)` whose first element is
      `pool[i]` or a later element. */
  function PermutationsFrom(pool: seq<nat>, k: nat, i: nat): seq<seq<nat>>
    requires k > 0 && i <= |pool|
    decreases k, |pool| - i
  {
    if i == |pool| then []
    else PrependAll(pool[i], Permutations(Without(pool, i), k - 1)) + PermutationsFrom(pool, k, i + 1)
  }

  /** Lexicographic order on sequences of positions. */
  predicate LexLess(a: seq<nat>, b: seq<nat>)
  {
    |a| > 0 && |b| > 0 && (a[0] < b[0] || (a[0] == b[0] && LexLess(a[1..], b[1..])))
  }

  /** Every sequence of `ps` comes strictly before every later one. */
  predicate LexSorted(ps: seq<seq<nat>>)
  {
    forall i, j | 0 <= i < j < |ps| :: LexLess(ps[i], ps[j])
  }

  /** Each element of `s` is smaller than every later one. */
  predicate Increasing(s: seq<nat>)
  {
    forall i, j | 0 <= i < j < |s| :: s[i] < s[j]
  }

  // ---------------------------------------------------------------------------
  // Helper facts

  /** `Range(n)` lists the positions below `n`, in increasing order. */
  lemma RangeIncreasing(n: nat)
    ensures |Range(n)| == n
    ensures Increasing(Range(n))
    ensures forall x: nat :: x in Range(n) <==> x < n
  {
    forall x: nat | x < n ensures x in Range(n) {
      assert Range(n)[x] == x;
    }
  }

  /** The members of `PrependAll(x, ps)` are `x` followed by a member of `ps`. */
  lemma PrependAllMember<T>(x: T, ps: seq<seq<T>>, s: seq<T>)
    ensures s in PrependAll(x, ps) <==> |s| > 0 && s[0] == x && s[1..] in ps
  {
    if |s| > 0 && s[0] == x && s[1..] in ps {
      var j :| 0 <= j < |ps| && ps[j] == s[1..];
      assert PrependAll(x, ps)[j] == s;
    }
  }

  /** Removing one element of a pool without repeats removes exactly that
      element and leaves a pool without repeats. */
  lemma WithoutMember<T>(pool: seq<T>, i: nat, x: T)
    requires i < |pool| && Distinct(pool)
    ensures Distinct(Without(pool, i))
    ensures x in Without(pool, i) <==> x in pool && x != pool[i]
  {
  }

  /** Removing one element keeps an increasing pool increasing. */
  lemma WithoutIncreasing(pool: seq<nat>, i: nat)
    requires i < |pool| && Increasing(pool)
    ensures Increasing(Without(pool, i))
  {
  }

  /** A new element in front keeps a sequence without repeats. */
  lemma DistinctCons<T>(x: T, t: seq<T>)
    requires Distinct(t) && x !in t
    ensures Distinct([x] + t)
  {
  }

  // ---------------------------------------------------------------------------
  // Cartesian power: exactly the sequences of length n over the items

  /** The members of `ProductFrom(items, n, i)` are the length-`n` members
      of the cartesian power whose head is `items[i]` or a later item. */
  lemma {:induction false} ProductFromMember<T>(items: seq<T>, n: nat, i: nat, s: seq<T>)
    requires n > 0 && i <= |items|
    ensures s in ProductFrom(items, n, i) <==>
              |s| > 0 && s[1..] in Product(items, n - 1) && exists j | i <= j < |items| :: s[0] == items[j]
    decreases |items| - i
  {
    if i < |items| {
      PrependAllMember(items[i], Product(items, n - 1), s);
      ProductFromMember(items, n, i + 1, s);
    }
  }

  /** The cartesian power holds exactly the sequences of length `n` whose
      elements all come from `items`. */
  lemma {:induction false} ProductMember<T>(items: seq<T>, n: nat, s: seq<T>)
    ensures s in Product(items, n) <==> |s| == n && forall i | 0 <= i < |s| :: s[i] in items
  {
    if n > 0 {
      ProductFromMember(items, n, 0, s);
      if |s| > 0 {
        ProductMember(items, n - 1, s[1..]);
        assert forall i | 1 <= i < |s| :: s[i] == s[1..][i - 1];
      }
    }
  }

  /** Prepending one element keeps a list of distinct sequences distinct. */
  lemma DistinctPrependAll<T>(x: T, ps: seq<seq<T>>)
    requires Distinct(ps)
    ensures Distinct(PrependAll(x, ps))
  {
    var r := PrependAll(x, ps);
    forall i, j | 0 <= i < j < |r| ensures r[i] != r[j] {
      assert r[i] == [x] + ps[i] && r[j] == [x] + ps[j];
      assert r[i][1..] == ps[i] && r[j][1..] == ps[j];
    }
  }

  /** Two lists without repeats and with no common element join into a
      list without repeats. */
  lemma DistinctAppend<T>(a: seq<T>, b: seq<T>)
    requires Distinct(a) && Distinct(b)
    requires forall x | x in a :: x !in b
    ensures Distinct(a + b)
  {
    var s := a + b;
    forall i, j | 0 <= i < j < |s| ensures s[i] != s[j] {
      if j >= |a| {
        assert s[j] == b[j - |a|];
        if i < |a| { assert s[i] == a[i] && a[i] in a; } else { assert s[i] == b[i - |a|]; }
      } else {
        assert s[i] == a[i] && s[j] == a[j];
      }
    }
  }

  /** Over distinct items, `ProductFrom` lists every sequence once. */
  lemma {:induction false} ProductFromDistinct<T>(items: seq<T>, n: nat, i: nat)
    requires n > 0 && i <= |items| && Distinct(items) && Distinct(Product(items, n - 1))
    ensures Distinct(ProductFrom(items, n, i))
    decreases |items| - i
  {
    if i < |items| {
      var block := PrependAll(items[i], Product(items, n - 1));
      DistinctPrependAll(items[i], Product(items, n - 1));
      ProductFromDistinct(items, n, i + 1);
      forall s | s in block ensures s !in ProductFrom(items, n, i + 1) {
        PrependAllMember(items[i], Product(items, n - 1), s);
        ProductFromMember(items, n, i + 1, s);
      }
      DistinctAppend(block, ProductFrom(items, n, i + 1));
    }
  }

  /** Over distinct items, the cartesian power lists every sequence once. */
  lemma {:induction false} ProductDistinct<T>(items: seq<T>, n: nat)
    requires Distinct(items)
    ensures Distinct(Product(items, n))
  {
    if n > 0 {
      ProductDistinct(items, n - 1);
      ProductFromDistinct(items, n, 0);
    }
  }

  // ---------------------------------------------------------------------------
  // Ordered selections: exactly the distinct sequences of k pool elements

  /** The members of `PermutationsFrom(pool, k, i)` start with `pool[j]`
      for some `j >= i`, followed by a selection from the rest of the pool. */
  lemma {:induction false} PermutationsFromMember(pool: seq<nat>, k: nat, i: nat, s: seq<nat>)
    requires k > 0 && i <= |pool|
    ensures s in PermutationsFrom(pool, k, i) <==>
              |s| > 0 && exists j | i <= j < |pool| :: s[0] == pool[j] && s[1..] in Permutations(Without(pool, j), k - 1)
    decreases |pool| - i
  {
    if i < |pool| {
      PrependAllMember(pool[i], Permutations(Without(pool, i), k - 1), s);
      PermutationsFromMember(pool, k, i + 1, s);
    }
  }

  /** Over a pool without repetitions, the selections are exactly the
      sequences of `k` distinct elements of the pool. */
  lemma {:induction false} PermutationsMember(pool: seq<nat>, k: nat, s: seq<nat>)
    requires Distinct(pool)
    ensures s in Permutations(pool, k) <==>
              |s| == k && Distinct(s) && forall i | 0 <= i < |s| :: s[i] in pool
  {
    if k > 0 {
      PermutationsFromMember(pool, k, 0, s);
      if s in Permutations(pool, k) {
        var j :| 0 <= j < |pool| && s[0] == pool[j] && s[1..] in Permutations(Without(pool, j), k - 1);
        WithoutMember(pool, j, s[0]);
        PermutationsMember(Without(pool, j), k - 1, s[1..]);
        forall x | x in s[1..] ensures x in pool && x != s[0] {
          WithoutMember(pool, j, x);
        }
        assert s == [s[0]] + s[1..];
        DistinctCons(s[0], s[1..]);
        assert forall i | 1 <= i < |s| :: s[i] == s[1..][i - 1];
      } else if |s| == k && Distinct(s) && forall i | 0 <= i < |s| :: s[i] in pool {
        var j :| 0 <= j < |pool| && pool[j] == s[0];
        WithoutMember(pool, j, s[0]);
        forall i | 0 <= i < |s[1..]| ensures s[1..][i] in Without(pool, j) {
          assert s[1..][i] == s[i + 1] && s[i + 1] != s[0];
          WithoutMember(pool, j, s[i + 1]);
        }
        PermutationsMember(Without(pool, j), k - 1, s[1..]);
        assert false;
      }
    }
  }

  /** No sequence comes before itself. */
  lemma LexLessIrreflexive(a: seq<nat>)
    ensures !LexLess(a, a)
  {
  }

  /** Of two sequences, at most one comes before the other. */
  lemma LexLessAsymmetric(a: seq<nat>, b: seq<nat>)
    requires LexLess(a, b)
    ensures !LexLess(b, a)
  {
  }

  /** A common head keeps the order of two sequences. */
  lemma LexLessPrepend(x: nat, a: seq<nat>, b: seq<nat>)
    requires LexLess(a, b)
    ensures LexLess([x] + a, [x] + b)
  {
  }

  /** A common head keeps a sorted list of sequences sorted. */
  lemma LexSortedPrependAll(x: nat, ps: seq<seq<nat>>)
    requires LexSorted(ps)
    ensures LexSorted(PrependAll(x, ps))
  {
  }

  /** Two sorted lists, each member of the first before each member of the
      second, join into a sorted list. */
  lemma LexSortedAppend(a: seq<seq<nat>>, b: seq<seq<nat>>)
    requires LexSorted(a) && LexSorted(b)
    requires forall x, y | x in a && y in b :: LexLess(x, y)
    ensures LexSorted(a + b)
  {
  }

  /** Every member of `PermutationsFrom(pool, k, i)` over an increasing
      pool starts with `pool[i]` or a larger element. */
  lemma {:induction false} PermutationsFromHeads(pool: seq<nat>, k: nat, i: nat, s: seq<nat>)
    requires k > 0 && i <= |pool| && Increasing(pool) && s in PermutationsFrom(pool, k, i)
    ensures |s| > 0 && i < |pool| && pool[i] <= s[0]
    decreases |pool| - i
  {
    PermutationsFromMember(pool, k, i, s);
  }

  /** `PermutationsFrom` over an increasing pool is sorted when the
      selections from each reduced pool are. */
  lemma {:induction false} PermutationsFromSorted(pool: seq<nat>, k: nat, i: nat)
    requires k > 0 && i <= |pool| && Increasing(pool)
    requires forall j | 0 <= j < |pool| :: LexSorted(Permutations(Without(pool, j), k - 1))
    ensures LexSorted(PermutationsFrom(pool, k, i))
    decreases |pool| - i
  {
    if i < |pool| {
      var block := PrependAll(pool[i], Permutations(Without(pool, i), k - 1));
      var rest := PermutationsFrom(pool, k, i + 1);
      LexSortedPrependAll(pool[i], Permutations(Without(pool, i), k - 1));
      PermutationsFromSorted(pool, k, i + 1);
      forall x, y | x in block && y in rest ensures LexLess(x, y) {
        PrependAllMember(pool[i], Permutations(Without(pool, i), k - 1), x);
        PermutationsFromHeads(pool, k, i + 1, y);
      }
      LexSortedAppend(block, rest);
    }
  }

  /** Over an increasing pool, the selections come in strictly increasing
      lexicographic order (so each is listed once). */
  lemma {:induction false} PermutationsSorted(pool: seq<nat>, k: nat)
    requires Increasing(pool)
    ensures LexSorted(Permutations(pool, k))
  {
    if k > 0 {
      forall j | 0 <= j < |pool| ensures LexSorted(Permutations(Without(pool, j), k - 1)) {
        WithoutIncreasing(pool, j);
        PermutationsSorted(Without(pool, j), k - 1);
      }
      PermutationsFromSorted(pool, k, 0);
    }
  }
}
