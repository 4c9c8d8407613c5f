/** Comparison functions, lexicographic comparison, and the in-place sort the agent relies on. */
module Orders {

  /** A three-way comparison that is a total preorder: reversing the arguments negates it. */
  ghost predicate IsOrder<T(!new)>(cmp: (T, T) -> int) {
    && (forall x, y :: cmp(x, y) == -cmp(y, x))
    && (forall x, y, z :: cmp(x, y) <= 0 && cmp(y, z) <= 0 ==> cmp(x, z) <= 0)
  }

  /** Distinct values never compare equal. */
  ghost predicate Separates<T(!new)>(cmp: (T, T) -> int) {
    forall x, y :: cmp(x, y) == 0 ==> x == y
  }

  ghost predicate Sorted<T>(cmp: (T, T) -> int, s: seq<T>) {
    forall i, j :: 0 <= i < j < |s| ==> cmp(s[i], s[j]) <= 0
  }

  ghost predicate Distinct<T>(s: seq<T>) {
    forall i, j :: 0 <= i < j < |s| ==> s[i] != s[j]
  }

  lemma SameElements<T>(s: seq<T>, t: seq<T>)
    requires multiset(s) == multiset(t)
    ensures |s| == |t| && forall x :: x in s <==> x in t
  {
    assert |multiset(s)| == |s| && |multiset(t)| == |t|;
    forall x ensures x in s <==> x in t {
      assert x in s <==> x in multiset(s);
      assert x in t <==> x in multiset(t);
    }
  }

  lemma {:induction false} CountInDistinct<T>(s: seq<T>, x: T)
    requires Distinct(s)
    ensures multiset(s)[x] == if x in s then 1 else 0
  {
    if s != [] {
      CountInDistinct(s[1..], x);
      assert s == [s[0]] + s[1..];
      assert x == s[0] ==> x !in s[1..];
    }
  }

  lemma TwiceInSequence<T>(t: seq<T>, i: nat, j: nat)
    requires i < j < |t| && t[i] == t[j]
    ensures multiset(t)[t[i]] >= 2
  {
    var x := t[i];
    assert t == t[..i] + [x] + t[i + 1..j] + [x] + t[j + 1..];
    assert multiset(t) == multiset(t[..i]) + multiset{x} + multiset(t[i + 1..j]) + multiset{x} + multiset(t[j + 1..]);
  }

  lemma PermutationOfDistinct<T>(s: seq<T>, t: seq<T>)
    requires Distinct(s) && multiset(s) == multiset(t)
    ensures Distinct(t)
  {
    forall i, j | 0 <= i < j < |t| ensures t[i] != t[j] {
      if t[i] == t[j] {
        CountInDistinct(s, t[i]);
        TwiceInSequence(t, i, j);
        assert false;
      }
    }
  }

  function CompareNat(a: nat, b: nat): int {
    if a < b then -1 else if a > b then 1 else 0
  }

  function CompareChar(a: char, b: char): int {
    if a < b then -1 else if a > b then 1 else 0
  }

  /** Lexicographic comparison; a proper prefix comes first. */
  function Lex<T>(cmp: (T, T) -> int, a: seq<T>, b: seq<T>): int {
    if a == [] && b == [] then 0
    else if a == [] then -1
    else if b == [] then 1
    else if cmp(a[0], b[0]) != 0 then cmp(a[0], b[0])
    else Lex(cmp, a[1..], b[1..])
  }

  lemma {:induction false} LexReverses<T(!new)>(cmp: (T, T) -> int, a: seq<T>, b: seq<T>)
    requires IsOrder(cmp)
    ensures Lex(cmp, a, b) == -Lex(cmp, b, a)
  {
    if a != [] && b != [] {
      assert cmp(a[0], b[0]) == -cmp(b[0], a[0]);
      LexReverses(cmp, a[1..], b[1..]);
    }
  }

  lemma {:induction false} LexTransitive<T(!new)>(cmp: (T, T) -> int, a: seq<T>, b: seq<T>, c: seq<T>)
    requires IsOrder(cmp)
    requires Lex(cmp, a, b) <= 0 && Lex(cmp, b, c) <= 0
    ensures Lex(cmp, a, c) <= 0
  {
    if a != [] && b != [] && c != [] {
      var x, y, z := a[0], b[0], c[0];
      assert cmp(x, y) <= 0 && cmp(y, z) <= 0 && cmp(x, z) <= 0;
      if cmp(x, z) == 0 {
        assert cmp(z, x) <= 0 && cmp(y, x) <= 0 && cmp(z, y) <= 0;
        assert cmp(x, y) == -cmp(y, x) && cmp(y, z) == -cmp(z, y);
        LexTransitive(cmp, a[1..], b[1..], c[1..]);
      }
    }
  }

  lemma {:induction false} LexSeparates<T(!new)>(cmp: (T, T) -> int, a: seq<T>, b: seq<T>)
    requires Separates(cmp)
    requires Lex(cmp, a, b) == 0
    ensures a == b
  {
    if a != [] {
      LexSeparates(cmp, a[1..], b[1..]);
      assert a == [a[0]] + a[1..] && b == [b[0]] + b[1..];
    }
  }

  /** Strings in the order Go's sort.Strings uses. */
  function CompareString(a: string, b: string): int {
    Lex(CompareChar, a, b)
  }

  lemma CompareStringIsOrder()
    ensures IsOrder(CompareString) && Separates(CompareString)
  {
    forall x, y
      ensures CompareString(x, y) == -CompareString(y, x)
      ensures CompareString(x, y) == 0 ==> x == y
    {
      LexReverses(CompareChar, x, y);
      if CompareString(x, y) == 0 { LexSeparates(CompareChar, x, y); }
    }
    forall x, y, z | CompareString(x, y) <= 0 && CompareString(y, z) <= 0
      ensures CompareString(x, z) <= 0
    {
      LexTransitive(CompareChar, x, y, z);
    }
  }

  /** Position k shows that a comes before b: a ends there, or is smaller there, and nothing differs earlier. */
  ghost predicate BeforeAt<T>(less: (T, T) -> bool, a: seq<T>, b: seq<T>, k: nat) {
    k <= |a| && k < |b| && a[..k] == b[..k] && (k == |a| || less(a[k], b[k]))
  }

  /** a is a proper prefix of b, or smaller at the first difference. */
  ghost predicate Before<T>(less: (T, T) -> bool, a: seq<T>, b: seq<T>) {
    exists k: nat :: BeforeAt(less, a, b, k)
  }

  lemma BeforeAtNext<T>(less: (T, T) -> bool, a: seq<T>, b: seq<T>, k: nat)
    requires a != [] && b != [] && a[0] == b[0]
    ensures BeforeAt(less, a, b, k + 1) <==> BeforeAt(less, a[1..], b[1..], k)
  {
    if k < |a| && k < |b| {
      assert a[..k + 1] == [a[0]] + a[1..][..k] && b[..k + 1] == [b[0]] + b[1..][..k];
      assert a[1..][..k] == a[..k + 1][1..] && b[1..][..k] == b[..k + 1][1..];
    }
  }

  /** Lexicographic comparison decides at the first difference. */
  lemma {:induction false} LexMeaning<T(!new)>(cmp: (T, T) -> int, less: (T, T) -> bool, a: seq<T>, b: seq<T>)
    requires forall x, y :: (cmp(x, y) < 0 <==> less(x, y)) && (cmp(x, y) == 0 <==> x == y)
    ensures Lex(cmp, a, b) < 0 <==> Before(less, a, b)
  {
    if a == [] || b == [] || a[0] != b[0] {
      assert Lex(cmp, a, b) < 0 ==> BeforeAt(less, a, b, 0);
      forall k: nat | BeforeAt(less, a, b, k) ensures k == 0 {
      }
    } else {
      LexMeaning(cmp, less, a[1..], b[1..]);
      assert cmp(a[0], b[0]) == 0 && !less(a[0], b[0]);
      if k: nat :| BeforeAt(less, a[1..], b[1..], k) {
        BeforeAtNext(less, a, b, k);
        assert BeforeAt(less, a, b, k + 1);
      }
      if k: nat :| BeforeAt(less, a, b, k) {
        BeforeAtNext(less, a, b, k - 1);
        assert BeforeAt(less, a[1..], b[1..], k - 1);
      }
    }
  }

  /** Strings ascend by their characters; a proper prefix comes first. */
  lemma CompareStringMeaning(a: string, b: string)
    ensures CompareString(a, b) < 0 <==> Before((x: char, y: char) => x < y, a, b)
  {
    LexMeaning(CompareChar, (x: char, y: char) => x < y, a, b);
  }

  /** All pairs of s are in order except that s[k] may be smaller than what precedes it. */
  ghost predicate SortedBut<T>(cmp: (T, T) -> int, s: seq<T>, k: nat) {
    forall i, j :: 0 <= i < j < |s| && j != k ==> cmp(s[i], s[j]) <= 0
  }

  /** s with the elements at positions k - 1 and k exchanged. */
  ghost function Exchanged<T>(s: seq<T>, k: nat): seq<T>
    requires 0 < k < |s|
  {
    s[k - 1 := s[k]][k := s[k - 1]]
  }

  lemma ExchangedKeepsElements<T>(s: seq<T>, k: nat)
    requires 0 < k < |s|
    ensures multiset(Exchanged(s, k)) == multiset(s)
  {
  }

  /** An exchange of neighbours moves the only unsorted position one step down. */
  lemma ExchangedSortedBut<T>(cmp: (T, T) -> int, s: seq<T>, k: nat)
    requires 0 < k < |s| && SortedBut(cmp, s, k) && cmp(s[k], s[k - 1]) < 0
    ensures SortedBut(cmp, Exchanged(s, k), k - 1)
  {
  }

  /** The same exchange seen in a longer sequence, of which s is the beginning up to position n. */
  lemma ExchangedPrefix<T>(s: seq<T>, n: nat, k: nat)
    requires 0 < k <= n < |s|
    ensures Exchanged(s, k)[..n + 1] == Exchanged(s[..n + 1], k)
    ensures Exchanged(s, k)[n + 1..] == s[n + 1..]
  {
  }

  lemma SwapDown<T>(cmp: (T, T) -> int, s: seq<T>, n: nat, k: nat)
    requires 0 < k <= n < |s| && SortedBut(cmp, s[..n + 1], k) && cmp(s[k], s[k - 1]) < 0
    ensures SortedBut(cmp, Exchanged(s, k)[..n + 1], k - 1)
    ensures multiset(Exchanged(s, k)[..n + 1]) == multiset(s[..n + 1])
    ensures Exchanged(s, k)[n + 1..] == s[n + 1..]
  {
    hide SortedBut;
    ExchangedPrefix(s, n, k);
    assert s[..n + 1][k] == s[k] && s[..n + 1][k - 1] == s[k - 1];
    ExchangedSortedBut(cmp, s[..n + 1], k);
    ExchangedKeepsElements(s[..n + 1], k);
  }

  lemma SettledIsSorted<T(!new)>(cmp: (T, T) -> int, s: seq<T>, k: nat)
    requires IsOrder(cmp)
    requires k < |s| && SortedBut(cmp, s, k) && (k == 0 || cmp(s[k], s[k - 1]) >= 0)
    ensures Sorted(cmp, s)
  {
    forall i, j | 0 <= i < j < |s| ensures cmp(s[i], s[j]) <= 0 {
      if j == k {
        assert cmp(s[k - 1], s[k]) == -cmp(s[k], s[k - 1]);
        if i < k - 1 { assert cmp(s[i], s[k - 1]) <= 0; }
      }
    }
  }

  /** Exchanges the elements at positions k - 1 and k. */
  method Exchange<T>(a: array<T>, k: nat)
    requires 0 < k < a.Length
    modifies a
    ensures a[..] == Exchanged(old(a[..]), k)
  {
    a[k - 1], a[k] := a[k], a[k - 1];
  }

  lemma PrefixIsSortedBut<T>(cmp: (T, T) -> int, s: seq<T>, n: nat)
    requires n < |s| && Sorted(cmp, s[..n])
    ensures SortedBut(cmp, s[..n + 1], n)
  {
    forall i, j | 0 <= i < j < n ensures cmp(s[i], s[j]) <= 0 {
      assert s[..n][i] == s[i] && s[..n][j] == s[j];
    }
  }

  /** Moves a[n] down into the ascending prefix a[..n]. */
  method Insert<T(!new)>(a: array<T>, n: nat, cmp: (T, T) -> int)
    requires IsOrder(cmp)
    requires n < a.Length && Sorted(cmp, a[..][..n])
    modifies a
    ensures Sorted(cmp, a[..][..n + 1]) && a[..][n + 1..] == old(a[..])[n + 1..]
    ensures multiset(a[..][..n + 1]) == multiset(old(a[..])[..n + 1])
  {
    hide IsOrder, Sorted, SortedBut, Exchanged;
    var k := n;
    PrefixIsSortedBut(cmp, a[..], n);
    while k > 0 && cmp(a[k], a[k - 1]) < 0
      invariant 0 <= k <= n
      invariant SortedBut(cmp, a[..][..n + 1], k)
      invariant a[..][n + 1..] == old(a[..])[n + 1..]
      invariant multiset(a[..][..n + 1]) == multiset(old(a[..])[..n + 1])
    {
      SwapDown(cmp, a[..], n, k);
      Exchange(a, k);
      k := k - 1;
    }
    SettledIsSorted(cmp, a[..][..n + 1], k);
  }

  /**
   * Go's sort.Sort: some permutation of the slice in ascending order. It is not stable, and callers
   * may use nothing beyond this contract.
   */
  method Sort<T(!new)>(a: array<T>, cmp: (T, T) -> int)
    requires IsOrder(cmp)
    modifies a
    ensures multiset(a[..]) == multiset(old(a[..]))
    ensures Sorted(cmp, a[..])
  {
    hide IsOrder;
    for n := 0 to a.Length
      invariant Sorted(cmp, a[..][..n])
      invariant multiset(a[..]) == multiset(old(a[..]))
    {
      assert a[..] == a[..][..n + 1] + a[..][n + 1..];
      Insert(a, n, cmp);
      assert a[..] == a[..][..n + 1] + a[..][n + 1..];
    }
    assert a[..] == a[..][..a.Length];
  }

  /** Sorting a sequence through a fresh array. */
  method SortedCopy<T(!new)>(s: seq<T>, cmp: (T, T) -> int) returns (r: seq<T>)
    requires IsOrder(cmp)
    ensures multiset(r) == multiset(s)
    ensures Sorted(cmp, r)
  {
    var a := new T[|s|](i requires 0 <= i < |s| => s[i]);
    assert a[..] == s;
    Sort(a, cmp);
    r := a[..];
  }

  // ---------- what a sort may return ----------

  lemma PlaceFor<T(!new)>(cmp: (T, T) -> int, s: seq<T>, x: T) returns (k: nat)
    requires IsOrder(cmp) && Sorted(cmp, s)
    ensures k <= |s|
    ensures forall i :: 0 <= i < k ==> cmp(s[i], x) <= 0
    ensures forall i :: k <= i < |s| ==> cmp(x, s[i]) <= 0
  {
    k := |s|;
    while k > 0 && cmp(x, s[k - 1]) <= 0
      invariant 0 <= k <= |s|
      invariant forall i :: k <= i < |s| ==> cmp(x, s[i]) <= 0
    {
      k := k - 1;
    }
    if k > 0 {
      assert cmp(s[k - 1], x) == -cmp(x, s[k - 1]);
      forall i | 0 <= i < k - 1 ensures cmp(s[i], x) <= 0 {
        assert cmp(s[i], s[k - 1]) <= 0;
      }
    }
  }

  lemma PlacedIsSorted<T>(cmp: (T, T) -> int, s: seq<T>, x: T, k: nat)
    requires Sorted(cmp, s) && k <= |s|
    requires forall i :: 0 <= i < k ==> cmp(s[i], x) <= 0
    requires forall i :: k <= i < |s| ==> cmp(x, s[i]) <= 0
    ensures Sorted(cmp, s[..k] + [x] + s[k..])
  {
    var r := s[..k] + [x] + s[k..];
    forall i, j | 0 <= i < j < |r| ensures cmp(r[i], r[j]) <= 0 {
      assert r[i] == if i < k then s[i] else if i == k then x else s[i - 1];
      assert r[j] == if j < k then s[j] else if j == k then x else s[j - 1];
    }
  }

  lemma SortedWith<T(!new)>(cmp: (T, T) -> int, s: seq<T>, x: T) returns (r: seq<T>)
    requires IsOrder(cmp) && Sorted(cmp, s)
    ensures Sorted(cmp, r) && multiset(r) == multiset(s) + multiset{x}
  {
    hide IsOrder, Sorted;
    var k := PlaceFor(cmp, s, x);
    PlacedIsSorted(cmp, s, x, k);
    r := s[..k] + [x] + s[k..];
    assert s == s[..k] + s[k..];
  }

  lemma SortedExists<T(!new)>(cmp: (T, T) -> int, s: seq<T>) returns (r: seq<T>)
    requires IsOrder(cmp)
    ensures Sorted(cmp, r) && multiset(r) == multiset(s)
  {
    hide IsOrder;
    r := [];
    for n := 0 to |s|
      invariant Sorted(cmp, r) && multiset(r) == multiset(s[..n])
    {
      assert s[..n + 1] == s[..n] + [s[n]];
      r := SortedWith(cmp, r, s[n]);
    }
    assert s[..|s|] == s;
  }

  /** The same order with f put before its equals. */
  ghost function Favoring<T(!new)>(cmp: (T, T) -> int, f: T): (T, T) -> int {
    (x, y) => if cmp(x, y) != 0 then cmp(x, y) else if x == f && y != f then -1 else if x != f && y == f then 1 else 0
  }

  lemma FavoringIsOrder<T(!new)>(cmp: (T, T) -> int, f: T)
    requires IsOrder(cmp)
    ensures IsOrder(Favoring(cmp, f))
  {
    var fav := Favoring(cmp, f);
    forall x, y ensures fav(x, y) == -fav(y, x) {
      assert cmp(x, y) == -cmp(y, x);
    }
    forall x, y, z | fav(x, y) <= 0 && fav(y, z) <= 0 ensures fav(x, z) <= 0 {
      assert cmp(x, y) <= 0 && cmp(y, z) <= 0 && cmp(x, z) <= 0;
      if cmp(x, z) == 0 {
        assert cmp(x, z) == -cmp(z, x) && cmp(x, y) == -cmp(y, x) && cmp(y, z) == -cmp(z, y);
        assert cmp(z, y) <= 0 && cmp(y, x) <= 0;
      }
    }
  }

  /** Whatever precedes f and is not f is strictly smaller. */
  ghost predicate FirstOfEquals<T>(cmp: (T, T) -> int, f: T, s: seq<T>) {
    forall i, j :: 0 <= i < j < |s| && s[j] == f && s[i] != f ==> cmp(s[i], f) < 0
  }

  /** A sort may put any one value before its equals. */
  lemma SortedFavoring<T(!new)>(cmp: (T, T) -> int, f: T, s: seq<T>) returns (r: seq<T>)
    requires IsOrder(cmp)
    ensures Sorted(cmp, r) && multiset(r) == multiset(s) && FirstOfEquals(cmp, f, r)
  {
    hide IsOrder;
    FavoringIsOrder(cmp, f);
    r := SortedExists(Favoring(cmp, f), s);
    assert forall i, j :: 0 <= i < j < |r| ==> Favoring(cmp, f)(r[i], r[j]) <= 0;
  }

  /** Two ascending lists of the same elements begin with the same element. */
  lemma SameFirst<T(!new)>(cmp: (T, T) -> int, s: seq<T>, t: seq<T>)
    requires IsOrder(cmp) && Separates(cmp)
    requires Sorted(cmp, s) && Sorted(cmp, t)
    requires s != [] && t != [] && s[0] in t && t[0] in s
    ensures s[0] == t[0]
  {
    var i :| 0 <= i < |s| && s[i] == t[0];
    var j :| 0 <= j < |t| && t[j] == s[0];
    if i != 0 && j != 0 {
      assert cmp(s[0], t[0]) <= 0 && cmp(t[0], s[0]) <= 0;
      assert cmp(s[0], t[0]) == -cmp(t[0], s[0]);
    }
  }

  lemma TailMembers<T>(s: seq<T>, x: T)
    requires s != [] && Distinct(s)
    ensures x in s[1..] <==> x in s && x != s[0]
  {
  }

  /** Two ascending duplicate-free lists of the same elements are the same list. */
  lemma {:induction false} SortedListUnique<T(!new)>(cmp: (T, T) -> int, s: seq<T>, t: seq<T>)
    requires IsOrder(cmp) && Separates(cmp)
    requires Sorted(cmp, s) && Sorted(cmp, t) && Distinct(s) && Distinct(t)
    requires forall x :: x in s <==> x in t
    ensures s == t
  {
    hide IsOrder, Separates;
    assert s != [] ==> s[0] in t;
    assert t != [] ==> t[0] in s;
    if s != [] {
      SameFirst(cmp, s, t);
      forall x ensures x in s[1..] <==> x in t[1..] {
        TailMembers(s, x);
        TailMembers(t, x);
      }
      SortedListUnique(cmp, s[1..], t[1..]);
      assert s == [s[0]] + s[1..] && t == [t[0]] + t[1..];
    }
  }
}
