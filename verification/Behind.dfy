/** Cutting the merged tags at the running one, and pruning: VersionsBehind and RemoveLeastSpecific. */
module Behind {
  import opened Orders
  import opened Versions
  import opened UniqueTags

  // ---------- VersionsBehind ----------

  ghost predicate SurvivorHasText(c: seq<Version>, text: string) {
    exists v :: v in c && IsSurvivor(c, v) && v.original == text
  }

  /**
   * What VersionsBehind promises: if the running tag survived, the list starts with it, holds only
   * survivors, and holds every survivor newer than it; otherwise it is the running version alone.
   */
  ghost predicate IsBehindList(c: seq<Version>, current: Version, r: seq<Version>) {
    && r != [] && Sorted(CompareVersions, r) && DistinctKeys(r)
    && if SurvivorHasText(c, current.original) then
         && r[0].original == current.original
         && (forall v :: v in r ==> v in c && IsSurvivor(c, v))
         && (forall v :: v in c && IsSurvivor(c, v) && CompareVersions(r[0], v) < 0 ==> v in r)
       else r == [current]
  }

  /** In an ascending list, whatever is newer than position k comes after it. */
  lemma NewerInSuffix(u: seq<Version>, k: nat, v: Version)
    requires Sorted(CompareVersions, u) && k < |u| && v in u && CompareVersions(u[k], v) < 0
    ensures v in u[k..]
  {
    CompareVersionsIsOrder();
    assert CompareVersions(u[k], v) == -CompareVersions(v, u[k]);
    var i :| 0 <= i < |u| && u[i] == v;
    assert u[k..][i - k] == v;
  }

  lemma SuffixIsBehindList(c: seq<Version>, current: Version, u: seq<Version>, k: nat)
    requires IsUnique(c, u) && k < |u| && u[k].original == current.original
    ensures IsBehindList(c, current, u[k..])
  {
    hide Key;
    var r := u[k..];
    forall v | v in u ensures v in c && IsSurvivor(c, v) {
    }
    assert r[0] == u[k] && u[k] in u;
    forall v | v in c && IsSurvivor(c, v) && CompareVersions(r[0], v) < 0 ensures v in r {
      NewerInSuffix(u, k, v);
    }
  }

  method VersionsBehind(c: seq<Version>, current: Version) returns (r: seq<Version>)
    ensures IsBehindList(c, current, r)
  {
    hide Key;
    var cleaned := Unique(c);
    CompareVersionsIsOrder();
    var sortable := SortedCopy(cleaned, CompareVersions);
    SameElements(sortable, cleaned);
    DistinctKeysOfPermutation(cleaned, sortable);
    assert IsUnique(c, sortable);
    for idx := 0 to |sortable|
      invariant forall j :: 0 <= j < idx ==> sortable[j].original != current.original
    {
      if sortable[idx].original == current.original {
        SuffixIsBehindList(c, current, sortable, idx);
        return sortable[idx..];
      }
    }
    assert forall v :: v in c && IsSurvivor(c, v) ==> v in sortable;
    return [current];
  }

  lemma BehindListExists(c: seq<Version>, current: Version) returns (r: seq<Version>)
    ensures IsBehindList(c, current, r)
  {
    hide Key, CompareVersions, IsSurvivor;
    if v :| v in c && IsSurvivor(c, v) && v.original == current.original {
      var u := UniqueExists(c);
      assert v in u;
      var k: nat :| k < |u| && u[k] == v;
      SuffixIsBehindList(c, current, u, k);
      return u[k..];
    }
    return [current];
  }

  // ---------- RemoveLeastSpecific ----------

  ghost predicate SameUpTo(a: seq<nat>, b: seq<nat>, n: nat)
    requires n <= |a| && n <= |b|
  {
    forall e :: 0 <= e < n ==> a[e] == b[e]
  }

  /** b differs from a within their common length, and not by a positive segment of a turning into zero. */
  ghost predicate MoreThanLessSpecific(a: seq<nat>, b: seq<nat>) {
    exists d: nat :: d < |a| && d < |b| && SameUpTo(a, b, d) && a[d] != b[d] && b[d] != 0
  }

  /** What pruning has kept of the first n versions. */
  ghost function PrunedUpTo(c: seq<Version>, n: nat): seq<Version>
    requires n <= |c|
  {
    if n == 0 then []
    else PrunedUpTo(c, n - 1)
         + if n == 1 || MoreThanLessSpecific(c[n - 2].segments, c[n - 1].segments) then [c[n - 1]] else []
  }

  ghost function Pruned(c: seq<Version>): seq<Version> {
    PrunedUpTo(c, |c|)
  }

  lemma DecidedAtFirstDifference(a: seq<nat>, b: seq<nat>, d: nat)
    requires d < |a| && d < |b| && SameUpTo(a, b, d) && a[d] != b[d]
    ensures MoreThanLessSpecific(a, b) <==> b[d] != 0
  {
    forall e: nat | e < |a| && e < |b| && SameUpTo(a, b, e) && a[e] != b[e] ensures e == d {
    }
  }

  /** The inner loop of RemoveLeastSpecific: comparing neighbours segment by segment. */
  method IsLessSpecific(iSegments: seq<nat>, jSegments: seq<nat>) returns (isLessSpecific: bool)
    ensures isLessSpecific <==> !MoreThanLessSpecific(iSegments, jSegments)
  {
    isLessSpecific := true;
    var idx := 0;
    while idx < |iSegments|
      invariant 0 <= idx <= |iSegments| && isLessSpecific
      invariant idx <= |jSegments| && SameUpTo(iSegments, jSegments, idx)
    {
      var iSegment := iSegments[idx];
      if |jSegments| < idx + 1 {
        break;
      }
      if iSegment > 0 && jSegments[idx] == 0 {
        DecidedAtFirstDifference(iSegments, jSegments, idx);
        return;
      }
      if iSegment != jSegments[idx] {
        DecidedAtFirstDifference(iSegments, jSegments, idx);
        isLessSpecific := false;
        return;
      }
      idx := idx + 1;
    }
  }

  method RemoveLeastSpecific(c: seq<Version>) returns (r: seq<Version>)
    ensures r == Pruned(c)
  {
    hide MoreThanLessSpecific;
    if |c| == 0 { return []; }
    r := [c[0]];
    for i := 0 to |c| - 1
      invariant r == PrunedUpTo(c, i + 1)
    {
      var j := i + 1;
      var isLessSpecific := IsLessSpecific(c[i].segments, c[j].segments);
      if !isLessSpecific {
        r := r + [c[j]];
      }
    }
  }

  ghost predicate AtMostOneLong(c: seq<Version>) {
    forall i, j :: 0 <= i < j < |c| ==> |c[i].segments| == 3 || |c[j].segments| == 3
  }

  /** A greater triple counts as more specific, whatever the number of segments. */
  lemma AscendingPairIsKept(a: Version, b: Version)
    requires TripleLess(TripleOf(a), TripleOf(b))
    ensures MoreThanLessSpecific(a.segments, b.segments)
  {
    var s, t := a.segments, b.segments;
    DecidedAtFirstDifference(s, t, if s[0] != t[0] then 0 else if s[1] != t[1] then 1 else 2);
  }

  /** Among ascending neighbours of which one has three segments, "more specific" is a new triple. */
  lemma AscendingNeighbours(a: Version, b: Version)
    requires CompareVersions(a, b) <= 0 && (|a.segments| == 3 || |b.segments| == 3)
    ensures MoreThanLessSpecific(a.segments, b.segments) <==> TripleOf(a) != TripleOf(b)
  {
    OrderRefinesTriples(a, b);
    if TripleOf(a) == TripleOf(b) {
      assert SameUpTo(a.segments, b.segments, 3);
    } else {
      AscendingPairIsKept(a, b);
    }
  }

  /** The first member of its run of equal triples. */
  ghost predicate FirstOfRun(c: seq<Version>, i: nat)
    requires i < |c|
  {
    forall j :: 0 <= j < i ==> TripleOf(c[j]) != TripleOf(c[i])
  }

  lemma LastTripleIsNew(c: seq<Version>, i: nat)
    requires 0 < i < |c| && Sorted(CompareVersions, c)
    ensures FirstOfRun(c, i) <==> TripleOf(c[i - 1]) != TripleOf(c[i])
  {
    hide CompareVersions;
    OrderRefinesTriples(c[i - 1], c[i]);
    forall j | 0 <= j < i
      ensures TripleOf(c[i - 1]) != TripleOf(c[i]) ==> TripleOf(c[j]) != TripleOf(c[i])
    {
      OrderRefinesTriples(c[j], c[i - 1]);
    }
  }

  /** What one step of pruning does. */
  lemma PrunedStep(c: seq<Version>, n: nat)
    requires 0 < n <= |c| && Sorted(CompareVersions, c) && AtMostOneLong(c)
    ensures PrunedUpTo(c, n) == PrunedUpTo(c, n - 1) + if FirstOfRun(c, n - 1) then [c[n - 1]] else []
    ensures n > 1 ==> if FirstOfRun(c, n - 1) then TripleLess(TripleOf(c[n - 2]), TripleOf(c[n - 1]))
                      else TripleOf(c[n - 2]) == TripleOf(c[n - 1])
  {
    hide MoreThanLessSpecific, CompareVersions;
    if n > 1 {
      AscendingNeighbours(c[n - 2], c[n - 1]);
      OrderRefinesTriples(c[n - 2], c[n - 1]);
      LastTripleIsNew(c, n - 1);
    }
  }

  /** On an ascending list, pruning leaves exactly the first member of each run of equal triples. */
  lemma {:induction false} PrunedMembers(c: seq<Version>, n: nat, v: Version)
    requires n <= |c| && Sorted(CompareVersions, c) && AtMostOneLong(c)
    ensures v in PrunedUpTo(c, n) <==> exists i :: 0 <= i < n && c[i] == v && FirstOfRun(c, i)
  {
    hide CompareVersions, FirstOfRun;
    if n > 0 {
      PrunedMembers(c, n - 1, v);
      PrunedStep(c, n);
    }
  }

  /** It keeps the first element, ascends strictly, and ends with the greatest triple. */
  lemma {:induction false} PrunedAscends(c: seq<Version>, n: nat)
    requires 0 < n <= |c| && Sorted(CompareVersions, c) && AtMostOneLong(c)
    ensures var p := PrunedUpTo(c, n);
      && p != [] && p[0] == c[0] && TripleOf(p[|p| - 1]) == TripleOf(c[n - 1])
      && forall i, j :: 0 <= i < j < |p| ==> TripleLess(TripleOf(p[i]), TripleOf(p[j]))
  {
    hide CompareVersions, FirstOfRun;
    PrunedStep(c, n);
    if n > 1 {
      var p := PrunedUpTo(c, n - 1);
      PrunedAscends(c, n - 1);
      assert forall i :: 0 <= i < |p| - 1 ==> TripleLess(TripleOf(p[i]), TripleOf(p[|p| - 1]));
    } else {
      assert PrunedUpTo(c, 0) == [];
    }
  }

  /** The last of what is left: of all listed versions with the greatest triple, the oldest. */
  ghost predicate OldestOfGreatest(c: seq<Version>, v: Version) {
    && v in c
    && forall w :: w in c ==>
         !TripleLess(TripleOf(v), TripleOf(w)) && (TripleOf(w) == TripleOf(v) ==> CompareVersions(v, w) <= 0)
  }

  lemma FirstOfRunIsOldest(c: seq<Version>, i: nat)
    requires i < |c| && Sorted(CompareVersions, c) && FirstOfRun(c, i)
    requires TripleOf(c[i]) == TripleOf(c[|c| - 1])
    ensures OldestOfGreatest(c, c[i])
  {
    hide CompareVersions;
    CompareVersionsIsOrder();
    assert CompareVersions(c[i], c[i]) == -CompareVersions(c[i], c[i]);
    forall j | 0 <= j < |c|
      ensures !TripleLess(TripleOf(c[i]), TripleOf(c[j]))
      ensures TripleOf(c[j]) == TripleOf(c[i]) ==> CompareVersions(c[i], c[j]) <= 0
    {
      OrderRefinesTriples(c[j], c[|c| - 1]);
    }
  }

  lemma PrunedEndsWithOldest(c: seq<Version>)
    requires c != [] && Sorted(CompareVersions, c) && AtMostOneLong(c)
    ensures Pruned(c) != [] && OldestOfGreatest(c, Pruned(c)[|Pruned(c)| - 1])
  {
    hide CompareVersions, FirstOfRun, OldestOfGreatest;
    PrunedAscends(c, |c|);
    var p := Pruned(c);
    PrunedMembers(c, |c|, p[|p| - 1]);
    var i :| 0 <= i < |c| && c[i] == p[|p| - 1] && FirstOfRun(c, i);
    FirstOfRunIsOldest(c, i);
  }

  ghost function TriplesUpTo(c: seq<Version>, n: nat): set<Triple>
    requires n <= |c|
  {
    set i | 0 <= i < n :: TripleOf(c[i])
  }

  ghost function Triples(c: seq<Version>): set<Triple> {
    TriplesUpTo(c, |c|)
  }

  lemma TriplesGrow(c: seq<Version>, n: nat)
    requires 0 < n <= |c|
    ensures |TriplesUpTo(c, n)| == |TriplesUpTo(c, n - 1)| + if FirstOfRun(c, n - 1) then 1 else 0
  {
    assert TriplesUpTo(c, n) == TriplesUpTo(c, n - 1) + {TripleOf(c[n - 1])};
  }

  /** So there are as many as there are different triples. */
  lemma {:induction false} PrunedCount(c: seq<Version>, n: nat)
    requires n <= |c| && Sorted(CompareVersions, c) && AtMostOneLong(c)
    ensures |PrunedUpTo(c, n)| == |TriplesUpTo(c, n)|
  {
    hide CompareVersions, FirstOfRun, MoreThanLessSpecific;
    if n > 0 {
      PrunedCount(c, n - 1);
      PrunedStep(c, n);
      TriplesGrow(c, n);
    }
  }

  lemma PrunedSingle(v: Version)
    ensures Pruned([v]) == [v]
  {
    assert PrunedUpTo([v], 0) == [];
  }

  lemma {:induction false} PrunedNonempty(c: seq<Version>, n: nat)
    requires 0 < n <= |c|
    ensures PrunedUpTo(c, n) != []
  {
    if n > 1 { PrunedNonempty(c, n - 1); }
  }
}
