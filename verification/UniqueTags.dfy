/** SemverTagCollection.Unique: one tag per key, the shortest text winning. */
module UniqueTags {
  import opened Orders
  import opened Versions

  /** c[i] is the first of the shortest texts among the tags that share its key. */
  ghost predicate Survives(c: seq<Version>, i: nat)
    requires i < |c|
  {
    forall j :: 0 <= j < |c| && Key(c[j]) == Key(c[i]) ==>
      |c[i].original| < |c[j].original| || (|c[i].original| == |c[j].original| && i <= j)
  }

  /** v is the survivor of its key. */
  ghost predicate IsSurvivor(c: seq<Version>, v: Version) {
    exists i: nat :: i < |c| && c[i] == v && Survives(c, i)
  }

  ghost predicate DistinctKeys(s: seq<Version>) {
    forall i, j :: 0 <= i < j < |s| ==> Key(s[i]) != Key(s[j])
  }

  /** An ascending list of exactly the survivors, one for each key. */
  ghost predicate IsUnique(c: seq<Version>, r: seq<Version>) {
    && Sorted(CompareVersions, r)
    && DistinctKeys(r)
    && (forall v :: v in r <==> IsSurvivor(c, v))
  }

  /** The loop's map after some tags: each key seen so far, with the survivor among them. */
  ghost predicate Tracks(c: seq<Version>, unique: map<string, Version>) {
    && (forall v :: v in c ==> Key(v) in unique)
    && (forall k :: k in unique ==> Key(unique[k]) == k && IsSurvivor(c, unique[k]))
  }

  lemma StillSurvives(c: seq<Version>, v: Version, u: Version)
    requires IsSurvivor(c, u)
    requires Key(v) == Key(u) ==> |u.original| <= |v.original|
    ensures IsSurvivor(c + [v], u)
  {
    hide Key;
    var i: nat :| i < |c| && c[i] == u && Survives(c, i);
    assert (c + [v])[i] == u && Survives(c + [v], i);
  }

  lemma FirstOfKeySurvives(c: seq<Version>, v: Version)
    requires forall u :: u in c ==> Key(u) != Key(v)
    ensures IsSurvivor(c + [v], v)
  {
    hide Key;
    assert (c + [v])[|c|] == v && Survives(c + [v], |c|);
  }

  lemma ShorterSurvives(c: seq<Version>, v: Version, u: Version)
    requires IsSurvivor(c, u) && Key(u) == Key(v) && |v.original| < |u.original|
    ensures IsSurvivor(c + [v], v)
  {
    hide Key;
    var i: nat :| i < |c| && c[i] == u && Survives(c, i);
    assert (c + [v])[|c|] == v && Survives(c + [v], |c|);
  }

  lemma OthersSurvive(c: seq<Version>, v: Version, unique: map<string, Version>)
    requires Tracks(c, unique)
    ensures forall k :: k in unique && k != Key(v) ==> IsSurvivor(c + [v], unique[k])
  {
    hide Key;
    forall k | k in unique && k != Key(v) ensures IsSurvivor(c + [v], unique[k]) {
      StillSurvives(c, v, unique[k]);
    }
  }

  lemma TracksReplacing(c: seq<Version>, v: Version, unique: map<string, Version>)
    requires Tracks(c, unique)
    requires Key(v) !in unique || |v.original| < |unique[Key(v)].original|
    ensures Tracks(c + [v], unique[Key(v) := v])
  {
    hide Key;
    if Key(v) in unique {
      ShorterSurvives(c, v, unique[Key(v)]);
    } else {
      FirstOfKeySurvives(c, v);
    }
    OthersSurvive(c, v, unique);
  }

  lemma TracksKeeping(c: seq<Version>, v: Version, unique: map<string, Version>)
    requires Tracks(c, unique)
    requires Key(v) in unique && |v.original| >= |unique[Key(v)].original|
    ensures Tracks(c + [v], unique)
  {
    hide Key;
    StillSurvives(c, v, unique[Key(v)]);
    OthersSurvive(c, v, unique);
  }

  lemma SurvivorOfKey(c: seq<Version>, u: Version, v: Version)
    requires IsSurvivor(c, u) && IsSurvivor(c, v) && Key(u) == Key(v)
    ensures u == v
  {
    hide Key;
  }

  lemma TracksMembers(c: seq<Version>, unique: map<string, Version>, v: Version)
    requires Tracks(c, unique)
    ensures (Key(v) in unique && unique[Key(v)] == v) <==> IsSurvivor(c, v)
  {
    hide Key;
    if IsSurvivor(c, v) {
      assert v in c;
      SurvivorOfKey(c, v, unique[Key(v)]);
    }
  }

  /** Unique. The map is iterated in no particular order; sorting follows. */
  method Unique(c: seq<Version>) returns (r: seq<Version>)
    ensures IsUnique(c, r)
  {
    hide Key;
    var unique := Collect(c);
    var result := Values(unique);
    CompareVersionsIsOrder();
    r := SortedCopy(result, CompareVersions);
    SameElements(r, result);
    DistinctKeysOfPermutation(result, r);
    forall v: Version ensures v in r <==> IsSurvivor(c, v) {
      TracksMembers(c, unique, v);
    }
  }

  method Collect(c: seq<Version>) returns (unique: map<string, Version>)
    ensures Tracks(c, unique)
  {
    hide Key;
    unique := map[];
    for n := 0 to |c|
      invariant Tracks(c[..n], unique)
    {
      var v := c[n];
      var ver := Key(v);
      assert c[..n + 1] == c[..n] + [v];
      if ver !in unique {
        TracksReplacing(c[..n], v, unique);
        unique := unique[ver := v];
      } else if |v.original| < |unique[ver].original| {
        TracksReplacing(c[..n], v, unique);
        unique := unique[ver := v];
      } else {
        TracksKeeping(c[..n], v, unique);
      }
    }
    assert c[..|c|] == c;
  }

  method Values(unique: map<string, Version>) returns (result: seq<Version>)
    requires forall k :: k in unique ==> Key(unique[k]) == k
    ensures DistinctKeys(result)
    ensures forall v :: v in result <==> Key(v) in unique && unique[Key(v)] == v
  {
    hide Key;
    result := [];
    var todo := unique.Keys;
    while todo != {}
      invariant todo <= unique.Keys
      invariant DistinctKeys(result)
      invariant forall v :: v in result <==> Key(v) in unique && Key(v) !in todo && unique[Key(v)] == v
      decreases |todo|
    {
      var k :| k in todo;
      var u := unique[k];
      assert Key(u) == k;
      result := result + [u];
      todo := todo - {k};
    }
  }

  lemma DistinctKeysOfPermutation(s: seq<Version>, t: seq<Version>)
    requires DistinctKeys(s) && multiset(s) == multiset(t)
    ensures DistinctKeys(t)
  {
    hide Key;
    PermutationOfDistinct(s, t);
    SameElements(s, t);
    forall i, j | 0 <= i < j < |t| ensures Key(t[i]) != Key(t[j]) {
      assert t[i] in s && t[j] in s;
    }
  }

  // ---------- what a caller learns ----------

  lemma {:induction false} SurvivorExists(c: seq<Version>, j: nat) returns (i: nat)
    requires j < |c|
    ensures i < |c| && Key(c[i]) == Key(c[j]) && Survives(c, i)
  {
    hide Key;
    i := j;
    for n := 0 to |c|
      invariant i < |c| && Key(c[i]) == Key(c[j])
      invariant forall m :: 0 <= m < n && Key(c[m]) == Key(c[i]) ==>
        |c[i].original| < |c[m].original| || (|c[i].original| == |c[m].original| && i <= m)
      invariant i < n || i == j
    {
      var m, l := |c[n].original|, |c[i].original|;
      if Key(c[n]) == Key(c[i]) && (m < l || (m == l && n < i)) {
        i := n;
      }
    }
  }

  /** Two positions of one key never both survive. */
  lemma SurvivingPosition(c: seq<Version>, i: nat, j: nat)
    requires i < |c| && j < |c| && Survives(c, i) && Survives(c, j) && Key(c[i]) == Key(c[j])
    ensures i == j
  {
    hide Key;
  }

  ghost predicate SurvivorAmong(c: seq<Version>, n: nat, v: Version) {
    exists i: nat :: i < n && i < |c| && c[i] == v && Survives(c, i)
  }

  lemma SurvivorNext(c: seq<Version>, n: nat, v: Version)
    requires n < |c|
    ensures SurvivorAmong(c, n + 1, v) <==> SurvivorAmong(c, n, v) || (Survives(c, n) && v == c[n])
  {
    hide Key, Survives;
  }

  lemma SurvivorsExist(c: seq<Version>) returns (r: seq<Version>)
    ensures DistinctKeys(r) && forall v :: v in r <==> IsSurvivor(c, v)
  {
    hide Key, Survives;
    r := [];
    for n := 0 to |c|
      invariant DistinctKeys(r)
      invariant forall v :: v in r <==> SurvivorAmong(c, n, v)
    {
      forall v: Version
        ensures SurvivorAmong(c, n + 1, v) <==> SurvivorAmong(c, n, v) || (Survives(c, n) && v == c[n])
      {
        SurvivorNext(c, n, v);
      }
      if Survives(c, n) {
        forall v | v in r ensures Key(v) != Key(c[n]) {
          var i: nat :| i < n && c[i] == v && Survives(c, i);
          if Key(v) == Key(c[n]) { SurvivingPosition(c, i, n); }
        }
        r := r + [c[n]];
      }
    }
    assert forall v :: SurvivorAmong(c, |c|, v) <==> IsSurvivor(c, v);
  }

  lemma UniqueExists(c: seq<Version>) returns (r: seq<Version>)
    ensures IsUnique(c, r)
  {
    hide Key, CompareVersions, IsSurvivor;
    var result := SurvivorsExist(c);
    CompareVersionsIsOrder();
    r := SortedExists(CompareVersions, result);
    SameElements(r, result);
    DistinctKeysOfPermutation(result, r);
  }

  /** Every key of the input is represented, by an input of minimal length, exactly once. */
  lemma UniqueRepresents(c: seq<Version>, r: seq<Version>)
    requires IsUnique(c, r)
    ensures forall v :: v in c ==> exists u :: u in r && Key(u) == Key(v) && |u.original| <= |v.original|
    ensures forall u :: u in r ==> u in c
    ensures forall u, w :: u in r && w in r && Key(u) == Key(w) ==> u == w
  {
    hide Key;
    forall v | v in c ensures exists u :: u in r && Key(u) == Key(v) && |u.original| <= |v.original| {
      var j :| 0 <= j < |c| && c[j] == v;
      var i := SurvivorExists(c, j);
      assert c[i] in r;
    }
  }

  /** Applying Unique to its own result changes nothing but, possibly, the order of equal versions. */
  lemma UniqueIsIdempotent(c: seq<Version>, r: seq<Version>, r': seq<Version>)
    requires IsUnique(c, r) && IsUnique(r, r')
    ensures multiset(r') == multiset(r)
  {
    hide Key;
    forall i | 0 <= i < |r| ensures Survives(r, i) {
    }
    forall v: Version ensures v in r' <==> v in r {
      if v in r {
        var i :| 0 <= i < |r| && r[i] == v;
        assert Survives(r, i);
      }
    }
    forall v: Version ensures multiset(r')[v] == multiset(r)[v] {
      CountInDistinct(r, v);
      CountInDistinct(r', v);
      assert v in multiset(r) <==> v in r;
      assert v in multiset(r') <==> v in r';
    }
  }
}
