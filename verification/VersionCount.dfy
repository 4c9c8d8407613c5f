/** Merging the kept tags with the running version, and counting what is newer. */
module VersionCount {
  import opened Options
  import opened Orders
  import opened Versions
  import opened OutlierSplit
  import opened UniqueTags
  import opened Behind

  // ---------- does the running tag survive merging? ----------

  /** Another kept tag that would be merged with the running one. */
  ghost predicate Rival(kept: set<Version>, current: Version, v: Version) {
    v in kept && Key(v) == Key(current) && v.original != current.original
  }

  /** The running tag beats every rival: it is shorter or, among listed tags of equal length, strictly older. */
  ghost predicate Wins(kept: set<Version>, current: Version) {
    forall v :: Rival(kept, current, v) ==>
      || |current.original| < |v.original|
      || (|current.original| == |v.original| && current in kept && CompareVersions(current, v) < 0)
  }

  /** A rival that is shorter, or of equal length and older, or of equal length when the running tag is not listed. */
  ghost predicate Beats(kept: set<Version>, current: Version, v: Version) {
    && Rival(kept, current, v)
    && (|v.original| < |current.original|
        || (|v.original| == |current.original| && (current !in kept || CompareVersions(v, current) < 0)))
  }

  /** Some rival beats the running tag. */
  ghost predicate Loses(kept: set<Version>, current: Version) {
    exists v :: Beats(kept, current, v)
  }

  /** A rival of equal length and equal precedence: a sort may put either of the two first. */
  ghost predicate TiesWith(kept: set<Version>, current: Version, v: Version) {
    && Rival(kept, current, v) && current in kept
    && |v.original| == |current.original| && CompareVersions(v, current) == 0
  }

  ghost predicate Ties(kept: set<Version>, current: Version) {
    exists v :: TiesWith(kept, current, v)
  }

  lemma WinsLosesOrTies(kept: set<Version>, current: Version)
    ensures Wins(kept, current) <==> !Loses(kept, current) && !Ties(kept, current)
  {
    hide Key;
    CompareVersionsIsOrder();
    forall v: Version ensures CompareVersions(v, current) == -CompareVersions(current, v) {
    }
    if !Wins(kept, current) {
      var v :| Rival(kept, current, v) && |current.original| >= |v.original|
        && !(|current.original| == |v.original| && current in kept && CompareVersions(current, v) < 0);
      assert Beats(kept, current, v) || TiesWith(kept, current, v);
    }
  }

  /** The merged list: the kept tags in their sorted order, then the running version. */
  ghost predicate IsMergeInput(lib: Library, kept: set<Version>, current: Version, remaining: seq<Version>) {
    && lib.Faithful()
    && Sorted(CompareVersions, remaining)
    && (forall v :: v in remaining <==> v in kept)
    && (forall v :: v in kept ==> lib.parse(v.original) == Some(v))
    && lib.parse(current.original) == Some(current)
  }

  /** v does not occur among the first n. */
  ghost predicate Without(s: seq<Version>, n: int, v: Version)
    requires n <= |s|
  {
    forall k :: 0 <= k < n ==> s[k] != v
  }

  /** The sort has put a tied rival before the running tag. */
  ghost predicate TiedRivalFirst(kept: set<Version>, current: Version, remaining: seq<Version>) {
    exists j :: 0 <= j < |remaining| && TiesWith(kept, current, remaining[j]) && Without(remaining, j, current)
  }

  lemma FirstIndexOf(c: seq<Version>, v: Version) returns (i: nat)
    requires v in c
    ensures i < |c| && c[i] == v && Without(c, i, v)
  {
    i := 0;
    while c[i] != v
      invariant 0 <= i < |c| && Without(c, i, v) && v in c[i..]
      decreases |c| - i
    {
      i := i + 1;
    }
  }

  /** A rival before the running tag that does not beat it ties with it. */
  lemma EarlierRival(
    lib: Library, kept: set<Version>, current: Version, remaining: seq<Version>, j: nat, i: nat)
    requires IsMergeInput(lib, kept, current, remaining) && j < i < |remaining| && remaining[i] == current
    requires Rival(kept, current, remaining[j]) && !Beats(kept, current, remaining[j])
    ensures |current.original| < |remaining[j].original| || TiesWith(kept, current, remaining[j])
  {
    hide Key, CompareVersions;
    assert CompareVersions(remaining[j], remaining[i]) <= 0;
  }

  lemma UnbeatenSurvives(lib: Library, kept: set<Version>, current: Version, remaining: seq<Version>)
    requires IsMergeInput(lib, kept, current, remaining)
    requires !Loses(kept, current) && !TiedRivalFirst(kept, current, remaining)
    ensures IsSurvivor(remaining + [current], current)
  {
    hide Key, CompareVersions, TiesWith;
    var c := remaining + [current];
    var i := FirstIndexOf(c, current);
    assert forall k :: 0 <= k < |remaining| ==> remaining[k] == c[k];
    forall j | 0 <= j < |c| && Key(c[j]) == Key(c[i])
      ensures |c[i].original| < |c[j].original| || (|c[i].original| == |c[j].original| && i <= j)
    {
      if c[j].original == current.original {
        assert c[j] == current;
      } else {
        assert Rival(kept, current, remaining[j]) && !Beats(kept, current, remaining[j]);
        if |current.original| == |c[j].original| && j < i {
          assert current in remaining;
          EarlierRival(lib, kept, current, remaining, j, i);
        }
      }
    }
    assert Survives(c, i);
  }

  lemma LoserIsBeaten(lib: Library, kept: set<Version>, current: Version, remaining: seq<Version>, v: Version, i: nat)
    requires IsMergeInput(lib, kept, current, remaining)
    requires Beats(kept, current, v) && i <= |remaining| && (remaining + [current])[i] == current
    ensures !Survives(remaining + [current], i)
  {
    hide Key;
    var c := remaining + [current];
    var j :| 0 <= j < |remaining| && remaining[j] == v;
    assert c[j] == v;
    if i < |remaining| {
      assert remaining[i] == current && current in kept;
      CompareVersionsIsOrder();
      assert CompareVersions(v, current) == -CompareVersions(current, v);
      assert i < j ==> CompareVersions(remaining[i], remaining[j]) <= 0;
    }
  }

  lemma LoserIsGone(lib: Library, kept: set<Version>, current: Version, remaining: seq<Version>, v: Version)
    requires IsMergeInput(lib, kept, current, remaining) && Beats(kept, current, v)
    ensures !IsSurvivor(remaining + [current], current)
  {
    hide Key, Beats;
    var c := remaining + [current];
    forall i: nat | i < |c| && c[i] == current ensures !Survives(c, i) {
      LoserIsBeaten(lib, kept, current, remaining, v, i);
    }
  }

  lemma SecondOfTieIsGone(kept: set<Version>, current: Version, remaining: seq<Version>)
    requires TiedRivalFirst(kept, current, remaining)
    ensures !IsSurvivor(remaining + [current], current)
  {
    hide Key, CompareVersions;
    var c := remaining + [current];
    var j :| 0 <= j < |remaining| && TiesWith(kept, current, remaining[j]) && Without(remaining, j, current);
    forall i: nat | i < |c| && c[i] == current ensures !Survives(c, i) {
      assert c[j] == remaining[j];
    }
  }

  /** The running tag survives merging iff no rival beats it and the sort has put no tied rival before it. */
  lemma SurvivesIff(lib: Library, kept: set<Version>, current: Version, remaining: seq<Version>)
    requires IsMergeInput(lib, kept, current, remaining)
    ensures IsSurvivor(remaining + [current], current)
            <==> !Loses(kept, current) && !TiedRivalFirst(kept, current, remaining)
  {
    hide Key, Beats, IsSurvivor, IsMergeInput, TiedRivalFirst;
    if v :| Beats(kept, current, v) { LoserIsGone(lib, kept, current, remaining, v); }
    if TiedRivalFirst(kept, current, remaining) { SecondOfTieIsGone(kept, current, remaining); }
    if !Loses(kept, current) && !TiedRivalFirst(kept, current, remaining) {
      UnbeatenSurvives(lib, kept, current, remaining);
    }
  }

  /** Under one order of the kept tags, two of them sharing a key never both survive as running tags. */
  lemma NeverBothSurvive(remaining: seq<Version>, a: Version, b: Version)
    requires a in remaining && b in remaining && a != b && Key(a) == Key(b)
    ensures !(IsSurvivor(remaining + [a], a) && IsSurvivor(remaining + [b], b))
  {
    hide Key;
    var i := FirstIndexOf(remaining, a);
    var j := FirstIndexOf(remaining, b);
    var ca, cb := remaining + [a], remaining + [b];
    assert ca[i] == cb[i] == a && ca[j] == cb[j] == b;
  }

  // ---------- how many newer triples survive? ----------

  /** The different triples above the running one. */
  ghost function NewerTriples(vs: set<Version>, current: Version): set<Triple> {
    set v | v in vs && TripleLess(TripleOf(current), TripleOf(v)) :: TripleOf(v)
  }

  /** Those of them spelled out by a tag of at most three dot-separated parts. */
  ghost function NewerShortTriples(vs: set<Version>, current: Version): set<Triple> {
    set v | v in vs && Short(v) && TripleLess(TripleOf(current), TripleOf(v)) :: TripleOf(v)
  }

  /** v's text is shorter, or as long and v not newer: merging prefers v, or may prefer it on a tie. */
  ghost predicate Precedes(v: Version, w: Version) {
    |v.original| < |w.original| || (|v.original| == |w.original| && CompareVersions(v, w) <= 0)
  }

  /** A kept tag that no kept tag of its key beats, nor the running one. */
  ghost predicate Unbeaten(kept: set<Version>, current: Version, v: Version) {
    && v in kept
    && (Key(current) == Key(v) ==> |v.original| <= |current.original|)
    && forall w :: w in kept && Key(w) == Key(v) ==> Precedes(v, w)
  }

  /** A tag of four or more parts that no other such tag beats, the running one included. */
  ghost predicate LeastLong(kept: set<Version>, current: Version, v: Version) {
    && !Short(v)
    && (!Short(current) ==> |v.original| <= |current.original|)
    && forall w :: w in kept && !Short(w) ==> Precedes(v, w)
  }

  /**
   * The newer triples that count, read off the tags: those of the short tags and, of all longer tags
   * together, that of the shortest text (the oldest among the shortest).
   */
  ghost function CountedTriples(kept: set<Version>, current: Version): set<Triple> {
    set v | v in kept && (Short(v) || LeastLong(kept, current, v)) && TripleLess(TripleOf(current), TripleOf(v))
      :: TripleOf(v)
  }

  ghost function NewerSurvivors(c: seq<Version>, current: Version): set<Triple> {
    set v | v in c && IsSurvivor(c, v) && TripleLess(TripleOf(current), TripleOf(v)) :: TripleOf(v)
  }

  ghost predicate AllSpelledOut(c: seq<Version>) {
    forall v :: v in c ==> SpelledOut(v)
  }

  lemma ShortTripleSurvives(c: seq<Version>, v: Version) returns (u: Version)
    requires v in c && Short(v) && AllSpelledOut(c)
    ensures u in c && IsSurvivor(c, u) && Short(u) && TripleOf(u) == TripleOf(v)
  {
    var j :| 0 <= j < |c| && c[j] == v;
    var i := SurvivorExists(c, j);
    u := c[i];
    KeyMeaning(u, v);
  }

  lemma EarlierSurvivor(
    lib: Library, kept: set<Version>, current: Version, remaining: seq<Version>, i: nat, j: nat)
    requires IsMergeInput(lib, kept, current, remaining) && i < |remaining| && j < |remaining|
    requires Survives(remaining + [current], i) && Key(remaining[i]) == Key(remaining[j])
    ensures Precedes(remaining[i], remaining[j])
  {
    hide Key, CompareVersions;
    var c := remaining + [current];
    assert c[i] == remaining[i] && c[j] == remaining[j];
    CompareVersionsIsOrder();
    if i == j {
      assert CompareVersions(c[i], c[j]) == -CompareVersions(c[j], c[i]);
    }
  }

  /** What survives of the kept tags is unbeaten. */
  lemma SurvivorIsUnbeaten(lib: Library, kept: set<Version>, current: Version, remaining: seq<Version>, v: Version)
    requires IsMergeInput(lib, kept, current, remaining)
    requires v in kept && v != current && IsSurvivor(remaining + [current], v)
    ensures Unbeaten(kept, current, v)
  {
    hide Key, CompareVersions, Precedes;
    var c := remaining + [current];
    var i: nat :| i < |c| && c[i] == v && Survives(c, i);
    assert c[|remaining|] == current;
    forall w | w in kept && Key(w) == Key(v) ensures Precedes(v, w) {
      var j :| 0 <= j < |remaining| && remaining[j] == w;
      EarlierSurvivor(lib, kept, current, remaining, i, j);
    }
  }

  /** For every unbeaten tag, one of its key and of equal precedence survives. */
  lemma UnbeatenHasSurvivor(
    lib: Library, kept: set<Version>, current: Version, remaining: seq<Version>, v: Version) returns (u: Version)
    requires IsMergeInput(lib, kept, current, remaining) && Unbeaten(kept, current, v)
    ensures u in remaining + [current] && IsSurvivor(remaining + [current], u)
    ensures CompareVersions(u, v) <= 0 && CompareVersions(v, u) <= 0
  {
    hide Key, CompareVersions;
    var c := remaining + [current];
    var j :| 0 <= j < |remaining| && remaining[j] == v;
    assert c[j] == v;
    var i := SurvivorExists(c, j);
    u := c[i];
    assert i <= j;
    EarlierSurvivor(lib, kept, current, remaining, i, j);
  }

  /** In the merged list, the long tags are those of one key. */
  lemma LongIsOneKey(lib: Library, kept: set<Version>, current: Version, remaining: seq<Version>, v: Version)
    requires IsMergeInput(lib, kept, current, remaining) && v in kept && !Short(v)
    ensures LeastLong(kept, current, v) <==> Unbeaten(kept, current, v)
  {
    hide Key, CompareVersions, Precedes;
    assert SpelledOut(current) && SpelledOut(v);
    KeyMeaning(current, v);
    forall w | w in kept ensures Key(w) == Key(v) <==> !Short(w) {
      assert SpelledOut(w);
      KeyMeaning(w, v);
    }
  }

  lemma EqualTriples(u: Version, v: Version)
    requires CompareVersions(u, v) <= 0 && CompareVersions(v, u) <= 0
    ensures TripleOf(u) == TripleOf(v)
  {
    hide CompareVersions;
    OrderRefinesTriples(u, v);
    OrderRefinesTriples(v, u);
  }

  /** The newer triples that survive merging are those that count, whatever the sort did with ties. */
  lemma SurvivorsAreCounted(lib: Library, kept: set<Version>, current: Version, remaining: seq<Version>)
    requires IsMergeInput(lib, kept, current, remaining)
    ensures NewerSurvivors(remaining + [current], current) == CountedTriples(kept, current)
  {
    hide Key, CompareVersions, IsSurvivor, LeastLong, Unbeaten;
    var c := remaining + [current];
    var counted, surviving := CountedTriples(kept, current), NewerSurvivors(c, current);
    assert AllSpelledOut(c);
    forall v | v in c && IsSurvivor(c, v) && TripleLess(TripleOf(current), TripleOf(v)) ensures TripleOf(v) in counted {
      assert v in kept;
      if !Short(v) {
        SurvivorIsUnbeaten(lib, kept, current, remaining, v);
        LongIsOneKey(lib, kept, current, remaining, v);
      }
    }
    forall v | v in kept && (Short(v) || LeastLong(kept, current, v)) && TripleLess(TripleOf(current), TripleOf(v))
      ensures TripleOf(v) in surviving
    {
      assert v in c;
      if Short(v) {
        var u := ShortTripleSurvives(c, v);
      } else {
        LongIsOneKey(lib, kept, current, remaining, v);
        var u := UnbeatenHasSurvivor(lib, kept, current, remaining, v);
        EqualTriples(u, v);
      }
    }
  }

  lemma AtMostOneElement<T>(s: set<T>)
    requires forall x, y :: x in s && y in s ==> x == y
    ensures |s| <= 1
  {
    if s != {} {
      var x :| x in s;
      assert s == {x};
    }
  }

  lemma {:induction false} SubsetSize<T>(s: set<T>, t: set<T>)
    requires s <= t
    ensures |s| <= |t|
  {
    if s != {} {
      var x :| x in s;
      SubsetSize(s - {x}, t - {x});
    }
  }

  /** All that counts is newer, all newer triples of short tags count, and at most one beside them. */
  lemma CountedBounds(kept: set<Version>, current: Version)
    ensures NewerShortTriples(kept, current) <= CountedTriples(kept, current) <= NewerTriples(kept, current)
    ensures |CountedTriples(kept, current)| <= |NewerShortTriples(kept, current)| + 1
    ensures (forall v :: v in kept ==> Short(v)) ==> CountedTriples(kept, current) == NewerTriples(kept, current)
  {
    hide CompareVersions, Short;
    var short, counted := NewerShortTriples(kept, current), CountedTriples(kept, current);
    forall s, t | s in counted - short && t in counted - short ensures s == t {
      var v :| v in kept && LeastLong(kept, current, v) && TripleOf(v) == s;
      var w :| w in kept && LeastLong(kept, current, w) && TripleOf(w) == t;
      EqualTriples(v, w);
    }
    AtMostOneElement(counted - short);
    assert counted == short + (counted - short);
  }

  /** How the number that counts relates to the newer triples listed. */
  ghost predicate CountsNewer(kept: set<Version>, current: Version, behind: int) {
    && |NewerShortTriples(kept, current)| <= behind <= |NewerShortTriples(kept, current)| + 1
    && behind <= |NewerTriples(kept, current)|
    && ((forall v :: v in kept ==> Short(v)) ==> behind == |NewerTriples(kept, current)|)
  }

  lemma CountedCountsNewer(kept: set<Version>, current: Version)
    ensures CountsNewer(kept, current, |CountedTriples(kept, current)|)
  {
    hide NewerShortTriples, CountedTriples, NewerTriples, Short;
    CountedBounds(kept, current);
    SubsetSize(NewerShortTriples(kept, current), CountedTriples(kept, current));
    SubsetSize(CountedTriples(kept, current), NewerTriples(kept, current));
  }

  // ---------- the length of the pruned list ----------

  /** In the merged list a text determines its version. */
  lemma TextDecidesSurvival(lib: Library, kept: set<Version>, current: Version, remaining: seq<Version>)
    requires IsMergeInput(lib, kept, current, remaining)
    ensures SurvivorHasText(remaining + [current], current.original) <==> IsSurvivor(remaining + [current], current)
  {
    hide Key;
    var c := remaining + [current];
    assert current in c;
    assert forall v :: v in c && v.original == current.original ==> v == current;
  }

  lemma SurvivorsHaveOneLong(r: seq<Version>)
    requires DistinctKeys(r) && AllSpelledOut(r)
    ensures AtMostOneLong(r)
  {
    forall i, j | 0 <= i < j < |r| ensures |r[i].segments| == 3 || |r[j].segments| == 3 {
      KeyMeaning(r[i], r[j]);
    }
  }

  lemma BehindListTriples(c: seq<Version>, current: Version, r: seq<Version>)
    requires IsBehindList(c, current, r) && SurvivorHasText(c, current.original) && r[0] == current
    ensures Triples(r) == {TripleOf(current)} + NewerSurvivors(c, current)
  {
    hide Key;
    forall v | v in r ensures TripleOf(v) in {TripleOf(current)} + NewerSurvivors(c, current) {
      var i :| 0 <= i < |r| && r[i] == v;
      OrderRefinesTriples(r[0], r[i]);
    }
    forall v | v in c && IsSurvivor(c, v) && TripleLess(TripleOf(current), TripleOf(v)) ensures v in r {
      OrderRefinesTriples(current, v);
    }
    assert current in r;
  }

  /** If the running tag survives merging, the report counts the different newer triples among the survivors. */
  lemma CountOfSurvivor(c: seq<Version>, current: Version, r: seq<Version>)
    requires AllSpelledOut(c)
    requires IsBehindList(c, current, r) && SurvivorHasText(c, current.original) && r[0] == current
    ensures |Pruned(r)| - 1 == |NewerSurvivors(c, current)|
  {
    hide Key;
    SurvivorsHaveOneLong(r);
    PrunedCount(r, |r|);
    BehindListTriples(c, current, r);
    assert TripleOf(current) !in NewerSurvivors(c, current);
    assert |{TripleOf(current)} + NewerSurvivors(c, current)| == 1 + |NewerSurvivors(c, current)|;
  }

  lemma BehindListStart(
    lib: Library, kept: set<Version>, current: Version, remaining: seq<Version>, list: seq<Version>)
    requires IsMergeInput(lib, kept, current, remaining) && IsBehindList(remaining + [current], current, list)
    ensures list != [] && list[0] == current
    ensures |Pruned(list)| > 1 ==> IsSurvivor(remaining + [current], current)
  {
    hide Key, CompareVersions, IsSurvivor;
    var c := remaining + [current];
    PrunedSingle(current);
    TextDecidesSurvival(lib, kept, current, remaining);
    if SurvivorHasText(c, current.original) {
      assert list[0] in list;
      assert list[0] in c;
    }
  }

  lemma MergedIsSpelledOut(lib: Library, kept: set<Version>, current: Version, remaining: seq<Version>)
    requires IsMergeInput(lib, kept, current, remaining)
    ensures AllSpelledOut(remaining + [current])
  {
    hide CompareVersions, Sorted, SpelledOut;
    forall v | v in remaining + [current] ensures SpelledOut(v) {
      assert lib.parse(v.original) == Some(v);
    }
  }

  lemma BehindListOfLoser(c: seq<Version>, current: Version, list: seq<Version>)
    requires IsBehindList(c, current, list) && !SurvivorHasText(c, current.original)
    ensures |Pruned(list)| == 1
  {
    hide SurvivorHasText, Key, CompareVersions;
    PrunedSingle(current);
  }

  /** The count is exactly that of the triples that count if the running version survives, and 0 otherwise. */
  lemma MergedCount(lib: Library, kept: set<Version>, current: Version, remaining: seq<Version>, list: seq<Version>)
    requires IsMergeInput(lib, kept, current, remaining) && IsBehindList(remaining + [current], current, list)
    ensures |Pruned(list)| - 1
            == if IsSurvivor(remaining + [current], current) then |CountedTriples(kept, current)| else 0
  {
    hide Key, CountedTriples, NewerSurvivors, IsMergeInput, IsBehindList, IsSurvivor, SurvivorHasText, AllSpelledOut;
    hide Pruned;
    var c := remaining + [current];
    TextDecidesSurvival(lib, kept, current, remaining);
    if IsSurvivor(c, current) {
      BehindListStart(lib, kept, current, remaining, list);
      MergedIsSpelledOut(lib, kept, current, remaining);
      CountOfSurvivor(c, current, list);
      SurvivorsAreCounted(lib, kept, current, remaining);
    } else {
      BehindListOfLoser(c, current, list);
    }
  }
}
