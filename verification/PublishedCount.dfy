/** The published number: what the whole chain from an image's tags to "versions behind" computes. */
module PublishedCount {
  import opened Behind
  import opened Options
  import opened Orders
  import opened OutlierSplit
  import opened UniqueTags
  import opened VersionCount
  import opened Versions

  datatype Report = Report(behind: int, latest: string)

  /** One possible outcome of the chain for a tag list: sorting may break ties either way. */
  ghost predicate IsOutcome(lib: Library, tags: seq<string>, current: Version, list: seq<Version>) {
    exists sorted, outliers, remaining ::
      IsSplit(Parsed(lib, tags), sorted, outliers, remaining) && IsBehindList(remaining + [current], current, list)
  }

  lemma SplitIsMergeInput(
    lib: Library, tags: seq<string>, current: Version, sorted: seq<Version>, outliers: seq<Version>,
    remaining: seq<Version>)
    requires lib.Faithful() && lib.parse(current.original) == Some(current)
    requires IsSplit(Parsed(lib, tags), sorted, outliers, remaining)
    ensures IsMergeInput(lib, KeptTags(lib, tags), current, remaining)
  {
    hide Kept, Majors;
    SplitMembers(Parsed(lib, tags), sorted, outliers, remaining);
    assert forall i :: 0 <= i < |remaining| ==> remaining[i] == sorted[i];
    forall v | v in KeptTags(lib, tags) ensures lib.parse(v.original) == Some(v) {
      ParsedMembers(lib, tags, v);
    }
  }

  lemma OutcomeIsMerge(
    lib: Library, tags: seq<string>, current: Version, list: seq<Version>)
    returns (remaining: seq<Version>)
    requires lib.Faithful() && lib.parse(current.original) == Some(current) && IsOutcome(lib, tags, current, list)
    ensures IsMergeInput(lib, KeptTags(lib, tags), current, remaining)
    ensures IsBehindList(remaining + [current], current, list)
  {
    hide Key;
    var sorted, outliers, r :|
      IsSplit(Parsed(lib, tags), sorted, outliers, r) && IsBehindList(r + [current], current, list);
    remaining := r;
    SplitIsMergeInput(lib, tags, current, sorted, outliers, remaining);
  }

  lemma ListedIsSpelledOut(lib: Library, kept: set<Version>, current: Version, remaining: seq<Version>, v: Version)
    requires IsMergeInput(lib, kept, current, remaining) && v in remaining + [current]
    ensures SpelledOut(v)
  {
    assert v in kept || v == current;
  }

  lemma BehindListShape(
    lib: Library, kept: set<Version>, current: Version, remaining: seq<Version>, list: seq<Version>)
    requires IsMergeInput(lib, kept, current, remaining) && IsBehindList(remaining + [current], current, list)
    ensures list != [] && Sorted(CompareVersions, list) && AtMostOneLong(list)
  {
    hide Key, CompareVersions, IsMergeInput, SpelledOut, IsSurvivor;
    forall v | v in list ensures SpelledOut(v) {
      assert v in remaining + [current];
      ListedIsSpelledOut(lib, kept, current, remaining, v);
    }
    SurvivorsHaveOneLong(list);
  }

  lemma OutcomeIntro(
    lib: Library, tags: seq<string>, current: Version,
    sorted: seq<Version>, outliers: seq<Version>, remaining: seq<Version>, list: seq<Version>)
    requires IsSplit(Parsed(lib, tags), sorted, outliers, remaining)
    requires IsBehindList(remaining + [current], current, list)
    ensures IsOutcome(lib, tags, current, list) && |Pruned(list)| >= 1
  {
    hide Key;
    PrunedNonempty(list, |list|);
  }

  lemma FirstRivalIsTied(kept: set<Version>, current: Version, remaining: seq<Version>)
    ensures TiedRivalFirst(kept, current, remaining) ==> Ties(kept, current)
  {
    hide Key, TiesWith;
  }

  /**
   * The published number, for every tag list, running tag and sort order: 0 if the running tag loses to a
   * rival, whatever else is listed; the number of triples that count if it wins; and on a tie one of the two.
   * What counts is exactly the newer triples, if all kept tags have at most three dot-separated parts; in
   * general all longer tags together add at most one to the newer triples the shorter ones spell out.
   */
  lemma ReportMeaning(lib: Library, tags: seq<string>, current: Version, list: seq<Version>)
    requires lib.Faithful() && lib.parse(current.original) == Some(current) && IsOutcome(lib, tags, current, list)
    ensures var kept, behind := KeptTags(lib, tags), |Pruned(list)| - 1;
      && (Loses(kept, current) ==> behind == 0)
      && (Wins(kept, current) ==> behind == |CountedTriples(kept, current)|)
      && (behind == 0 || behind == |CountedTriples(kept, current)|)
      && CountsNewer(kept, current, |CountedTriples(kept, current)|)
  {
    hide Key, Wins, Loses, Ties, TiesWith, IsOutcome, KeptTags, IsSurvivor, CountedTriples, CountsNewer;
    var kept := KeptTags(lib, tags);
    var remaining := OutcomeIsMerge(lib, tags, current, list);
    SurvivesIff(lib, kept, current, remaining);
    MergedCount(lib, kept, current, remaining, list);
    CountedCountsNewer(kept, current);
    WinsLosesOrTies(kept, current);
    FirstRivalIsTied(kept, current, remaining);
  }

  // ---------- the latest version ----------

  /** The last version of the pruned list. */
  ghost function Latest(list: seq<Version>): Version
    requires Pruned(list) != []
  {
    Pruned(list)[|Pruned(list)| - 1]
  }

  /**
   * What is reported as latest, read off the tags: the running version if nothing newer is counted;
   * otherwise, of the unbeaten tags with the greatest triple that counts, the oldest.
   */
  ghost predicate IsLatest(kept: set<Version>, current: Version, behind: int, latest: Version) {
    if behind == 0 then latest == current
    else
      && TripleOf(latest) in CountedTriples(kept, current)
      && (forall t :: t in CountedTriples(kept, current) ==> !TripleLess(TripleOf(latest), t))
      && Unbeaten(kept, current, latest)
      && (forall v :: Unbeaten(kept, current, v) && TripleOf(v) == TripleOf(latest) ==> CompareVersions(latest, v) <= 0)
  }

  /** What is newer and survives is on the list, and what is on the list and newer is an unbeaten kept tag. */
  lemma NewerOnList(
    lib: Library, kept: set<Version>, current: Version, remaining: seq<Version>, list: seq<Version>, v: Version)
    requires IsMergeInput(lib, kept, current, remaining) && IsBehindList(remaining + [current], current, list)
    requires IsSurvivor(remaining + [current], current) && TripleLess(TripleOf(current), TripleOf(v))
    ensures v in list <==> v in remaining + [current] && IsSurvivor(remaining + [current], v)
    ensures v in list ==> Unbeaten(kept, current, v) && TripleOf(v) in CountedTriples(kept, current)
  {
    hide Key, CompareVersions, IsSurvivor, Unbeaten, CountedTriples;
    TextDecidesSurvival(lib, kept, current, remaining);
    BehindListStart(lib, kept, current, remaining, list);
    OrderRefinesTriples(current, v);
    if v in list {
      SurvivorIsUnbeaten(lib, kept, current, remaining, v);
      SurvivorsAreCounted(lib, kept, current, remaining);
      assert TripleOf(v) in NewerSurvivors(remaining + [current], current);
    }
  }

  lemma LatestAboveCounted(
    lib: Library, kept: set<Version>, current: Version, remaining: seq<Version>, list: seq<Version>, latest: Version,
    t: Triple)
    requires IsMergeInput(lib, kept, current, remaining) && IsBehindList(remaining + [current], current, list)
    requires IsSurvivor(remaining + [current], current) && OldestOfGreatest(list, latest)
    requires t in CountedTriples(kept, current)
    ensures !TripleLess(TripleOf(latest), t)
  {
    hide Key, CompareVersions, IsSurvivor, CountedTriples, IsMergeInput, IsBehindList;
    var c := remaining + [current];
    SurvivorsAreCounted(lib, kept, current, remaining);
    var v :| v in c && IsSurvivor(c, v) && TripleLess(TripleOf(current), TripleOf(v)) && TripleOf(v) == t;
    NewerOnList(lib, kept, current, remaining, list, v);
  }

  lemma LatestBelowUnbeaten(
    lib: Library, kept: set<Version>, current: Version, remaining: seq<Version>, list: seq<Version>, latest: Version,
    v: Version)
    requires IsMergeInput(lib, kept, current, remaining) && IsBehindList(remaining + [current], current, list)
    requires IsSurvivor(remaining + [current], current) && OldestOfGreatest(list, latest)
    requires TripleLess(TripleOf(current), TripleOf(latest))
    requires Unbeaten(kept, current, v) && TripleOf(v) == TripleOf(latest)
    ensures CompareVersions(latest, v) <= 0
  {
    hide Key, CompareVersions, IsSurvivor, IsMergeInput, IsBehindList, Unbeaten;
    var u := UnbeatenHasSurvivor(lib, kept, current, remaining, v);
    EqualTriples(u, v);
    NewerOnList(lib, kept, current, remaining, list, u);
    CompareVersionsIsOrder();
    assert CompareVersions(latest, u) <= 0 && CompareVersions(u, v) <= 0;
  }

  /** The latest version reported, for every tag list, running tag and sort order. */
  lemma LatestMeaning(lib: Library, tags: seq<string>, current: Version, list: seq<Version>)
    requires lib.Faithful() && lib.parse(current.original) == Some(current)
    requires IsOutcome(lib, tags, current, list)
    ensures Pruned(list) != [] && OldestOfGreatest(list, Latest(list))
    ensures IsLatest(KeptTags(lib, tags), current, |Pruned(list)| - 1, Latest(list))
  {
    hide Key, CompareVersions, IsOutcome, KeptTags, IsMergeInput, IsBehindList, Sorted, AtMostOneLong, IsSurvivor;
    hide Unbeaten, OldestOfGreatest, CountedTriples;
    var kept := KeptTags(lib, tags);
    var remaining := OutcomeIsMerge(lib, tags, current, list);
    BehindListShape(lib, kept, current, remaining, list);
    BehindListStart(lib, kept, current, remaining, list);
    PrunedAscends(list, |list|);
    PrunedEndsWithOldest(list);
    if |Pruned(list)| > 1 {
      var latest := Latest(list);
      assert TripleLess(TripleOf(current), TripleOf(latest));
      assert latest in list by { OldestIsListed(list, latest); }
      NewerOnList(lib, kept, current, remaining, list, latest);
      forall t | t in CountedTriples(kept, current) ensures !TripleLess(TripleOf(latest), t) {
        LatestAboveCounted(lib, kept, current, remaining, list, latest, t);
      }
      forall v | Unbeaten(kept, current, v) && TripleOf(v) == TripleOf(latest)
        ensures CompareVersions(latest, v) <= 0
      {
        LatestBelowUnbeaten(lib, kept, current, remaining, list, latest, v);
      }
    }
  }

  lemma OldestIsListed(list: seq<Version>, v: Version)
    requires OldestOfGreatest(list, v)
    ensures v in list
  {
  }

  /** Two outcomes that report a newer version report versions of equal precedence. */
  lemma LatestAgrees(lib: Library, tags: seq<string>, current: Version, l: seq<Version>, m: seq<Version>)
    requires lib.Faithful() && lib.parse(current.original) == Some(current)
    requires IsOutcome(lib, tags, current, l) && IsOutcome(lib, tags, current, m)
    requires |Pruned(l)| > 1 && |Pruned(m)| > 1
    ensures CompareVersions(Latest(l), Latest(m)) == 0
  {
    hide Key, CompareVersions, IsOutcome, KeptTags, Unbeaten, CountedTriples, Pruned;
    LatestMeaning(lib, tags, current, l);
    LatestMeaning(lib, tags, current, m);
    CompareVersionsIsOrder();
    assert CompareVersions(Latest(l), Latest(m)) == -CompareVersions(Latest(m), Latest(l));
  }

  /** The counting part of ParseImage; None where it falls back to comparing dates. */
  method CountBehind(lib: Library, tags: seq<string>, tag: string) returns (r: Option<Report>, ghost list: seq<Version>)
    requires lib.Faithful()
    ensures r.None? <==> lib.parse(tag).None?
    ensures r.Some? ==>
      && IsOutcome(lib, tags, lib.parse(tag).value, list)
      && |Pruned(list)| >= 1 && r.value.behind == |Pruned(list)| - 1
    ensures r.Some? ==>
      var current, kept := lib.parse(tag).value, KeptTags(lib, tags);
      && (Loses(kept, current) ==> r.value.behind == 0)
      && (Wins(kept, current) ==> r.value.behind == |CountedTriples(kept, current)|)
      && (r.value.behind == 0 || r.value.behind == |CountedTriples(kept, current)|)
      && CountsNewer(kept, current, |CountedTriples(kept, current)|)
    ensures r.Some? ==>
      var current, kept := lib.parse(tag).value, KeptTags(lib, tags);
      && IsLatest(kept, current, r.value.behind, Latest(list)) && r.value.latest == lib.render(Latest(list))
  {
    hide Wins, Loses, CountsNewer, CountedTriples, IsLatest, IsOutcome, IsSplit, IsBehindList, KeptTags, Rendered;
    list := [];
    ghost var sorted, outliers;
    var semverTags, nonSemverTags;
    semverTags, nonSemverTags, sorted, outliers := ParseTags(lib, tags);
    var parsed := lib.parse(tag);
    if parsed.None? { return None, []; }
    var detectedSemver := parsed.value;
    var collection := semverTags + [detectedSemver];
    var versionsBehind := VersionsBehind(collection, detectedSemver);
    var trueVersionsBehind := RemoveLeastSpecific(versionsBehind);
    list := versionsBehind;
    OutcomeIntro(lib, tags, detectedSemver, sorted, outliers, semverTags, list);
    ReportMeaning(lib, tags, detectedSemver, list);
    LatestMeaning(lib, tags, detectedSemver, list);
    var behind := |trueVersionsBehind| - 1;
    r := Some(Report(behind, lib.render(trueVersionsBehind[|trueVersionsBehind| - 1])));
  }

  // ---------- ties ----------

  /** There is an outcome in which the sort puts f before its equals. */
  lemma OutcomeFavoring(lib: Library, tags: seq<string>, current: Version, f: Version)
    returns (remaining: seq<Version>, list: seq<Version>)
    requires lib.Faithful() && lib.parse(current.original) == Some(current)
    ensures IsOutcome(lib, tags, current, list)
    ensures IsMergeInput(lib, KeptTags(lib, tags), current, remaining)
    ensures IsBehindList(remaining + [current], current, list)
    ensures FirstOfEquals(CompareVersions, f, remaining)
  {
    hide Key, CompareVersions, IsSplit, IsBehindList, KeptTags, IsOutcome, IsMergeInput;
    CompareVersionsIsOrder();
    var sorted := SortedFavoring(CompareVersions, f, Parsed(lib, tags));
    var outliers;
    outliers, remaining := SplitExists(Parsed(lib, tags), sorted);
    list := BehindListExists(remaining + [current], current);
    OutcomeIntro(lib, tags, current, sorted, outliers, remaining, list);
    SplitIsMergeInput(lib, tags, current, sorted, outliers, remaining);
    SplitKeepsFirst(Parsed(lib, tags), sorted, outliers, remaining, f);
  }

  lemma SplitKeepsFirst(
    input: seq<Version>, sorted: seq<Version>, outliers: seq<Version>, remaining: seq<Version>, f: Version)
    requires IsSplit(input, sorted, outliers, remaining) && FirstOfEquals(CompareVersions, f, sorted)
    ensures FirstOfEquals(CompareVersions, f, remaining)
  {
    hide CompareVersions, Kept, Majors;
    assert forall i :: 0 <= i < |remaining| ==> remaining[i] == sorted[i];
  }

  lemma FavoredRivalIsFirst(kept: set<Version>, current: Version, remaining: seq<Version>, v: Version)
    requires v in remaining && FirstOfEquals(CompareVersions, v, remaining) && TiesWith(kept, current, v)
    ensures TiedRivalFirst(kept, current, remaining)
  {
    hide Key, CompareVersions;
    CompareVersionsIsOrder();
    assert CompareVersions(v, current) == -CompareVersions(current, v);
    var j := FirstIndexOf(remaining, v);
    assert Without(remaining, j, current);
  }

  lemma FavoredIsFirst(kept: set<Version>, current: Version, remaining: seq<Version>)
    requires FirstOfEquals(CompareVersions, current, remaining) && forall v :: v in remaining <==> v in kept
    ensures !TiedRivalFirst(kept, current, remaining)
  {
    hide Key, CompareVersions;
    assert current in kept ==> current in remaining;
  }

  lemma TieAllowsZero(lib: Library, tags: seq<string>, current: Version)
    requires lib.Faithful() && lib.parse(current.original) == Some(current)
    requires Ties(KeptTags(lib, tags), current)
    ensures exists list :: IsOutcome(lib, tags, current, list) && |Pruned(list)| - 1 == 0
  {
    hide Key, Loses, IsOutcome, KeptTags, CompareVersions, IsBehindList, IsSurvivor, TiedRivalFirst, CountedTriples;
    var kept := KeptTags(lib, tags);
    var v :| TiesWith(kept, current, v);
    var remaining, list := OutcomeFavoring(lib, tags, current, v);
    FavoredRivalIsFirst(kept, current, remaining, v);
    SurvivesIff(lib, kept, current, remaining);
    MergedCount(lib, kept, current, remaining, list);
  }

  lemma UnbeatenAllowsCount(lib: Library, tags: seq<string>, current: Version)
    requires lib.Faithful() && lib.parse(current.original) == Some(current)
    requires !Loses(KeptTags(lib, tags), current)
    ensures exists list ::
      IsOutcome(lib, tags, current, list) && |Pruned(list)| - 1 == |CountedTriples(KeptTags(lib, tags), current)|
  {
    hide Key, Loses, IsOutcome, KeptTags, CompareVersions, IsBehindList, IsSurvivor, TiedRivalFirst, CountedTriples;
    var kept := KeptTags(lib, tags);
    var remaining, list := OutcomeFavoring(lib, tags, current, current);
    FavoredIsFirst(kept, current, remaining);
    SurvivesIff(lib, kept, current, remaining);
    MergedCount(lib, kept, current, remaining, list);
  }

  /**
   * Exactly these reports are possible under the sort's contract: the number of triples that count unless
   * the running tag loses, and 0 if it loses or ties.
   */
  lemma PossibleReports(lib: Library, tags: seq<string>, current: Version, n: int)
    requires lib.Faithful() && lib.parse(current.original) == Some(current)
    ensures var kept := KeptTags(lib, tags);
      (exists list :: IsOutcome(lib, tags, current, list) && |Pruned(list)| - 1 == n)
      <==> (!Loses(kept, current) && n == |CountedTriples(kept, current)|)
           || ((Loses(kept, current) || Ties(kept, current)) && n == 0)
  {
    hide Key, Wins, Loses, Ties, TiesWith, IsOutcome, KeptTags, CountedTriples, CountsNewer, CompareVersions;
    var kept := KeptTags(lib, tags);
    WinsLosesOrTies(kept, current);
    if list :| IsOutcome(lib, tags, current, list) && |Pruned(list)| - 1 == n {
      ReportMeaning(lib, tags, current, list);
    }
    if Loses(kept, current) {
      var _, list := OutcomeFavoring(lib, tags, current, current);
      ReportMeaning(lib, tags, current, list);
      assert IsOutcome(lib, tags, current, list) && |Pruned(list)| - 1 == 0;
    } else {
      UnbeatenAllowsCount(lib, tags, current);
    }
    if Ties(kept, current) { TieAllowsZero(lib, tags, current); }
  }

  /** The tags alone determine the report. */
  ghost predicate OutcomesAgree(lib: Library, tags: seq<string>, current: Version) {
    forall l, m :: IsOutcome(lib, tags, current, l) && IsOutcome(lib, tags, current, m) ==> |Pruned(l)| == |Pruned(m)|
  }

  /** They do iff the running tag loses, or does not tie, or nothing newer counts. */
  lemma OutcomesAgreeIff(lib: Library, tags: seq<string>, current: Version)
    requires lib.Faithful() && lib.parse(current.original) == Some(current)
    ensures var kept := KeptTags(lib, tags);
      OutcomesAgree(lib, tags, current)
      <==> Loses(kept, current) || !Ties(kept, current) || CountedTriples(kept, current) == {}
  {
    hide Key, Wins, Loses, Ties, TiesWith, IsOutcome, KeptTags, CountedTriples, CountsNewer, CompareVersions;
    var kept := KeptTags(lib, tags);
    WinsLosesOrTies(kept, current);
    forall l | IsOutcome(lib, tags, current, l)
      ensures Loses(kept, current) ==> |Pruned(l)| - 1 == 0
      ensures Wins(kept, current) ==> |Pruned(l)| - 1 == |CountedTriples(kept, current)|
      ensures |Pruned(l)| - 1 == 0 || |Pruned(l)| - 1 == |CountedTriples(kept, current)|
    {
      ReportMeaning(lib, tags, current, l);
    }
    if !Loses(kept, current) && Ties(kept, current) {
      TieAllowsZero(lib, tags, current);
      UnbeatenAllowsCount(lib, tags, current);
    }
  }

  /** True of every sort: of two kept tags sharing a key, one is reported as 0 behind when it runs. */
  lemma OneOfTwoIsZero(
    lib: Library, tags: seq<string>, sorted: seq<Version>, outliers: seq<Version>, remaining: seq<Version>,
    a: Version, la: seq<Version>, b: Version, lb: seq<Version>)
    requires lib.Faithful() && IsSplit(Parsed(lib, tags), sorted, outliers, remaining)
    requires a in KeptTags(lib, tags) && b in KeptTags(lib, tags) && a != b && Key(a) == Key(b)
    requires IsBehindList(remaining + [a], a, la) && IsBehindList(remaining + [b], b, lb)
    ensures |Pruned(la)| - 1 == 0 || |Pruned(lb)| - 1 == 0
  {
    hide Key, CompareVersions, IsSplit, IsBehindList, IsSurvivor, CountedTriples, KeptTags;
    var kept := KeptTags(lib, tags);
    KeptIsParsed(lib, tags, a);
    KeptIsParsed(lib, tags, b);
    SplitIsMergeInput(lib, tags, a, sorted, outliers, remaining);
    SplitIsMergeInput(lib, tags, b, sorted, outliers, remaining);
    NeverBothSurvive(remaining, a, b);
    MergedCount(lib, kept, a, remaining, la);
    MergedCount(lib, kept, b, remaining, lb);
  }

  lemma KeptIsParsed(lib: Library, tags: seq<string>, v: Version)
    requires lib.Faithful() && v in KeptTags(lib, tags)
    ensures lib.parse(v.original) == Some(v)
  {
    ParsedMembers(lib, tags, v);
  }
}
