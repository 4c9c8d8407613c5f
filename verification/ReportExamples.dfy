/** Two tag listings on which the published report surprises: a tie, and a pre-release reported as latest. */
module ReportExamples {
  import opened Behind
  import opened Options
  import opened OutlierSplit
  import opened PublishedCount
  import opened Text
  import opened VersionCount
  import opened Versions

  // ---------- a listing with a tie ----------

  const SHORT_FORM: Version := Version([22, 4, 0], [], "v22.4")
  const LONG_FORM: Version := Version([22, 4, 0], [], "22.04")
  const NEXT_RELEASE: Version := Version([22, 10, 0], [], "22.10")
  const TIED_TAGS: seq<string> := [SHORT_FORM.original, LONG_FORM.original, NEXT_RELEASE.original]

  function ParseExample(t: string): Option<Version> {
    if t == SHORT_FORM.original then Some(SHORT_FORM)
    else if t == LONG_FORM.original then Some(LONG_FORM)
    else if t == NEXT_RELEASE.original then Some(NEXT_RELEASE)
    else None
  }

  const EXAMPLE: Library := Library(ParseExample, (v: Version) => v.original)

  lemma TwoParts(head: string, tail: string)
    requires '.' !in head && '.' !in tail
    ensures |Split(head + "." + tail, '.')| == 2
  {
    SplitAtSeparator(head, tail, '.');
    SplitWithoutSeparator(tail, '.');
  }

  lemma ExampleParts()
    ensures SHORT_FORM.Parts() == LONG_FORM.Parts() == NEXT_RELEASE.Parts() == 2
  {
    assert SHORT_FORM.original == "v22" + "." + "4";
    TwoParts("v22", "4");
    assert LONG_FORM.original == "22" + "." + "04";
    TwoParts("22", "04");
    assert NEXT_RELEASE.original == "22" + "." + "10";
    TwoParts("22", "10");
  }

  lemma ExampleIsFaithful()
    ensures EXAMPLE.Faithful()
    ensures EXAMPLE.parse(SHORT_FORM.original) == Some(SHORT_FORM)
    ensures EXAMPLE.parse(LONG_FORM.original) == Some(LONG_FORM)
    ensures EXAMPLE.parse(NEXT_RELEASE.original) == Some(NEXT_RELEASE)
  {
    hide Split;
    ExampleParts();
    assert SHORT_FORM.original[0] != LONG_FORM.original[0] && SHORT_FORM.original[0] != NEXT_RELEASE.original[0];
    assert LONG_FORM.original[3] != NEXT_RELEASE.original[3];
  }

  lemma ExampleParsed()
    ensures Parsed(EXAMPLE, TIED_TAGS) == [SHORT_FORM, LONG_FORM, NEXT_RELEASE]
  {
    hide Split, ParseExample;
    ExampleIsFaithful();
    assert TIED_TAGS[..2] == [SHORT_FORM.original, LONG_FORM.original];
    assert TIED_TAGS[..2][..1] == [SHORT_FORM.original];
    assert Parsed(EXAMPLE, [SHORT_FORM.original]) == [SHORT_FORM];
    assert Parsed(EXAMPLE, TIED_TAGS[..2]) == [SHORT_FORM, LONG_FORM];
  }

  lemma ExampleKept()
    ensures KeptTags(EXAMPLE, TIED_TAGS) == {SHORT_FORM, LONG_FORM, NEXT_RELEASE}
  {
    hide Parsed, Split;
    var all := [SHORT_FORM, LONG_FORM, NEXT_RELEASE];
    ExampleParsed();
    assert ToSet(MajorList(all)) <= {22};
    assert forall v :: v in all ==> Kept(Majors(all), Major(v));
  }

  lemma ExampleKeys()
    ensures Key(SHORT_FORM) == Key(LONG_FORM) != Key(NEXT_RELEASE)
    ensures CompareVersions(SHORT_FORM, LONG_FORM) == 0
  {
    hide Split;
    ExampleParts();
    KeyMeaning(SHORT_FORM, LONG_FORM);
    KeyMeaning(LONG_FORM, NEXT_RELEASE);
    CompareSegmentsReverses([22, 4, 0], [22, 4, 0]);
  }

  lemma ExampleCounted()
    ensures CountedTriples({SHORT_FORM, LONG_FORM, NEXT_RELEASE}, LONG_FORM) == {(22, 10, 0)}
  {
    hide Split, LeastLong;
    ExampleParts();
    var kept := {SHORT_FORM, LONG_FORM, NEXT_RELEASE};
    assert NEXT_RELEASE in kept && Short(NEXT_RELEASE) && TripleLess(TripleOf(LONG_FORM), TripleOf(NEXT_RELEASE));
    assert TripleOf(NEXT_RELEASE) == (22, 10, 0);
  }

  /**
   * Two spellings of one release and a newer release: the running 22.04 can be reported as 0 or as 1
   * version behind, so here the tags do not determine the report.
   */
  lemma TieExample()
    ensures EXAMPLE.Faithful() && EXAMPLE.parse(LONG_FORM.original) == Some(LONG_FORM)
    ensures exists list :: IsOutcome(EXAMPLE, TIED_TAGS, LONG_FORM, list) && |Pruned(list)| - 1 == 0
    ensures exists list :: IsOutcome(EXAMPLE, TIED_TAGS, LONG_FORM, list) && |Pruned(list)| - 1 == 1
    ensures !OutcomesAgree(EXAMPLE, TIED_TAGS, LONG_FORM)
  {
    hide Key, CompareVersions, KeptTags, IsOutcome, CountedTriples, Split;
    ExampleIsFaithful();
    ExampleKept();
    ExampleKeys();
    ExampleCounted();
    var kept := KeptTags(EXAMPLE, TIED_TAGS);
    assert TiesWith(kept, LONG_FORM, SHORT_FORM);
    assert !Loses(kept, LONG_FORM);
    PossibleReports(EXAMPLE, TIED_TAGS, LONG_FORM, 0);
    PossibleReports(EXAMPLE, TIED_TAGS, LONG_FORM, 1);
  }
  // ---------- a listing whose latest version is a pre-release ----------

  const FIRST: Version := Version([1, 0, 0], [], "1.0.0")
  const CANDIDATE: Version := Version([2, 0, 0], [Alphanumeric("rc1")], "2.0-rc1")
  const RELEASE: Version := Version([2, 0, 0], [], "2.0.0")
  const RELEASE_TAGS: seq<string> := [FIRST.original, CANDIDATE.original, RELEASE.original]

  function ParseReleases(t: string): Option<Version> {
    if t == FIRST.original then Some(FIRST)
    else if t == CANDIDATE.original then Some(CANDIDATE)
    else if t == RELEASE.original then Some(RELEASE)
    else None
  }

  const RELEASES: Library := Library(ParseReleases, (v: Version) => v.original)

  lemma ThreeParts(head: string, middle: string, tail: string)
    requires '.' !in head && '.' !in middle && '.' !in tail
    ensures |Split(head + "." + middle + "." + tail, '.')| == 3
  {
    SplitAtSeparator(head, middle + "." + tail, '.');
    TwoParts(middle, tail);
    assert head + "." + middle + "." + tail == head + ['.'] + (middle + "." + tail);
  }

  lemma ReleaseParts()
    ensures FIRST.Parts() == 3 && CANDIDATE.Parts() == 2 && RELEASE.Parts() == 3
  {
    hide Split;
    assert FIRST.original == "1" + "." + "0" + "." + "0";
    ThreeParts("1", "0", "0");
    assert CANDIDATE.original == "2" + "." + "0-rc1";
    TwoParts("2", "0-rc1");
    assert RELEASE.original == "2" + "." + "0" + "." + "0";
    ThreeParts("2", "0", "0");
  }

  lemma ReleasesIsFaithful()
    ensures RELEASES.Faithful()
    ensures RELEASES.parse(FIRST.original) == Some(FIRST)
    ensures RELEASES.parse(CANDIDATE.original) == Some(CANDIDATE)
    ensures RELEASES.parse(RELEASE.original) == Some(RELEASE)
  {
    hide Split;
    ReleaseParts();
    assert FIRST.original[0] != CANDIDATE.original[0] && FIRST.original[0] != RELEASE.original[0];
    assert |CANDIDATE.original| != |RELEASE.original|;
  }

  lemma ReleasesParsed()
    ensures Parsed(RELEASES, RELEASE_TAGS) == [FIRST, CANDIDATE, RELEASE]
  {
    hide Split, ParseReleases;
    ReleasesIsFaithful();
    assert RELEASE_TAGS[..2] == [FIRST.original, CANDIDATE.original];
    assert RELEASE_TAGS[..2][..1] == [FIRST.original];
    assert Parsed(RELEASES, [FIRST.original]) == [FIRST];
    assert Parsed(RELEASES, RELEASE_TAGS[..2]) == [FIRST, CANDIDATE];
  }

  lemma ReleasesKept()
    ensures KeptTags(RELEASES, RELEASE_TAGS) == {FIRST, CANDIDATE, RELEASE}
  {
    hide Parsed, Split;
    var all := [FIRST, CANDIDATE, RELEASE];
    ReleasesParsed();
    assert MajorList(all)[0] == 1;
    assert 1 in Majors(all) && Majors(all) <= {1, 2};
    assert forall v :: v in all ==> Kept(Majors(all), Major(v));
  }

  lemma ReleaseKeys()
    ensures Key(FIRST) != Key(CANDIDATE) && Key(FIRST) != Key(RELEASE) && Key(CANDIDATE) != Key(RELEASE)
    ensures CompareVersions(CANDIDATE, RELEASE) < 0
  {
    hide Split;
    ReleaseParts();
    KeyMeaning(FIRST, CANDIDATE);
    KeyMeaning(CANDIDATE, RELEASE);
    KeyMeaning(FIRST, RELEASE);
    CompareSegmentsReverses([2, 0, 0], [2, 0, 0]);
  }

  lemma ReleasesCounted()
    ensures CountedTriples({FIRST, CANDIDATE, RELEASE}, FIRST) == {(2, 0, 0)}
    ensures Unbeaten({FIRST, CANDIDATE, RELEASE}, FIRST, CANDIDATE)
    ensures Wins({FIRST, CANDIDATE, RELEASE}, FIRST)
  {
    hide Key, Split, LeastLong, CompareVersions;
    ReleaseParts();
    ReleaseKeys();
    CompareVersionsIsOrder();
    var kept := {FIRST, CANDIDATE, RELEASE};
    assert CANDIDATE in kept && Short(CANDIDATE) && TripleLess(TripleOf(FIRST), TripleOf(CANDIDATE));
    assert TripleOf(CANDIDATE) == (2, 0, 0);
    assert CompareVersions(CANDIDATE, CANDIDATE) == -CompareVersions(CANDIDATE, CANDIDATE);
  }

  /**
   * Of the versions with the greatest triple it is the oldest that is reported as latest: with 1.0.0
   * running, every outcome gives the candidate 2.0-rc1, although the newer 2.0.0 is listed and kept.
   */
  lemma CandidateIsLatest(list: seq<Version>)
    requires IsOutcome(RELEASES, RELEASE_TAGS, FIRST, list)
    ensures |Pruned(list)| - 1 == 1 && Latest(list) == CANDIDATE
    ensures RELEASE in KeptTags(RELEASES, RELEASE_TAGS) && CompareVersions(CANDIDATE, RELEASE) < 0
  {
    hide Key, CompareVersions, KeptTags, IsOutcome, CountedTriples, Split, Unbeaten, Wins, Pruned;
    ReleasesIsFaithful();
    ReleasesKept();
    ReleaseKeys();
    ReleasesCounted();
    ReportMeaning(RELEASES, RELEASE_TAGS, FIRST, list);
    LatestMeaning(RELEASES, RELEASE_TAGS, FIRST, list);
    CompareVersionsIsOrder();
    assert CompareVersions(RELEASE, CANDIDATE) == -CompareVersions(CANDIDATE, RELEASE);
    UnbeatenIsKept(KeptTags(RELEASES, RELEASE_TAGS), FIRST, Latest(list));
  }

  lemma UnbeatenIsKept(kept: set<Version>, current: Version, v: Version)
    requires Unbeaten(kept, current, v)
    ensures v in kept
  {
  }

  /** There are such outcomes. */
  lemma CandidateExample()
    ensures exists list ::
      IsOutcome(RELEASES, RELEASE_TAGS, FIRST, list) && |Pruned(list)| > 1 && Latest(list) == CANDIDATE
  {
    hide CompareVersions, KeptTags, IsOutcome, Pruned;
    ReleasesIsFaithful();
    var _, list := OutcomeFavoring(RELEASES, RELEASE_TAGS, FIRST, FIRST);
    CandidateIsLatest(list);
  }
}
