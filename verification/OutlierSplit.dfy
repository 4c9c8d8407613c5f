/** Sorting the tags of an image into versions, non-versions and outlying versions. */
module OutlierSplit {
  import opened Options
  import opened Orders
  import opened Versions

  /** The version library: parsing a tag text, and printing a version in its canonical form. */
  datatype Library = Library(parse: string -> Option<Version>, render: Version -> string) {
    /** A parsed version remembers the text it was parsed from, and has no segments but those spelled out there. */
    ghost predicate Faithful() {
      forall t :: parse(t).Some? ==> parse(t).value.original == t && SpelledOut(parse(t).value)
    }
  }

  const MAJOR_THRESHOLD: nat := 2

  function MajorList(s: seq<Version>): (ms: seq<nat>)
    ensures |ms| == |s| && forall i :: 0 <= i < |s| ==> ms[i] == Major(s[i])
  {
    seq(|s|, i requires 0 <= i < |s| => Major(s[i]))
  }

  function ToSet(ms: seq<nat>): set<nat> {
    set m | m in ms
  }

  function Majors(s: seq<Version>): set<nat> {
    ToSet(MajorList(s))
  }

  predicate SomeBelow(majors: set<nat>, u: nat) {
    exists w :: w in majors && w < u
  }

  predicate SomeJustBelow(majors: set<nat>, u: nat) {
    exists w :: w in majors && w < u && u - w <= MAJOR_THRESHOLD
  }

  /**
   * The order-free meaning of the split: every listed major up to m, other than the least one, has
   * a smaller listed major within the threshold.
   */
  predicate Kept(majors: set<nat>, m: nat) {
    forall u :: u in majors && u <= m && SomeBelow(majors, u) ==> SomeJustBelow(majors, u)
  }

  /** Some listed version is lower than u in its first segment, by at most 2. */
  ghost predicate CloseBelow(listed: seq<Version>, u: Version) {
    exists w :: w in listed && w.segments[0] < u.segments[0] <= w.segments[0] + 2
  }

  /** Up to v, no listed version but those with the least first segment lacks a close one below it. */
  ghost predicate NoGapUpTo(listed: seq<Version>, v: Version) {
    forall u, l :: u in listed && l in listed && l.segments[0] < u.segments[0] <= v.segments[0] ==>
      CloseBelow(listed, u)
  }

  lemma MajorsMembers(listed: seq<Version>, m: nat)
    ensures m in Majors(listed) <==> exists u :: u in listed && u.segments[0] == m
  {
    if m in Majors(listed) {
      var i :| 0 <= i < |listed| && MajorList(listed)[i] == m;
      assert listed[i] in listed;
    }
    if u :| u in listed && u.segments[0] == m {
      var i :| 0 <= i < |listed| && listed[i] == u;
      assert MajorList(listed)[i] == m;
    }
  }

  /** What being kept means, with the numbers of the source. */
  lemma KeptMeaning(listed: seq<Version>, v: Version)
    ensures Kept(Majors(listed), Major(v)) <==> NoGapUpTo(listed, v)
  {
    hide Majors;
    forall m: nat ensures m in Majors(listed) <==> exists u :: u in listed && u.segments[0] == m {
      MajorsMembers(listed, m);
    }
    forall u | u in listed
      ensures SomeJustBelow(Majors(listed), u.segments[0]) <==> CloseBelow(listed, u)
      ensures SomeBelow(Majors(listed), u.segments[0])
        <==> exists l :: l in listed && l.segments[0] < u.segments[0]
    {
      assert forall w :: w in listed ==> w.segments[0] in Majors(listed);
    }
    assert forall u :: u in listed ==> u.segments[0] in Majors(listed);
  }

  ghost predicate Ascending(ms: seq<nat>) {
    forall i, j :: 0 <= i < j < |ms| ==> ms[i] <= ms[j]
  }

  /** A jump over the threshold between neighbours at or before position i. */
  ghost predicate JumpUpTo(ms: seq<nat>, i: nat)
    requires i < |ms|
  {
    exists k :: 0 < k <= i && ms[k] - ms[k - 1] > MAJOR_THRESHOLD
  }

  lemma JumpNext(ms: seq<nat>, i: nat)
    requires i < |ms|
    ensures JumpUpTo(ms, i) <==>
      i > 0 && (JumpUpTo(ms, i - 1) || ms[i] - ms[i - 1] > MAJOR_THRESHOLD)
  {
  }

  lemma SortedMajorsAscend(s: seq<Version>)
    requires Sorted(CompareVersions, s)
    ensures Ascending(MajorList(s))
  {
    forall i, j | 0 <= i < j < |s| ensures MajorList(s)[i] <= MajorList(s)[j] {
      OrderRefinesTriples(s[i], s[j]);
    }
  }

  lemma {:induction false} FirstAtLeast(ms: seq<nat>, u: nat) returns (k: nat)
    requires u in ms && Ascending(ms)
    ensures k < |ms| && ms[k] == u && forall j :: 0 <= j < k ==> ms[j] < u
  {
    k :| k < |ms| && ms[k] == u;
    while k > 0 && ms[k - 1] == u
      invariant 0 <= k < |ms| && ms[k] == u
    {
      k := k - 1;
    }
  }

  lemma JumpDrops(ms: seq<nat>, i: nat)
    requires Ascending(ms) && i < |ms| && JumpUpTo(ms, i)
    ensures !Kept(ToSet(ms), ms[i])
  {
    var k :| 0 < k <= i && ms[k] - ms[k - 1] > MAJOR_THRESHOLD;
    assert ms[k - 1] in ToSet(ms) && ms[k] in ToSet(ms) && ms[k] <= ms[i];
    forall w | w in ToSet(ms) && w < ms[k] ensures ms[k] - w > MAJOR_THRESHOLD {
      var j :| 0 <= j < |ms| && ms[j] == w;
      assert j <= k - 1;
    }
  }

  lemma GapBelow(majors: set<nat>, m: nat) returns (u: nat, w: nat)
    requires !Kept(majors, m)
    ensures u in majors && u <= m && w in majors && w < u
    ensures forall l :: l in majors && l < u ==> u - l > MAJOR_THRESHOLD
  {
    u :| u in majors && u <= m && SomeBelow(majors, u) && !SomeJustBelow(majors, u);
    w :| w in majors && w < u;
  }

  lemma DroppedHasJump(ms: seq<nat>, i: nat)
    requires Ascending(ms) && i < |ms| && !Kept(ToSet(ms), ms[i])
    ensures JumpUpTo(ms, i)
  {
    hide Kept;
    var u, w := GapBelow(ToSet(ms), ms[i]);
    var k := FirstAtLeast(ms, u);
    assert k > 0 by {
      var j :| 0 <= j < |ms| && ms[j] == w;
    }
    assert k <= i;
    assert ms[k - 1] in ToSet(ms) && ms[k - 1] < u;
    assert ms[k] - ms[k - 1] > MAJOR_THRESHOLD;
  }

  /** What the split promises about any slice it is given, whatever sorted order it happened to use. */
  ghost predicate IsSplit(input: seq<Version>, sorted: seq<Version>, outliers: seq<Version>, remaining: seq<Version>) {
    && multiset(sorted) == multiset(input)
    && Sorted(CompareVersions, sorted)
    && remaining + outliers == sorted
    && (forall v :: v in remaining ==> Kept(Majors(input), Major(v)))
    && (forall v :: v in outliers ==> !Kept(Majors(input), Major(v)))
    && (input != [] ==> remaining != [])
  }

  lemma MajorsIncluded(s: seq<Version>, t: seq<Version>)
    requires forall v :: v in s ==> v in t
    ensures Majors(s) <= Majors(t)
  {
    forall m | m in Majors(s) ensures m in Majors(t) {
      var i :| 0 <= i < |s| && MajorList(s)[i] == m;
      assert s[i] in t;
      var j :| 0 <= j < |t| && t[j] == s[i];
      assert MajorList(t)[j] == m;
    }
  }

  lemma MajorsOfPermutation(s: seq<Version>, t: seq<Version>)
    requires multiset(s) == multiset(t)
    ensures Majors(s) == Majors(t)
  {
    SameElements(s, t);
    MajorsIncluded(s, t);
    MajorsIncluded(t, s);
  }

  /** Having passed a jump is exactly not being kept. */
  lemma SweepDecides(s: seq<Version>, i: nat)
    requires Sorted(CompareVersions, s) && i < |s|
    ensures JumpUpTo(MajorList(s), i) <==> !Kept(Majors(s), Major(s[i]))
  {
    SortedMajorsAscend(s);
    if JumpUpTo(MajorList(s), i) { JumpDrops(MajorList(s), i); }
    if !Kept(Majors(s), Major(s[i])) { DroppedHasJump(MajorList(s), i); }
  }

  /**
   * splitOutlierSemvers: sorts the slice in place, then sweeps it once; the first jump of more than
   * the threshold sends everything after it to the outliers.
   */
  method SplitOutlierSemvers(all: array<Version>) returns (outliers: seq<Version>, remaining: seq<Version>)
    modifies all
    ensures IsSplit(old(all[..]), all[..], outliers, remaining)
    ensures forall v :: v in remaining ==> NoGapUpTo(old(all[..]), v)
    ensures forall v :: v in outliers ==> !NoGapUpTo(old(all[..]), v)
  {
    hide NoGapUpTo, Kept, Majors, CompareVersions;
    if all.Length == 0 { return [], []; }
    ghost var input := all[..];
    CompareVersionsIsOrder();
    Sort(all, CompareVersions);
    outliers, remaining := Sweep(all);
    MajorsOfPermutation(all[..], input);
    forall v: Version ensures Kept(Majors(input), Major(v)) <==> NoGapUpTo(input, v) {
      KeptMeaning(input, v);
    }
  }

  method Sweep(all: array<Version>) returns (outliers: seq<Version>, remaining: seq<Version>)
    requires all.Length > 0 && Sorted(CompareVersions, all[..])
    ensures remaining + outliers == all[..] && remaining != []
    ensures forall v :: v in remaining ==> Kept(Majors(all[..]), Major(v))
    ensures forall v :: v in outliers ==> !Kept(Majors(all[..]), Major(v))
  {
    hide Kept, Majors, JumpUpTo;
    outliers, remaining := [], [];
    var lastVersion, isInOutlier := all[0], false;
    ghost var ms := MajorList(all[..]);
    for i := 0 to all.Length
      invariant lastVersion == if i == 0 then all[0] else all[i - 1]
      invariant i > 0 ==> (isInOutlier <==> JumpUpTo(ms, i - 1)) && remaining != []
      invariant i == 0 ==> !isInOutlier
      invariant !isInOutlier ==> outliers == []
      invariant remaining + outliers == all[..i]
      invariant forall v :: v in remaining ==> Kept(Majors(all[..]), Major(v))
      invariant forall v :: v in outliers ==> !Kept(Majors(all[..]), Major(v))
    {
      var v := all[i];
      if Major(v) - Major(lastVersion) > MAJOR_THRESHOLD {
        isInOutlier := true;
      }
      JumpNext(ms, i);
      SweepDecides(all[..], i);
      if isInOutlier {
        outliers := outliers + [v];
      } else {
        remaining := remaining + [v];
      }
      lastVersion := v;
    }
    assert remaining + outliers == all[..];
  }

  lemma SplitCounts(input: seq<Version>, sorted: seq<Version>, o: seq<Version>, r: seq<Version>, v: Version)
    requires IsSplit(input, sorted, o, r)
    ensures Kept(Majors(input), Major(v)) ==> multiset(r)[v] == multiset(input)[v] && multiset(o)[v] == 0
    ensures !Kept(Majors(input), Major(v)) ==> multiset(o)[v] == multiset(input)[v] && multiset(r)[v] == 0
  {
    assert multiset(r + o) == multiset(r) + multiset(o);
  }

  /** However the tags are listed and however ties are sorted, the same tags are kept, equally often. */
  lemma SplitIsOrderFree(
    input: seq<Version>, sorted: seq<Version>, o: seq<Version>, r: seq<Version>,
    input': seq<Version>, sorted': seq<Version>, o': seq<Version>, r': seq<Version>)
    requires multiset(input) == multiset(input')
    requires IsSplit(input, sorted, o, r) && IsSplit(input', sorted', o', r')
    ensures multiset(r) == multiset(r') && multiset(o) == multiset(o')
  {
    MajorsOfPermutation(input, input');
    forall v: Version ensures multiset(r)[v] == multiset(r')[v] && multiset(o)[v] == multiset(o')[v] {
      SplitCounts(input, sorted, o, r, v);
      SplitCounts(input', sorted', o', r', v);
    }
  }

  /** The least major is always kept, and whatever is kept stays kept for smaller majors. */
  lemma KeptIsPrefix(s: seq<Version>) returns (k: nat)
    requires Sorted(CompareVersions, s)
    ensures k <= |s| && (s != [] ==> k > 0)
    ensures forall i :: 0 <= i < k ==> Kept(Majors(s), Major(s[i]))
    ensures forall i :: k <= i < |s| ==> !Kept(Majors(s), Major(s[i]))
  {
    hide Kept, Majors;
    k := |s|;
    if s != [] { SweepDecides(s, 0); }
    while k > 0 && !Kept(Majors(s), Major(s[k - 1]))
      invariant 0 <= k <= |s|
      invariant forall i :: k <= i < |s| ==> !Kept(Majors(s), Major(s[i]))
    {
      k := k - 1;
    }
    forall i | 0 <= i < k ensures Kept(Majors(s), Major(s[i])) {
      OrderRefinesTriples(s[i], s[k - 1]);
      KeptDownward(Majors(s), Major(s[i]), Major(s[k - 1]));
    }
  }

  lemma KeptDownward(majors: set<nat>, m: nat, n: nat)
    requires m <= n && Kept(majors, n)
    ensures Kept(majors, m)
  {
  }

  /** Every sorted order of the input has a split. */
  lemma SplitExists(input: seq<Version>, sorted: seq<Version>) returns (outliers: seq<Version>, remaining: seq<Version>)
    requires multiset(sorted) == multiset(input) && Sorted(CompareVersions, sorted)
    ensures IsSplit(input, sorted, outliers, remaining)
  {
    hide Kept, Majors, CompareVersions;
    var k := KeptIsPrefix(sorted);
    MajorsOfPermutation(sorted, input);
    SameElements(sorted, input);
    outliers, remaining := sorted[k..], sorted[..k];
    assert remaining + outliers == sorted;
  }

  lemma SplitLengths(input: seq<Version>, sorted: seq<Version>, o: seq<Version>, r: seq<Version>)
    requires IsSplit(input, sorted, o, r)
    ensures |r| + |o| == |input|
  {
    assert |multiset(sorted)| == |sorted| && |multiset(input)| == |input|;
  }

  lemma SplitMembers(input: seq<Version>, sorted: seq<Version>, o: seq<Version>, r: seq<Version>)
    requires IsSplit(input, sorted, o, r)
    ensures forall v :: v in r <==> v in input && Kept(Majors(input), Major(v))
  {
    SameElements(input, sorted);
  }

  // ---------- parseTags ----------

  function Parsed(lib: Library, tags: seq<string>): seq<Version> {
    if tags == [] then []
    else
      var rest := Parsed(lib, tags[..|tags| - 1]);
      match lib.parse(tags[|tags| - 1])
      case Some(v) => rest + [v]
      case None => rest
  }

  function Unparsed(lib: Library, tags: seq<string>): seq<string> {
    if tags == [] then []
    else
      var rest := Unparsed(lib, tags[..|tags| - 1]);
      if lib.parse(tags[|tags| - 1]).Some? then rest else rest + [tags[|tags| - 1]]
  }

  function Rendered(lib: Library, vs: seq<Version>): seq<string> {
    seq(|vs|, i requires 0 <= i < |vs| => lib.render(vs[i]))
  }

  /** The tags that count as versions: parsable and not outlying. */
  ghost function KeptTags(lib: Library, tags: seq<string>): set<Version> {
    set v | v in Parsed(lib, tags) && Kept(Majors(Parsed(lib, tags)), Major(v))
  }

  lemma {:induction false} ParsedMembers(lib: Library, tags: seq<string>, v: Version)
    ensures v in Parsed(lib, tags) <==> exists t :: t in tags && lib.parse(t) == Some(v)
  {
    if tags != [] {
      var init, last := tags[..|tags| - 1], tags[|tags| - 1];
      ParsedMembers(lib, init, v);
      assert tags == init + [last];
      assert last in tags && forall t :: t in tags <==> t in init || t == last;
    }
  }

  lemma {:induction false} ParsedCount(lib: Library, tags: seq<string>, v: Version)
    requires lib.Faithful()
    ensures multiset(Parsed(lib, tags))[v] == if lib.parse(v.original) == Some(v) then multiset(tags)[v.original] else 0
  {
    if tags != [] {
      var init, last := tags[..|tags| - 1], tags[|tags| - 1];
      ParsedCount(lib, init, v);
      assert tags == init + [last];
      assert multiset(tags) == multiset(init) + multiset{last};
    }
  }

  lemma {:induction false} PartsPartition(lib: Library, tags: seq<string>)
    ensures |Parsed(lib, tags)| + |Unparsed(lib, tags)| == |tags|
  {
    if tags != [] { PartsPartition(lib, tags[..|tags| - 1]); }
  }

  /** The positions of the tags that are no versions, in ascending order. */
  ghost predicate UnparsableAt(lib: Library, tags: seq<string>, at: seq<nat>) {
    && (forall k, l :: 0 <= k < l < |at| ==> at[k] < at[l])
    && (forall k :: 0 <= k < |at| ==> at[k] < |tags|)
    && (forall i: nat :: i < |tags| ==> (i in at <==> lib.parse(tags[i]).None?))
  }

  lemma {:induction false} UnparsedTexts(lib: Library, tags: seq<string>) returns (at: seq<nat>)
    ensures UnparsableAt(lib, tags, at) && |Unparsed(lib, tags)| == |at|
    ensures forall k :: 0 <= k < |at| ==> Unparsed(lib, tags)[k] == tags[at[k]]
  {
    if tags == [] { return []; }
    var m := |tags| - 1;
    at := UnparsedTexts(lib, tags[..m]);
    assert forall i: nat :: i < m ==> tags[..m][i] == tags[i];
    assert m !in at;
    if lib.parse(tags[m]).None? { at := at + [m]; }
  }

  /** The other result of parseTags: the texts at the positions, then the outliers, printed. */
  ghost predicate NonVersions(
    lib: Library, tags: seq<string>, outliers: seq<Version>, at: seq<nat>, texts: seq<string>)
  {
    && UnparsableAt(lib, tags, at) && |texts| == |at| + |outliers|
    && (forall k :: 0 <= k < |at| ==> texts[k] == tags[at[k]])
    && (forall j :: 0 <= j < |outliers| ==> texts[|at| + j] == lib.render(outliers[j]))
  }

  lemma NonVersionsIn(lib: Library, tags: seq<string>, outliers: seq<Version>)
    ensures exists at :: NonVersions(lib, tags, outliers, at, Unparsed(lib, tags) + Rendered(lib, outliers))
  {
    var at := UnparsedTexts(lib, tags);
    hide UnparsableAt;
    assert NonVersions(lib, tags, outliers, at, Unparsed(lib, tags) + Rendered(lib, outliers));
  }

  /** A kept tag is listed, parses, and has no gap below it. */
  lemma KeptTagsMeaning(lib: Library, tags: seq<string>, v: Version)
    ensures v in KeptTags(lib, tags)
      <==> (exists t :: t in tags && lib.parse(t) == Some(v)) && NoGapUpTo(Parsed(lib, tags), v)
  {
    hide Kept, Majors, NoGapUpTo;
    ParsedMembers(lib, tags, v);
    KeptMeaning(Parsed(lib, tags), v);
  }

  /** The first loop of parseTags. */
  method SeparateParsable(lib: Library, tags: seq<string>) returns (parsed: seq<Version>, unparsed: seq<string>)
    ensures parsed == Parsed(lib, tags) && unparsed == Unparsed(lib, tags)
  {
    parsed, unparsed := [], [];
    for i := 0 to |tags|
      invariant parsed == Parsed(lib, tags[..i]) && unparsed == Unparsed(lib, tags[..i])
    {
      assert tags[..i + 1][..i] == tags[..i];
      match lib.parse(tags[i])
      case Some(v) => parsed := parsed + [v];
      case None => unparsed := unparsed + [tags[i]];
    }
    assert tags[..|tags|] == tags;
  }

  /**
   * parseTags: every tag ends up in exactly one list. The versions are the kept ones; the other list
   * holds the unparsable tags in input order and then the outliers, printed, in ascending order.
   */
  method ParseTags(lib: Library, tags: seq<string>)
    returns (
      semverTags: seq<Version>, nonSemverTags: seq<string>, ghost sorted: seq<Version>, ghost outliers: seq<Version>)
    ensures IsSplit(Parsed(lib, tags), sorted, outliers, semverTags)
    ensures nonSemverTags == Unparsed(lib, tags) + Rendered(lib, outliers)
    ensures exists at :: NonVersions(lib, tags, outliers, at, nonSemverTags)
    ensures |semverTags| + |nonSemverTags| == |tags|
    ensures forall v :: v in semverTags <==> v in KeptTags(lib, tags)
  {
    hide NonVersions, NoGapUpTo, IsSplit, Kept, Majors;
    var parsed;
    parsed, nonSemverTags := SeparateParsable(lib, tags);
    var all := new Version[|parsed|](i requires 0 <= i < |parsed| => parsed[i]);
    assert all[..] == parsed;
    var outlierSemver, remainingSemver := SplitOutlierSemvers(all);
    sorted, outliers, semverTags := all[..], outlierSemver, remainingSemver;
    SplitMembers(parsed, sorted, outliers, semverTags);
    PartsPartition(lib, tags);
    SplitLengths(parsed, sorted, outliers, semverTags);
    ghost var unparsed := nonSemverTags;
    for i := 0 to |outlierSemver|
      invariant nonSemverTags == unparsed + Rendered(lib, outlierSemver)[..i]
    {
      nonSemverTags := nonSemverTags + [lib.render(outlierSemver[i])];
    }
    assert Rendered(lib, outliers)[..|outliers|] == Rendered(lib, outliers);
    NonVersionsIn(lib, tags, outliers);
  }

  /** Listing the same tags in another order keeps the same versions, equally often. */
  lemma ParseTagsIsOrderFree(
    lib: Library, tags: seq<string>, tags': seq<string>,
    sorted: seq<Version>, o: seq<Version>, r: seq<Version>, sorted': seq<Version>, o': seq<Version>, r': seq<Version>)
    requires lib.Faithful() && multiset(tags) == multiset(tags')
    requires IsSplit(Parsed(lib, tags), sorted, o, r) && IsSplit(Parsed(lib, tags'), sorted', o', r')
    ensures multiset(r) == multiset(r') && multiset(o) == multiset(o')
    ensures KeptTags(lib, tags) == KeptTags(lib, tags')
  {
    forall v: Version ensures multiset(Parsed(lib, tags))[v] == multiset(Parsed(lib, tags'))[v] {
      ParsedCount(lib, tags, v);
      ParsedCount(lib, tags', v);
    }
    SplitIsOrderFree(Parsed(lib, tags), sorted, o, r, Parsed(lib, tags'), sorted', o', r');
    MajorsOfPermutation(Parsed(lib, tags), Parsed(lib, tags'));
    SameElements(Parsed(lib, tags), Parsed(lib, tags'));
  }
}
