/** The report on deleted APIs, and why it shares nothing with the report on deprecated ones. */
module DeletedReport {
  import opened ApiKeys
  import opened ApiReports
  import opened Options
  import opened Text

  // ---------- groups to ignore ----------

  predicate OfSpecialGroup(gv: string) {
    Contains(gv, CRD_GROUP) || Contains(gv, API_REGISTRATION)
  }

  /** GroupVersions are cut at their slashes without a check, so those of the two API groups must have one. */
  ghost predicate SlashesPresent(lists: seq<ResourceList>) {
    forall l :: 0 <= l < |lists| && OfSpecialGroup(lists[l].groupVersion) ==> |Split(lists[l].groupVersion, '/')| >= 2
  }

  function CrdGroups(cluster: Cluster, version: string): set<string> {
    var listing := cluster(GVR(CRD_GROUP, version, "customresourcedefinitions"));
    if listing.notFound then {} else set d | d in listing.items && d.specGroup.Some? :: d.specGroup.value
  }

  function ServiceGroups(cluster: Cluster, version: string): set<string> {
    var listing := cluster(GVR(API_REGISTRATION, version, "apiservices"));
    if listing.notFound then {}
    else set d | d in listing.items && d.serviceName.Some? && d.specGroup.Some? :: d.specGroup.value
  }

  /** What one list of discovery adds to the groups to ignore. */
  function IgnoredBy(cluster: Cluster, list: ResourceList): set<string>
    requires SlashesPresent([list])
  {
    assert [list][0] == list;
    (if Contains(list.groupVersion, CRD_GROUP) then CrdGroups(cluster, Split(list.groupVersion, '/')[1]) else {})
    + (if Contains(list.groupVersion, API_REGISTRATION)
       then ServiceGroups(cluster, Split(list.groupVersion, '/')[1]) else {})
  }

  /** The caller's set of groups, filled in place. */
  class IgnoreStruct {
    var groups: set<string>

    constructor ()
      ensures groups == {}
    {
      groups := {};
    }

    method PopulateCRDGroups(cluster: Cluster, version: string)
      modifies this
      ensures groups == old(groups) + CrdGroups(cluster, version)
    {
      var crdList := cluster(GVR(CRD_GROUP, version, "customresourcedefinitions"));
      if crdList.notFound { return; }
      for i := 0 to |crdList.items|
        invariant groups == old(groups) + set d | d in crdList.items[..i] && d.specGroup.Some? :: d.specGroup.value
      {
        var d := crdList.items[i];
        assert crdList.items[..i + 1] == crdList.items[..i] + [d];
        if d.specGroup.None? { continue; }
        if d.specGroup.value !in groups {
          groups := groups + {d.specGroup.value};
        }
      }
      assert crdList.items[..|crdList.items|] == crdList.items;
    }

    method PopulateAPIService(cluster: Cluster, version: string)
      modifies this
      ensures groups == old(groups) + ServiceGroups(cluster, version)
    {
      var apisvcList := cluster(GVR(API_REGISTRATION, version, "apiservices"));
      if apisvcList.notFound { return; }
      for i := 0 to |apisvcList.items|
        invariant groups == old(groups) +
          set d | d in apisvcList.items[..i] && d.serviceName.Some? && d.specGroup.Some? :: d.specGroup.value
      {
        var d := apisvcList.items[i];
        assert apisvcList.items[..i + 1] == apisvcList.items[..i] + [d];
        if d.serviceName.None? || d.specGroup.None? { continue; }
        if d.specGroup.value !in groups {
          groups := groups + {d.specGroup.value};
        }
      }
      assert apisvcList.items[..|apisvcList.items|] == apisvcList.items;
    }
  }

  ghost predicate IsIgnored(cluster: Cluster, lists: seq<ResourceList>, group: string)
    requires SlashesPresent(lists)
  {
    exists l :: 0 <= l < |lists| && group in Ignores(cluster, lists, l)
  }

  ghost function Ignores(cluster: Cluster, lists: seq<ResourceList>, l: nat): set<string>
    requires SlashesPresent(lists) && l < |lists|
  {
    IgnoredBy(cluster, lists[l])
  }

  /** The listing was found and holds a definition of group g. */
  ghost predicate Defines(listing: Listing, g: string) {
    !listing.notFound && exists o :: o in listing.items && o.specGroup == Some(g)
  }

  /** The listing was found and holds an API service of group g that names a service. */
  ghost predicate ServesElsewhere(listing: Listing, g: string) {
    !listing.notFound && exists o :: o in listing.items && o.specGroup == Some(g) && o.serviceName.Some?
  }

  /** A list of discovery makes g a group to ignore. */
  ghost predicate MakesIgnored(cluster: Cluster, gv: string, g: string)
    requires OfSpecialGroup(gv) ==> |Split(gv, '/')| >= 2
  {
    || ((exists p: nat :: OccursAt(gv, "apiextensions.k8s.io", p))
        && OfSpecialGroup(gv)
        && Defines(cluster(GVR("apiextensions.k8s.io", Split(gv, '/')[1], "customresourcedefinitions")), g))
    || ((exists p: nat :: OccursAt(gv, "apiregistration.k8s.io", p))
        && OfSpecialGroup(gv)
        && ServesElsewhere(cluster(GVR("apiregistration.k8s.io", Split(gv, '/')[1], "apiservices")), g))
  }

  lemma GroupsMeaning(cluster: Cluster, version: string, g: string)
    ensures g in CrdGroups(cluster, version)
      <==> Defines(cluster(GVR("apiextensions.k8s.io", version, "customresourcedefinitions")), g)
    ensures g in ServiceGroups(cluster, version)
      <==> ServesElsewhere(cluster(GVR("apiregistration.k8s.io", version, "apiservices")), g)
  {
  }

  lemma SpecialMeaning(gv: string)
    ensures Contains(gv, CRD_GROUP) <==> exists p: nat :: OccursAt(gv, "apiextensions.k8s.io", p)
    ensures Contains(gv, API_REGISTRATION) <==> exists p: nat :: OccursAt(gv, "apiregistration.k8s.io", p)
  {
    ContainsMeaning(gv, "apiextensions.k8s.io");
    ContainsMeaning(gv, "apiregistration.k8s.io");
  }

  /** In terms of discovery and the cluster: which groups are ignored. */
  lemma IgnoredMeaning(cluster: Cluster, lists: seq<ResourceList>, g: string)
    requires SlashesPresent(lists)
    ensures IsIgnored(cluster, lists, g) <==>
      exists l :: 0 <= l < |lists| && MakesIgnored(cluster, lists[l].groupVersion, g)
  {
    hide Contains, OccursAt, Defines, ServesElsewhere, CrdGroups, ServiceGroups;
    forall l | 0 <= l < |lists|
      ensures g in Ignores(cluster, lists, l) <==> MakesIgnored(cluster, lists[l].groupVersion, g)
    {
      var gv := lists[l].groupVersion;
      SpecialMeaning(gv);
      if OfSpecialGroup(gv) { GroupsMeaning(cluster, Split(gv, '/')[1], g); }
    }
  }

  method CollectIgnored(cluster: Cluster, lists: seq<ResourceList>) returns (ignore: IgnoreStruct)
    requires SlashesPresent(lists)
    ensures fresh(ignore)
    ensures forall g :: g in ignore.groups <==> IsIgnored(cluster, lists, g)
    ensures forall g :: g in ignore.groups <==>
      exists l :: 0 <= l < |lists| && MakesIgnored(cluster, lists[l].groupVersion, g)
  {
    hide CrdGroups, ServiceGroups, MakesIgnored;
    ignore := new IgnoreStruct();
    for l := 0 to |lists|
      invariant fresh(ignore)
      invariant forall g :: g in ignore.groups <==> exists m :: 0 <= m < l && g in Ignores(cluster, lists, m)
    {
      var gv := lists[l].groupVersion;
      ghost var before := ignore.groups;
      if Contains(gv, CRD_GROUP) {
        var version := Split(gv, '/')[1];
        ignore.PopulateCRDGroups(cluster, version);
      }
      if Contains(gv, API_REGISTRATION) {
        var version := Split(gv, '/')[1];
        ignore.PopulateAPIService(cluster, version);
      }
      assert ignore.groups == before + Ignores(cluster, lists, l);
    }
    forall g: string ensures IsIgnored(cluster, lists, g) <==>
      exists l :: 0 <= l < |lists| && MakesIgnored(cluster, lists[l].groupVersion, g)
    {
      IgnoredMeaning(cluster, lists, g);
    }
  }

  // ---------- the objects left over ----------

  /** The objects whose uid is not among the given ones, in order. */
  function NotAmong(objects: seq<Object>, uids: set<string>): seq<Object> {
    if objects == [] then []
    else
      var last := objects[|objects| - 1];
      NotAmong(objects[..|objects| - 1], uids) + if last.uid in uids then [] else [last]
  }

  lemma {:induction false} NotAmongMembers(objects: seq<Object>, uids: set<string>, o: Object)
    ensures o in NotAmong(objects, uids) <==> o in objects && o.uid !in uids
  {
    if objects != [] {
      NotAmongMembers(objects[..|objects| - 1], uids, o);
      assert objects == objects[..|objects| - 1] + [objects[|objects| - 1]];
    }
  }

  /** The order is kept, and how often an object is listed. */
  lemma {:induction false} NotAmongConcat(a: seq<Object>, b: seq<Object>, uids: set<string>)
    ensures NotAmong(a + b, uids) == NotAmong(a, uids) + NotAmong(b, uids)
  {
    if b == [] {
      assert a + b == a;
    } else {
      var m := |b| - 1;
      NotAmongConcat(a, b[..m], uids);
      assert (a + b)[..|a + b| - 1] == a + b[..m] && (a + b)[|a + b| - 1] == b[m];
    }
  }

  function GVROf(r: Resource): GVR {
    var gv := ParseGroupVersion(r.groupVersion);
    GVR(gv.group, gv.version, r.name)
  }

  function Uids(objects: seq<Object>): set<string> {
    set o | o in objects :: o.uid
  }

  /** What is left of a resource's objects once those its replacement serves are taken out. */
  function LeftOver(cluster: Cluster, r: Resource): seq<Object> {
    var key := DiscoveryKey(r.groupVersion, r.kind);
    if key in REPLACEMENTS then NotAmong(cluster(GVROf(r)).items, Uids(cluster(GVROf(REPLACEMENTS[key])).items))
    else cluster(GVROf(r)).items
  }

  lemma ReplacementGVR()
    ensures GVROf(Resource("networking.k8s.io/v1", "ingresses", "Ingress"))
      == GVR("networking.k8s.io", "v1", "ingresses")
  {
    hide Split, ParseGroupVersion;
    assert "networking.k8s.io" + "/" + "v1" == "networking.k8s.io/v1";
    ParseTwoParts("networking.k8s.io", "v1");
  }

  lemma ReplacedKinds(key: string)
    ensures key in REPLACEMENTS <==> key == "extensions/v1beta1/Ingress"
    ensures key in REPLACEMENTS ==> GVROf(REPLACEMENTS[key]) == GVR("networking.k8s.io", "v1", "ingresses")
  {
    hide Split, ParseGroupVersion;
    ReplacementGVR();
  }

  lemma UidsMeaning(objects: seq<Object>, uid: string)
    ensures uid in Uids(objects) <==> exists n :: n in objects && n.uid == uid
  {
  }

  /**
   * An object is left over iff it is listed, and, for an Ingress of extensions/v1beta1, none of the
   * ingresses of networking.k8s.io/v1 has its uid.
   */
  lemma LeftOverMeaning(cluster: Cluster, r: Resource, o: Object)
    ensures var gv := ParseGroupVersion(r.groupVersion);
      o in LeftOver(cluster, r) <==>
        && o in cluster(GVR(gv.group, gv.version, r.name)).items
        && (r.groupVersion + "/" + r.kind == "extensions/v1beta1/Ingress" ==>
              forall n :: n in cluster(GVR("networking.k8s.io", "v1", "ingresses")).items ==> n.uid != o.uid)
  {
    hide Split, ParseGroupVersion, Uids, NotAmong;
    var key := r.groupVersion + "/" + r.kind;
    ReplacedKinds(key);
    var replacing := cluster(GVR("networking.k8s.io", "v1", "ingresses")).items;
    NotAmongMembers(cluster(GVROf(r)).items, Uids(replacing), o);
    UidsMeaning(replacing, o.uid);
  }

  method FixDeletedItemsList(
    cluster: Cluster, oldApiItems: seq<Object>, grk: Resource)
    returns (deletedItems: seq<Object>)
    ensures deletedItems == NotAmong(oldApiItems, Uids(cluster(GVROf(grk)).items))
  {
    var newApiItems := cluster(GVROf(grk)).items;
    var newApiItemsMap: map<string, bool> := map[];
    for i := 0 to |newApiItems|
      invariant newApiItemsMap.Keys == Uids(newApiItems[..i])
      invariant forall uid :: uid in newApiItemsMap ==> newApiItemsMap[uid]
    {
      assert newApiItems[..i + 1] == newApiItems[..i] + [newApiItems[i]];
      newApiItemsMap := newApiItemsMap[newApiItems[i].uid := true];
    }
    assert newApiItems[..|newApiItems|] == newApiItems;
    deletedItems := [];
    for i := 0 to |oldApiItems|
      invariant deletedItems == NotAmong(oldApiItems[..i], Uids(newApiItems))
    {
      assert oldApiItems[..i + 1][..i] == oldApiItems[..i];
      var uid := oldApiItems[i].uid;
      if !(uid in newApiItemsMap && newApiItemsMap[uid]) {
        deletedItems := deletedItems + [oldApiItems[i]];
      }
    }
    assert oldApiItems[..|oldApiItems|] == oldApiItems;
  }

  // ---------- the report ----------

  /** Which resources are reported as deleted. */
  ghost predicate Deleted(apis: map<string, KubeAPI>, ignored: set<string>, cluster: Cluster, r: Resource) {
    && Split(r.groupVersion, '/')[0] !in ignored
    && '/' !in r.name
    && DiscoveryKey(r.groupVersion, r.kind) !in apis
    && LeftOver(cluster, r) != []
  }

  function DeletedEntry(cluster: Cluster, r: Resource): DeletedAPI {
    DeletedAPI(GVROf(r).group, r.kind, GVROf(r).version, r.name, Items(LeftOver(cluster, r)))
  }

  /** Positions of resources in ascending order: exactly those reported. */
  ghost predicate Selects(
    apis: map<string, KubeAPI>, ignored: set<string>, cluster: Cluster, rs: seq<Resource>, at: seq<nat>)
  {
    && (forall k, l :: 0 <= k < l < |at| ==> at[k] < at[l])
    && (forall k :: 0 <= k < |at| ==> at[k] < |rs|)
    && (forall i: nat :: i < |rs| ==> (i in at <==> Deleted(apis, ignored, cluster, rs[i])))
  }

  /** The report lists, in the order of discovery, one entry for each resource to report and nothing else. */
  ghost predicate IsDeletedReport(
    apis: map<string, KubeAPI>, ignored: set<string>, cluster: Cluster, rs: seq<Resource>, at: seq<nat>,
    report: seq<DeletedAPI>)
  {
    && Selects(apis, ignored, cluster, rs, at)
    && |report| == |at|
    && (forall k :: 0 <= k < |at| ==> report[k] == DeletedEntry(cluster, rs[at[k]]))
  }

  lemma ReportNext(
    apis: map<string, KubeAPI>, ignored: set<string>, cluster: Cluster, rs: seq<Resource>, at: seq<nat>,
    report: seq<DeletedAPI>, r: Resource)
    requires IsDeletedReport(apis, ignored, cluster, rs, at, report)
    ensures !Deleted(apis, ignored, cluster, r) ==> IsDeletedReport(apis, ignored, cluster, rs + [r], at, report)
    ensures Deleted(apis, ignored, cluster, r) ==>
      IsDeletedReport(apis, ignored, cluster, rs + [r], at + [|rs|], report + [DeletedEntry(cluster, r)])
  {
    hide Deleted, DeletedEntry;
    assert |rs| !in at;
  }

  /** Skipping a whole list because its group is ignored. */
  lemma {:induction false} ReportSkips(
    apis: map<string, KubeAPI>, ignored: set<string>, cluster: Cluster, rs: seq<Resource>, at: seq<nat>,
    report: seq<DeletedAPI>, more: seq<Resource>)
    requires IsDeletedReport(apis, ignored, cluster, rs, at, report)
    requires forall i :: 0 <= i < |more| ==> !Deleted(apis, ignored, cluster, more[i])
    ensures IsDeletedReport(apis, ignored, cluster, rs + more, at, report)
  {
    hide Deleted, DeletedEntry;
  }

  /** The body of the inner loop; None where the source goes on to the next resource. */
  method CheckDeleted(apis: map<string, KubeAPI>, cluster: Cluster, groupVersion: string, name: string, kind: string)
    returns (r: Option<DeletedAPI>)
    ensures var resource := Resource(groupVersion, name, kind);
      && (r.Some? <==> '/' !in name && DiscoveryKey(groupVersion, kind) !in apis && LeftOver(cluster, resource) != [])
      && (r.Some? ==> r.value == DeletedEntry(cluster, resource))
  {
    SplitWithoutSeparator(name, '/');
    if |Split(name, '/')| != 1 { return None; }
    var keyAPI := groupVersion + "/" + kind;
    if keyAPI in apis { return None; }
    var gvr := GVROf(Resource(groupVersion, name, kind));
    var items := cluster(gvr).items;
    if keyAPI in REPLACEMENTS {
      items := FixDeletedItemsList(cluster, items, REPLACEMENTS[keyAPI]);
    }
    if |items| > 0 {
      var listed := ListObjects(items);
      assert listed == Items(items);
      return Some(DeletedAPI(gvr.group, kind, gvr.version, name, listed));
    }
    return None;
  }

  ghost predicate ReportsDeleted(
    apis: map<string, KubeAPI>, ignored: set<string>, cluster: Cluster, rs: seq<Resource>, report: seq<DeletedAPI>)
  {
    exists at :: IsDeletedReport(apis, ignored, cluster, rs, at, report)
  }

  method FindDeleted(apis: map<string, KubeAPI>, ignored: set<string>, cluster: Cluster, lists: seq<ResourceList>)
    returns (report: seq<DeletedAPI>)
    ensures ReportsDeleted(apis, ignored, cluster, Flat(lists), report)
  {
    hide IsDeletedReport, LeftOver, DeletedEntry;
    report := [];
    ghost var at: seq<nat> := [];
    assert IsDeletedReport(apis, ignored, cluster, [], [], []) by { NothingReported(apis, ignored, cluster); }
    for l := 0 to |lists|
      invariant IsDeletedReport(apis, ignored, cluster, Flat(lists[..l]), at, report)
    {
      var list := lists[l];
      assert lists[..l + 1][..l] == lists[..l];
      if Split(list.groupVersion, '/')[0] in ignored {
        ReportSkips(apis, ignored, cluster, Flat(lists[..l]), at, report, FlatOne(list));
        continue;
      }
      assert Flat(lists[..l]) + FlatOne(list)[..0] == Flat(lists[..l]);
      for i := 0 to |list.resources|
        invariant IsDeletedReport(apis, ignored, cluster, Flat(lists[..l]) + FlatOne(list)[..i], at, report)
      {
        ghost var before := Flat(lists[..l]) + FlatOne(list)[..i];
        var entry := CheckDeleted(apis, cluster, list.groupVersion, list.resources[i].name, list.resources[i].kind);
        ReportNext(apis, ignored, cluster, before, at, report, FlatOne(list)[i]);
        assert before + [FlatOne(list)[i]] == Flat(lists[..l]) + FlatOne(list)[..i + 1];
        if entry.Some? {
          report, at := report + [entry.value], at + [|before|];
        }
      }
      assert FlatOne(list)[..|list.resources|] == FlatOne(list);
    }
    assert lists[..|lists|] == lists;
  }

  lemma NothingReported(apis: map<string, KubeAPI>, ignored: set<string>, cluster: Cluster)
    ensures IsDeletedReport(apis, ignored, cluster, [], [], [])
  {
  }

  /** As a set: an entry is in the report iff it is that of a resource to report. */
  lemma DeletedReportExact(
    apis: map<string, KubeAPI>, ignored: set<string>, cluster: Cluster, rs: seq<Resource>, report: seq<DeletedAPI>,
    e: DeletedAPI)
    requires ReportsDeleted(apis, ignored, cluster, rs, report)
    ensures e in report <==> exists r :: r in rs && Deleted(apis, ignored, cluster, r) && e == DeletedEntry(cluster, r)
  {
    hide Deleted, DeletedEntry;
    var at :| IsDeletedReport(apis, ignored, cluster, rs, at, report);
    if e in report {
      var k :| 0 <= k < |report| && report[k] == e;
      assert at[k] in at;
      assert rs[at[k]] in rs && Deleted(apis, ignored, cluster, rs[at[k]]);
    }
    if r :| r in rs && Deleted(apis, ignored, cluster, r) && e == DeletedEntry(cluster, r) {
      var i :| 0 <= i < |rs| && rs[i] == r;
      assert i in at;
      var k :| 0 <= k < |at| && at[k] == i;
      assert report[k] == e;
    }
  }

  /** An entry for this resource, with the objects left over and their names. */
  ghost predicate IsDeletedOf(
    apis: map<string, KubeAPI>, ignored: set<string>, cluster: Cluster, r: Resource, e: DeletedAPI)
  {
    && Split(r.groupVersion, '/')[0] !in ignored && '/' !in r.name
    && r.groupVersion + "/" + r.kind !in apis && |LeftOver(cluster, r)| > 0
    && e.group == ParseGroupVersion(r.groupVersion).group && e.version == ParseGroupVersion(r.groupVersion).version
    && e.kind == r.kind && e.name == r.name && ListsObjects(LeftOver(cluster, r), e.items)
  }

  lemma DeletedMeaning(
    apis: map<string, KubeAPI>, ignored: set<string>, cluster: Cluster, r: Resource, e: DeletedAPI)
    ensures IsDeletedOf(apis, ignored, cluster, r, e)
      <==> Deleted(apis, ignored, cluster, r) && e == DeletedEntry(cluster, r)
  {
    hide ListsObjects, Items, LeftOver, Split;
    ItemsMeaning(LeftOver(cluster, r), e.items);
  }

  /** The report as a set, in terms of the swagger map, discovery and the cluster. */
  lemma DeletedReportMeaning(
    apis: map<string, KubeAPI>, ignored: set<string>, cluster: Cluster, rs: seq<Resource>, report: seq<DeletedAPI>,
    e: DeletedAPI)
    requires ReportsDeleted(apis, ignored, cluster, rs, report)
    ensures e in report <==> exists r :: r in rs && IsDeletedOf(apis, ignored, cluster, r, e)
  {
    hide Deleted, DeletedEntry, IsDeletedOf, ReportsDeleted;
    DeletedReportExact(apis, ignored, cluster, rs, report, e);
    forall r | r in rs
      ensures IsDeletedOf(apis, ignored, cluster, r, e)
        <==> Deleted(apis, ignored, cluster, r) && e == DeletedEntry(cluster, r)
    {
      DeletedMeaning(apis, ignored, cluster, r, e);
    }
  }

  /** The report is determined: positions ascend, so there is only one. */
  lemma DeletedReportUnique(
    apis: map<string, KubeAPI>, ignored: set<string>, cluster: Cluster, rs: seq<Resource>,
    report: seq<DeletedAPI>, report': seq<DeletedAPI>)
    requires ReportsDeleted(apis, ignored, cluster, rs, report) && ReportsDeleted(apis, ignored, cluster, rs, report')
    ensures report == report'
  {
    hide Deleted, DeletedEntry;
    var at :| IsDeletedReport(apis, ignored, cluster, rs, at, report);
    var at' :| IsDeletedReport(apis, ignored, cluster, rs, at', report');
    forall i: nat ensures i in at <==> i in at' {
      assert i in at ==> i < |rs|;
      assert i in at' ==> i < |rs|;
    }
    AscendingUnique(at, at');
  }

  lemma {:induction false} AscendingUnique(s: seq<nat>, t: seq<nat>)
    requires forall k, l :: 0 <= k < l < |s| ==> s[k] < s[l]
    requires forall k, l :: 0 <= k < l < |t| ==> t[k] < t[l]
    requires forall i: nat :: i in s <==> i in t
    ensures s == t
  {
    assert s != [] ==> s[0] in t;
    assert t != [] ==> t[0] in s;
    if s != [] {
      assert s[0] == t[0];
      forall i: nat ensures i in s[1..] <==> i in t[1..] {
        assert i in s[1..] <==> i in s && i != s[0];
        assert i in t[1..] <==> i in t && i != t[0];
      }
      AscendingUnique(s[1..], t[1..]);
      assert s == [s[0]] + s[1..] && t == [t[0]] + t[1..];
    }
  }

  // ---------- both reports together ----------

  datatype Results = Results(deprecated: seq<DeprecatedAPI>, deleted: seq<DeletedAPI>)

  /** The groups to ignore, as a set. */
  ghost predicate IsIgnoredSet(cluster: Cluster, lists: seq<ResourceList>, groups: set<string>)
    requires SlashesPresent(lists)
  {
    forall g :: g in groups <==> IsIgnored(cluster, lists, g)
  }

  /** getResults. Discovery is asked twice; the two answers need not agree. */
  method GetResults(
    apis: map<string, KubeAPI>, cluster: Cluster, first: Discovery, second: Discovery)
    returns (res: Results)
    requires SlashesPresent(second.lists)
    ensures exists pr :: IsDiscovered(first, pr) && ReportsDeprecated(apis, pr, cluster, res.deprecated)
    ensures exists ignored ::
      && IsIgnoredSet(cluster, second.lists, ignored)
      && ReportsDeleted(apis, ignored, cluster, Flat(second.lists), res.deleted)
  {
    hide ReportsDeprecated, ReportsDeleted, IsDiscovered, IsIgnored;
    var resourceAndGV := DiscoverResourceNameAndPreferredGV(first);
    var deprecated := FindDeprecated(apis, resourceAndGV, cluster);
    var ignore := CollectIgnored(cluster, second.lists);
    assert IsIgnoredSet(cluster, second.lists, ignore.groups);
    var deleted := FindDeleted(apis, ignore.groups, cluster, second.lists);
    res := Results(deprecated, deleted);
  }

  ghost predicate SameApi(e: DeprecatedAPI, d: DeletedAPI) {
    e.group == d.group && e.version == d.version && e.kind == d.kind
  }

  /** An API in both reports can only come from a group version that starts with its one slash. */
  lemma BothOnlyIfRooted(
    apis: map<string, KubeAPI>, pr: map<string, ResourceStruct>, rs1: seq<Resource>, cluster: Cluster, api: KubeAPI,
    ignored: set<string>, r: Resource)
    requires KeysPrinted(apis) && MapsToLast(rs1, pr) && KindsSlashFree(rs1)
    requires api.Key() in apis && Deprecated(api, pr, cluster) && '/' !in api.kind
    requires Deleted(apis, ignored, cluster, r)
    requires api.group == GVROf(r).group && api.version == GVROf(r).version && api.kind == r.kind
    ensures Rooted(r.groupVersion)
  {
    ParsedKeyAgrees(r.groupVersion, r.kind);
    assert !WellFormed(r.groupVersion);
    PreferredIsOwn(api, rs1, pr);
    MalformedShapes(r.groupVersion);
  }

  lemma MalformedShapes(gv: string)
    requires !WellFormed(gv)
    ensures Rooted(gv) <==> ParseGroupVersion(gv) != GroupVersion("", "")
    ensures Rooted(gv) ==> ParseGroupVersion(gv) == GroupVersion("", gv[1..]) && Split(gv, '/')[0] == ""
  {
    JoinOfSplit(gv, '/');
    SplitPartsAreFree(gv, '/');
    var parts := Split(gv, '/');
    if |parts| == 2 {
      assert gv == "/" + parts[1];
      assert gv[1..] == parts[1];
    } else {
      if Rooted(gv) {
        assert gv == "" + ['/'] + gv[1..];
        SplitAtSeparator("", gv[1..], '/');
        SplitWithoutSeparator(gv[1..], '/');
      }
    }
  }

  /** No group, version and kind is in both reports, unless discovery lists a rooted group version. */
  lemma NeverBoth(
    apis: map<string, KubeAPI>, pr: map<string, ResourceStruct>, rs1: seq<Resource>, cluster: Cluster,
    deprecated: seq<DeprecatedAPI>,
    ignored: set<string>, rs2: seq<Resource>, deleted: seq<DeletedAPI>)
    requires KeysPrinted(apis) && MapsToLast(rs1, pr) && KindsSlashFree(rs1)
    requires forall k :: k in apis ==> '/' !in apis[k].kind
    requires ReportsDeprecated(apis, pr, cluster, deprecated)
    requires ReportsDeleted(apis, ignored, cluster, rs2, deleted)
    requires forall i :: 0 <= i < |rs2| ==> !Rooted(rs2[i].groupVersion)
    ensures forall e, d :: e in deprecated && d in deleted ==> !SameApi(e, d)
  {
    var keys :| IsDeprecatedReport(apis, pr, cluster, keys, deprecated);
    forall e, d | e in deprecated && d in deleted ensures !SameApi(e, d) {
      if SameApi(e, d) {
        var i :| 0 <= i < |deprecated| && deprecated[i] == e;
        DeletedReportExact(apis, ignored, cluster, rs2, deleted, d);
        var r :| r in rs2 && Deleted(apis, ignored, cluster, r) && d == DeletedEntry(cluster, r);
        assert keys[i] in keys;
        BothOnlyIfRooted(apis, pr, rs1, cluster, apis[keys[i]], ignored, r);
        assert false;
      }
    }
  }

  // ---------- when an API can be in both ----------

  /** getResults reports the API under key as deprecated and the resource r, of the same names, as deleted. */
  ghost predicate BothReported(
    apis: map<string, KubeAPI>, cluster: Cluster, first: Discovery, second: Discovery, key: string, r: Resource)
  {
    && KeysPrinted(apis) && (forall k :: k in apis ==> '/' !in apis[k].kind) && KindsSlashFree(Flat(first.lists))
    && SlashesPresent(second.lists) && r in Flat(second.lists)
    && key in apis && ReportedDeprecated(apis[key], cluster, first) && ReportedDeleted(apis, cluster, second, r)
    && apis[key].group == GVROf(r).group && apis[key].version == GVROf(r).version && apis[key].kind == r.kind
  }

  ghost predicate ReportedDeprecated(api: KubeAPI, cluster: Cluster, first: Discovery) {
    exists pr :: IsDiscovered(first, pr) && Deprecated(api, pr, cluster)
  }

  ghost predicate ReportedDeleted(apis: map<string, KubeAPI>, cluster: Cluster, second: Discovery, r: Resource)
    requires SlashesPresent(second.lists)
  {
    exists ignored :: IsIgnoredSet(cluster, second.lists, ignored) && Deleted(apis, ignored, cluster, r)
  }

  /** Some swagger file, cluster and pair of discovery answers put it into both reports. */
  ghost predicate CanBeBoth(r: Resource) {
    exists apis, cluster, first, second, key :: BothReported(apis, cluster, first, second, key, r)
  }

  /** The same if discovery answers alike both times. */
  ghost predicate CanBeBothInOne(r: Resource) {
    exists apis, cluster, answer, key :: BothReported(apis, cluster, answer, answer, key, r)
  }

  lemma {:induction false} FlatMembers(lists: seq<ResourceList>, r: Resource)
    requires r in Flat(lists)
    ensures exists l :: 0 <= l < |lists| && lists[l].groupVersion == r.groupVersion
  {
    var last := lists[|lists| - 1];
    if r in FlatOne(last) {
      assert last.groupVersion == r.groupVersion;
    } else {
      FlatMembers(lists[..|lists| - 1], r);
    }
  }

  lemma ContainsAfterSlash(v: string, part: string)
    requires part != "" && part[0] != '/'
    ensures Contains("/" + v, part) <==> Contains(v, part)
  {
    var s := "/" + v;
    assert s[1..] == v;
    assert |part| <= |s| ==> s[..|part|][0] == '/';
  }

  lemma SpecialAfterSlash(gv: string)
    requires Rooted(gv)
    ensures OfSpecialGroup(gv) <==> OfSpecialGroup(gv[1..])
  {
    assert gv == "/" + gv[1..];
    ContainsAfterSlash(gv[1..], CRD_GROUP);
    ContainsAfterSlash(gv[1..], API_REGISTRATION);
  }

  lemma ServedUnderOwn(api: KubeAPI, rs: seq<Resource>, pr: map<string, ResourceStruct>)
    requires MapsToLast(rs, pr) && KindsSlashFree(rs) && Served(api, pr) && '/' !in api.kind
    ensures exists r :: r in rs && r.groupVersion == PrintGV(api.group, api.version)
  {
    hide Split, ParseGroupVersion;
    PreferredIsOwn(api, rs, pr);
    var i :| LastWithKey(rs, i, api.Key()) && pr[api.Key()] == ResourceStruct(rs[i].groupVersion, rs[i].name);
    assert rs[i] in rs;
  }

  /** Being in both needs a rooted group version, and discovery to list it without its slash as well. */
  lemma BothNeedsTwo(
    apis: map<string, KubeAPI>, cluster: Cluster, first: Discovery, second: Discovery, key: string, r: Resource)
    requires BothReported(apis, cluster, first, second, key, r)
    ensures Rooted(r.groupVersion) && '/' !in r.name
    ensures exists l :: 0 <= l < |first.lists| && first.lists[l].groupVersion == r.groupVersion[1..]
  {
    hide LeftOver, Split, ParseGroupVersion, Rooted, MapsToLast, IsIgnoredSet, OfSpecialGroup;
    var api := apis[key];
    assert api.Key() == key;
    var pr :| IsDiscovered(first, pr) && Deprecated(api, pr, cluster);
    var ignored :| IsIgnoredSet(cluster, second.lists, ignored) && Deleted(apis, ignored, cluster, r);
    var rs := if first.notFound then [] else Flat(first.lists);
    BothOnlyIfRooted(apis, pr, rs, cluster, api, ignored, r);
    RootedParses(r.groupVersion);
    ServedUnderOwn(api, rs, pr);
    var own :| own in rs && own.groupVersion == PrintGV(api.group, api.version);
    FlatMembers(first.lists, own);
  }

  lemma BothHasSlashes(
    apis: map<string, KubeAPI>, cluster: Cluster, answer: Discovery, key: string, r: Resource)
    requires BothReported(apis, cluster, answer, answer, key, r)
    ensures SlashesPresent(answer.lists)
  {
  }

  lemma RootedParses(gv: string)
    requires Rooted(gv)
    ensures ParseGroupVersion(gv) == GroupVersion("", gv[1..])
    ensures ParseGroupVersion(gv[1..]) == GroupVersion("", gv[1..])
    ensures Split(gv, '/') == ["", gv[1..]] && Split(gv[1..], '/') == [gv[1..]]
  {
    var v := gv[1..];
    assert gv == "" + ['/'] + v;
    SplitAtSeparator("", v, '/');
    SplitWithoutSeparator(v, '/');
  }

  /** A cluster with one object, of every resource asked for. */
  function OneObject(g: GVR): Listing {
    Listing(false, [Object("object", "", "uid", None, None)])
  }

  lemma NothingIgnored(lists: seq<ResourceList>)
    requires SlashesPresent(lists)
    ensures IsIgnoredSet(OneObject, lists, {})
  {
    forall l | 0 <= l < |lists| ensures Ignores(OneObject, lists, l) == {} {
      assert CrdGroups(OneObject, "") == {};
    }
  }

  const OTHER_NAME := "objects"

  /** The list that serves the API under its printed key. */
  function OwnList(gv: string, kind: string): ResourceList
    requires gv != ""
  {
    ResourceList(gv[1..], [Listed(OTHER_NAME, kind)])
  }

  function RootedList(r: Resource): ResourceList {
    ResourceList(r.groupVersion, [Listed(r.name, r.kind)])
  }

  function RootedApi(r: Resource): KubeAPI
    requires r.groupVersion != ""
  {
    KubeAPI("deprecated", "", r.kind, r.groupVersion[1..], true)
  }

  lemma RootedIsDeprecated(r: Resource, more: seq<Resource>, first: Discovery)
    requires Rooted(r.groupVersion) && '/' !in r.kind
    requires !first.notFound && Flat(first.lists) == [Resource(r.groupVersion[1..], OTHER_NAME, r.kind)] + more
    requires more == [] || more == [r]
    ensures ReportedDeprecated(RootedApi(r), OneObject, first)
  {
    var v := r.groupVersion[1..];
    var own, key, rooted := Resource(v, OTHER_NAME, r.kind), v + "/" + r.kind, r.groupVersion + "/" + r.kind;
    var rs := [own] + more;
    assert |rooted| == |key| + 1;
    RootedParses(r.groupVersion);
    var one := map[key := ResourceStruct(v, OTHER_NAME)];
    var pr := if more == [] then one else one[rooted := ResourceStruct(r.groupVersion, r.name)];
    assert LastWithKey(rs, 0, key);
    assert more == [r] ==> LastWithKey(rs, 1, rooted);
    assert MapsToLast(rs, pr);
    assert RootedApi(r).Key() == key;
    assert Deprecated(RootedApi(r), pr, OneObject);
  }

  lemma RootedIsDeleted(r: Resource, second: Discovery)
    requires Rooted(r.groupVersion) && '/' !in r.name && SlashesPresent(second.lists)
    ensures ReportedDeleted(map[RootedApi(r).Key() := RootedApi(r)], OneObject, second, r)
  {
    var key := DiscoveryKey(r.groupVersion, r.kind);
    assert key[0] == '/' && |key| == |RootedApi(r).Key()| + 1;
    NothingIgnored(second.lists);
    assert LeftOver(OneObject, r) != [];
    assert Deleted(map[RootedApi(r).Key() := RootedApi(r)], {}, OneObject, r);
  }

  lemma TwoLists(r: Resource)
    requires r.groupVersion != ""
    ensures var own := Resource(r.groupVersion[1..], OTHER_NAME, r.kind);
      && Flat([OwnList(r.groupVersion, r.kind)]) == [own]
      && Flat([RootedList(r)]) == [r]
      && Flat([OwnList(r.groupVersion, r.kind), RootedList(r)]) == [own, r]
  {
    var a, b := OwnList(r.groupVersion, r.kind), RootedList(r);
    assert [a, b][..1] == [a] && [a][..0] == [] && [b][..0] == [];
    assert FlatOne(a) == [Resource(r.groupVersion[1..], OTHER_NAME, r.kind)];
    assert FlatOne(b) == [r];
    assert Flat([a]) == Flat([a][..0]) + FlatOne(a);
    assert Flat([b]) == Flat([b][..0]) + FlatOne(b);
    assert Flat([a, b]) == Flat([a, b][..1]) + FlatOne(b);
  }

  lemma RootedIsBoth(r: Resource, more: seq<Resource>, first: Discovery, second: Discovery)
    requires Rooted(r.groupVersion) && '/' !in r.name && '/' !in r.kind
    requires !first.notFound && Flat(first.lists) == [Resource(r.groupVersion[1..], OTHER_NAME, r.kind)] + more
    requires more == [] || more == [r]
    requires SlashesPresent(second.lists) && r in Flat(second.lists)
    ensures var api := RootedApi(r);
      BothReported(map[api.Key() := api], OneObject, first, second, api.Key(), r)
  {
    hide ReportedDeprecated, ReportedDeleted;
    RootedIsDeprecated(r, more, first);
    RootedIsDeleted(r, second);
    RootedParses(r.groupVersion);
  }

  /**
   * A resource whose kind has no slash can be in both reports iff its group version is rooted and its
   * name has no slash.
   */
  lemma CanBeBothIff(r: Resource)
    requires '/' !in r.kind
    ensures CanBeBoth(r) <==> Rooted(r.groupVersion) && '/' !in r.name
  {
    hide BothReported;
    if apis, cluster, first, second, key :| BothReported(apis, cluster, first, second, key, r) {
      BothNeedsTwo(apis, cluster, first, second, key, r);
    }
    if Rooted(r.groupVersion) && '/' !in r.name {
      var first := Discovery(false, [OwnList(r.groupVersion, r.kind)]);
      var second := Discovery(false, [RootedList(r)]);
      TwoLists(r);
      RootedParses(r.groupVersion);
      RootedIsBoth(r, [], first, second);
    }
  }

  /**
   * If discovery answers alike both times, the group version must in addition not mention the two special
   * API groups: without its slash it could not be cut.
   */
  lemma CanBeBothInOneIff(r: Resource)
    requires '/' !in r.kind
    ensures CanBeBothInOne(r) <==> Rooted(r.groupVersion) && '/' !in r.name && !OfSpecialGroup(r.groupVersion)
  {
    hide BothReported, OfSpecialGroup;
    if apis, cluster, answer, key :| BothReported(apis, cluster, answer, answer, key, r) {
      BothNeedsTwo(apis, cluster, answer, answer, key, r);
      RootedParses(r.groupVersion);
      SpecialAfterSlash(r.groupVersion);
      BothHasSlashes(apis, cluster, answer, key, r);
    }
    if Rooted(r.groupVersion) && '/' !in r.name && !OfSpecialGroup(r.groupVersion) {
      var answer := Discovery(false, [OwnList(r.groupVersion, r.kind), RootedList(r)]);
      TwoLists(r);
      RootedParses(r.groupVersion);
      SpecialAfterSlash(r.groupVersion);
      RootedIsBoth(r, [r], answer, answer);
    }
  }
}
