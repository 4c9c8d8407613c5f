/** The reports on deprecated and deleted APIs. */
module ApiReports {
  import opened ApiKeys
  import opened Options
  import opened Text

  // ---------- the data ----------

  datatype GVK = GVK(group: string, version: string, kind: string)

  /** A swagger definition as far as it is read. */
  datatype Definition = Definition(gvks: Option<seq<GVK>>, description: Option<string>)

  datatype KubeAPI = KubeAPI(description: string, group: string, kind: string, version: string, deprecated: bool) {
    function Key(): string {
      PrintGVK(group, version, kind)
    }
  }

  /** One API resource of discovery, with the group version it is listed under. */
  datatype Resource = Resource(groupVersion: string, name: string, kind: string)

  /** A resource as a list of discovery holds it. */
  datatype Listed = Listed(name: string, kind: string)

  datatype ResourceList = ResourceList(groupVersion: string, resources: seq<Listed>)

  /** ServerPreferredResources: its lists, and whether it failed with "not found". */
  datatype Discovery = Discovery(notFound: bool, lists: seq<ResourceList>)

  datatype ResourceStruct = ResourceStruct(groupVersion: string, name: string)

  datatype GVR = GVR(group: string, version: string, resource: string)

  datatype Object = Object(
    name: string, namespace: string, uid: string, specGroup: Option<string>, serviceName: Option<string>)

  /** The cluster's answer to a list request. */
  datatype Listing = Listing(notFound: bool, items: seq<Object>)

  type Cluster = GVR -> Listing

  datatype Item = ScopedObject(name: string, namespace: string) | GlobalObject(name: string)

  datatype DeprecatedAPI = DeprecatedAPI(
    description: string, group: string, kind: string, version: string, name: string, items: seq<Item>)

  datatype DeletedAPI = DeletedAPI(group: string, kind: string, version: string, name: string, items: seq<Item>)

  const CRD_GROUP := "apiextensions.k8s.io"
  const API_REGISTRATION := "apiregistration.k8s.io"

  const REPLACEMENTS: map<string, Resource> :=
    map["extensions/v1beta1/Ingress" := Resource("networking.k8s.io/v1", "ingresses", "Ingress")]

  // ---------- the swagger map ----------

  function Lower(s: string): string {
    seq(|s|, i requires 0 <= i < |s| => if 'A' <= s[i] <= 'Z' then s[i] - 'A' + 'a' else s[i])
  }

  /** getKubeAPIValues: only a definition with a kind and a non-empty description is an API object. */
  function Value(d: Definition): Option<KubeAPI>
    requires d.gvks.Some? ==> d.gvks.value != []
  {
    if d.gvks.None? || d.description.None? || d.description.value == "" then None
    else
      var gvk := d.gvks.value[0];
      var deprecated := Contains(Lower(d.description.value), "deprecated");
      Some(KubeAPI(d.description.value, gvk.group, gvk.kind, gvk.version, deprecated))
  }

  /** The text holds the word "deprecated" at p, in letters of any case. */
  predicate MentionsAt(text: string, p: nat) {
    p + 10 <= |text|
    && forall k :: 0 <= k < 10 ==>
         text[p + k] == "deprecated"[k] || text[p + k] as int == "deprecated"[k] as int - 32
  }

  lemma MentionsMeaning(text: string, p: nat)
    ensures OccursAt(Lower(text), "deprecated", p) <==> MentionsAt(text, p)
  {
    var low, word := Lower(text), "deprecated";
    if p + 10 <= |text| {
      assert |low[p..p + 10]| == 10;
      assert low[p..p + 10] == word <==> forall k :: 0 <= k < 10 ==> low[p..p + 10][k] == word[k];
      forall k | 0 <= k < 10
        ensures low[p..p + 10][k] == word[k] <==> text[p + k] == word[k] || text[p + k] as int == word[k] as int - 32
      {
        assert low[p..p + 10][k] == low[p + k];
      }
    }
  }

  /** Which definitions are API objects, and what is kept of them. */
  lemma ValueMeaning(d: Definition, api: KubeAPI)
    requires d.gvks.Some? ==> d.gvks.value != []
    ensures Value(d) == Some(api) <==>
      && d.gvks.Some? && d.description.Some? && d.description.value != ""
      && api.description == d.description.value
      && api.group == d.gvks.value[0].group && api.version == d.gvks.value[0].version
      && api.kind == d.gvks.value[0].kind
      && (api.deprecated <==> exists p: nat :: MentionsAt(d.description.value, p))
  {
    hide MentionsAt, OccursAt, Contains;
    if d.description.Some? {
      var text := d.description.value;
      ContainsMeaning(Lower(text), "deprecated");
      forall p: nat ensures OccursAt(Lower(text), "deprecated", p) <==> MentionsAt(text, p) {
        MentionsMeaning(text, p);
      }
    }
  }

  /** Every API is stored under its own printed key. */
  ghost predicate KeysPrinted(apis: map<string, KubeAPI>) {
    forall k :: k in apis ==> apis[k].Key() == k
  }

  ghost predicate GvksPresent(definitions: map<string, Definition>) {
    forall k :: k in definitions && definitions[k].gvks.Some? ==> definitions[k].gvks.value != []
  }

  /** PopulateKubeAPIMap on parsed definitions, iterated in any order. */
  method PopulateKubeAPIMap(definitions: map<string, Definition>) returns (apis: map<string, KubeAPI>)
    requires GvksPresent(definitions)
    ensures KeysPrinted(apis)
    ensures forall d :: d in definitions && Value(definitions[d]).Some? ==> Value(definitions[d]).value.Key() in apis
    ensures forall k :: k in apis ==> exists d :: d in definitions && Value(definitions[d]) == Some(apis[k])
  {
    apis := map[];
    var todo := definitions.Keys;
    while todo != {}
      invariant todo <= definitions.Keys && KeysPrinted(apis)
      invariant forall d :: d in definitions.Keys - todo && Value(definitions[d]).Some? ==>
        Value(definitions[d]).value.Key() in apis
      invariant forall k :: k in apis ==> exists d :: d in definitions && Value(definitions[d]) == Some(apis[k])
      decreases |todo|
    {
      var k :| k in todo;
      match Value(definitions[k]) {
        case Some(api) =>
          var name := api.version + "/" + api.kind;
          if api.group != "" {
            name := api.group + "/" + api.version + "/" + api.kind;
          }
          apis := apis[name := api];
        case None =>
      }
      todo := todo - {k};
    }
  }

  // ---------- discovery ----------

  /** The resources of all lists, in order. */
  function Flat(lists: seq<ResourceList>): seq<Resource> {
    if lists == [] then [] else Flat(lists[..|lists| - 1]) + FlatOne(lists[|lists| - 1])
  }

  function FlatOne(list: ResourceList): (r: seq<Resource>)
    ensures |r| == |list.resources|
  {
    seq(|list.resources|, i requires 0 <= i < |list.resources| =>
      Resource(list.groupVersion, list.resources[i].name, list.resources[i].kind))
  }

  /** The lists one after the other, each with its resources in order. */
  lemma {:induction false} FlatMeaning(a: seq<ResourceList>, b: seq<ResourceList>, list: ResourceList)
    ensures Flat(a + b) == Flat(a) + Flat(b)
    ensures |Flat([list])| == |list.resources|
    ensures forall i :: 0 <= i < |list.resources| ==>
      Flat([list])[i] == Resource(list.groupVersion, list.resources[i].name, list.resources[i].kind)
  {
    assert [list][..0] == [];
    assert Flat([list]) == Flat([]) + FlatOne(list);
    if b == [] {
      assert a + b == a;
    } else {
      var m := |b| - 1;
      FlatMeaning(a, b[..m], list);
      assert (a + b)[..|a + b| - 1] == a + b[..m] && (a + b)[|a + b| - 1] == b[m];
    }
  }

  /** pr maps the key of every resource to the last one listed with it, and nothing else. */
  ghost predicate MapsToLast(rs: seq<Resource>, pr: map<string, ResourceStruct>) {
    && (forall i :: 0 <= i < |rs| ==> DiscoveryKey(rs[i].groupVersion, rs[i].kind) in pr)
    && (forall k :: k in pr ==>
          exists i :: LastWithKey(rs, i, k) && pr[k] == ResourceStruct(rs[i].groupVersion, rs[i].name))
  }

  ghost predicate LastWithKey(rs: seq<Resource>, i: int, k: string) {
    && 0 <= i < |rs| && DiscoveryKey(rs[i].groupVersion, rs[i].kind) == k
    && forall j :: i < j < |rs| ==> DiscoveryKey(rs[j].groupVersion, rs[j].kind) != k
  }

  lemma MapsToLastNext(rs: seq<Resource>, pr: map<string, ResourceStruct>, r: Resource)
    requires MapsToLast(rs, pr)
    ensures MapsToLast(rs + [r], pr[DiscoveryKey(r.groupVersion, r.kind) := ResourceStruct(r.groupVersion, r.name)])
  {
    var k0 := DiscoveryKey(r.groupVersion, r.kind);
    hide DiscoveryKey;
    var pr' := pr[k0 := ResourceStruct(r.groupVersion, r.name)];
    var rs' := rs + [r];
    forall k | k in pr'
      ensures exists i :: LastWithKey(rs', i, k) && pr'[k] == ResourceStruct(rs'[i].groupVersion, rs'[i].name)
    {
      if k == k0 {
        assert LastWithKey(rs', |rs|, k);
      } else {
        var i :| LastWithKey(rs, i, k) && pr[k] == ResourceStruct(rs[i].groupVersion, rs[i].name);
        assert LastWithKey(rs', i, k);
      }
    }
  }

  /** What discovery knows: nothing if it was not found. */
  ghost predicate IsDiscovered(d: Discovery, pr: map<string, ResourceStruct>) {
    MapsToLast(if d.notFound then [] else Flat(d.lists), pr)
  }

  /** That determines the map. */
  lemma DiscoveredUnique(rs: seq<Resource>, pr: map<string, ResourceStruct>, pr': map<string, ResourceStruct>)
    requires MapsToLast(rs, pr) && MapsToLast(rs, pr')
    ensures pr == pr'
  {
    hide DiscoveryKey;
    forall k ensures k in pr <==> k in pr' {
    }
    forall k | k in pr && k in pr' ensures pr[k] == pr'[k] {
      var i :| LastWithKey(rs, i, k) && pr[k] == ResourceStruct(rs[i].groupVersion, rs[i].name);
      var j :| LastWithKey(rs, j, k) && pr'[k] == ResourceStruct(rs[j].groupVersion, rs[j].name);
      assert i == j;
    }
  }

  lemma NothingListed()
    ensures MapsToLast([], map[])
  {
  }

  method DiscoverResourceNameAndPreferredGV(d: Discovery) returns (pr: map<string, ResourceStruct>)
    ensures IsDiscovered(d, pr)
    ensures d.notFound ==> pr == map[]
    ensures !d.notFound ==> MapsToLast(Flat(d.lists), pr)
  {
    hide MapsToLast;
    pr := map[];
    NothingListed();
    if d.notFound { return; }
    for l := 0 to |d.lists|
      invariant MapsToLast(Flat(d.lists[..l]), pr)
    {
      var rl := d.lists[l];
      assert d.lists[..l + 1][..l] == d.lists[..l];
      assert Flat(d.lists[..l]) + FlatOne(rl)[..0] == Flat(d.lists[..l]);
      for i := 0 to |rl.resources|
        invariant MapsToLast(Flat(d.lists[..l]) + FlatOne(rl)[..i], pr)
      {
        var gvk := rl.groupVersion + "/" + rl.resources[i].kind;
        MapsToLastNext(Flat(d.lists[..l]) + FlatOne(rl)[..i], pr, FlatOne(rl)[i]);
        assert Flat(d.lists[..l]) + FlatOne(rl)[..i] + [FlatOne(rl)[i]] == Flat(d.lists[..l]) + FlatOne(rl)[..i + 1];
        pr := pr[gvk := ResourceStruct(rl.groupVersion, rl.resources[i].name)];
      }
      assert FlatOne(rl)[..|rl.resources|] == FlatOne(rl);
    }
    assert d.lists[..|d.lists|] == d.lists;
  }

  // ---------- deprecated APIs ----------

  function ItemOf(o: Object): Item {
    if o.namespace != "" then ScopedObject(o.name, o.namespace) else GlobalObject(o.name)
  }

  method ListObjects(items: seq<Object>) returns (r: seq<Item>)
    ensures |r| == |items| && forall i :: 0 <= i < |items| ==> r[i] == ItemOf(items[i])
  {
    r := [];
    for i := 0 to |items|
      invariant |r| == i && forall j :: 0 <= j < i ==> r[j] == ItemOf(items[j])
    {
      var d := items[i];
      if d.namespace != "" {
        r := r + [ScopedObject(d.name, d.namespace)];
      } else {
        r := r + [GlobalObject(d.name)];
      }
    }
  }

  function Items(objects: seq<Object>): (r: seq<Item>)
    ensures |r| == |objects| && forall i :: 0 <= i < |objects| ==> r[i] == ItemOf(objects[i])
  {
    seq(|objects|, i requires 0 <= i < |objects| => ItemOf(objects[i]))
  }

  function OwnGVR(api: KubeAPI, name: string): GVR {
    GVR(api.group, api.version, name)
  }

  function PreferredGVR(r: ResourceStruct): GVR {
    var gv := ParseGroupVersion(r.groupVersion);
    GVR(gv.group, gv.version, r.name)
  }

  /** Found in discovery, with a resource name and a group version. */
  ghost predicate Served(api: KubeAPI, pr: map<string, ResourceStruct>) {
    api.Key() in pr && pr[api.Key()].name != "" && pr[api.Key()].groupVersion != ""
  }

  /** Which APIs are reported as deprecated. */
  ghost predicate Deprecated(api: KubeAPI, pr: map<string, ResourceStruct>, cluster: Cluster) {
    && api.deprecated && Served(api, pr)
    && var own, preferred := OwnGVR(api, pr[api.Key()].name), PreferredGVR(pr[api.Key()]);
      && !cluster(own).notFound && cluster(own).items != []
      && (own != preferred ==> |cluster(own).items| != |cluster(preferred).items|)
  }

  /** The entry; its name is never filled in by the source. */
  ghost predicate IsDeprecatedEntry(api: KubeAPI, pr: map<string, ResourceStruct>, cluster: Cluster, e: DeprecatedAPI) {
    api.Key() in pr &&
    e == DeprecatedAPI(api.description, api.group, api.kind, api.version, "",
                       Items(cluster(OwnGVR(api, pr[api.Key()].name)).items))
  }

  /** The body of the first loop of getResults; None stands for every way of skipping. */
  method CheckDeprecated(
    dpa: KubeAPI, pr: map<string, ResourceStruct>, cluster: Cluster)
    returns (r: Option<DeprecatedAPI>)
    ensures r.Some? <==> Deprecated(dpa, pr, cluster)
    ensures r.Some? ==> IsDeprecatedEntry(dpa, pr, cluster, r.value)
  {
    if !dpa.deprecated { return None; }
    var group, version, kind := dpa.group, dpa.version, dpa.kind;
    var gvk := if group != "" then group + "/" + version + "/" + kind else version + "/" + kind;
    if gvk !in pr { return None; }
    var prefResource := pr[gvk];
    if prefResource.name == "" || prefResource.groupVersion == "" { return None; }
    var gv := ParseGroupVersion(prefResource.groupVersion);
    var gvrPreferred := GVR(gv.group, gv.version, prefResource.name);
    var gvr := GVR(group, version, prefResource.name);
    var list := cluster(gvr);
    if list.notFound { return None; }
    if gvr != gvrPreferred {
      var listPref := cluster(gvrPreferred);
      if |list.items| == |listPref.items| { return None; }
    }
    if |list.items| > 0 {
      var items := ListObjects(list.items);
      assert items == Items(list.items);
      return Some(DeprecatedAPI(dpa.description, group, kind, version, "", items));
    }
    return None;
  }

  /** The report has one entry for each deprecated API, in some order of the map's keys. */
  ghost predicate IsDeprecatedReport(
    apis: map<string, KubeAPI>, pr: map<string, ResourceStruct>, cluster: Cluster, keys: seq<string>,
    report: seq<DeprecatedAPI>)
  {
    && |report| == |keys|
    && (forall i :: 0 <= i < |keys| ==> keys[i] in apis && IsDeprecatedEntry(apis[keys[i]], pr, cluster, report[i]))
    && (forall i, j :: 0 <= i < j < |keys| ==> keys[i] != keys[j])
    && (forall k :: k in keys <==> k in apis && Deprecated(apis[k], pr, cluster))
  }

  ghost predicate ReportsDeprecated(
    apis: map<string, KubeAPI>, pr: map<string, ResourceStruct>, cluster: Cluster, report: seq<DeprecatedAPI>)
  {
    exists keys :: IsDeprecatedReport(apis, pr, cluster, keys, report)
  }

  method FindDeprecated(apis: map<string, KubeAPI>, pr: map<string, ResourceStruct>, cluster: Cluster)
    returns (report: seq<DeprecatedAPI>)
    ensures ReportsDeprecated(apis, pr, cluster, report)
  {
    hide Deprecated, IsDeprecatedEntry;
    report := [];
    ghost var keys: seq<string> := [];
    var todo := apis.Keys;
    while todo != {}
      invariant todo <= apis.Keys && |report| == |keys|
      invariant forall i :: 0 <= i < |keys| ==>
        keys[i] in apis && IsDeprecatedEntry(apis[keys[i]], pr, cluster, report[i])
      invariant forall i, j :: 0 <= i < j < |keys| ==> keys[i] != keys[j]
      invariant forall k :: k in keys <==> k in apis && k !in todo && Deprecated(apis[k], pr, cluster)
      decreases |todo|
    {
      var k :| k in todo;
      var entry := CheckDeprecated(apis[k], pr, cluster);
      if entry.Some? {
        report, keys := report + [entry.value], keys + [k];
      }
      todo := todo - {k};
    }
    assert IsDeprecatedReport(apis, pr, cluster, keys, report);
  }

  /** One item for each object: its name, and its namespace if it has one. */
  ghost predicate ListsObjects(objects: seq<Object>, items: seq<Item>) {
    && |items| == |objects|
    && forall i :: 0 <= i < |objects| ==>
         && (objects[i].namespace == "" ==> items[i] == GlobalObject(objects[i].name))
         && (objects[i].namespace != "" ==> items[i] == ScopedObject(objects[i].name, objects[i].namespace))
  }

  lemma ItemsMeaning(objects: seq<Object>, items: seq<Item>)
    ensures ListsObjects(objects, items) <==> items == Items(objects)
  {
    forall i | 0 <= i < |objects|
      ensures Items(objects)[i] ==
        if objects[i].namespace == "" then GlobalObject(objects[i].name)
        else ScopedObject(objects[i].name, objects[i].namespace)
    {
    }
  }

  /**
   * An entry for this API: it is deprecated, discovery has a resource of its key, there are objects under
   * its own group and version, and not equally many under the group version discovery prefers, if that is
   * another one.
   */
  ghost predicate IsEntryOf(api: KubeAPI, pr: map<string, ResourceStruct>, cluster: Cluster, e: DeprecatedAPI) {
    var key := (if api.group == "" then "" else api.group + "/") + api.version + "/" + api.kind;
    && api.deprecated && key in pr && pr[key].name != "" && pr[key].groupVersion != ""
    && var gv := ParseGroupVersion(pr[key].groupVersion);
      var own, preferred := GVR(api.group, api.version, pr[key].name), GVR(gv.group, gv.version, pr[key].name);
      && !cluster(own).notFound && |cluster(own).items| > 0
      && (own == preferred || |cluster(own).items| != |cluster(preferred).items|)
      && e.description == api.description && e.group == api.group && e.version == api.version
      && e.kind == api.kind && e.name == "" && ListsObjects(cluster(own).items, e.items)
  }

  lemma EntryMeaning(api: KubeAPI, pr: map<string, ResourceStruct>, cluster: Cluster, e: DeprecatedAPI)
    ensures IsEntryOf(api, pr, cluster, e)
      <==> Deprecated(api, pr, cluster) && IsDeprecatedEntry(api, pr, cluster, e)
  {
    hide ListsObjects, Items;
    assert (if api.group == "" then "" else api.group + "/") + api.version + "/" + api.kind == api.Key();
    if api.Key() in pr { ItemsMeaning(cluster(OwnGVR(api, pr[api.Key()].name)).items, e.items); }
  }

  /** The report as a set, in terms of the swagger map, discovery and the cluster. */
  lemma DeprecatedReportExact(
    apis: map<string, KubeAPI>, pr: map<string, ResourceStruct>, cluster: Cluster, report: seq<DeprecatedAPI>,
    e: DeprecatedAPI)
    requires ReportsDeprecated(apis, pr, cluster, report)
    ensures e in report <==> exists k :: k in apis && IsEntryOf(apis[k], pr, cluster, e)
  {
    hide IsEntryOf, Deprecated;
    var keys :| IsDeprecatedReport(apis, pr, cluster, keys, report);
    if e in report {
      var i :| 0 <= i < |report| && report[i] == e;
      assert keys[i] in keys;
      EntryMeaning(apis[keys[i]], pr, cluster, e);
    }
    if k :| k in apis && IsEntryOf(apis[k], pr, cluster, e) {
      EntryMeaning(apis[k], pr, cluster, e);
      assert k in keys;
      var i :| 0 <= i < |keys| && keys[i] == k;
      assert report[i] == e;
    }
  }

  ghost predicate SlashFree(api: KubeAPI) {
    '/' !in api.group && '/' !in api.version && '/' !in api.kind
  }

  ghost predicate KindsSlashFree(rs: seq<Resource>) {
    forall i :: 0 <= i < |rs| ==> '/' !in rs[i].kind
  }

  /** With names free of slashes, an API that is served is served under its own group and version. */
  lemma PreferredIsOwn(api: KubeAPI, rs: seq<Resource>, pr: map<string, ResourceStruct>)
    requires MapsToLast(rs, pr) && KindsSlashFree(rs) && Served(api, pr) && '/' !in api.kind
    ensures pr[api.Key()].groupVersion == PrintGV(api.group, api.version)
    ensures PreferredGVR(pr[api.Key()]) == OwnGVR(api, pr[api.Key()].name) <==> '/' !in api.group && '/' !in api.version
  {
    var i :| LastWithKey(rs, i, api.Key()) && pr[api.Key()] == ResourceStruct(rs[i].groupVersion, rs[i].name);
    DiscoveryRoundTrip(api.group, api.version, api.kind, rs[i].groupVersion, rs[i].kind);
  }

  /**
   * So the comparison with a preferred API never takes place: the deprecated APIs reported are simply
   * those that are served and have objects.
   */
  lemma DeprecatedMeaning(api: KubeAPI, rs: seq<Resource>, pr: map<string, ResourceStruct>, cluster: Cluster)
    requires MapsToLast(rs, pr) && KindsSlashFree(rs) && SlashFree(api)
    ensures Deprecated(api, pr, cluster) <==>
      api.deprecated && Served(api, pr)
      && !cluster(OwnGVR(api, pr[api.Key()].name)).notFound && cluster(OwnGVR(api, pr[api.Key()].name)).items != []
  {
    if Served(api, pr) { PreferredIsOwn(api, rs, pr); }
  }
}
