/** The access matrix: one goroutine per API resource asks for each verb and writes a shared map. */
module AccessMatrix {
  import opened ForkJoin
  import opened Orders
  import opened Text

  datatype Access = Denied | Allowed | NotApplicable | RequestErr

  type AccessMap = map<string, Access>
  type ResourceAccess = map<string, AccessMap>

  datatype GroupResource = GroupResource(group: string, name: string, namespaced: bool, verbs: seq<string>) {
    function FullName(): string {
      if group == "" then name else name + "." + group
    }
  }

  datatype Request = Request(verb: string, resource: string, group: string, namespace: string)

  /** The API server: its answer to the k-th request of the i-th goroutine, none if the call fails. */
  datatype Answer = Failed | Answered(allowed: bool)
  type Server = (nat, nat, Request) -> Answer

  /** The request made for a verb. */
  function RequestFor(gr: GroupResource, ns: string, verb: string): Request {
    Request(verb, gr.name, gr.group, if gr.namespaced then ns else "")
  }

  /** What the source's switch makes of one verb. */
  function AccessFor(gr: GroupResource, namespace: string, server: Server, i: nat, k: nat, verb: string): Access {
    if verb !in gr.verbs then NotApplicable
    else
      match server(i, k, RequestFor(gr, namespace, verb))
      case Failed => RequestErr
      case Answered(allowed) => if allowed then Allowed else Denied
  }

  /** The position that decides a verb's entry: the last one that lists it. */
  ghost predicate LastAt(verbs: seq<string>, k: nat) {
    k < |verbs| && forall l :: k < l < |verbs| ==> verbs[l] != verbs[k]
  }

  /**
   * A complete access map: an entry for exactly the verbs asked for, each as the server answered the
   * request for it, which names the namespace only if the resource has one.
   */
  ghost predicate IsAccessMap(
    gr: GroupResource, verbs: seq<string>, ns: string, server: Server, i: nat, access: AccessMap)
  {
    && (forall v :: v in access <==> v in verbs)
    && (forall k: nat :: LastAt(verbs, k) ==>
          var v := verbs[k];
          var answer := server(i, k, Request(v, gr.name, gr.group, if gr.namespaced then ns else ""));
          && (access[v] == NotApplicable <==> v !in gr.verbs)
          && (access[v] == Allowed <==> v in gr.verbs && answer == Answered(true))
          && (access[v] == Denied <==> v in gr.verbs && answer == Answered(false))
          && (access[v] == RequestErr <==> v in gr.verbs && answer == Failed))
  }

  function AccessOf(gr: GroupResource, verbs: seq<string>, namespace: string, server: Server, i: nat): AccessMap {
    if verbs == [] then map[]
    else
      var k := |verbs| - 1;
      AccessOf(gr, verbs[..k], namespace, server, i)[verbs[k] := AccessFor(gr, namespace, server, i, k, verbs[k])]
  }

  lemma {:induction false} AccessOfKeys(
    gr: GroupResource, verbs: seq<string>, namespace: string, server: Server, i: nat)
    ensures AccessOf(gr, verbs, namespace, server, i).Keys == set v | v in verbs
  {
    if verbs != [] {
      var m := |verbs| - 1;
      AccessOfKeys(gr, verbs[..m], namespace, server, i);
      assert verbs == verbs[..m] + [verbs[m]];
    }
  }

  lemma {:induction false} AccessOfAt(
    gr: GroupResource, verbs: seq<string>, namespace: string, server: Server, i: nat, k: nat)
    requires LastAt(verbs, k)
    ensures var access := AccessOf(gr, verbs, namespace, server, i);
      verbs[k] in access && access[verbs[k]] == AccessFor(gr, namespace, server, i, k, verbs[k])
  {
    hide AccessFor;
    var m := |verbs| - 1;
    if k < m {
      assert verbs[m] != verbs[k] && verbs[..m][k] == verbs[k];
      AccessOfAt(gr, verbs[..m], namespace, server, i, k);
    }
  }

  lemma AccessOfIsComplete(gr: GroupResource, verbs: seq<string>, ns: string, server: Server, i: nat)
    ensures IsAccessMap(gr, verbs, ns, server, i, AccessOf(gr, verbs, ns, server, i))
  {
    hide AccessOf;
    AccessOfKeys(gr, verbs, ns, server, i);
    forall k: nat | LastAt(verbs, k)
      ensures AccessOf(gr, verbs, ns, server, i)[verbs[k]] == AccessFor(gr, ns, server, i, k, verbs[k])
    {
      AccessOfAt(gr, verbs, ns, server, i, k);
    }
  }

  /** The namespace does not matter for a cluster-wide resource. */
  lemma {:induction false} ClusterWideAccess(
    gr: GroupResource, verbs: seq<string>, ns: string, ns': string, server: Server, i: nat)
    requires !gr.namespaced
    ensures AccessOf(gr, verbs, ns, server, i) == AccessOf(gr, verbs, ns', server, i)
  {
    if verbs != [] { ClusterWideAccess(gr, verbs[..|verbs| - 1], ns, ns', server, i); }
  }

  /** The body of one goroutine up to taking the lock. */
  method CheckOne(gr: GroupResource, verbs: seq<string>, ns: string, server: Server, i: nat) returns (access: AccessMap)
    ensures access == AccessOf(gr, verbs, ns, server, i) && IsAccessMap(gr, verbs, ns, server, i, access)
  {
    hide IsAccessMap;
    var namespace := ns;
    if !gr.namespaced {
      namespace := "";
    }
    access := map[];
    for k := 0 to |verbs|
      invariant access == AccessOf(gr, verbs[..k], ns, server, i)
    {
      var v := verbs[k];
      assert verbs[..k + 1][..k] == verbs[..k];
      if v !in gr.verbs {
        access := access[v := NotApplicable];
      } else {
        var a := Denied;
        match server(i, k, Request(v, gr.name, gr.group, namespace)) {
          case Failed => a := RequestErr;
          case Answered(allowed) => if allowed { a := Allowed; }
        }
        access := access[v := a];
      }
    }
    assert verbs[..|verbs|] == verbs;
    AccessOfIsComplete(gr, verbs, ns, server, i);
  }

  // ---------- the goroutines together ----------

  /** Each goroutine writes its value under its name; the WaitGroup is raised by one in every iteration. */
  function Writing<V(!new)>(names: seq<string>, values: seq<V>): Program<map<string, V>>
    requires |names| == |values|
  {
    Program(
      |names|,
      (i: nat, res: map<string, V>) => if i < |names| then res[names[i] := values[i]] else res,
      map[],
      false)
  }

  /** The same writes in a plain loop. */
  function WrittenInTurn<V>(names: seq<string>, values: seq<V>): map<string, V>
    requires |names| == |values|
  {
    if names == [] then map[]
    else WrittenInTurn(names[..|names| - 1], values[..|names| - 1])[names[|names| - 1] := values[|names| - 1]]
  }

  /** Some element has this name and value. */
  ghost predicate Listed<V>(names: seq<string>, values: seq<V>, name: string, v: V)
    requires |names| == |values|
  {
    exists i :: 0 <= i < |names| && names[i] == name && values[i] == v
  }

  lemma {:induction false} ReplayWrites<V(!new)>(names: seq<string>, values: seq<V>, log: seq<nat>)
    requires |names| == |values| && forall l :: 0 <= l < |log| ==> log[l] < |names|
    ensures var res := Writing(names, values).Replay(log);
      && (forall l :: 0 <= l < |log| ==> names[log[l]] in res)
      && (forall name :: name in res ==> Listed(names, values, name, res[name]))
  {
    if log != [] {
      ReplayWrites(names, values, log[..|log| - 1]);
    }
  }

  /** Equal names have equal values. */
  ghost predicate SameValues<V>(names: seq<string>, values: seq<V>)
    requires |names| == |values|
  {
    forall i, j :: 0 <= i < j < |names| && names[i] == names[j] ==> values[i] == values[j]
  }

  lemma {:induction false} InTurnWrites<V>(names: seq<string>, values: seq<V>)
    requires |names| == |values| && SameValues(names, values)
    ensures var res := WrittenInTurn(names, values);
      && (forall name :: name in res <==> name in names)
      && (forall i :: 0 <= i < |names| ==> names[i] in res && res[names[i]] == values[i])
  {
    if names != [] {
      var m := |names| - 1;
      InTurnWrites(names[..m], values[..m]);
      assert names == names[..m] + [names[m]];
    }
  }

  lemma JoinedWrites<V(!new)>(names: seq<string>, values: seq<V>, steps: seq<Action>, s: State<map<string, V>>)
    requires |names| == |values|
    requires Writing(names, values).Reaches(steps, s) && Writing(names, values).Joined(s)
    ensures forall name :: name in s.shared <==> name in names
    ensures forall name :: name in s.shared ==> Listed(names, values, name, s.shared[name])
  {
    Writing(names, values).JoinIsSequential(steps, s);
    ReplayWrites(names, values, s.log);
    forall i | 0 <= i < |names| ensures names[i] in s.shared {
      assert i in s.log;
      var l :| 0 <= l < |s.log| && s.log[l] == i;
      assert names[s.log[l]] in s.shared;
    }
  }

  lemma AgreeingWrites<V(!new)>(names: seq<string>, values: seq<V>, steps: seq<Action>, s: State<map<string, V>>)
    requires |names| == |values| && SameValues(names, values)
    requires Writing(names, values).Reaches(steps, s) && Writing(names, values).Joined(s)
    ensures s.shared == WrittenInTurn(names, values)
  {
    JoinedWrites(names, values, steps, s);
    InTurnWrites(names, values);
    var res := WrittenInTurn(names, values);
    forall name | name in s.shared ensures name in res && s.shared[name] == res[name] {
      var i :| 0 <= i < |names| && names[i] == name && values[i] == s.shared[name];
    }
  }

  function FullNames(grs: seq<GroupResource>): seq<string> {
    seq(|grs|, i requires 0 <= i < |grs| => grs[i].FullName())
  }

  function AccessMaps(grs: seq<GroupResource>, verbs: seq<string>, ns: string, server: Server): seq<AccessMap> {
    seq(|grs|, i requires 0 <= i < |grs| => AccessOf(grs[i], verbs, ns, server, i))
  }

  /** CheckResourceAccess: every goroutine writes its access map under its resource's full name. */
  function Checking(grs: seq<GroupResource>, verbs: seq<string>, ns: string, server: Server): Program<ResourceAccess> {
    Writing(FullNames(grs), AccessMaps(grs, verbs, ns, server))
  }

  /**
   * For every interleaving, after the wait the map has exactly the full names as keys, and under each
   * name the complete access map of a resource of that name.
   */
  lemma MatrixIsComplete(
    grs: seq<GroupResource>, verbs: seq<string>, ns: string, server: Server, steps: seq<Action>,
    s: State<ResourceAccess>)
    requires Checking(grs, verbs, ns, server).Reaches(steps, s) && Checking(grs, verbs, ns, server).Joined(s)
    ensures forall name :: name in s.shared <==> name in FullNames(grs)
    ensures forall name :: name in s.shared ==>
      exists i: nat ::
        i < |grs| && grs[i].FullName() == name && IsAccessMap(grs[i], verbs, ns, server, i, s.shared[name])
  {
    hide AccessOf, IsAccessMap;
    var names, maps := FullNames(grs), AccessMaps(grs, verbs, ns, server);
    JoinedWrites(names, maps, steps, s);
    forall name | name in s.shared
      ensures exists i: nat ::
        i < |grs| && grs[i].FullName() == name && IsAccessMap(grs[i], verbs, ns, server, i, s.shared[name])
    {
      assert Listed(names, maps, name, s.shared[name]);
      var i :| 0 <= i < |names| && names[i] == name && maps[i] == s.shared[name];
      AccessOfIsComplete(grs[i], verbs, ns, server, i);
      assert maps[i] == AccessOf(grs[i], verbs, ns, server, i);
    }
  }

  /** Resources of one full name, if there are any, have the same access. */
  ghost predicate SameAccess(grs: seq<GroupResource>, verbs: seq<string>, ns: string, server: Server) {
    forall i, j :: 0 <= i < j < |grs| && grs[i].FullName() == grs[j].FullName() ==>
      AccessOf(grs[i], verbs, ns, server, i) == AccessOf(grs[j], verbs, ns, server, j)
  }

  /** A caller can check this without asking the server. */
  lemma DistinctNamesSameAccess(grs: seq<GroupResource>, verbs: seq<string>, ns: string, server: Server)
    requires Distinct(FullNames(grs))
    ensures SameAccess(grs, verbs, ns, server)
  {
    hide AccessOf;
    forall i, j | 0 <= i < j < |grs| ensures grs[i].FullName() != grs[j].FullName() {
      assert FullNames(grs)[i] != FullNames(grs)[j];
    }
  }

  /** Then the schedule does not matter: the map is the one a plain loop builds. */
  lemma ScheduleIndependence(
    grs: seq<GroupResource>, verbs: seq<string>, ns: string, server: Server, steps: seq<Action>,
    s: State<ResourceAccess>)
    requires Checking(grs, verbs, ns, server).Reaches(steps, s) && Checking(grs, verbs, ns, server).Joined(s)
    requires SameAccess(grs, verbs, ns, server)
    ensures s.shared == WrittenInTurn(FullNames(grs), AccessMaps(grs, verbs, ns, server))
  {
    hide AccessOf;
    AgreeingWrites(FullNames(grs), AccessMaps(grs, verbs, ns, server), steps, s);
  }

  /** An order of the writes in which i comes last. */
  lemma WrittenLast<V(!new)>(names: seq<string>, values: seq<V>, i: nat)
    returns (steps: seq<Action>, s: State<map<string, V>>)
    requires |names| == |values| && i < |names|
    ensures Writing(names, values).Reaches(steps, s) && Writing(names, values).Joined(s)
    ensures names[i] in s.shared && s.shared[names[i]] == values[i]
  {
    var log := Others(|names|, i) + [i];
    Writing(names, values).OrderEndingIn(i);
    assert log[..|log| - 1] == Others(|names|, i);
    steps, s := Writing(names, values).EveryOrderHappens(log);
  }

  /** Two resources of one full name and different access: the schedule decides which of them is reported. */
  lemma CollisionDependsOnSchedule(
    grs: seq<GroupResource>, verbs: seq<string>, ns: string, server: Server, i: nat, j: nat)
    returns (steps: seq<Action>, s: State<ResourceAccess>, steps': seq<Action>, s': State<ResourceAccess>)
    requires i < j < |grs| && grs[i].FullName() == grs[j].FullName()
    requires AccessOf(grs[i], verbs, ns, server, i) != AccessOf(grs[j], verbs, ns, server, j)
    ensures Checking(grs, verbs, ns, server).Reaches(steps, s) && Checking(grs, verbs, ns, server).Joined(s)
    ensures Checking(grs, verbs, ns, server).Reaches(steps', s') && Checking(grs, verbs, ns, server).Joined(s')
    ensures s.shared != s'.shared
  {
    steps, s := WrittenLast(FullNames(grs), AccessMaps(grs, verbs, ns, server), i);
    steps', s' := WrittenLast(FullNames(grs), AccessMaps(grs, verbs, ns, server), j);
  }

  /** CheckResourceAccess can return res. */
  ghost predicate CanReturn(
    grs: seq<GroupResource>, verbs: seq<string>, ns: string, server: Server, res: ResourceAccess)
  {
    exists steps, s :: Checking(grs, verbs, ns, server).Reaches(steps, s)
      && Checking(grs, verbs, ns, server).Joined(s) && s.shared == res
  }

  ghost predicate SchedulesAgree(grs: seq<GroupResource>, verbs: seq<string>, ns: string, server: Server) {
    forall r, r' :: CanReturn(grs, verbs, ns, server, r) && CanReturn(grs, verbs, ns, server, r') ==> r == r'
  }

  /** All schedules give the same map iff any two resources of one full name have the same access. */
  lemma SchedulesAgreeIff(grs: seq<GroupResource>, verbs: seq<string>, ns: string, server: Server)
    ensures SchedulesAgree(grs, verbs, ns, server) <==> SameAccess(grs, verbs, ns, server)
  {
    hide AccessOf, Checking;
    if SameAccess(grs, verbs, ns, server) {
      forall r | CanReturn(grs, verbs, ns, server, r)
        ensures r == WrittenInTurn(FullNames(grs), AccessMaps(grs, verbs, ns, server))
      {
        var steps, s :| Checking(grs, verbs, ns, server).Reaches(steps, s)
          && Checking(grs, verbs, ns, server).Joined(s) && s.shared == r;
        ScheduleIndependence(grs, verbs, ns, server, steps, s);
      }
    } else {
      var i, j :| 0 <= i < j < |grs| && grs[i].FullName() == grs[j].FullName()
        && AccessOf(grs[i], verbs, ns, server, i) != AccessOf(grs[j], verbs, ns, server, j);
      var steps, s, steps', s' := CollisionDependsOnSchedule(grs, verbs, ns, server, i, j);
      assert CanReturn(grs, verbs, ns, server, s.shared) && CanReturn(grs, verbs, ns, server, s'.shared);
    }
  }

  const COLLIDING: seq<GroupResource> :=
    [GroupResource("", "a.b", false, ["get"]), GroupResource("b", "a", false, ["get"])]

  /** A server that grants requests for the resource "a" and no others. */
  function GrantsA(i: nat, k: nat, request: Request): Answer {
    Answered(request.resource == "a")
  }

  lemma CollidingAccess()
    ensures AccessOf(COLLIDING[0], ["get"], "", GrantsA, 0) != AccessOf(COLLIDING[1], ["get"], "", GrantsA, 1)
  {
    var verbs := ["get"];
    assert verbs[..0] == [];
    assert AccessOf(COLLIDING[0], verbs, "", GrantsA, 0)["get"] == Denied;
    assert AccessOf(COLLIDING[1], verbs, "", GrantsA, 1)["get"] == Allowed;
  }

  /** The name "a.b" without a group and the name "a" in group "b": two schedules can give different maps. */
  lemma CollisionExample()
    ensures COLLIDING[0].FullName() == COLLIDING[1].FullName()
    ensures !SchedulesAgree(COLLIDING, ["get"], "", GrantsA)
  {
    hide AccessOf, SchedulesAgree;
    CollidingAccess();
    SchedulesAgreeIff(COLLIDING, ["get"], "", GrantsA);
  }

  // ---------- the condition without a server ----------

  /** Resources of one full name list none of the verbs asked for. */
  ghost predicate NothingAsked(grs: seq<GroupResource>, verbs: seq<string>) {
    forall i, j :: 0 <= i < j < |grs| && grs[i].FullName() == grs[j].FullName() ==>
      NoneListed(grs[i], verbs) && NoneListed(grs[j], verbs)
  }

  ghost predicate NoneListed(gr: GroupResource, verbs: seq<string>) {
    forall v :: v in verbs ==> v !in gr.verbs
  }

  /** A verb that occurs has a last position. */
  lemma LastPosition(verbs: seq<string>, v: string) returns (k: nat)
    requires v in verbs
    ensures LastAt(verbs, k) && verbs[k] == v
  {
    k :| k < |verbs| && verbs[k] == v;
    for l := k to |verbs|
      invariant k < |verbs| && verbs[k] == v
      invariant forall m :: k < m < l ==> verbs[m] != v
    {
      if verbs[l] == v { k := l; }
    }
  }

  lemma SameEntriesSameMap(
    a: GroupResource, b: GroupResource, verbs: seq<string>, ns: string, server: Server, i: nat, j: nat)
    requires forall k: nat :: LastAt(verbs, k) ==>
      AccessFor(a, ns, server, i, k, verbs[k]) == AccessFor(b, ns, server, j, k, verbs[k])
    ensures AccessOf(a, verbs, ns, server, i) == AccessOf(b, verbs, ns, server, j)
  {
    hide AccessFor, AccessOf;
    var m, n := AccessOf(a, verbs, ns, server, i), AccessOf(b, verbs, ns, server, j);
    AccessOfKeys(a, verbs, ns, server, i);
    AccessOfKeys(b, verbs, ns, server, j);
    forall v | v in m.Keys ensures v in n && m[v] == n[v] {
      var k := LastPosition(verbs, v);
      AccessOfAt(a, verbs, ns, server, i, k);
      AccessOfAt(b, verbs, ns, server, j, k);
    }
  }

  /** One differing last entry makes the maps differ. */
  lemma OtherEntryOtherMap(
    a: GroupResource, b: GroupResource, verbs: seq<string>, ns: string, server: Server, i: nat, j: nat, k: nat)
    requires LastAt(verbs, k)
    requires AccessFor(a, ns, server, i, k, verbs[k]) != AccessFor(b, ns, server, j, k, verbs[k])
    ensures AccessOf(a, verbs, ns, server, i) != AccessOf(b, verbs, ns, server, j)
  {
    hide AccessFor, AccessOf;
    AccessOfAt(a, verbs, ns, server, i, k);
    AccessOfAt(b, verbs, ns, server, j, k);
  }

  /** A server that grants the requests of one goroutine only. */
  function GrantsTo(x: nat): Server {
    (i: nat, k: nat, request: Request) => Answered(i == x)
  }

  lemma GrantedDiffers(grs: seq<GroupResource>, verbs: seq<string>, ns: string, i: nat, j: nat, v: string)
    requires i < |grs| && j < |grs| && i != j && v in verbs && v in grs[i].verbs
    ensures AccessOf(grs[i], verbs, ns, GrantsTo(i), i) != AccessOf(grs[j], verbs, ns, GrantsTo(i), j)
  {
    hide AccessOf;
    var k := LastPosition(verbs, v);
    OtherEntryOtherMap(grs[i], grs[j], verbs, ns, GrantsTo(i), i, j, k);
  }

  /**
   * The exact condition that can be checked beforehand: whatever the server answers, all schedules give
   * the same map iff no two resources of one full name list a verb asked for.
   */
  lemma AlwaysAgreeIff(grs: seq<GroupResource>, verbs: seq<string>, ns: string)
    ensures (forall server: Server :: SchedulesAgree(grs, verbs, ns, server)) <==> NothingAsked(grs, verbs)
  {
    hide AccessOf, SchedulesAgree, GrantsTo;
    if NothingAsked(grs, verbs) {
      forall server: Server ensures SchedulesAgree(grs, verbs, ns, server) {
        SchedulesAgreeIff(grs, verbs, ns, server);
        forall i, j | 0 <= i < j < |grs| && grs[i].FullName() == grs[j].FullName()
          ensures AccessOf(grs[i], verbs, ns, server, i) == AccessOf(grs[j], verbs, ns, server, j)
        {
          SameEntriesSameMap(grs[i], grs[j], verbs, ns, server, i, j);
        }
      }
    } else {
      var i, j :| 0 <= i < j < |grs| && grs[i].FullName() == grs[j].FullName()
        && !(NoneListed(grs[i], verbs) && NoneListed(grs[j], verbs));
      if v :| v in verbs && v in grs[i].verbs {
        GrantedDiffers(grs, verbs, ns, i, j, v);
        SchedulesAgreeIff(grs, verbs, ns, GrantsTo(i));
      } else {
        var v :| v in verbs && v in grs[j].verbs;
        GrantedDiffers(grs, verbs, ns, j, i, v);
        SchedulesAgreeIff(grs, verbs, ns, GrantsTo(j));
      }
    }
  }

  /** A server that gives equal answers to equal requests. */
  function Settled(answer: Request -> Answer): Server {
    (i: nat, k: nat, request: Request) => answer(request)
  }

  /** For every verb asked for, both resources lead to the same request, or to none. */
  ghost predicate AskedAlike(a: GroupResource, b: GroupResource, verbs: seq<string>, ns: string) {
    forall v :: v in verbs ==>
      (v in a.verbs <==> v in b.verbs) && (v in a.verbs ==> RequestFor(a, ns, v) == RequestFor(b, ns, v))
  }

  ghost predicate AllAskedAlike(grs: seq<GroupResource>, verbs: seq<string>, ns: string) {
    forall i, j :: 0 <= i < j < |grs| && grs[i].FullName() == grs[j].FullName() ==>
      AskedAlike(grs[i], grs[j], verbs, ns)
  }

  lemma AlikeIsSame(
    a: GroupResource, b: GroupResource, verbs: seq<string>, ns: string, answer: Request -> Answer, i: nat, j: nat)
    requires AskedAlike(a, b, verbs, ns)
    ensures AccessOf(a, verbs, ns, Settled(answer), i) == AccessOf(b, verbs, ns, Settled(answer), j)
  {
    hide AccessOf;
    SameEntriesSameMap(a, b, verbs, ns, Settled(answer), i, j);
  }

  lemma UnlikeDiffers(grs: seq<GroupResource>, verbs: seq<string>, ns: string, i: nat, j: nat)
    returns (answer: Request -> Answer)
    requires i < |grs| && j < |grs| && !AskedAlike(grs[i], grs[j], verbs, ns)
    ensures AccessOf(grs[i], verbs, ns, Settled(answer), i) != AccessOf(grs[j], verbs, ns, Settled(answer), j)
  {
    hide AccessOf;
    var v :| v in verbs
      && !((v in grs[i].verbs <==> v in grs[j].verbs)
           && (v in grs[i].verbs ==> RequestFor(grs[i], ns, v) == RequestFor(grs[j], ns, v)));
    var asked := RequestFor(grs[i], ns, v);
    answer := (request: Request) => Answered(request == asked);
    var k := LastPosition(verbs, v);
    OtherEntryOtherMap(grs[i], grs[j], verbs, ns, Settled(answer), i, j, k);
  }

  /**
   * If the server gives equal answers to equal requests: all schedules give the same map, whatever these
   * answers are, iff resources of one full name lead to the same requests for the verbs asked for.
   */
  lemma SettledAgreeIff(grs: seq<GroupResource>, verbs: seq<string>, ns: string)
    ensures (forall answer: Request -> Answer :: SchedulesAgree(grs, verbs, ns, Settled(answer)))
      <==> AllAskedAlike(grs, verbs, ns)
  {
    hide AccessOf, SchedulesAgree, Settled;
    if AllAskedAlike(grs, verbs, ns) {
      forall answer: Request -> Answer ensures SchedulesAgree(grs, verbs, ns, Settled(answer)) {
        SchedulesAgreeIff(grs, verbs, ns, Settled(answer));
        forall i, j | 0 <= i < j < |grs| && grs[i].FullName() == grs[j].FullName()
          ensures AccessOf(grs[i], verbs, ns, Settled(answer), i) == AccessOf(grs[j], verbs, ns, Settled(answer), j)
        {
          AlikeIsSame(grs[i], grs[j], verbs, ns, answer, i, j);
        }
      }
    } else {
      var i, j :| 0 <= i < j < |grs| && grs[i].FullName() == grs[j].FullName()
        && !AskedAlike(grs[i], grs[j], verbs, ns);
      var answer := UnlikeDiffers(grs, verbs, ns, i, j);
      SchedulesAgreeIff(grs, verbs, ns, Settled(answer));
    }
  }

  // ---------- full names ----------

  /** Without a dot in the name, the full name splits into name and group at its first dot. */
  lemma FullNameParts(gr: GroupResource)
    requires '.' !in gr.name
    ensures Split(gr.FullName(), '.') == if gr.group == "" then [gr.name] else [gr.name] + Split(gr.group, '.')
    ensures gr.group != "" ==> gr.group == gr.FullName()[|gr.name| + 1..]
  {
    SplitWithoutSeparator(gr.name, '.');
    SplitAtSeparator(gr.name, gr.group, '.');
    assert gr.group != "" ==> gr.FullName() == gr.name + ['.'] + gr.group;
  }

  /** Names without dots: the full name determines name and group. */
  lemma FullNameInjective(a: GroupResource, b: GroupResource)
    requires '.' !in a.name && '.' !in b.name
    ensures a.FullName() == b.FullName() <==> a.name == b.name && a.group == b.group
  {
    FullNameParts(a);
    FullNameParts(b);
    if a.FullName() == b.FullName() {
      assert Split(a.FullName(), '.')[0] == a.name;
      assert Split(b.FullName(), '.')[0] == b.name;
      assert |Split(a.FullName(), '.')| == 1 <==> a.group == "";
      assert |Split(b.FullName(), '.')| == 1 <==> b.group == "";
    }
  }

  /** So full names are distinct exactly when (name, group) pairs are. */
  lemma DistinctPairsDistinctNames(grs: seq<GroupResource>)
    requires forall i :: 0 <= i < |grs| ==> '.' !in grs[i].name
    ensures Distinct(FullNames(grs)) <==>
      forall i, j :: 0 <= i < j < |grs| ==> (grs[i].name, grs[i].group) != (grs[j].name, grs[j].group)
  {
    forall i, j | 0 <= i < j < |grs|
      ensures FullNames(grs)[i] == FullNames(grs)[j] <==> (grs[i].name, grs[i].group) == (grs[j].name, grs[j].group)
    {
      FullNameInjective(grs[i], grs[j]);
    }
  }
}
