# Verified models of the kubviz agent's algorithms

The agent collects facts about a Kubernetes cluster. Most of it moves data between services; four of
its files compute something. This project models these four and proves what they compute.

**How many versions an image is behind** (`agent/kubviz/plugins/outdated/outdated.go`). The tags of an
image are parsed, sorted and swept for outlying majors; what is kept is merged with the running version
by a printed key, cut at the running tag, pruned to one entry for each (major, minor, patch), and
counted. `Orders`, `Text` and `Versions` hold the vocabulary; `OutlierSplit`, `UniqueTags` and `Behind`
the stages; `VersionCount` the merge, `PublishedCount` what is published and `ReportExamples` two listings on
which the report surprises. The main results
do not mention any order of the tags: a tag is kept iff no listed major up to its own, except the least, lacks a predecessor within
two; the number reported is the number of different newer triples that count among the kept tags if the
running tag beats every other tag with its key, and 0 if one of them beats it. All triples of tags of at
most three dot-separated parts count; longer tags share one empty key, and of these only the shortest
counts. One case remains, a tie (same key, same length, same precedence): the contract of the unstable sort
then allows both reports. `PossibleReports` gives the exact set of reports possible under that contract, and
`OutcomesAgreeIff` the exact condition under which the tags alone determine the report; they do not for the
running tag 22.04 beside v22.4 and 22.10 (`TieExample`). Whatever the sort does, of two tags with one key
at least one is reported as 0 behind when it runs (`OneOfTwoIsZero`). The latest version reported is, of the
unbeaten tags with the greatest triple that counts, the oldest (`LatestMeaning`): with 1.0.0 running and 2.0-rc1
and 2.0.0 listed it is 2.0-rc1, older than a version that was kept (`CandidateIsLatest`).
`ImageName` is the regular expression for image references, matched leftmost and preferring its optional
groups, and the normal form of a reference. `TagDates` is the concurrent dating of tags.

**Deprecated and deleted APIs** (`agent/kubviz/plugins/kubepreupgrade/kubePreUpgrade.go`). `ApiKeys`
shows when the printers of group/version/kind keys and the parser of group versions agree; `ApiReports`
and `DeletedReport` model the two reports against comprehensions over what discovery and the cluster
list. Two findings: with names free of slashes the search for a "preferred API containing the same
objects" never takes place (`DeprecatedMeaning`), and a resource can be in both reports iff its group
version has the form `/v` (`NeverBoth`, `CanBeBothIff`, `CanBeBothInOneIff`). The name
field of a deprecated entry is never filled in; the model has it empty, as the code does.

**The access matrix** (`agent/kubviz/plugins/rakkess/rakkess.go`). `ForkJoin` is the pattern of one
goroutine per element with a mutex and a WaitGroup, as a state machine in which reading and writing the
shared value are separate steps; its runs are all interleavings. The results after the wait are exactly
the results of the sequential orders, every run ends after seven steps for each goroutine, and none gets
stuck before the wait is over. `AccessMatrix` and `TagDates` instantiate it. All interleavings give one
matrix iff resources sharing a full name have the same access (`SchedulesAgreeIff`). Conditions that need no
server are exact too: for arbitrary answers that such resources list no verb asked for (`AlwaysAgreeIff`), for
equal answers to equal requests that they lead to the same requests (`SettledAgreeIff`). `AccessDiff` is the table of a matrix and the difference of two.

**The job scheduler** (`agent/kubviz/scheduler/scheduler.go`). `Scheduling` proves the scheduler object
against a specification on values, and that against a plain table of named jobs, over every sequence of
calls. Every call holds the mutex from beginning to end, so sequences of calls are all there is.

What is taken from outside: the version library is a pair of functions (parse, print), and versions are
ordered as section 11 of Semantic Versioning 2.0.0 says, shorter segment lists as if filled with zeros.
All results use only that this is a total preorder refining the order of the triples. The registry, the
API server's answers, the cluster's listings (one fixed answer for each resource, never nil) and the
validity of cron schedules are function parameters; `sort.Sort` and `sort.Strings` are known by the
contract of `Orders.Sort` only, which promises some ascending permutation. Iteration over a Go map takes
the keys in an arbitrary order.

## Model

| member | source | states |
|---|---|---|
| Orders.Sort | agent/kubviz/plugins/outdated/outdated.go:437-438 | in-place sorting: an ascending permutation of the old contents, nothing about ties |
| Orders.CompareStringIsOrder | agent/kubviz/plugins/rakkess/rakkess.go:85 | the order of strings used for table rows is a total order that separates different strings |
| Orders.CompareStringMeaning | agent/kubviz/plugins/rakkess/rakkess.go:85 | of two strings the one comes first that is a proper prefix or has the smaller character at the first difference |
| Versions.CompareVersionsIsOrder | agent/kubviz/plugins/outdated/outdated.go:485-497 | comparing with arguments exchanged negates the result, and the comparison is transitive, for segment lists of any length and any pre-releases |
| Versions.CompareVersionsMeaning | agent/kubviz/plugins/outdated/outdated.go:485-497 | a version is smaller iff it is by the rules of section 11, written out: the first different segment, then a pre-release before the release, then the first different identifier, numbers by value and before text |
| Versions.OrderRefinesTriples | agent/kubviz/plugins/outdated/outdated.go:489-497 | a smaller (major, minor, patch) is a smaller version, and a version not greater has a triple not greater |
| Versions.KeyMeaning | agent/kubviz/plugins/outdated/outdated.go:530-547 | the printed key is injective on the segments a tag spells out; up to three parts it determines all segments, beyond that all tags share it |
| Versions.KeyInParts | agent/kubviz/plugins/outdated/outdated.go:530-547 | two tags share a key iff both have more than three dot-separated parts, or equally many, up to three, and equal segments at these |
| OutlierSplit.SplitOutlierSemvers | agent/kubviz/plugins/outdated/outdated.go:432-460 | sorts in place and cuts the sorted slice in two; a version is in the first part iff every listed first segment up to its own but the least has a smaller listed one not more than 2 below it; a non-empty input keeps something |
| OutlierSplit.SweepDecides | agent/kubviz/plugins/outdated/outdated.go:443-457 | the sticky flag of the sweep at a position is the order-free condition on majors |
| OutlierSplit.KeptMeaning | agent/kubviz/plugins/outdated/outdated.go:347-457 | the condition on majors is that condition on the first segments of the versions themselves, with the bound of 2 |
| OutlierSplit.KeptTagsMeaning | agent/kubviz/plugins/outdated/outdated.go:405-430 | a version is kept iff some listed tag parses to it and it meets that condition among all versions listed |
| OutlierSplit.SplitIsOrderFree | agent/kubviz/plugins/outdated/outdated.go:432-460 | permuting the input, or breaking ties differently, changes neither multiset |
| OutlierSplit.ParseTags | agent/kubviz/plugins/outdated/outdated.go:405-430 | every tag is in exactly one result; non-versions are the texts of the tags that do not parse, at ascending positions, followed by the outliers, printed by the library, in ascending order |
| OutlierSplit.UnparsedTexts | agent/kubviz/plugins/outdated/outdated.go:411-418 | the texts that are no versions are those at exactly the positions where parsing fails, in order |
| OutlierSplit.ParseTagsIsOrderFree | agent/kubviz/plugins/outdated/outdated.go:405-430 | a registry listing the same tags in another order leads to the same kept versions, equally often |
| UniqueTags.Unique | agent/kubviz/plugins/outdated/outdated.go:526-568 | an ascending list with different keys of exactly the first shortest tag of each key |
| UniqueTags.UniqueRepresents | agent/kubviz/plugins/outdated/outdated.go:526-568 | every input's key is represented, by an input whose text is not longer, and only once |
| UniqueTags.UniqueIsIdempotent | agent/kubviz/plugins/outdated/outdated.go:526-568 | merging a merged list again gives the same multiset |
| Behind.VersionsBehind | agent/kubviz/plugins/outdated/outdated.go:503-521 | never empty; if a survivor has the running text the list starts with one, ascends, and holds every newer survivor; otherwise it is the running version alone |
| Behind.IsLessSpecific | agent/kubviz/plugins/outdated/outdated.go:579-594 | for any two segment lists: true unless the second has a non-zero segment at the first difference within the common length |
| Behind.RemoveLeastSpecific | agent/kubviz/plugins/outdated/outdated.go:571-602 | the loop computes the pruned list the following lemmas are about |
| Behind.PrunedMembers | agent/kubviz/plugins/outdated/outdated.go:571-602 | on an ascending list with at most one version of more than three segments, exactly the first member of each run of equal triples is left |
| Behind.PrunedAscends | agent/kubviz/plugins/outdated/outdated.go:571-602 | the first element stays, triples ascend strictly, and the last one has the greatest triple |
| Behind.PrunedEndsWithOldest | agent/kubviz/plugins/outdated/outdated.go:571-602 | the last one left is the oldest listed version of the greatest triple |
| Behind.PrunedCount | agent/kubviz/plugins/outdated/outdated.go:571-602 | as many are left as there are different triples |
| PublishedCount.CountBehind | agent/kubviz/plugins/outdated/outdated.go:261-298 | for any tags: 0 behind if the running tag loses to a rival, the number of different newer triples that count if it wins, one of the two on a tie; the latest version is the oldest unbeaten tag of the greatest triple that counts, or the running one at 0 behind; a running tag that is no version gets no report |
| PublishedCount.ReportMeaning | agent/kubviz/plugins/outdated/outdated.go:261-286 | the same for every possible outcome; the number that counts is that of all newer triples if all kept tags have at most three parts, and in general at most one more than the shorter tags spell out |
| PublishedCount.PossibleReports | agent/kubviz/plugins/outdated/outdated.go:261-286 | for all tags and every number: some outcome under the sort's contract reports it iff it is the number that counts and the running tag does not lose, or it is 0 and the running tag loses or ties |
| PublishedCount.OutcomesAgreeIff | agent/kubviz/plugins/outdated/outdated.go:437-438 | all outcomes give one report iff the running tag loses, or does not tie, or nothing newer counts |
| ReportExamples.TieExample | agent/kubviz/plugins/outdated/outdated.go:549-557 | with the tags v22.4, 22.04 and 22.10 the running 22.04 can be reported as 0 and as 1 behind |
| PublishedCount.OneOfTwoIsZero | agent/kubviz/plugins/outdated/outdated.go:526-568 | for any one order the sort produced: of two kept tags with one key at least one is reported as 0 behind when it runs |
| VersionCount.SurvivesIff | agent/kubviz/plugins/outdated/outdated.go:549-557 | the running tag survives merging iff no kept tag of its key beats it and the sort has put no tied one before it |
| VersionCount.LoserIsGone | agent/kubviz/plugins/outdated/outdated.go:549-557 | a running tag does not survive merging if a kept tag of its key is shorter, or equally long and older, or equally long while the running tag is not listed |
| VersionCount.WinsLosesOrTies | agent/kubviz/plugins/outdated/outdated.go:549-557 | the running tag wins iff it neither loses nor ties |
| VersionCount.SurvivorIsUnbeaten | agent/kubviz/plugins/outdated/outdated.go:549-557 | a kept tag that survives merging is beaten by no kept tag of its key and not by the running one |
| VersionCount.UnbeatenHasSurvivor | agent/kubviz/plugins/outdated/outdated.go:549-557 | for every unbeaten tag one of equal precedence survives |
| VersionCount.SurvivorsAreCounted | agent/kubviz/plugins/outdated/outdated.go:526-568 | the newer triples surviving the merge are those of the short tags and that of the shortest long tag (the oldest of these), however ties were sorted |
| VersionCount.CountedBounds | agent/kubviz/plugins/outdated/outdated.go:526-568 | these include every newer triple a short tag spells out and at most one other, and are all of them if every kept tag is short |
| VersionCount.MergedCount | agent/kubviz/plugins/outdated/outdated.go:272-281 | the number reported is exactly that of these triples if the running version survives merging, and 0 otherwise |
| PublishedCount.LatestMeaning | agent/kubviz/plugins/outdated/outdated.go:283-298 | for every outcome: 0 behind, and latest is the running version; otherwise latest has the greatest triple that counts and is, of the unbeaten kept tags with that triple, one of the oldest; on the internal list nothing has a greater triple |
| PublishedCount.LatestAgrees | agent/kubviz/plugins/outdated/outdated.go:283-298 | two outcomes that are not 0 behind report latest versions of equal precedence, whatever the sort did |
| ReportExamples.CandidateIsLatest | agent/kubviz/plugins/outdated/outdated.go:571-602 | with 1.0.0 running, the tags 1.0.0, 2.0-rc1 and 2.0.0 lead in every outcome to 1 behind and the latest version 2.0-rc1, though the newer 2.0.0 is kept |
| ReportExamples.CandidateExample | agent/kubviz/plugins/outdated/outdated.go:571-602 | there are such outcomes |
| ImageName.ParseSucceedsIff | agent/kubviz/plugins/outdated/outdated.go:42-42 | parsing succeeds iff a character other than "@", ":" and "/" is followed by "@" or ":" and then by something other than a newline |
| ImageName.LanguageMeaning | agent/kubviz/plugins/outdated/outdated.go:42-42 | the language of the expression in characters: which are excluded from components, image and tag, and which marks there are |
| ImageName.MatchIffDenoted | agent/kubviz/plugins/outdated/outdated.go:42-42 | the matcher matches at a position iff text of the language of the regular expression begins there |
| ImageName.MatchIsDenoted | agent/kubviz/plugins/outdated/outdated.go:42-42 | the captured groups are those of some text of the language that begins at the position |
| ImageName.MatchIsPreferred | agent/kubviz/plugins/outdated/outdated.go:42-42 | an optional group takes part whenever any text of the language beginning at the position lets it, and among texts with the same groups the tag is the longest |
| ImageName.FindIsLeftmost | agent/kubviz/plugins/outdated/outdated.go:149-150 | what is found is the match at the first position where text of the language begins; nothing is found iff there is none |
| ImageName.ParseSucceedsOnLanguage | agent/kubviz/plugins/outdated/outdated.go:42-42 | parsing succeeds iff some part of the text is in the language of the regular expression |
| ImageName.ParseTwo | agent/kubviz/plugins/outdated/outdated.go:149-177 | host/namespace/image with ":" or "@" and any tag parses to just these |
| ImageName.ParseOne | agent/kubviz/plugins/outdated/outdated.go:161-174 | for any tag: a single leading component is the host iff it contains "." or ":", beside the namespace "library", and otherwise the namespace, at the host "index.docker.io"; iff what follows the tag's first slash does not itself read as image, mark and tag |
| ImageName.ParseNone | agent/kubviz/plugins/outdated/outdated.go:168-174 | for any tag: without components the host is "index.docker.io" and the namespace "library", iff what follows the tag's first slash does not itself read as image, mark and tag, with or without a component |
| ImageName.ParseNormalizes | agent/kubviz/plugins/outdated/outdated.go:149-177 | any successful result, printed as host/name:tag, parses to itself |
| ForkJoin.Program.ReachedInv | agent/kubviz/plugins/rakkess/rakkess.go:179-245 | mutual exclusion, sequential consistency of the shared value and the WaitGroup's count hold in every state of every interleaving |
| ForkJoin.Program.JoinIsSequential | agent/kubviz/plugins/rakkess/rakkess.go:236-244 | after the wait every goroutine has updated the shared value once, and it is that of some sequential order |
| ForkJoin.Program.EveryOrderHappens | agent/kubviz/plugins/rakkess/rakkess.go:189-242 | every sequential order is the result of some interleaving |
| ForkJoin.Program.RunsAreShort | agent/kubviz/plugins/rakkess/rakkess.go:189-242 | every step makes progress, seven steps for each goroutine |
| ForkJoin.Program.StuckMeansJoined | agent/kubviz/plugins/outdated/outdated.go:609-631 | a run that cannot go on has passed the wait: no deadlock |
| TagDates.NoAppendIsLost | agent/kubviz/plugins/outdated/outdated.go:604-634 | for every interleaving the result has one entry for each version, with sort numbers 0 to n-1 each once, and under each number that version's text and date |
| AccessMatrix.CheckOne | agent/kubviz/plugins/rakkess/rakkess.go:199-234 | the loop over the verbs computes a complete access map in the sense of the following row |
| AccessMatrix.AccessOfIsComplete | agent/kubviz/plugins/rakkess/rakkess.go:207-234 | an entry for exactly the verbs asked for: not applicable iff the resource lacks the verb, otherwise allowed, denied or an error iff the server answered so to the request with this verb, the resource's name and group, and the namespace iff the resource has one |
| AccessMatrix.ClusterWideAccess | agent/kubviz/plugins/rakkess/rakkess.go:199-203 | the access map of a cluster-wide resource does not depend on the namespace |
| AccessMatrix.MatrixIsComplete | agent/kubviz/plugins/rakkess/rakkess.go:179-245 | for every interleaving the keys are exactly the full names, and each value a complete access map of a resource of that name |
| AccessMatrix.ScheduleIndependence | agent/kubviz/plugins/rakkess/rakkess.go:179-245 | if resources of one full name have the same access, every interleaving gives the map of a plain loop |
| AccessMatrix.SchedulesAgreeIff | agent/kubviz/plugins/rakkess/rakkess.go:179-245 | all interleavings give one map iff any two resources of one full name have the same access |
| AccessMatrix.DistinctNamesSameAccess | agent/kubviz/plugins/rakkess/rakkess.go:179-245 | distinct full names, which a caller can check beforehand, are enough |
| AccessMatrix.AlwaysAgreeIff | agent/kubviz/plugins/rakkess/rakkess.go:199-245 | whatever the server answers, all interleavings give one map iff resources of one full name list no verb asked for |
| AccessMatrix.SettledAgreeIff | agent/kubviz/plugins/rakkess/rakkess.go:199-245 | for servers giving equal answers to equal requests, all interleavings always give one map iff resources of one full name lead to the same requests for the verbs asked for |
| AccessMatrix.CollisionDependsOnSchedule | agent/kubviz/plugins/rakkess/rakkess.go:236-238 | two resources of one full name and different access: two interleavings give different maps |
| AccessMatrix.CollisionExample | agent/kubviz/plugins/rakkess/rakkess.go:120-125 | the name "a.b" without group and the name "a" in group "b" collide, and their schedules disagree for a server that grants only one of the two |
| AccessMatrix.FullNameInjective | agent/kubviz/plugins/rakkess/rakkess.go:120-125 | for names without dots, full names are equal iff names and groups are |
| AccessMatrix.DistinctPairsDistinctNames | agent/kubviz/plugins/rakkess/rakkess.go:120-125 | so full names are distinct iff the (name, group) pairs are |
| AccessDiff.Table.AddRow | agent/kubviz/plugins/rakkess/rakkess.go:431-437 | appends one row and leaves the headers alone |
| AccessDiff.MakeTable | agent/kubviz/plugins/rakkess/rakkess.go:80-117 | the header is NAME and the verbs in upper case; one row for each name in ascending order with one entry for each verb: up iff allowed, down iff denied or not recorded, an error mark iff the request failed, nothing iff not applicable |
| AccessDiff.Diff | agent/kubviz/plugins/rakkess/rakkess.go:246-294 | in ascending order exactly one row for each name of the left matrix for which some listed verb reads otherwise in the right one; at each verb up iff only the right matrix allows it, down iff only the left one does, and otherwise nothing |
| AccessDiff.Change | agent/kubviz/plugins/rakkess/rakkess.go:268-278 | up iff access is gained, down iff it is lost, and nothing for any other difference |
| AccessDiff.ListingUnique | agent/kubviz/plugins/rakkess/rakkess.go:253-257 | the sorted names of two maps with the same keys are the same list, however the maps are iterated |
| AccessDiff.DiffMirrors | agent/kubviz/plugins/rakkess/rakkess.go:246-294 | over the same names, swapping the sides gives the same rows in the same order with up and down exchanged |
| AccessDiff.DiffRowsExact | agent/kubviz/plugins/rakkess/rakkess.go:261-283 | a row appears iff some listed verb differs for its name, with one entry for each verb |
| AccessDiff.DiffRowsMeaning | agent/kubviz/plugins/rakkess/rakkess.go:261-283 | the same in terms of what the two matrices record, a missing entry reading as denied |
| AccessDiff.DiffRowsAscend | agent/kubviz/plugins/rakkess/rakkess.go:253-283 | the rows stand in ascending order of their names, none twice |
| AccessDiff.NoDiffMeansSameTable | agent/kubviz/plugins/rakkess/rakkess.go:80-294 | two matrices over the same names have no difference rows iff their tables have the same rows |
| ApiKeys.ParsedKeyAgrees | agent/kubviz/plugins/kubepreupgrade/kubePreUpgrade.go:369-386 | parsing a group version and printing it with a kind gives the key looked up, group version, "/" and kind, iff it has the form "v" or "g/v" |
| ApiKeys.DiscoveryRoundTrip | agent/kubviz/plugins/kubepreupgrade/kubePreUpgrade.go:259-288 | a swagger API found in discovery was found under its own kind, and the group version found there parses to its own iff group and version have no slash |
| ApiReports.PopulateKubeAPIMap | agent/kubviz/plugins/kubepreupgrade/kubePreUpgrade.go:116-191 | every API is stored under its own printed key, every valid definition's key is there, and nothing else |
| ApiReports.ValueMeaning | agent/kubviz/plugins/kubepreupgrade/kubePreUpgrade.go:156-191 | a definition is an API object iff it names a kind and has a non-empty description; group, version and kind are those it names first; it is deprecated iff the description holds the word "deprecated", in letters of any case |
| ApiReports.DiscoverResourceNameAndPreferredGV | agent/kubviz/plugins/kubepreupgrade/kubePreUpgrade.go:450-478 | exactly the keys of the listed resources, each with the last resource listed under it |
| ApiReports.DiscoveredUnique | agent/kubviz/plugins/kubepreupgrade/kubePreUpgrade.go:465-475 | that description leaves only one map |
| ApiReports.FlatMeaning | agent/kubviz/plugins/kubepreupgrade/kubePreUpgrade.go:465-475 | the resources of discovery are those of the lists one after the other, in order, each under its list's group version |
| ApiReports.FindDeprecated | agent/kubviz/plugins/kubepreupgrade/kubePreUpgrade.go:253-335 | one entry for exactly the APIs that meet the condition, listing that API's own objects |
| ApiReports.DeprecatedReportExact | agent/kubviz/plugins/kubepreupgrade/kubePreUpgrade.go:253-335 | an entry is in the report iff it is that of an API meeting every guard of the loop, written out over swagger map, discovery and cluster, with its own names and, for each of its objects, name, and namespace if it has one |
| ApiReports.PreferredIsOwn | agent/kubviz/plugins/kubepreupgrade/kubePreUpgrade.go:273-303 | with slash-free kinds the preferred resource is the API's own iff its group and version have no slash |
| ApiReports.DeprecatedMeaning | agent/kubviz/plugins/kubepreupgrade/kubePreUpgrade.go:253-335 | with slash-free names an API is reported iff it is deprecated, served and has objects: the comparison with a preferred API never matters |
| DeletedReport.IgnoreStruct.PopulateCRDGroups | agent/kubviz/plugins/kubepreupgrade/kubePreUpgrade.go:397-421 | adds exactly the groups of the listed custom resource definitions to the caller's set |
| DeletedReport.IgnoreStruct.PopulateAPIService | agent/kubviz/plugins/kubepreupgrade/kubePreUpgrade.go:422-448 | adds the groups of the listed API services; which these are, GroupsMeaning says |
| DeletedReport.GroupsMeaning | agent/kubviz/plugins/kubepreupgrade/kubePreUpgrade.go:397-448 | a group is added iff the listing of definitions, or of API services, is found and holds an object of that group, which for API services must name a service |
| DeletedReport.CollectIgnored | agent/kubviz/plugins/kubepreupgrade/kubePreUpgrade.go:345-356 | a group is ignored iff some list of discovery whose group version contains "apiextensions.k8s.io" or "apiregistration.k8s.io" leads to a listing that adds it |
| DeletedReport.IgnoredMeaning | agent/kubviz/plugins/kubepreupgrade/kubePreUpgrade.go:345-356 | the same for the specification, without naming the sets of groups |
| DeletedReport.FixDeletedItemsList | agent/kubviz/plugins/kubepreupgrade/kubePreUpgrade.go:516-535 | keeps, in order, the objects whose uid the replacement API does not list |
| DeletedReport.NotAmongMembers | agent/kubviz/plugins/kubepreupgrade/kubePreUpgrade.go:526-534 | an object is kept iff it was listed and its uid is not among those of the replacement |
| DeletedReport.NotAmongConcat | agent/kubviz/plugins/kubepreupgrade/kubePreUpgrade.go:526-534 | filtering keeps the order and the number of times an object is listed |
| DeletedReport.LeftOverMeaning | agent/kubviz/plugins/kubepreupgrade/kubePreUpgrade.go:371-375 | an object is left over iff it is listed and, for an Ingress of extensions/v1beta1, no ingress of networking.k8s.io/v1 has its uid |
| DeletedReport.FindDeleted | agent/kubviz/plugins/kubepreupgrade/kubePreUpgrade.go:357-393 | one entry in discovery order for exactly the resources that are not ignored, no subresources, absent from swagger and with objects left over |
| DeletedReport.DeletedReportExact | agent/kubviz/plugins/kubepreupgrade/kubePreUpgrade.go:357-393 | an entry is in the report iff it is that of such a resource |
| DeletedReport.DeletedReportMeaning | agent/kubviz/plugins/kubepreupgrade/kubePreUpgrade.go:357-393 | an entry is in the report iff it is that of a resource whose group is not ignored, that is no subresource, is absent from swagger and has objects left over; with the parsed group and version, kind and name, and these objects |
| DeletedReport.DeletedReportUnique | agent/kubviz/plugins/kubepreupgrade/kubePreUpgrade.go:357-393 | the description of the report, its order included, leaves only one report |
| DeletedReport.GetResults | agent/kubviz/plugins/kubepreupgrade/kubePreUpgrade.go:236-396 | both reports from one swagger map, each meeting its description |
| DeletedReport.BothOnlyIfRooted | agent/kubviz/plugins/kubepreupgrade/kubePreUpgrade.go:253-393 | with slash-free kinds an API in both reports comes from a group version of the form "/v" |
| DeletedReport.NeverBoth | agent/kubviz/plugins/kubepreupgrade/kubePreUpgrade.go:253-393 | without such group versions no group, version and kind is in both reports |
| DeletedReport.CanBeBothIff | agent/kubviz/plugins/kubepreupgrade/kubePreUpgrade.go:236-396 | a resource whose kind has no slash is in both reports for some swagger file, cluster and discovery answers iff its group version is rooted and its name has no slash |
| DeletedReport.CanBeBothInOneIff | agent/kubviz/plugins/kubepreupgrade/kubePreUpgrade.go:236-396 | if discovery answers alike both times, iff in addition its group version does not mention the two special API groups |
| Scheduling.Scheduler.AddJob | agent/kubviz/scheduler/scheduler.go:40-60 | the new state and the outcome, including each failure, are those of the specification |
| Scheduling.Scheduler.RemoveJob | agent/kubviz/scheduler/scheduler.go:63-76 | likewise for removal |
| Scheduling.RunKeepsInv | agent/kubviz/scheduler/scheduler.go:40-76 | over every sequence of calls both maps have the same names, ids are distinct, and the cron's entries are exactly the ids handed out, each with its job |
| Scheduling.ApplyKeepsInv | agent/kubviz/scheduler/scheduler.go:40-76 | one call keeps this, and a failing call changes nothing |
| Scheduling.AddMeaning | agent/kubviz/scheduler/scheduler.go:40-60 | an addition fails as existing, without schedule or with an invalid one, in this order of precedence, and otherwise adds just this job |
| Scheduling.RemoveMeaning | agent/kubviz/scheduler/scheduler.go:63-76 | a removal fails iff there is no such job and otherwise removes just this one |
| Scheduling.InvMeansIdsAreEntries | agent/kubviz/scheduler/scheduler.go:56-57 | as many cron entries as jobs, under exactly the recorded ids |
| Scheduling.RunRefinesTable | agent/kubviz/scheduler/scheduler.go:40-76 | over every sequence of calls, jobs and outcomes are those of a plain table without ids |
| Scheduling.RemoveUndoesAdd | agent/kubviz/scheduler/scheduler.go:40-76 | removing a job just added undoes the addition, whatever calls on other names come in between, and these do not notice |
| Scheduling.RemoveRestores | agent/kubviz/scheduler/scheduler.go:62-76 | with no calls in between both maps and the cron's entries are exactly as before |
| Scheduling.InitScheduler | agent/kubviz/scheduler/scheduler.go:94-178 | fatal iff one of the eight intervals, other than "" and "0", is not a schedule; otherwise each interval other than these has its own job under its own name, and there is no other job |

## Left out

- NATS, ClickHouse, S3, HTTP, OpenTelemetry and generated code: input and output, and wrappers over libraries.
- `agent/kubviz/plugins/outdated/outdated.go:303-341`: the fallback for a running tag that is no version counts later dates; it would add an easy member.
- `agent/kubviz/plugins/outdated/outdated.go:178-238` and the truncation of names: listing running images and removing exact duplicates, for the same reason.
- GetResults: a list request that fails other than by "not found" yields no nil list here, and the cluster gives the same answer to the same request throughout one run.
- PopulateKubeAPIMap: reading the swagger file as JSON; the model starts from definitions whose list of kinds, if present, is not empty, since the source indexes it without a check.
- CollectIgnored: group versions of the two special API groups must contain a slash, since the source cuts them there without a check.
- MakeTable: headers use ASCII upper case.
- `agent/kubviz/plugins/rakkess/rakees_agent.go:25-38` maps access codes to outcomes differently from the table of a matrix; no agreement between the two is claimed.
- `agent/kubviz/scheduler/scheduler.go:88-92` hands out the live map of jobs; the scheduler's results hold as long as nobody writes to it.
- The steps of one goroutine before it takes the lock are one step of the state machine: they touch nothing shared.
