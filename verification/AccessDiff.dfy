/** Rendering an access matrix as a table, and the differences between two of them. */
module AccessDiff {
  import opened Orders
  import opened AccessMatrix

  datatype Outcome = None | Up | Down | Err

  datatype Row = Row(intro: seq<string>, entries: seq<Outcome>)

  class Table {
    var headers: seq<string>
    var rows: seq<Row>

    constructor (headers: seq<string>)
      ensures this.headers == headers && rows == []
    {
      this.headers := headers;
      rows := [];
    }

    method AddRow(intro: seq<string>, outcomes: seq<Outcome>)
      modifies this`rows
      ensures rows == old(rows) + [Row(intro, outcomes)]
    {
      rows := rows + [Row(intro, outcomes)];
    }
  }

  /** ASCII upper case, as far as strings.ToUpper matters for verbs. */
  function Upper(s: string): string {
    seq(|s|, i requires 0 <= i < |s| => if 'a' <= s[i] <= 'z' then s[i] - 'a' + 'A' else s[i])
  }

  function Headers(verbs: seq<string>): seq<string> {
    ["NAME"] + seq(|verbs|, i requires 0 <= i < |verbs| => Upper(verbs[i]))
  }

  /** "NAME" and then the verbs, each letter raised to upper case. */
  ghost predicate IsHeader(verbs: seq<string>, headers: seq<string>) {
    && |headers| == |verbs| + 1 && headers[0] == "NAME"
    && forall i :: 0 <= i < |verbs| ==>
         && |headers[i + 1]| == |verbs[i]|
         && forall c :: 0 <= c < |verbs[i]| ==>
              headers[i + 1][c] as int == verbs[i][c] as int - if 'a' <= verbs[i][c] <= 'z' then 32 else 0
  }

  lemma HeadersMeaning(verbs: seq<string>)
    ensures IsHeader(verbs, Headers(verbs))
  {
  }

  /** Names in ascending order, none twice. */
  ghost predicate Ascends(names: seq<string>) {
    forall i, j :: 0 <= i < j < |names| ==> Before((x: char, y: char) => x < y, names[i], names[j])
  }

  lemma AscendsMeansSorted(names: seq<string>)
    ensures Ascends(names) <==> Sorted(CompareString, names) && Distinct(names)
  {
    CompareStringIsOrder();
    forall i, j | 0 <= i < j < |names|
      ensures Before((x: char, y: char) => x < y, names[i], names[j])
        <==> CompareString(names[i], names[j]) <= 0 && names[i] != names[j]
    {
      CompareStringMeaning(names[i], names[j]);
      assert CompareString(names[i], names[i]) == -CompareString(names[i], names[i]);
    }
  }

  /** The keys of a matrix in ascending order. */
  ghost predicate IsListing(names: seq<string>, ra: ResourceAccess) {
    Ascends(names) && forall name :: name in names <==> name in ra
  }

  /** There is only one such listing, so tables do not depend on the order in which maps are iterated. */
  lemma ListingUnique(names: seq<string>, names': seq<string>, ra: ResourceAccess, ra': ResourceAccess)
    requires IsListing(names, ra) && IsListing(names', ra') && ra.Keys == ra'.Keys
    ensures names == names'
  {
    CompareStringIsOrder();
    AscendsMeansSorted(names);
    AscendsMeansSorted(names');
    SortedListUnique(CompareString, names, names');
  }

  /** The matrix records this access for the verb. */
  ghost predicate Records(ra: ResourceAccess, name: string, verb: string, a: Access) {
    name in ra && verb in ra[name] && ra[name][verb] == a
  }

  ghost predicate Missing(ra: ResourceAccess, name: string, verb: string) {
    !(name in ra && verb in ra[name])
  }

  /** What a table shows of a verb; a missing one is shown as denied. */
  ghost predicate Shows(ra: ResourceAccess, name: string, verb: string, o: Outcome) {
    && (o == Up <==> Records(ra, name, verb, Allowed))
    && (o == Down <==> Missing(ra, name, verb) || Records(ra, name, verb, Denied))
    && (o == None <==> Records(ra, name, verb, NotApplicable))
    && (o == Err <==> Records(ra, name, verb, RequestErr))
  }

  /** Both record the same access, or deny it, be it by not recording any. */
  ghost predicate ReadAlike(left: ResourceAccess, right: ResourceAccess, name: string, verb: string) {
    forall a: Access :: a != Denied ==> (Records(left, name, verb, a) <==> Records(right, name, verb, a))
  }

  /** What a difference shows of a verb: Up where access is gained, Down where it is lost. */
  ghost predicate ShowsChange(left: ResourceAccess, right: ResourceAccess, name: string, verb: string, o: Outcome) {
    && (o == Up <==> !Records(left, name, verb, Allowed) && Records(right, name, verb, Allowed))
    && (o == Down <==> Records(left, name, verb, Allowed) && !Records(right, name, verb, Allowed))
    && o != Err
  }

  /** Looking up a missing resource or verb reads as Denied, the zero value. */
  function Lookup(ra: ResourceAccess, name: string, verb: string): Access {
    if name in ra && verb in ra[name] then ra[name][verb] else Denied
  }

  function Shown(a: Access): Outcome {
    match a
    case Denied => Down
    case Allowed => Up
    case NotApplicable => None
    case RequestErr => Err
  }

  lemma ShownMeaning(ra: ResourceAccess, name: string, verb: string, o: Outcome)
    ensures Shows(ra, name, verb, o) <==> o == Shown(Lookup(ra, name, verb))
  {
  }

  lemma AlikeMeaning(left: ResourceAccess, right: ResourceAccess, name: string, verb: string)
    ensures ReadAlike(left, right, name, verb) <==> Lookup(left, name, verb) == Lookup(right, name, verb)
  {
    var l, r := Lookup(left, name, verb), Lookup(right, name, verb);
    assert l != Denied ==> Records(left, name, verb, l);
    assert r != Denied ==> Records(right, name, verb, r);
  }

  lemma ChangeMeaning(left: ResourceAccess, right: ResourceAccess, name: string, verb: string, o: Outcome)
    ensures ShowsChange(left, right, name, verb, o)
      <==> o == Change(Lookup(left, name, verb), Lookup(right, name, verb))
  {
  }

  /** Up where access is gained, Down where it is lost, and nothing for any other difference. */
  function Change(l: Access, r: Access): (o: Outcome)
    ensures o == Up <==> l != Allowed && r == Allowed
    ensures o == Down <==> l == Allowed && r != Allowed
    ensures o != Err
  {
    if l == r then None else if r == Allowed then Up else if l == Allowed then Down else None
  }

  method CollectNames(ra: ResourceAccess) returns (names: seq<string>)
    ensures IsListing(names, ra)
  {
    var found: seq<string> := [];
    var todo := ra.Keys;
    while todo != {}
      invariant todo <= ra.Keys && Distinct(found)
      invariant forall name :: name in found <==> name in ra && name !in todo
      decreases |todo|
    {
      var name :| name in todo;
      found := found + [name];
      todo := todo - {name};
    }
    CompareStringIsOrder();
    names := SortedCopy(found, CompareString);
    PermutationOfDistinct(found, names);
    AscendsMeansSorted(names);
    SameElements(found, names);
  }

  // ---------- what the rows mean ----------

  /** Every listed name has a row with one entry per verb, showing that verb's access. */
  ghost predicate IsTable(ra: ResourceAccess, verbs: seq<string>, names: seq<string>, rows: seq<Row>) {
    && |rows| == |names|
    && forall k :: 0 <= k < |names| ==>
      rows[k].intro == [names[k]] && |rows[k].entries| == |verbs|
      && forall i :: 0 <= i < |verbs| ==> Shows(ra, names[k], verbs[i], rows[k].entries[i])
  }

  ghost predicate Differs(left: ResourceAccess, right: ResourceAccess, verbs: seq<string>, name: string) {
    exists i :: 0 <= i < |verbs| && Lookup(left, name, verbs[i]) != Lookup(right, name, verbs[i])
  }

  function Changes(left: ResourceAccess, right: ResourceAccess, verbs: seq<string>, name: string): (r: seq<Outcome>)
    ensures |r| == |verbs|
  {
    seq(|verbs|, i requires 0 <= i < |verbs| => Change(Lookup(left, name, verbs[i]), Lookup(right, name, verbs[i])))
  }

  /** The names that differ, in listing order, each with its changes. */
  ghost function DiffRows(
    left: ResourceAccess, right: ResourceAccess, verbs: seq<string>, names: seq<string>): seq<Row>
  {
    if names == [] then []
    else
      var name := names[|names| - 1];
      DiffRows(left, right, verbs, names[..|names| - 1])
      + if Differs(left, right, verbs, name) then [Row([name], Changes(left, right, verbs, name))] else []
  }

  // ---------- which rows a difference has ----------

  /** A row appears exactly for the listed names for which some listed verb differs. */
  lemma {:induction false} DiffRowsExact(
    left: ResourceAccess, right: ResourceAccess, verbs: seq<string>, names: seq<string>, row: Row)
    ensures row in DiffRows(left, right, verbs, names) <==>
      exists k :: 0 <= k < |names| && Differs(left, right, verbs, names[k])
        && row == Row([names[k]], Changes(left, right, verbs, names[k]))
  {
    hide Differs, Changes;
    if names != [] {
      var m := |names| - 1;
      DiffRowsExact(left, right, verbs, names[..m], row);
      assert names == names[..m] + [names[m]];
    }
  }

  /** The row of a name: one entry for each verb, showing what changes. */
  ghost predicate IsDiffRow(
    left: ResourceAccess, right: ResourceAccess, verbs: seq<string>, name: string, row: Row)
  {
    && row.intro == [name] && |row.entries| == |verbs|
    && forall i :: 0 <= i < |verbs| ==> ShowsChange(left, right, name, verbs[i], row.entries[i])
  }

  ghost predicate SomeReadsOtherwise(left: ResourceAccess, right: ResourceAccess, verbs: seq<string>, name: string) {
    exists i :: 0 <= i < |verbs| && !ReadAlike(left, right, name, verbs[i])
  }

  lemma ChangesMeaning(left: ResourceAccess, right: ResourceAccess, verbs: seq<string>, name: string, row: Row)
    ensures IsDiffRow(left, right, verbs, name, row) <==> row == Row([name], Changes(left, right, verbs, name))
    ensures SomeReadsOtherwise(left, right, verbs, name) <==> Differs(left, right, verbs, name)
  {
    hide Lookup, Change, ReadAlike, ShowsChange;
    forall i | 0 <= i < |verbs|
      ensures ReadAlike(left, right, name, verbs[i]) <==> Lookup(left, name, verbs[i]) == Lookup(right, name, verbs[i])
    {
      AlikeMeaning(left, right, name, verbs[i]);
    }
    forall i, o: Outcome | 0 <= i < |verbs|
      ensures ShowsChange(left, right, name, verbs[i], o) <==> o == Changes(left, right, verbs, name)[i]
    {
      ChangeMeaning(left, right, name, verbs[i], o);
    }
  }

  /** In terms of the two matrices: exactly these rows. */
  lemma DiffRowsMeaning(
    left: ResourceAccess, right: ResourceAccess, verbs: seq<string>, names: seq<string>, row: Row)
    ensures row in DiffRows(left, right, verbs, names) <==>
      exists k :: 0 <= k < |names| && SomeReadsOtherwise(left, right, verbs, names[k])
        && IsDiffRow(left, right, verbs, names[k], row)
  {
    hide DiffRows, Differs, Changes, IsDiffRow, SomeReadsOtherwise;
    DiffRowsExact(left, right, verbs, names, row);
    forall k | 0 <= k < |names|
      ensures IsDiffRow(left, right, verbs, names[k], row)
        <==> row == Row([names[k]], Changes(left, right, verbs, names[k]))
      ensures SomeReadsOtherwise(left, right, verbs, names[k]) <==> Differs(left, right, verbs, names[k])
    {
      ChangesMeaning(left, right, verbs, names[k], row);
    }
  }

  /** The rows follow the ascending names, none twice, so they are a list of their own kind only once. */
  lemma {:induction false} DiffRowsAscend(
    left: ResourceAccess, right: ResourceAccess, verbs: seq<string>, names: seq<string>)
    requires Ascends(names)
    ensures var rows := DiffRows(left, right, verbs, names);
      && (forall row :: row in rows ==> |row.intro| == 1 && row.intro[0] in names)
      && forall i, j :: 0 <= i < j < |rows| ==>
           Before((x: char, y: char) => x < y, rows[i].intro[0], rows[j].intro[0])
  {
    hide Differs, Changes, Before;
    if names != [] {
      var m := |names| - 1;
      DiffRowsAscend(left, right, verbs, names[..m]);
      assert forall name :: name in names[..m] ==> Before((x: char, y: char) => x < y, name, names[m]);
    }
  }

  /** A whole difference: in ascending order of names one row for each name that reads otherwise in right. */
  ghost predicate IsDiff(left: ResourceAccess, right: ResourceAccess, verbs: seq<string>, rows: seq<Row>) {
    && (forall row :: row in rows <==>
          exists name :: name in left && SomeReadsOtherwise(left, right, verbs, name)
            && IsDiffRow(left, right, verbs, name, row))
    && (forall i, j :: 0 <= i < j < |rows| ==>
          |rows[i].intro| == |rows[j].intro| == 1
          && Before((x: char, y: char) => x < y, rows[i].intro[0], rows[j].intro[0]))
  }

  lemma DiffRowsAreDiff(left: ResourceAccess, right: ResourceAccess, verbs: seq<string>, names: seq<string>)
    requires IsListing(names, left)
    ensures IsDiff(left, right, verbs, DiffRows(left, right, verbs, names))
  {
    hide DiffRows, Differs, Changes, IsDiffRow, SomeReadsOtherwise, Before;
    var rows := DiffRows(left, right, verbs, names);
    DiffRowsAscend(left, right, verbs, names);
    forall row
      ensures row in rows <==>
        exists name :: name in left && SomeReadsOtherwise(left, right, verbs, name)
          && IsDiffRow(left, right, verbs, name, row)
    {
      DiffRowsMeaning(left, right, verbs, names, row);
      if name :| name in left && SomeReadsOtherwise(left, right, verbs, name)
                 && IsDiffRow(left, right, verbs, name, row) {
        var k :| 0 <= k < |names| && names[k] == name;
      }
    }
    forall i, j | 0 <= i < j < |rows| ensures |rows[i].intro| == |rows[j].intro| == 1 {
      assert rows[i] in rows && rows[j] in rows;
    }
  }

  // ---------- the methods ----------

  /** The inner loop of Table: the outcomes of one row. */
  method ShowVerbs(ra: ResourceAccess, verbs: seq<string>, name: string) returns (outcomes: seq<Outcome>)
    ensures |outcomes| == |verbs|
    ensures forall i :: 0 <= i < |verbs| ==> Shows(ra, name, verbs[i], outcomes[i])
  {
    outcomes := [];
    for i := 0 to |verbs|
      invariant |outcomes| == i
      invariant forall j :: 0 <= j < i ==> Shows(ra, name, verbs[j], outcomes[j])
    {
      var o: Outcome;
      match Lookup(ra, name, verbs[i]) {
        case Denied => o := Down;
        case Allowed => o := Up;
        case NotApplicable => o := None;
        case RequestErr => o := Err;
      }
      outcomes := outcomes + [o];
    }
  }

  method MakeTable(ra: ResourceAccess, verbs: seq<string>) returns (p: Table, ghost names: seq<string>)
    ensures fresh(p) && IsHeader(verbs, p.headers)
    ensures IsListing(names, ra) && IsTable(ra, verbs, names, p.rows)
  {
    var sorted := CollectNames(ra);
    names := sorted;
    p := new Table(Headers(verbs));
    HeadersMeaning(verbs);
    for k := 0 to |sorted|
      invariant fresh(p) && p.headers == Headers(verbs) && IsTable(ra, verbs, sorted[..k], p.rows)
    {
      var outcomes := ShowVerbs(ra, verbs, sorted[k]);
      p.AddRow([sorted[k]], outcomes);
    }
    assert sorted[..|sorted|] == sorted;
  }

  /** The inner loop of Diff: the changes of one name, and whether there are none to show. */
  method CompareVerbs(left: ResourceAccess, right: ResourceAccess, verbs: seq<string>, name: string)
    returns (skip: bool, outcomes: seq<Outcome>)
    ensures skip <==> !Differs(left, right, verbs, name)
    ensures outcomes == Changes(left, right, verbs, name)
  {
    skip, outcomes := true, [];
    for i := 0 to |verbs|
      invariant outcomes == Changes(left, right, verbs, name)[..i]
      invariant skip <==> forall j :: 0 <= j < i ==> Lookup(left, name, verbs[j]) == Lookup(right, name, verbs[j])
    {
      var ll, rr := Lookup(left, name, verbs[i]), Lookup(right, name, verbs[i]);
      var o := None;
      if ll != rr {
        skip := false;
        if ll == Allowed {
          o := Down;
        }
        if rr == Allowed {
          o := Up;
        }
      }
      outcomes := outcomes + [o];
    }
  }

  method Diff(
    left: ResourceAccess, right: ResourceAccess, verbs: seq<string>)
    returns (p: Table, ghost names: seq<string>)
    ensures fresh(p) && IsHeader(verbs, p.headers)
    ensures IsListing(names, left) && p.rows == DiffRows(left, right, verbs, names)
    ensures IsDiff(left, right, verbs, p.rows)
  {
    hide IsDiff, IsHeader;
    var sorted := CollectNames(left);
    names := sorted;
    p := new Table(Headers(verbs));
    HeadersMeaning(verbs);
    for k := 0 to |sorted|
      invariant fresh(p) && p.headers == Headers(verbs) && p.rows == DiffRows(left, right, verbs, sorted[..k])
    {
      var name := sorted[k];
      assert sorted[..k + 1][..k] == sorted[..k];
      var skip, outcomes := CompareVerbs(left, right, verbs, name);
      if !skip {
        p.AddRow([name], outcomes);
      }
    }
    assert sorted[..|sorted|] == sorted;
    DiffRowsAreDiff(left, right, verbs, sorted);
  }

  // ---------- laws ----------

  function Mirror(o: Outcome): Outcome {
    match o case Up => Down case Down => Up case None => None case Err => Err
  }

  function MirrorRow(r: Row): Row {
    Row(r.intro, seq(|r.entries|, i requires 0 <= i < |r.entries| => Mirror(r.entries[i])))
  }

  function MirrorRows(rows: seq<Row>): seq<Row> {
    seq(|rows|, k requires 0 <= k < |rows| => MirrorRow(rows[k]))
  }

  lemma ChangesMirror(left: ResourceAccess, right: ResourceAccess, verbs: seq<string>, name: string)
    ensures Row([name], Changes(right, left, verbs, name)) == MirrorRow(Row([name], Changes(left, right, verbs, name)))
  {
    assert Changes(right, left, verbs, name) == MirrorRow(Row([name], Changes(left, right, verbs, name))).entries;
  }

  lemma {:induction false} DiffRowsMirror(
    left: ResourceAccess, right: ResourceAccess, verbs: seq<string>, names: seq<string>)
    ensures DiffRows(right, left, verbs, names) == MirrorRows(DiffRows(left, right, verbs, names))
  {
    if names != [] {
      var name := names[|names| - 1];
      DiffRowsMirror(left, right, verbs, names[..|names| - 1]);
      ChangesMirror(left, right, verbs, name);
      assert Differs(left, right, verbs, name) <==> Differs(right, left, verbs, name);
    }
  }

  /** Matrices over the same names: swapping them gives the same rows in the same order, Up and Down exchanged. */
  lemma DiffMirrors(
    left: ResourceAccess, right: ResourceAccess, verbs: seq<string>, names: seq<string>, names': seq<string>)
    requires left.Keys == right.Keys && IsListing(names, left) && IsListing(names', right)
    ensures DiffRows(right, left, verbs, names') == MirrorRows(DiffRows(left, right, verbs, names))
  {
    ListingUnique(names, names', left, right);
    DiffRowsMirror(left, right, verbs, names);
  }

  lemma SameTableNoDiff(
    left: ResourceAccess, right: ResourceAccess, verbs: seq<string>, names: seq<string>, rows: seq<Row>)
    requires IsTable(left, verbs, names, rows) && IsTable(right, verbs, names, rows)
    ensures DiffRows(left, right, verbs, names) == []
  {
    hide Shows, Differs;
    var found := DiffRows(left, right, verbs, names);
    if found != [] {
      DiffRowsExact(left, right, verbs, names, found[0]);
      var k :| 0 <= k < |names| && Differs(left, right, verbs, names[k]);
      SameEntries(left, right, verbs, names[k], rows[k].entries);
    }
  }

  lemma NoDiffSameRow(
    left: ResourceAccess, right: ResourceAccess, verbs: seq<string>, name: string, l: Row, r: Row)
    requires !Differs(left, right, verbs, name)
    requires l.intro == r.intro && |l.entries| == |r.entries| == |verbs|
    requires forall i :: 0 <= i < |verbs| ==> Shows(left, name, verbs[i], l.entries[i])
    requires forall i :: 0 <= i < |verbs| ==> Shows(right, name, verbs[i], r.entries[i])
    ensures l == r
  {
    hide Shows, Lookup, Shown;
    forall i | 0 <= i < |verbs| ensures l.entries[i] == r.entries[i] {
      ShownMeaning(left, name, verbs[i], l.entries[i]);
      ShownMeaning(right, name, verbs[i], r.entries[i]);
    }
    assert l.entries == r.entries;
  }

  /**
   * The two views agree: over the same names, Diff has no rows exactly when the tables of both matrices
   * have the same rows. In particular a matrix compared with itself has none.
   */
  lemma NoDiffMeansSameTable(
    left: ResourceAccess, right: ResourceAccess, verbs: seq<string>, names: seq<string>, lrows: seq<Row>,
    rrows: seq<Row>)
    requires left.Keys == right.Keys && IsListing(names, left)
    requires IsTable(left, verbs, names, lrows) && IsTable(right, verbs, names, rrows)
    ensures DiffRows(left, right, verbs, names) == [] <==> lrows == rrows
  {
    hide Shows, Differs, DiffRows, Changes, Ascends;
    if lrows == rrows { SameTableNoDiff(left, right, verbs, names, lrows); }
    if DiffRows(left, right, verbs, names) == [] {
      forall k | 0 <= k < |names| ensures lrows[k] == rrows[k] {
        DiffRowsExact(left, right, verbs, names, Row([names[k]], Changes(left, right, verbs, names[k])));
        NoDiffSameRow(left, right, verbs, names[k], lrows[k], rrows[k]);
      }
    }
  }

  lemma SameEntries(
    left: ResourceAccess, right: ResourceAccess, verbs: seq<string>, name: string, entries: seq<Outcome>)
    requires |entries| == |verbs|
    requires forall i :: 0 <= i < |verbs| ==>
      Shows(left, name, verbs[i], entries[i]) && Shows(right, name, verbs[i], entries[i])
    ensures !Differs(left, right, verbs, name)
  {
    forall i | 0 <= i < |verbs| ensures Lookup(left, name, verbs[i]) == Lookup(right, name, verbs[i]) {
      ShownMeaning(left, name, verbs[i], entries[i]);
      ShownMeaning(right, name, verbs[i], entries[i]);
    }
  }
}
