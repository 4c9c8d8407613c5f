/**
 * Image tags that parse as versions: their order, and the key under which the agent merges tags.
 * The version library is a parameter of the model; only what its results look like is fixed here.
 */
module Versions {
  import opened Orders
  import opened Text

  /** A pre-release identifier, section 9 of Semantic Versioning 2.0.0. */
  datatype Identifier = Numeric(n: nat) | Alphanumeric(s: string)

  datatype ParsedVersion = Version(segments: seq<nat>, pre: seq<Identifier>, original: string) {
    /** The number of dot-separated parts of the tag text. */
    function Parts(): (n: nat)
      ensures n >= 1
    {
      |Split(original, '.')|
    }
  }

  /** Parsing fills a version up to three segments. */
  type Version = v: ParsedVersion | |v.segments| >= 3
    witness Version([0, 0, 0], [], "0")

  /** No segment beyond those the text spells out, except for the zeros filling up to three. */
  ghost predicate SpelledOut(v: Version) {
    && (|v.segments| > 3 ==> v.Parts() >= |v.segments|)
    && (v.Parts() == 1 ==> v.segments[1] == 0)
    && (v.Parts() <= 2 ==> v.segments[2] == 0)
  }

  // ---------- order (section 11 of Semantic Versioning 2.0.0) ----------

  function CompareIdentifier(a: Identifier, b: Identifier): int {
    match (a, b)
    case (Numeric(m), Numeric(n)) => CompareNat(m, n)
    case (Numeric(_), Alphanumeric(_)) => -1
    case (Alphanumeric(_), Numeric(_)) => 1
    case (Alphanumeric(s), Alphanumeric(t)) => CompareString(s, t)
  }

  /** A version without a pre-release comes after every pre-release of the same numbers. */
  function ComparePre(a: seq<Identifier>, b: seq<Identifier>): int {
    if a == [] && b == [] then 0
    else if a == [] then 1
    else if b == [] then -1
    else Lex(CompareIdentifier, a, b)
  }

  /** Segment lists of different lengths compare as if the shorter one went on with zeros. */
  function CompareSegments(a: seq<nat>, b: seq<nat>): int
    decreases |a| + |b|
  {
    if a == [] && b == [] then 0
    else
      var x := if a == [] then 0 else a[0];
      var y := if b == [] then 0 else b[0];
      if x != y then CompareNat(x, y)
      else CompareSegments(if a == [] then [] else a[1..], if b == [] then [] else b[1..])
  }

  function CompareVersions(a: Version, b: Version): int {
    if CompareSegments(a.segments, b.segments) != 0 then CompareSegments(a.segments, b.segments)
    else ComparePre(a.pre, b.pre)
  }

  lemma {:induction false} CompareSegmentsReverses(a: seq<nat>, b: seq<nat>)
    ensures CompareSegments(a, b) == -CompareSegments(b, a)
    decreases |a| + |b|
  {
    if a != [] || b != [] {
      CompareSegmentsReverses(if a == [] then [] else a[1..], if b == [] then [] else b[1..]);
    }
  }

  lemma {:induction false} CompareSegmentsTransitive(a: seq<nat>, b: seq<nat>, c: seq<nat>)
    requires CompareSegments(a, b) <= 0 && CompareSegments(b, c) <= 0
    ensures CompareSegments(a, c) <= 0
    ensures CompareSegments(a, c) == 0 ==> CompareSegments(a, b) == 0 && CompareSegments(b, c) == 0
    decreases |a| + |b| + |c|
  {
    if a != [] || b != [] || c != [] {
      var a', b', c' := if a == [] then [] else a[1..], if b == [] then [] else b[1..], if c == [] then [] else c[1..];
      var x := if a == [] then 0 else a[0];
      var y := if b == [] then 0 else b[0];
      var z := if c == [] then 0 else c[0];
      assert x <= y <= z;
      if x == z {
        assert CompareSegments(a, b) == CompareSegments(a', b');
        assert CompareSegments(b, c) == CompareSegments(b', c');
        assert CompareSegments(a, c) == CompareSegments(a', c');
        CompareSegmentsTransitive(a', b', c');
      }
    }
  }

  lemma CompareIdentifierIsOrder()
    ensures IsOrder(CompareIdentifier)
  {
    CompareStringIsOrder();
    forall x: Identifier, y: Identifier ensures CompareIdentifier(x, y) == -CompareIdentifier(y, x) {
      if x.Alphanumeric? && y.Alphanumeric? { assert CompareString(x.s, y.s) == -CompareString(y.s, x.s); }
    }
    forall x, y, z | CompareIdentifier(x, y) <= 0 && CompareIdentifier(y, z) <= 0
      ensures CompareIdentifier(x, z) <= 0
    {
      if x.Alphanumeric? && y.Alphanumeric? && z.Alphanumeric? {
        assert CompareString(x.s, y.s) <= 0 && CompareString(y.s, z.s) <= 0;
      }
    }
  }

  lemma ComparePreReverses(a: seq<Identifier>, b: seq<Identifier>)
    ensures ComparePre(a, b) == -ComparePre(b, a)
  {
    CompareIdentifierIsOrder();
    LexReverses(CompareIdentifier, a, b);
  }

  lemma ComparePreTransitive(a: seq<Identifier>, b: seq<Identifier>, c: seq<Identifier>)
    requires ComparePre(a, b) <= 0 && ComparePre(b, c) <= 0
    ensures ComparePre(a, c) <= 0
  {
    CompareIdentifierIsOrder();
    if a != [] && b != [] && c != [] { LexTransitive(CompareIdentifier, a, b, c); }
  }

  /** Reversing negates (as the tests of compareVersions expect), and ordering is transitive for any lengths. */
  lemma CompareVersionsIsOrder()
    ensures IsOrder(CompareVersions)
  {
    forall x: Version, y: Version ensures CompareVersions(x, y) == -CompareVersions(y, x) {
      CompareSegmentsReverses(x.segments, y.segments);
      ComparePreReverses(x.pre, y.pre);
    }
    forall x: Version, y: Version, z: Version | CompareVersions(x, y) <= 0 && CompareVersions(y, z) <= 0
      ensures CompareVersions(x, z) <= 0
    {
      CompareSegmentsTransitive(x.segments, y.segments, z.segments);
      if CompareSegments(x.segments, z.segments) == 0 { ComparePreTransitive(x.pre, y.pre, z.pre); }
    }
  }

  /** A pre-release identifier of lower precedence: numbers by value and before all others, those as strings. */
  ghost predicate IdentifierLess(a: Identifier, b: Identifier) {
    || (a.Numeric? && b.Numeric? && a.n < b.n)
    || (a.Numeric? && b.Alphanumeric?)
    || (a.Alphanumeric? && b.Alphanumeric? && Before((x: char, y: char) => x < y, a.s, b.s))
  }

  function SegmentAt(s: seq<nat>, k: nat): nat {
    if k < |s| then s[k] else 0
  }

  ghost predicate SegmentsLessAt(a: seq<nat>, b: seq<nat>, k: nat) {
    SegmentAt(a, k) < SegmentAt(b, k) && forall j: nat :: j < k ==> SegmentAt(a, j) == SegmentAt(b, j)
  }

  ghost predicate SegmentsLess(a: seq<nat>, b: seq<nat>) {
    exists k: nat :: SegmentsLessAt(a, b, k)
  }

  /** Precedence as the standard words it: by the first different segment, then pre-release before release. */
  ghost predicate VersionLess(a: Version, b: Version) {
    || SegmentsLess(a.segments, b.segments)
    || ((forall k: nat :: SegmentAt(a.segments, k) == SegmentAt(b.segments, k))
        && a.pre != [] && (b.pre == [] || Before(IdentifierLess, a.pre, b.pre)))
  }

  lemma IdentifierMeaning(a: Identifier, b: Identifier)
    ensures CompareIdentifier(a, b) < 0 <==> IdentifierLess(a, b)
    ensures CompareIdentifier(a, b) == 0 <==> a == b
  {
    CompareIdentifierIsOrder();
    CompareStringIsOrder();
    assert CompareIdentifier(a, a) == -CompareIdentifier(a, a);
    if a.Alphanumeric? && b.Alphanumeric? { CompareStringMeaning(a.s, b.s); }
  }

  /** The tail of a segment list, empty for the empty list. */
  function Tail(s: seq<nat>): seq<nat> {
    if s == [] then [] else s[1..]
  }

  lemma SegmentsLessTail(a: seq<nat>, b: seq<nat>)
    requires SegmentAt(a, 0) == SegmentAt(b, 0)
    ensures SegmentsLess(a, b) <==> SegmentsLess(Tail(a), Tail(b))
    ensures (forall k: nat :: SegmentAt(a, k) == SegmentAt(b, k))
      <==> forall k: nat :: SegmentAt(Tail(a), k) == SegmentAt(Tail(b), k)
  {
    forall k: nat ensures SegmentAt(Tail(a), k) == SegmentAt(a, k + 1) && SegmentAt(Tail(b), k) == SegmentAt(b, k + 1) {
    }
    if k: nat :| SegmentsLessAt(a, b, k) {
      assert k > 0;
      assert SegmentAt(Tail(a), k - 1) == SegmentAt(a, k) && SegmentAt(Tail(b), k - 1) == SegmentAt(b, k);
      assert SegmentsLessAt(Tail(a), Tail(b), k - 1);
    }
    if k: nat :| SegmentsLessAt(Tail(a), Tail(b), k) {
      forall j: nat | j < k + 1 ensures SegmentAt(a, j) == SegmentAt(b, j) {
        if j > 0 { assert SegmentAt(Tail(a), j - 1) == SegmentAt(Tail(b), j - 1); }
      }
      assert SegmentsLessAt(a, b, k + 1);
    }
    if forall k: nat :: SegmentAt(Tail(a), k) == SegmentAt(Tail(b), k) {
      forall k: nat ensures SegmentAt(a, k) == SegmentAt(b, k) {
        if k > 0 { assert SegmentAt(Tail(a), k - 1) == SegmentAt(Tail(b), k - 1); }
      }
    }
  }

  lemma {:induction false} SegmentsMeaning(a: seq<nat>, b: seq<nat>)
    ensures CompareSegments(a, b) < 0 <==> SegmentsLess(a, b)
    ensures CompareSegments(a, b) == 0 <==> forall k: nat :: SegmentAt(a, k) == SegmentAt(b, k)
    decreases |a| + |b|
  {
    if a != [] || b != [] {
      assert SegmentAt(a, 0) == if a == [] then 0 else a[0];
      assert SegmentAt(b, 0) == if b == [] then 0 else b[0];
      if SegmentAt(a, 0) == SegmentAt(b, 0) {
        SegmentsMeaning(Tail(a), Tail(b));
        SegmentsLessTail(a, b);
      } else {
        assert SegmentAt(a, 0) < SegmentAt(b, 0) ==> SegmentsLessAt(a, b, 0);
      }
    } else {
      assert forall k: nat :: SegmentAt(a, k) == SegmentAt(b, k) == 0;
    }
  }

  /** The comparison is the precedence of section 11, for segment lists of any length. */
  lemma CompareVersionsMeaning(a: Version, b: Version)
    ensures CompareVersions(a, b) < 0 <==> VersionLess(a, b)
  {
    SegmentsMeaning(a.segments, b.segments);
    SegmentsMeaning(b.segments, a.segments);
    CompareSegmentsReverses(a.segments, b.segments);
    forall x: Identifier, y: Identifier
      ensures CompareIdentifier(x, y) < 0 <==> IdentifierLess(x, y)
      ensures CompareIdentifier(x, y) == 0 <==> x == y
    {
      IdentifierMeaning(x, y);
    }
    LexMeaning(CompareIdentifier, IdentifierLess, a.pre, b.pre);
  }

  // ---------- (major, minor, patch) ----------

  type Triple = (nat, nat, nat)

  function TripleOf(v: Version): Triple {
    (v.segments[0], v.segments[1], v.segments[2])
  }

  function Major(v: Version): nat {
    v.segments[0]
  }

  predicate TripleLess(s: Triple, t: Triple) {
    s.0 < t.0 || (s.0 == t.0 && (s.1 < t.1 || (s.1 == t.1 && s.2 < t.2)))
  }

  /** The order refines the order of the triples. */
  lemma OrderRefinesTriples(a: Version, b: Version)
    ensures TripleLess(TripleOf(a), TripleOf(b)) ==> CompareVersions(a, b) < 0
    ensures CompareVersions(a, b) <= 0 ==> TripleOf(a) == TripleOf(b) || TripleLess(TripleOf(a), TripleOf(b))
  {
    var s, t := a.segments, b.segments;
    if s[0] == t[0] {
      assert CompareSegments(s, t) == CompareSegments(s[1..], t[1..]);
      if s[1] == t[1] {
        assert CompareSegments(s[1..], t[1..]) == CompareSegments(s[1..][1..], t[1..][1..]);
        assert s[1..][1..] == s[2..] && t[1..][1..] == t[2..];
      }
    }
  }

  // ---------- the key under which tags are merged ----------

  /** The segments a tag spells out itself; none at all for a tag of four or more parts. */
  function ValidSegments(v: Version): seq<nat> {
    if v.Parts() == 1 then [v.segments[0]]
    else if v.Parts() == 2 then v.segments[..2]
    else if v.Parts() == 3 then v.segments
    else []
  }

  function Itoas(ns: seq<nat>): seq<string> {
    if ns == [] then [] else [Itoa(ns[0])] + Itoas(ns[1..])
  }

  function Key(v: Version): string {
    Join(Itoas(ValidSegments(v)), '.')
  }

  lemma {:induction false} ItoasAreDotFree(ns: seq<nat>)
    ensures forall s :: s in Itoas(ns) ==> s != "" && '.' !in s
  {
    if ns != [] {
      ItoaIsDigits(ns[0]);
      ItoasAreDotFree(ns[1..]);
    }
  }

  lemma {:induction false} ItoasInjective(a: seq<nat>, b: seq<nat>)
    requires Itoas(a) == Itoas(b)
    ensures a == b
  {
    assert |Itoas(a)| == 0 <==> a == [];
    assert |Itoas(b)| == 0 <==> b == [];
    if a != [] {
      assert Itoas(a)[0] == Itoa(a[0]) && Itoas(a)[1..] == Itoas(a[1..]);
      assert Itoas(b)[0] == Itoa(b[0]) && Itoas(b)[1..] == Itoas(b[1..]);
      ItoaInjective(a[0], b[0]);
      ItoasInjective(a[1..], b[1..]);
      assert a == [a[0]] + a[1..] && b == [b[0]] + b[1..];
    }
  }

  lemma JoinNonempty(parts: seq<string>)
    requires parts != [] && forall s :: s in parts ==> s != ""
    ensures Join(parts, '.') != ""
  {
    assert parts[0] in parts;
  }

  lemma PrintedSegmentsInjective(a: seq<nat>, b: seq<nat>)
    requires Join(Itoas(a), '.') == Join(Itoas(b), '.')
    ensures a == b
  {
    ItoasAreDotFree(a);
    ItoasAreDotFree(b);
    if a != [] { JoinNonempty(Itoas(a)); }
    if b != [] { JoinNonempty(Itoas(b)); }
    if a != [] {
      SplitOfJoin(Itoas(a), '.');
      SplitOfJoin(Itoas(b), '.');
      ItoasInjective(a, b);
    }
  }

  predicate Short(v: Version) {
    v.Parts() <= 3
  }

  /** Two tags share a key iff they spell out the same segments; tags of four or more parts all share one. */
  lemma KeyMeaning(a: Version, b: Version)
    requires SpelledOut(a) && SpelledOut(b)
    ensures Key(a) == Key(b) <==> ValidSegments(a) == ValidSegments(b)
    ensures Key(a) == Key(b) ==> (Short(a) <==> Short(b))
    ensures Key(a) == Key(b) && Short(a) ==> a.segments == b.segments
    ensures !Short(a) && !Short(b) ==> Key(a) == Key(b)
    ensures Short(a) ==> ValidSegments(a) == a.segments[..a.Parts()]
  {
    if Key(a) == Key(b) {
      PrintedSegmentsInjective(ValidSegments(a), ValidSegments(b));
      if Short(a) {
        assert |a.segments| == 3 && |b.segments| == 3;
        assert a.Parts() == |ValidSegments(a)| == b.Parts();
        assert forall i :: 0 <= i < a.Parts() ==> a.segments[i] == ValidSegments(a)[i];
        assert forall i :: 0 <= i < b.Parts() ==> b.segments[i] == ValidSegments(b)[i];
      }
    }
  }

  /** In the words of the tag texts: up to three parts their numbers are the key, beyond that nothing is. */
  lemma KeyInParts(a: Version, b: Version)
    requires SpelledOut(a) && SpelledOut(b)
    ensures var m, n := |Split(a.original, '.')|, |Split(b.original, '.')|;
      Key(a) == Key(b)
      <==> (m > 3 && n > 3) || (m == n <= 3 && forall i :: 0 <= i < m ==> a.segments[i] == b.segments[i])
  {
    hide Key;
    KeyMeaning(a, b);
    if Short(a) && Short(b) {
      KeyMeaning(b, a);
      assert Key(a) == Key(b) <==> ValidSegments(a) == ValidSegments(b);
    }
  }
}
