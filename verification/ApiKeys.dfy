/** The three places that print group, version and kind as one key, and the one that parses a group version. */
module ApiKeys {
  import opened Text

  datatype GroupVersion = GroupVersion(group: string, version: string)

  function PrintGV(group: string, version: string): string {
    if group != "" then group + "/" + version else version
  }

  /** The key under which the swagger definitions are stored and looked up. */
  function PrintGVK(group: string, version: string, kind: string): string {
    if group != "" then group + "/" + version + "/" + kind else version + "/" + kind
  }

  /** The key discovery and the search for deleted APIs build from an unparsed group version. */
  function DiscoveryKey(gv: string, kind: string): string {
    gv + "/" + kind
  }

  /** schema.ParseGroupVersion; both callers go on with the empty value when it fails. */
  function ParseGroupVersion(gv: string): GroupVersion {
    if gv == "" || gv == "/" then GroupVersion("", "")
    else
      var parts := Split(gv, '/');
      if |parts| == 1 then GroupVersion("", gv)
      else if |parts| == 2 then GroupVersion(parts[0], parts[1])
      else GroupVersion("", "")
  }

  lemma ParseTwoParts(group: string, version: string)
    requires '/' !in group && '/' !in version && group != ""
    ensures ParseGroupVersion(group + "/" + version) == GroupVersion(group, version)
  {
    SplitAtSeparator(group, version, '/');
    SplitWithoutSeparator(version, '/');
    assert group + "/" + version == group + ['/'] + version;
    assert |group + "/" + version| >= 2;
  }

  /** "v" or "g/v" with a non-empty group. */
  predicate WellFormed(gv: string) {
    var parts := Split(gv, '/');
    |parts| == 1 || (|parts| == 2 && parts[0] != "")
  }

  /** A slash followed by a non-empty version without slashes. */
  predicate Rooted(gv: string) {
    gv != "" && gv[0] == '/' && gv != "/" && '/' !in gv[1..]
  }

  lemma SplitShapes(gv: string)
    ensures |Split(gv, '/')| == 2 ==> gv == Split(gv, '/')[0] + "/" + Split(gv, '/')[1]
    ensures |Split(gv, '/')| >= 3 ==> |gv| >= 2
    ensures |Split(gv, '/')| == 1 <==> '/' !in gv
  {
    JoinOfSplit(gv, '/');
    SplitWithoutSeparator(gv, '/');
    var parts := Split(gv, '/');
    if |parts| >= 3 {
      assert |Join(parts, '/')| >= 1 + |Join(parts[1..], '/')|;
      assert |Join(parts[1..], '/')| >= 1;
    }
  }

  /** Parsing a group version and printing it with a kind gives back the key iff the group version is well formed. */
  lemma ParsedKeyAgrees(gv: string, kind: string)
    ensures PrintGVK(ParseGroupVersion(gv).group, ParseGroupVersion(gv).version, kind) == gv + "/" + kind
      <==> WellFormed(gv)
    ensures DiscoveryKey(gv, kind) == gv + "/" + kind
  {
    SplitShapes(gv);
    var parsed := ParseGroupVersion(gv);
    var printed := PrintGVK(parsed.group, parsed.version, kind);
    assert gv == "" ==> printed == DiscoveryKey(gv, kind);
    if |Split(gv, '/')| == 2 {
      var parts := Split(gv, '/');
      assert parts[0] != "" ==> printed == DiscoveryKey(gv, kind);
      assert parts[0] == "" ==> |printed| < |DiscoveryKey(gv, kind)|;
    }
    if |Split(gv, '/')| >= 3 {
      assert |printed| < |DiscoveryKey(gv, kind)|;
    }
  }

  lemma SameAfterLastSlash(a: string, k: string, b: string, l: string)
    requires a + "/" + k == b + "/" + l && '/' !in k && '/' !in l
    ensures a == b && k == l
  {
    var s := a + "/" + k;
    assert s[|a|] == '/' && s[|b|] == '/';
    if |a| < |b| {
      assert false;
    }
    if |b| < |a| {
      assert false;
    }
    assert s[..|a|] == a && s[..|a|] == b;
    assert s[|a| + 1..] == k && s[|a| + 1..] == l;
  }

  lemma ParsePrinted(group: string, version: string)
    ensures ParseGroupVersion(PrintGV(group, version)) == GroupVersion(group, version)
      <==> '/' !in group && '/' !in version
  {
    var gv := PrintGV(group, version);
    SplitShapes(gv);
    if group != "" {
      if '/' !in group {
        SplitAtSeparator(group, version, '/');
        SplitWithoutSeparator(version, '/');
        assert gv == group + ['/'] + version;
      } else if ParseGroupVersion(gv) == GroupVersion(group, version) {
        PartsAreSlashFree(gv);
      }
    } else if ParseGroupVersion(gv) == GroupVersion(group, version) {
      PartsAreSlashFree(gv);
    }
  }

  lemma {:induction false} SplitPartsAreFree(s: string, sep: char)
    ensures forall p :: p in Split(s, sep) ==> sep !in p
  {
    if s != "" { SplitPartsAreFree(s[1..], sep); }
  }

  lemma PartsAreSlashFree(gv: string)
    ensures '/' !in ParseGroupVersion(gv).group && '/' !in ParseGroupVersion(gv).version
  {
    SplitPartsAreFree(gv, '/');
    SplitWithoutSeparator(gv, '/');
  }

  /**
   * A swagger API that is found in discovery, both kinds free of slashes, has the very kind it was found
   * under; and the group version found parses to its own group and version iff those have no slash.
   */
  lemma DiscoveryRoundTrip(group: string, version: string, kind: string, gv: string, found: string)
    requires PrintGVK(group, version, kind) == DiscoveryKey(gv, found)
    requires '/' !in kind && '/' !in found
    ensures found == kind && gv == PrintGV(group, version)
    ensures ParseGroupVersion(gv) == GroupVersion(group, version) <==> '/' !in group && '/' !in version
  {
    assert PrintGVK(group, version, kind) == PrintGV(group, version) + "/" + kind;
    SameAfterLastSlash(PrintGV(group, version), kind, gv, found);
    ParsePrinted(group, version);
  }
}
