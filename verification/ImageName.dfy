/** Reading an image reference: the regular expression of the outdated plugin and what is made of its groups. */
module ImageName {
  import opened Options

  // The character classes of the expression.
  predicate NotSlash(c: char) { c != '/' }

  predicate NameChar(c: char) { c != '@' && c != ':' && c != '/' }

  predicate NotNewline(c: char) { c != '\n' }

  predicate TagMark(c: char) { c == '@' || c == ':' }

  ghost predicate AllOf(p: char -> bool, s: string) {
    forall c :: c in s ==> p(c)
  }

  /** A greedy run: the first position from i on whose character is not in the class. */
  function RunEnd(s: string, p: char -> bool, i: nat): (e: nat)
    requires i <= |s|
    ensures i <= e <= |s| && (forall k :: i <= k < e ==> p(s[k])) && (e < |s| ==> !p(s[e]))
    decreases |s| - i
  {
    if i < |s| && p(s[i]) then RunEnd(s, p, i + 1) else i
  }

  /** The four capture groups; an optional group that takes no part is empty. */
  datatype Groups = Groups(host: string, namespace: string, image: string, tag: string)

  /** A non-empty slash-free component and its slash at i: the position behind them. */
  function ComponentEnd(s: string, i: nat): (r: Option<nat>)
    requires i <= |s|
    ensures r.Some? ==> i + 1 < r.value <= |s|
  {
    var e := RunEnd(s, NotSlash, i);
    if i < e < |s| then Some(e + 1) else None
  }

  /** The image, the mark and the tag at i. No shorter run could be followed by a mark. */
  function TailAt(s: string, i: nat): Option<(string, string)>
    requires i <= |s|
  {
    var e := RunEnd(s, NameChar, i);
    if i < e && e + 1 < |s| && TagMark(s[e]) && NotNewline(s[e + 1])
    then Some((s[i..e], s[e + 1..RunEnd(s, NotNewline, e + 1)]))
    else None
  }

  /**
   * The preferred match at i: optional groups take part if they can, the first one before the second.
   * The second without the first would need the same text as the first without the second.
   */
  function MatchAt(s: string, i: nat): Option<Groups>
    requires i <= |s|
  {
    var first := ComponentEnd(s, i);
    if first.Some? && ComponentEnd(s, first.value).Some? && TailAt(s, ComponentEnd(s, first.value).value).Some? then
      var second := ComponentEnd(s, first.value).value;
      var tail := TailAt(s, second).value;
      Some(Groups(s[i..first.value - 1], s[first.value..second - 1], tail.0, tail.1))
    else if first.Some? && TailAt(s, first.value).Some? then
      var tail := TailAt(s, first.value).value;
      Some(Groups(s[i..first.value - 1], "", tail.0, tail.1))
    else if TailAt(s, i).Some? then
      var tail := TailAt(s, i).value;
      Some(Groups("", "", tail.0, tail.1))
    else None
  }

  /** FindStringSubmatch: the leftmost match from i on. */
  function FindFrom(s: string, i: nat): Option<Groups>
    requires i <= |s|
    decreases |s| - i
  {
    if MatchAt(s, i).Some? then MatchAt(s, i)
    else if i < |s| then FindFrom(s, i + 1)
    else None
  }

  datatype Image = Image(host: string, name: string, tag: string)

  const DEFAULT_HOST := "index.docker.io"
  const DEFAULT_NAMESPACE := "library"

  predicate LooksLikeHost(s: string) {
    '.' in s || ':' in s
  }

  /** ParseImageName; None is the error of an expression that does not match. */
  function Parse(s: string): Option<Image> {
    match FindFrom(s, 0)
    case None => None
    case Some(g) =>
      var swap := g.namespace == "" && g.host != "" && !LooksLikeHost(g.host);
      var namespace := if swap then g.host else g.namespace;
      var hostname := if swap then "" else g.host;
      Some(Image(
             if hostname == "" then DEFAULT_HOST else hostname,
             (if namespace == "" then DEFAULT_NAMESPACE else namespace) + "/" + g.image,
             g.tag))
  }

  // ---------- the language of the expression ----------

  /** Text the expression denotes: optional components, image, mark, tag. */
  datatype Parts = Parts(host: Option<string>, namespace: Option<string>, image: string, mark: char, tag: string) {
    ghost predicate InLanguage() {
      && (host.Some? ==> host.value != "" && AllOf(NotSlash, host.value))
      && (namespace.Some? ==> namespace.value != "" && AllOf(NotSlash, namespace.value))
      && image != "" && AllOf(NameChar, image) && TagMark(mark)
      && tag != "" && AllOf(NotNewline, tag)
    }

    function Text(): string {
      (if host.Some? then host.value + "/" else "") + (if namespace.Some? then namespace.value + "/" else "")
      + image + [mark] + tag
    }
  }

  /** The language in characters. */
  lemma LanguageMeaning(m: Parts)
    ensures m.InLanguage() <==>
      && (m.host.Some? ==> m.host.value != "" && '/' !in m.host.value)
      && (m.namespace.Some? ==> m.namespace.value != "" && '/' !in m.namespace.value)
      && m.image != "" && '@' !in m.image && ':' !in m.image && '/' !in m.image
      && (m.mark == '@' || m.mark == ':')
      && m.tag != "" && '\n' !in m.tag
  {
  }

  /** Some text of the language begins at i. */
  ghost predicate DenotedAt(s: string, i: nat)
    requires i <= |s|
  {
    exists m: Parts :: m.InLanguage() && m.Text() <= s[i..]
  }

  /** A name character, a mark and a character other than a newline, in a row. */
  predicate TripleAt(s: string, k: nat) {
    k + 2 < |s| && NameChar(s[k]) && TagMark(s[k + 1]) && NotNewline(s[k + 2])
  }

  lemma RunEndIs(s: string, p: char -> bool, i: nat, e: nat)
    requires i <= e <= |s| && (forall k :: i <= k < e ==> p(s[k])) && (e < |s| ==> !p(s[e]))
    ensures RunEnd(s, p, i) == e
  {
  }

  lemma TailFound(s: string, i: nat, e: nat)
    requires i < e && e + 1 < |s| && (forall k :: i <= k < e ==> NameChar(s[k]))
    requires TagMark(s[e]) && NotNewline(s[e + 1])
    ensures TailAt(s, i) == Some((s[i..e], s[e + 1..RunEnd(s, NotNewline, e + 1)]))
  {
    RunEndIs(s, NameChar, i, e);
  }

  lemma ComponentFound(s: string, i: nat, e: nat)
    requires i < e < |s| && (forall k :: i <= k < e ==> NotSlash(s[k])) && s[e] == '/'
    ensures ComponentEnd(s, i) == Some(e + 1)
  {
    RunEndIs(s, NotSlash, i, e);
  }

  lemma TailHasTriple(s: string, i: nat) returns (k: nat)
    requires i <= |s| && TailAt(s, i).Some?
    ensures k >= i && TripleAt(s, k)
  {
    k := RunEnd(s, NameChar, i) - 1;
  }

  lemma MatchHasTriple(s: string, i: nat) returns (k: nat)
    requires i <= |s| && MatchAt(s, i).Some?
    ensures k >= i && TripleAt(s, k)
  {
    hide TripleAt, TailAt, RunEnd;
    var first := ComponentEnd(s, i);
    var j := if first.Some? && ComponentEnd(s, first.value).Some? && TailAt(s, ComponentEnd(s, first.value).value).Some?
             then ComponentEnd(s, first.value).value
             else if first.Some? && TailAt(s, first.value).Some? then first.value else i;
    k := TailHasTriple(s, j);
  }

  /** A match anywhere ends in such a triple, and where there is one there is a match at the latest. */
  lemma {:induction false} FindsIffTriple(s: string, i: nat)
    requires i <= |s|
    ensures FindFrom(s, i).Some? <==> exists k: nat :: k >= i && TripleAt(s, k)
    decreases |s| - i
  {
    if TripleAt(s, i) {
      TripleMatches(s, i);
    }
    hide TripleAt, MatchAt;
    if MatchAt(s, i).Some? {
      var k := MatchHasTriple(s, i);
    } else if i < |s| {
      FindsIffTriple(s, i + 1);
    } else {
      NoTripleAtEnd(s);
    }
  }

  lemma TripleMatches(s: string, i: nat)
    requires TripleAt(s, i)
    ensures MatchAt(s, i).Some?
  {
    TailFound(s, i, i + 1);
  }

  lemma NoTripleAtEnd(s: string)
    ensures forall k: nat :: k >= |s| ==> !TripleAt(s, k)
  {
  }

  /** Parsing succeeds iff a name character is followed by "@" or ":" and something other than a newline. */
  lemma ParseSucceedsIff(s: string)
    ensures Parse(s).Some? <==> exists k: nat :: TripleAt(s, k)
    ensures forall k: nat :: TripleAt(s, k) <==>
      k + 2 < |s| && s[k] !in {'@', ':', '/'} && s[k + 1] in {'@', ':'} && s[k + 2] != '\n'
  {
    FindsIffTriple(s, 0);
  }

  // ---------- what is captured ----------

  ghost predicate Captured(g: Groups) {
    && AllOf(NotSlash, g.host) && AllOf(NotSlash, g.namespace)
    && g.image != "" && AllOf(NameChar, g.image)
    && g.tag != "" && AllOf(NotNewline, g.tag)
  }

  lemma RunIsInClass(s: string, p: char -> bool, i: nat, e: nat)
    requires i <= |s| && i <= e <= RunEnd(s, p, i)
    ensures AllOf(p, s[i..e])
  {
  }

  lemma ComponentCaptures(s: string, i: nat)
    requires i <= |s| && ComponentEnd(s, i).Some?
    ensures AllOf(NotSlash, s[i..ComponentEnd(s, i).value - 1])
  {
    RunIsInClass(s, NotSlash, i, RunEnd(s, NotSlash, i));
  }

  lemma TailCaptures(s: string, i: nat)
    requires i <= |s| && TailAt(s, i).Some?
    ensures var (image, tag) := TailAt(s, i).value;
      image != "" && AllOf(NameChar, image) && tag != "" && AllOf(NotNewline, tag)
  {
    var e := RunEnd(s, NameChar, i);
    RunIsInClass(s, NameChar, i, e);
    RunIsInClass(s, NotNewline, e + 1, RunEnd(s, NotNewline, e + 1));
    RunEndIs(s, NotNewline, e + 2, RunEnd(s, NotNewline, e + 1));
  }

  lemma MatchCaptures(s: string, i: nat)
    requires i <= |s| && MatchAt(s, i).Some?
    ensures Captured(MatchAt(s, i).value)
  {
    hide RunEnd, ComponentEnd, TailAt;
    var first := ComponentEnd(s, i);
    if first.Some? {
      ComponentCaptures(s, i);
      var second := ComponentEnd(s, first.value);
      if second.Some? {
        ComponentCaptures(s, first.value);
        if TailAt(s, second.value).Some? { TailCaptures(s, second.value); }
      }
      if TailAt(s, first.value).Some? { TailCaptures(s, first.value); }
    }
    if TailAt(s, i).Some? { TailCaptures(s, i); }
  }

  lemma {:induction false} FindCaptures(s: string, i: nat)
    requires i <= |s| && FindFrom(s, i).Some?
    ensures Captured(FindFrom(s, i).value)
    decreases |s| - i
  {
    if MatchAt(s, i).Some? { MatchCaptures(s, i); } else { FindCaptures(s, i + 1); }
  }

  // ---------- the match found ----------

  lemma PrefixInParts(s: string, i: nat, x: string, rest: string)
    requires i <= |s| && x + rest <= s[i..]
    ensures i + |x| <= |s| && s[i..i + |x|] == x && rest <= s[i + |x|..]
  {
    assert (x + rest)[..|x|] == x && (x + rest)[|x|..] == rest;
    assert s[i..][|x|..] == s[i + |x|..];
  }

  /** A text at i is covered by the run of its class. */
  lemma RunCovers(s: string, p: char -> bool, i: nat, x: string)
    requires i <= |s| && AllOf(p, x) && x <= s[i..]
    ensures RunEnd(s, p, i) >= i + |x|
    ensures i + |x| < |s| && !p(s[i + |x|]) ==> RunEnd(s, p, i) == i + |x|
  {
    forall k | i <= k < i + |x| ensures p(s[k]) {
      assert s[k] == x[k - i] && x[k - i] in x;
    }
  }

  lemma ComponentOfText(s: string, i: nat, x: string, rest: string)
    requires i <= |s| && x != "" && AllOf(NotSlash, x) && x + "/" + rest <= s[i..]
    ensures ComponentEnd(s, i) == Some(i + |x| + 1) && i + |x| + 1 <= |s|
    ensures s[i..i + |x|] == x && rest <= s[i + |x| + 1..]
  {
    hide RunEnd, AllOf;
    assert x + "/" + rest == x + ("/" + rest);
    PrefixInParts(s, i, x, "/" + rest);
    PrefixInParts(s, i + |x|, "/", rest);
    RunCovers(s, NotSlash, i, x);
  }

  /** Image and mark are read as they stand, and the tag is read to the end of its line. */
  lemma TailOfText(s: string, i: nat, image: string, mark: char, tag: string)
    requires i <= |s| && image != "" && AllOf(NameChar, image) && TagMark(mark) && tag != "" && AllOf(NotNewline, tag)
    requires image + [mark] + tag <= s[i..]
    ensures TailAt(s, i).Some? && TailAt(s, i).value.0 == image && tag <= TailAt(s, i).value.1
  {
    hide RunEnd, AllOf;
    var e := i + |image|;
    assert image + [mark] + tag == image + ([mark] + tag);
    PrefixInParts(s, i, image, [mark] + tag);
    PrefixInParts(s, e, [mark], tag);
    assert s[e] == mark by { assert s[e] == s[e..e + 1][0]; }
    RunCovers(s, NameChar, i, image);
    assert s[e + 1] == tag[0];
    FirstInClass(NotNewline, tag);
    RunCovers(s, NotNewline, e + 1, tag);
  }

  lemma FirstInClass(p: char -> bool, s: string)
    requires s != "" && AllOf(p, s)
    ensures p(s[0])
  {
    assert s[0] in s;
  }

  lemma PrefersBoth(s: string, i: nat, m: Parts)
    requires i <= |s| && m.InLanguage() && m.Text() <= s[i..] && m.host.Some? && m.namespace.Some?
    ensures MatchAt(s, i).Some?
    ensures var g := MatchAt(s, i).value;
      g.host == m.host.value && g.namespace == m.namespace.value && g.image == m.image && m.tag <= g.tag
  {
    hide RunEnd, ComponentEnd, TailAt, AllOf;
    var end := m.image + [m.mark] + m.tag;
    var h, n := m.host.value, m.namespace.value;
    assert m.Text() == h + "/" + (n + "/" + end);
    ComponentOfText(s, i, h, n + "/" + end);
    ComponentOfText(s, i + |h| + 1, n, end);
    TailOfText(s, i + |h| + 1 + |n| + 1, m.image, m.mark, m.tag);
  }

  /** The only component of m, if it has just one. */
  ghost function OneComponent(m: Parts): Option<string> {
    if m.host.Some? && m.namespace.None? then m.host
    else if m.host.None? then m.namespace
    else None
  }

  lemma PrefersOne(s: string, i: nat, m: Parts)
    requires i <= |s| && m.InLanguage() && m.Text() <= s[i..] && OneComponent(m).Some?
    ensures MatchAt(s, i).Some?
    ensures var g := MatchAt(s, i).value;
      g.host == OneComponent(m).value && (g.namespace == "" ==> g.image == m.image && m.tag <= g.tag)
  {
    hide RunEnd, ComponentEnd, TailAt, AllOf;
    var end := m.image + [m.mark] + m.tag;
    var x := OneComponent(m).value;
    assert m.Text() == x + "/" + end;
    ComponentOfText(s, i, x, end);
    TailOfText(s, i + |x| + 1, m.image, m.mark, m.tag);
    MatchShape(s, i);
  }

  lemma PrefersNone(s: string, i: nat, m: Parts)
    requires i <= |s| && m.InLanguage() && m.Text() <= s[i..] && m.host.None? && m.namespace.None?
    ensures MatchAt(s, i).Some?
    ensures var g := MatchAt(s, i).value; g.host == "" ==> g.image == m.image && m.tag <= g.tag
  {
    hide RunEnd, ComponentEnd, TailAt, AllOf;
    assert m.Text() == m.image + [m.mark] + m.tag;
    TailOfText(s, i, m.image, m.mark, m.tag);
    MatchShape(s, i);
  }

  /** Which components are captured tells which optional groups took part. */
  lemma MatchShape(s: string, i: nat)
    requires i <= |s| && MatchAt(s, i).Some?
    ensures var g := MatchAt(s, i).value;
      && (g.namespace != "" ==> g.host != "")
      && (g.host != "" ==> ComponentEnd(s, i) == Some(i + |g.host| + 1))
      && (g.host == "" ==> TailAt(s, i) == Some((g.image, g.tag)))
      && (g.host != "" && g.namespace == "" ==> TailAt(s, i + |g.host| + 1) == Some((g.image, g.tag)))
  {
    hide RunEnd, TailAt;
  }

  ghost predicate SameComponents(g: Groups, m: Parts) {
    && (g.host != "" <==> m.host.Some? || m.namespace.Some?)
    && (g.namespace != "" <==> m.host.Some? && m.namespace.Some?)
  }

  /**
   * The match at a position is the preferred one: an optional group takes part whenever some text of the
   * language beginning there lets it, and the tag goes on as far as it can.
   */
  lemma MatchIsPreferred(s: string, i: nat, m: Parts)
    requires i <= |s| && m.InLanguage() && m.Text() <= s[i..]
    ensures MatchAt(s, i).Some?
    ensures var g := MatchAt(s, i).value;
      && (m.host.Some? || m.namespace.Some? ==> g.host != "")
      && (m.host.Some? && m.namespace.Some? ==> g.namespace != "")
      && (SameComponents(g, m) ==> g.image == m.image && m.tag <= g.tag)
  {
    hide MatchAt;
    if m.host.Some? && m.namespace.Some? {
      PrefersBoth(s, i, m);
    } else if m.host.Some? || m.namespace.Some? {
      PrefersOne(s, i, m);
    } else {
      PrefersNone(s, i, m);
    }
  }

  lemma ComponentDenotes(s: string, i: nat, rest: string)
    requires i <= |s| && ComponentEnd(s, i).Some? && rest <= s[ComponentEnd(s, i).value..]
    ensures var x := s[i..ComponentEnd(s, i).value - 1];
      x != "" && AllOf(NotSlash, x) && x + "/" + rest <= s[i..]
  {
    var e := ComponentEnd(s, i).value;
    RunIsInClass(s, NotSlash, i, RunEnd(s, NotSlash, i));
    assert s[i..] == s[i..e - 1] + "/" + s[e..];
  }

  lemma TailDenotes(s: string, i: nat) returns (m: Parts)
    requires i <= |s| && TailAt(s, i).Some?
    ensures m.host.None? && m.namespace.None? && TailAt(s, i) == Some((m.image, m.tag))
    ensures m.InLanguage() && m.Text() <= s[i..]
  {
    hide AllOf;
    var (image, tag) := TailAt(s, i).value;
    TailCaptures(s, i);
    m := Parts(None, None, image, s[RunEnd(s, NameChar, i)], tag);
    assert m.Text() == image + [m.mark] + tag;
  }

  /** Putting a component before text of the language that has no host yet. */
  lemma WithComponent(m: Parts, x: string)
    requires m.InLanguage() && m.host.None? && x != "" && AllOf(NotSlash, x)
    ensures m.(host := Some(x)).InLanguage() && m.(host := Some(x)).Text() == x + "/" + m.Text()
    ensures m.namespace.None? ==>
      m.(namespace := Some(x)).InLanguage() && m.(namespace := Some(x)).Text() == x + "/" + m.Text()
  {
    hide AllOf;
  }

  /** The groups captured when m is what matched; an optional component that is missing is empty. */
  ghost function GroupsOf(m: Parts): Groups {
    Groups(
      if m.host.Some? then m.host.value else "",
      if m.namespace.Some? then m.namespace.value else "",
      m.image, m.tag)
  }

  /** What is captured spells out text of the language. */
  lemma MatchIsDenoted(s: string, i: nat) returns (m: Parts)
    requires i <= |s| && MatchAt(s, i).Some?
    ensures m.InLanguage() && m.Text() <= s[i..] && MatchAt(s, i) == Some(GroupsOf(m))
  {
    hide RunEnd, ComponentEnd, TailAt, AllOf, Parts.InLanguage, Parts.Text;
    var g := MatchAt(s, i).value;
    var first := ComponentEnd(s, i);
    if first.Some? && ComponentEnd(s, first.value).Some? && TailAt(s, ComponentEnd(s, first.value).value).Some? {
      var tail := TailDenotes(s, ComponentEnd(s, first.value).value);
      ComponentDenotes(s, first.value, tail.Text());
      WithComponent(tail, g.namespace);
      m := tail.(namespace := Some(g.namespace));
      ComponentDenotes(s, i, m.Text());
      WithComponent(m, g.host);
      m := m.(host := Some(g.host));
    } else if first.Some? && TailAt(s, first.value).Some? {
      m := TailDenotes(s, first.value);
      ComponentDenotes(s, i, m.Text());
      WithComponent(m, g.host);
      m := m.(host := Some(g.host));
    } else {
      m := TailDenotes(s, i);
    }
  }

  /** There is a match at a position iff text of the language begins there. */
  lemma MatchIffDenoted(s: string, i: nat)
    requires i <= |s|
    ensures MatchAt(s, i).Some? <==> DenotedAt(s, i)
  {
    hide MatchAt;
    if MatchAt(s, i).Some? { var m := MatchIsDenoted(s, i); }
    if m: Parts :| m.InLanguage() && m.Text() <= s[i..] { MatchIsPreferred(s, i, m); }
  }

  /** No text of the language begins from i up to (and excluding) j. */
  ghost predicate NoneBefore(s: string, i: nat, j: nat) {
    forall k: nat :: i <= k < j && k <= |s| ==> !DenotedAt(s, k)
  }

  /** What is found is the match at the leftmost position where text of the language begins. */
  lemma {:induction false} FindIsLeftmost(s: string, i: nat)
    requires i <= |s|
    ensures FindFrom(s, i).Some? ==> exists j: nat ::
      i <= j <= |s| && DenotedAt(s, j) && FindFrom(s, i) == MatchAt(s, j) && NoneBefore(s, i, j)
    ensures FindFrom(s, i).None? ==> NoneBefore(s, i, |s| + 1)
    decreases |s| - i
  {
    hide MatchAt, DenotedAt;
    MatchIffDenoted(s, i);
    if MatchAt(s, i).None? && i < |s| {
      FindIsLeftmost(s, i + 1);
      if j: nat :| i < j <= |s| && DenotedAt(s, j) && FindFrom(s, i) == MatchAt(s, j) && NoneBefore(s, i + 1, j) {
        assert NoneBefore(s, i, j);
      }
    }
  }

  /** So parsing succeeds exactly when some part of the text is in the language of the expression. */
  lemma ParseSucceedsOnLanguage(s: string)
    ensures Parse(s).Some? <==> exists i: nat :: i <= |s| && DenotedAt(s, i)
  {
    hide MatchAt, DenotedAt;
    FindIsLeftmost(s, 0);
  }

  // ---------- printing and parsing again ----------

  /** One component with its slash, followed by more text. */
  lemma LeadingComponent(prefix: string, x: string, rest: string)
    requires x != "" && AllOf(NotSlash, x)
    ensures var s := prefix + x + "/" + rest;
      ComponentEnd(s, |prefix|) == Some(|prefix| + |x| + 1)
  {
    var s := prefix + x + "/" + rest;
    forall k | |prefix| <= k < |prefix| + |x| ensures NotSlash(s[k]) {
      assert s[k] == x[k - |prefix|] && s[k] in x;
    }
    ComponentFound(s, |prefix|, |prefix| + |x|);
  }

  lemma TailParses(prefix: string, image: string, mark: char, tag: string)
    requires image != "" && AllOf(NameChar, image) && TagMark(mark) && tag != "" && AllOf(NotNewline, tag)
    ensures TailAt(prefix + image + [mark] + tag, |prefix|) == Some((image, tag))
  {
    var s := prefix + image + [mark] + tag;
    var e := |prefix| + |image|;
    forall k | |prefix| <= k < e ensures NameChar(s[k]) {
      assert s[k] in image;
    }
    forall k | e + 1 <= k < |s| ensures NotNewline(s[k]) {
      assert s[k] in tag;
    }
    TailFound(s, |prefix|, e);
    RunEndIs(s, NotNewline, e + 1, |s|);
    assert s[|prefix|..e] == image && s[e + 1..|s|] == tag;
  }

  /** Two leading components are host and namespace, whatever the tag contains. */
  lemma ParseTwo(h: string, n: string, image: string, mark: char, tag: string)
    requires Parts(Some(h), Some(n), image, mark, tag).InLanguage()
    ensures Parse(h + "/" + n + "/" + image + [mark] + tag) == Some(Image(h, n + "/" + image, tag))
  {
    hide RunEnd, ComponentEnd, TailAt;
    var s := h + "/" + n + "/" + image + [mark] + tag;
    var rest := image + [mark] + tag;
    assert s == "" + h + "/" + (n + "/" + rest);
    LeadingComponent("", h, n + "/" + rest);
    assert s == (h + "/") + n + "/" + rest;
    LeadingComponent(h + "/", n, rest);
    var p := h + "/" + n + "/";
    assert s == p + image + [mark] + tag;
    TailParses(p, image, mark, tag);
    assert s[0..|h|] == h && s[|h| + 1..|p| - 1] == n;
    assert MatchAt(s, 0) == Some(Groups(h, n, image, tag));
  }

  /** What follows the first slash of a text. */
  function AfterSlash(t: string): (rest: Option<string>)
    ensures rest.Some? ==> |rest.value| < |t| && rest.value == t[|t| - |rest.value|..]
  {
    var e := RunEnd(t, NotSlash, 0);
    if e < |t| then Some(t[e + 1..]) else None
  }

  lemma RunEndShift(a: string, t: string, p: char -> bool, i: nat)
    requires i <= |t|
    ensures RunEnd(a + t, p, |a| + i) == |a| + RunEnd(t, p, i)
  {
    var e := RunEnd(t, p, i);
    assert forall k :: |a| <= k < |a| + |t| ==> (a + t)[k] == t[k - |a|];
    RunEndIs(a + t, p, |a| + i, |a| + e);
  }

  lemma ComponentShift(a: string, t: string, i: nat)
    requires i <= |t|
    ensures ComponentEnd(a + t, |a| + i) ==
      if ComponentEnd(t, i).Some? then Some(|a| + ComponentEnd(t, i).value) else None
  {
    hide RunEnd;
    RunEndShift(a, t, NotSlash, i);
  }

  lemma TailShift(a: string, t: string, i: nat)
    requires i <= |t|
    ensures TailAt(a + t, |a| + i) == TailAt(t, i)
  {
    hide RunEnd;
    var e := RunEnd(t, NameChar, i);
    RunEndShift(a, t, NameChar, i);
    if e + 1 < |t| {
      RunEndShift(a, t, NotNewline, e + 1);
      assert (a + t)[|a| + e] == t[e] && (a + t)[|a| + e + 1] == t[e + 1];
      assert (a + t)[|a| + i..|a| + e] == t[i..e];
      assert (a + t)[|a| + e + 1..|a| + RunEnd(t, NotNewline, e + 1)] == t[e + 1..RunEnd(t, NotNewline, e + 1)];
    }
  }

  /** A component may reach into the tag, up to the tag's first slash. */
  lemma ComponentIntoTag(y: string, tag: string)
    requires y != "" && AllOf(NotSlash, y)
    ensures ComponentEnd(y + tag, 0) ==
      if AfterSlash(tag).Some? then Some(|y| + |tag| - |AfterSlash(tag).value|) else None
  {
    var s := y + tag;
    var e := |y| + RunEnd(tag, NotSlash, 0);
    forall k | 0 <= k < e ensures NotSlash(s[k]) {
      assert k < |y| ==> s[k] in y;
    }
    RunEndIs(s, NotSlash, 0, e);
  }

  lemma TailIsShorter(t: string, i: nat)
    requires i <= |t| && TailAt(t, i).Some?
    ensures |TailAt(t, i).value.1| < |t|
  {
  }

  /** The text goes on with image, mark and tag. */
  predicate ReadsAsImage(t: string) {
    TailAt(t, 0).Some?
  }

  /** The text goes on with a component, image, mark and tag. */
  predicate ReadsAsComponentAndImage(t: string) {
    ComponentEnd(t, 0).Some? && TailAt(t, ComponentEnd(t, 0).value).Some?
  }

  lemma MatchOne(x: string, image: string, mark: char, tag: string)
    requires Parts(Some(x), None, image, mark, tag).InLanguage()
    ensures var found := MatchAt(Parts(Some(x), None, image, mark, tag).Text(), 0);
      if AfterSlash(tag).Some? && ReadsAsImage(AfterSlash(tag).value)
      then found.Some? && |found.value.tag| < |tag|
      else found == Some(Groups(x, "", image, tag))
  {
    hide RunEnd, ComponentEnd, TailAt, AfterSlash;
    var s := Parts(Some(x), None, image, mark, tag).Text();
    var p, y := x + "/", image + [mark];
    assert s == "" + x + "/" + (y + tag) && s == p + (y + tag) && s == p + image + [mark] + tag;
    LeadingComponent("", x, y + tag);
    TailParses(p, image, mark, tag);
    assert s[0..|x|] == x;
    ComponentShift(p, y + tag, 0);
    ComponentIntoTag(y, tag);
    if AfterSlash(tag).Some? {
      var rest := AfterSlash(tag).value;
      var q := p + y + tag[..|tag| - |rest|];
      assert s == q + rest;
      TailShift(q, rest, 0);
      if ReadsAsImage(rest) { TailIsShorter(rest, 0); }
    }
  }

  /**
   * One leading component is a host if it has a "." or ":", and a namespace otherwise; iff the tag does
   * not go on, behind its first slash, with what reads as image, mark and tag.
   */
  lemma ParseOne(x: string, image: string, mark: char, tag: string)
    requires Parts(Some(x), None, image, mark, tag).InLanguage()
    ensures Parse(x + "/" + image + [mark] + tag) ==
            Some(if '.' in x || ':' in x then Image(x, "library" + "/" + image, tag)
                 else Image("index.docker.io", x + "/" + image, tag))
            <==> !(AfterSlash(tag).Some? && ReadsAsImage(AfterSlash(tag).value))
  {
    hide MatchAt, AfterSlash, ReadsAsImage, AllOf;
    MatchOne(x, image, mark, tag);
    assert Parts(Some(x), None, image, mark, tag).Text() == x + "/" + image + [mark] + tag;
  }

  lemma MatchNone(image: string, mark: char, tag: string)
    requires Parts(None, None, image, mark, tag).InLanguage()
    ensures var found := MatchAt(Parts(None, None, image, mark, tag).Text(), 0);
      if AfterSlash(tag).Some?
         && (ReadsAsImage(AfterSlash(tag).value) || ReadsAsComponentAndImage(AfterSlash(tag).value))
      then found.Some? && |found.value.tag| < |tag|
      else found == Some(Groups("", "", image, tag))
  {
    hide RunEnd, ComponentEnd, TailAt, AfterSlash;
    var s := Parts(None, None, image, mark, tag).Text();
    var y := image + [mark];
    assert s == y + tag && s == "" + image + [mark] + tag;
    TailParses("", image, mark, tag);
    ComponentIntoTag(y, tag);
    if AfterSlash(tag).Some? {
      var rest := AfterSlash(tag).value;
      var q := y + tag[..|tag| - |rest|];
      assert s == q + rest;
      TailShift(q, rest, 0);
      ComponentShift(q, rest, 0);
      if ReadsAsImage(rest) { TailIsShorter(rest, 0); }
      if ComponentEnd(rest, 0).Some? { TailShift(q, rest, ComponentEnd(rest, 0).value); }
      if ReadsAsComponentAndImage(rest) { TailIsShorter(rest, ComponentEnd(rest, 0).value); }
    }
  }

  /**
   * Without components both are filled in, iff the tag does not go on, behind its first slash, with what
   * reads as image, mark and tag, with or without a component before them.
   */
  lemma ParseNone(image: string, mark: char, tag: string)
    requires Parts(None, None, image, mark, tag).InLanguage()
    ensures Parse(image + [mark] + tag) == Some(Image("index.docker.io", "library" + "/" + image, tag))
            <==> !(AfterSlash(tag).Some?
                   && (ReadsAsImage(AfterSlash(tag).value) || ReadsAsComponentAndImage(AfterSlash(tag).value)))
  {
    hide MatchAt, AfterSlash, ReadsAsImage, ReadsAsComponentAndImage, AllOf;
    MatchNone(image, mark, tag);
    assert Parts(None, None, image, mark, tag).Text() == image + [mark] + tag;
  }

  /** Every successful result is in normal form: printed as host/name:tag it parses to itself. */
  lemma ParseNormalizes(s: string)
    requires Parse(s).Some?
    ensures var im := Parse(s).value; Parse(im.host + "/" + im.name + ":" + im.tag) == Some(im)
  {
    hide FindFrom;
    var g := FindFrom(s, 0).value;
    FindCaptures(s, 0);
    var im := Parse(s).value;
    var n := im.name[..|im.name| - |g.image| - 1];
    assert im.name == n + "/" + g.image;
    assert n != "" && AllOf(NotSlash, n) && im.host != "" && AllOf(NotSlash, im.host);
    assert Parts(Some(im.host), Some(n), g.image, ':', g.tag).InLanguage();
    PrintedAgain(im, n, g.image);
  }

  lemma PrintedAgain(im: Image, n: string, image: string)
    requires Parts(Some(im.host), Some(n), image, ':', im.tag).InLanguage() && im.name == n + "/" + image
    ensures Parse(im.host + "/" + im.name + ":" + im.tag) == Some(im)
  {
    hide Parse;
    ParseTwo(im.host, n, image, ':', im.tag);
    assert im.host + "/" + n + "/" + image + ":" + im.tag == im.host + "/" + im.name + ":" + im.tag;
  }
}
