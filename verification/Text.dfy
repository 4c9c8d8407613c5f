/** The few string operations of Go's strings and strconv packages that the plugins build keys with. */
module Text {

  /** strings.Split with a one-character separator. */
  function Split(s: string, sep: char): (parts: seq<string>)
    ensures |parts| >= 1
  {
    if s == "" then [""]
    else
      var rest := Split(s[1..], sep);
      if s[0] == sep then [""] + rest else [[s[0]] + rest[0]] + rest[1..]
  }

  /** strings.Join with a one-character separator. */
  function Join(parts: seq<string>, sep: char): string {
    if |parts| == 0 then ""
    else if |parts| == 1 then parts[0]
    else parts[0] + [sep] + Join(parts[1..], sep)
  }

  lemma {:induction false} SplitWithoutSeparator(s: string, sep: char)
    ensures Split(s, sep) == [s] <==> sep !in s
    ensures |Split(s, sep)| == 1 <==> sep !in s
  {
    if s != "" {
      SplitWithoutSeparator(s[1..], sep);
      assert s == [s[0]] + s[1..];
    }
  }

  lemma {:induction false} SplitAtSeparator(head: string, tail: string, sep: char)
    requires sep !in head
    ensures Split(head + [sep] + tail, sep) == [head] + Split(tail, sep)
  {
    var s := head + [sep] + tail;
    if head == "" {
      assert s[1..] == tail;
    } else {
      SplitAtSeparator(head[1..], tail, sep);
      assert s[1..] == head[1..] + [sep] + tail;
      assert head == [head[0]] + head[1..];
    }
  }

  /** Splitting undoes joining, so joining is injective on separator-free parts. */
  lemma {:induction false} SplitOfJoin(parts: seq<string>, sep: char)
    requires |parts| >= 1
    requires forall p :: p in parts ==> sep !in p
    ensures Split(Join(parts, sep), sep) == parts
  {
    if |parts| == 1 {
      SplitWithoutSeparator(parts[0], sep);
    } else {
      SplitOfJoin(parts[1..], sep);
      SplitAtSeparator(parts[0], Join(parts[1..], sep), sep);
      assert parts == [parts[0]] + parts[1..];
    }
  }

  lemma {:induction false} JoinOfSplit(s: string, sep: char)
    ensures Join(Split(s, sep), sep) == s
  {
    if s != "" {
      var rest := Split(s[1..], sep);
      JoinOfSplit(s[1..], sep);
      assert s == [s[0]] + s[1..];
      if s[0] == sep {
        assert Split(s, sep)[1..] == rest;
      } else {
        assert Split(s, sep)[1..] == rest[1..];
      }
    }
  }

  /** strings.Contains. */
  predicate Contains(s: string, sub: string) {
    |sub| <= |s| && (s[..|sub|] == sub || (s != "" && Contains(s[1..], sub)))
  }

  predicate OccursAt(s: string, sub: string, p: nat) {
    p + |sub| <= |s| && s[p..p + |sub|] == sub
  }

  lemma OccursAtNext(s: string, sub: string, p: nat)
    requires s != ""
    ensures OccursAt(s, sub, p + 1) <==> OccursAt(s[1..], sub, p)
  {
    if p + |sub| <= |s[1..]| {
      var here, there := s[p + 1..p + 1 + |sub|], s[1..][p..p + |sub|];
      forall k | 0 <= k < |sub| ensures here[k] == there[k] {
      }
      assert here == there;
    }
  }

  /** It occurs as a contiguous part. */
  lemma {:induction false} ContainsMeaning(s: string, sub: string)
    ensures Contains(s, sub) <==> exists p: nat :: OccursAt(s, sub, p)
  {
    assert |sub| <= |s| ==> s[0..0 + |sub|] == s[..|sub|];
    assert OccursAt(s, sub, 0) <==> |sub| <= |s| && s[..|sub|] == sub;
    if s != "" {
      ContainsMeaning(s[1..], sub);
      if p: nat :| OccursAt(s[1..], sub, p) {
        OccursAtNext(s, sub, p);
        assert OccursAt(s, sub, p + 1);
      }
      if p: nat :| OccursAt(s, sub, p) {
        if p > 0 { OccursAtNext(s, sub, p - 1); }
      }
    }
  }

  function Digit(d: nat): char
    requires d < 10
  {
    '0' + d as char
  }

  /** strconv.Itoa for non-negative numbers. */
  function Itoa(n: nat): string {
    if n < 10 then [Digit(n)] else Itoa(n / 10) + [Digit(n % 10)]
  }

  lemma {:induction false} ItoaIsDigits(n: nat)
    ensures Itoa(n) != "" && forall c :: c in Itoa(n) ==> '0' <= c <= '9'
  {
    if n >= 10 { ItoaIsDigits(n / 10); }
  }

  lemma {:induction false} ItoaInjective(m: nat, n: nat)
    requires Itoa(m) == Itoa(n)
    ensures m == n
  {
    var s := Itoa(m);
    assert s[|s| - 1] == Digit(m % 10) == Digit(n % 10);
    assert |s| == 1 <==> m < 10 by { ItoaIsDigits(m / 10); }
    assert |s| == 1 <==> n < 10 by { ItoaIsDigits(n / 10); }
    if m >= 10 {
      assert Itoa(m / 10) == s[..|s| - 1] == Itoa(n / 10);
      ItoaInjective(m / 10, n / 10);
    }
  }
}
