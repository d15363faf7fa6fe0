/** Comparing tuples: by anonymous number, by the match-all name, by a pattern, or by equal names. */
module TupleCompare {
  import opened Common
  import opened Glob

  datatype Tuple = Tuple(name: Option<string>, anonId: nat)

  function Named(name: string): Tuple {
    Tuple(Some(name), 0)
  }

  // Whether a regular expression matches a name; the expression language is not modelled.
  type Regex = (string, string) -> bool

  predicate Starts(s: string, c: char) {
    s != "" && s[0] == c
  }

  /** The sign of strcmp. */
  function Strcmp(a: string, b: string): int {
    if a == "" then (if b == "" then 0 else -1)
    else if b == "" then 1
    else if a[0] < b[0] then -1
    else if a[0] > b[0] then 1
    else Strcmp(a[1..], b[1..])
  }

  function Tplicmp(t1: Tuple, t2: Tuple): int {
    if t1.anonId < t2.anonId then -1 else if t1.anonId > t2.anonId then 1 else 0
  }

  function MatchResult(expr: string, name: string): int {
    if Matches(expr, name) then 0 else 1
  }

  function RegexResult(regex: Regex, t1: string, t2: string): int
    requires t1 != ""
  {
    if regex(t1[1..], t2) then 0 else 1
  }

  predicate Anonymous(t: Tuple) {
    t.name.None? && t.anonId != 0
  }

  /** The comparison reads both names unless one of the tuples is anonymous. */
  predicate Comparable(t1: Tuple, t2: Tuple) {
    Anonymous(t1) || Anonymous(t2) || (t1.name.Some? && t2.name.Some?)
  }

  function Tplcmp(regex: Regex, t1: Tuple, t2: Tuple): int
    requires Comparable(t1, t2)
  {
    if Anonymous(t1) || Anonymous(t2) then Tplicmp(t1, t2)
    else
      var n1, n2 := t1.name.value, t2.name.value;
      if n1 == "*" || n2 == "*" then 0
      else if Starts(n1, ':') && !Starts(n2, ':') then RegexResult(regex, n1, n2)
      else if !Starts(n1, ':') && Starts(n2, ':') then RegexResult(regex, n2, n1)
      else if Starts(n2, '!') && !Starts(n1, '!') then MatchResult(n2[1..], n1)
      else if Starts(n1, '!') && !Starts(n2, '!') then MatchResult(n1[1..], n2)
      else Strcmp(n1, n2)
  }

  lemma {:induction false} StrcmpZero(a: string, b: string)
    ensures Strcmp(a, b) == 0 <==> a == b
    ensures Strcmp(b, a) == -Strcmp(a, b)
  {
    if a != "" && b != "" {
      StrcmpZero(a[1..], b[1..]);
      assert a == [a[0]] + a[1..] && b == [b[0]] + b[1..];
    }
  }

  /** Which tuple is the list element and which one is searched for makes no difference to a match. */
  lemma ZeroIsSymmetric(regex: Regex, t1: Tuple, t2: Tuple)
    requires Comparable(t1, t2)
    ensures Tplcmp(regex, t1, t2) == 0 <==> Tplcmp(regex, t2, t1) == 0
  {
    if t1.name.Some? && t2.name.Some? { StrcmpZero(t1.name.value, t2.name.value); }
  }

  /** A plain name is matched by "!pattern" exactly when it is in the language of the pattern, and by itself. */
  lemma PatternTuple(regex: Regex, pattern: string, name: string)
    requires '*' !in name && !Starts(name, ':') && !Starts(name, '!')
    ensures Tplcmp(regex, Named("!" + pattern), Named(name)) == 0 <==> InLanguage(pattern, name)
    ensures Tplcmp(regex, Named(name), Named("!" + pattern)) == 0 <==> InLanguage(pattern, name)
    ensures forall other | !Starts(other, '!') && !Starts(other, ':') && other != "*" ::
              Tplcmp(regex, Named(name), Named(other)) == 0 <==> other == name
  {
    assert ("!" + pattern)[1..] == pattern;
    MatchExact(name);
    forall other: string
      ensures Strcmp(name, other) == 0 <==> other == name
    {
      StrcmpZero(name, other);
    }
  }

  /** A ":pattern" matches exactly the names that the regular expression matches, even a "!pattern". */
  lemma RegexTuple(regex: Regex, pattern: string, name: string)
    requires !Starts(name, ':') && name != "*"
    ensures Tplcmp(regex, Named(":" + pattern), Named(name)) == 0 <==> regex(pattern, name)
    ensures Tplcmp(regex, Named(name), Named(":" + pattern)) == 0 <==> regex(pattern, name)
  {
    assert (":" + pattern)[1..] == pattern;
  }

  /** The name "*" matches every name. */
  lemma MatchAll(regex: Regex, name: string)
    ensures Tplcmp(regex, Named("*"), Named(name)) == 0 && Tplcmp(regex, Named(name), Named("*")) == 0
  {
  }

  /** Two names of the same kind, both plain, both ":" or both "!", match exactly if they are equal. */
  lemma SameKind(regex: Regex, a: string, b: string)
    requires a != "*" && b != "*"
    requires (Starts(a, ':') <==> Starts(b, ':')) && (Starts(a, '!') <==> Starts(b, '!'))
    ensures Tplcmp(regex, Named(a), Named(b)) == 0 <==> a == b
  {
    StrcmpZero(a, b);
  }

  /** If one of two tuples is anonymous they match exactly if their numbers are equal. */
  lemma AnonymousTuple(regex: Regex, t1: Tuple, t2: Tuple)
    requires Anonymous(t1) || Anonymous(t2)
    ensures Tplcmp(regex, t1, t2) == 0 <==> t1.anonId == t2.anonId
    ensures Tplcmp(regex, t1, t2) < 0 <==> t1.anonId < t2.anonId
  {
  }

  lemma FirstOfPrefix(a: string, b: string, k: nat)
    requires 0 < k <= |a| && k <= |b| && a[..k] == b[..k]
    ensures a[0] == b[0]
  {
    assert a[..k][0] == a[0] && b[..k][0] == b[0];
  }

  /** Otherwise plain names are ordered by the first character in which they differ, or by length. */
  lemma {:induction false} NameOrder(a: string, b: string)
    ensures Strcmp(a, b) < 0
            <==> exists k: nat :: k <= |a| && k < |b| && a[..k] == b[..k] && (k == |a| || a[k] < b[k])
  {
    if a != "" && b != "" && a[0] == b[0] {
      NameOrder(a[1..], b[1..]);
      if Strcmp(a, b) < 0 {
        var k: nat :| k <= |a[1..]| && k < |b[1..]| && a[1..][..k] == b[1..][..k]
                      && (k == |a[1..]| || a[1..][k] < b[1..][k]);
        var m := k + 1;
        assert a[..m] == [a[0]] + a[1..][..k] && b[..m] == [b[0]] + b[1..][..k];
      }
      forall k: nat | k <= |a| && k < |b| && a[..k] == b[..k] && (k == |a| || a[k] < b[k])
        ensures Strcmp(a, b) < 0
      {
        var m := k - 1;
        assert a[1..][..m] == a[..k][1..] && b[1..][..m] == b[..k][1..];
      }
    } else {
      assert a[..0] == b[..0];
      forall k: nat | k <= |a| && k < |b| && a[..k] == b[..k]
        ensures k == 0
      {
        if k > 0 { FirstOfPrefix(a, b, k); }
      }
    }
  }
}
