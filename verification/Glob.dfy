/**
 The pattern matcher of the tuple space: '?' stands for one character and '*' for any string.
 Its result is compared with the language of the pattern.
 */
module Glob {

  // ----- the language of a pattern -----

  /** The text that one pattern character can stand for. */
  predicate StandsFor(c: char, piece: string) {
    if c == '*' then true
    else if c == '?' then |piece| == 1
    else piece == [c]
  }

  function Join(pieces: seq<string>): string {
    if pieces == [] then [] else pieces[0] + Join(pieces[1..])
  }

  ghost predicate IsSplit(expr: string, name: string, pieces: seq<string>) {
    && |pieces| == |expr|
    && Join(pieces) == name
    && forall i | 0 <= i < |expr| :: StandsFor(expr[i], pieces[i])
  }

  /** name can be cut into pieces that the pattern characters stand for, in order. */
  ghost predicate InLanguage(expr: string, name: string) {
    exists pieces: seq<string> :: IsSplit(expr, name, pieces)
  }

  lemma PrependPiece(expr: string, piece: string, rest: string)
    requires expr != [] && StandsFor(expr[0], piece) && InLanguage(expr[1..], rest)
    ensures InLanguage(expr, piece + rest)
  {
    var pieces: seq<string> :| IsSplit(expr[1..], rest, pieces);
    assert ([piece] + pieces)[1..] == pieces;
    assert IsSplit(expr, piece + rest, [piece] + pieces);
  }

  lemma FirstPiece(expr: string, name: string) returns (piece: string, rest: string)
    requires expr != [] && InLanguage(expr, name)
    ensures StandsFor(expr[0], piece) && name == piece + rest && InLanguage(expr[1..], rest)
  {
    var pieces: seq<string> :| IsSplit(expr, name, pieces);
    piece, rest := pieces[0], Join(pieces[1..]);
    assert IsSplit(expr[1..], rest, pieces[1..]);
  }

  lemma EmptyPattern(name: string)
    ensures InLanguage("", name) <==> name == ""
  {
    assert Join([]) == "";
    if name == "" { assert IsSplit("", "", []); }
  }

  // ----- the matcher -----

  /** The names that the matcher accepts: equal leading characters are skipped before wildcards are looked at. */
  predicate Matches(expr: string, name: string)
    decreases |expr|
  {
    if expr == "" then name == ""
    else if name != "" && expr[0] == name[0] then Matches(expr[1..], name[1..])
    else if expr[0] == '?' then name != "" && Matches(expr[1..], name[1..])
    else if expr[0] == '*' then exists k | 0 <= k <= |name| :: Matches(expr[1..], name[k..])
    else false
  }

  /** _match: 0 for a match, 1 for none. */
  method Match(expr: string, name: string) returns (r: int)
    ensures r == 0 || r == 1
    ensures r == 0 <==> Matches(expr, name)
    decreases |expr|
  {
    var e, n := expr, name;
    while (e == "" && n == "") || (e != "" && n != "" && e[0] == n[0])
      invariant |e| <= |expr|
      invariant Matches(expr, name) <==> Matches(e, n)
      decreases |n|
    {
      if n == "" {
        return 0;
      }
      e, n := e[1..], n[1..];
    }
    if e != "" && e[0] == '?' {
      if n != "" {
        r := Match(e[1..], n[1..]);
        return;
      }
    } else if e != "" && e[0] == '*' {
      var k := 0;
      while k <= |n|
        invariant k <= |n| + 1
        invariant forall j | 0 <= j < k :: !Matches(e[1..], n[j..])
      {
        var found := Match(e[1..], n[k..]);
        if found == 0 {
          return 0;
        }
        k := k + 1;
      }
    }
    return 1;
  }

  // ----- the matcher against the language -----

  /** Whatever the matcher accepts is in the language of the pattern. */
  lemma {:induction false} MatchSound(expr: string, name: string)
    requires Matches(expr, name)
    ensures InLanguage(expr, name)
    decreases |expr|
  {
    if expr == "" {
      EmptyPattern(name);
    } else if name != "" && (expr[0] == name[0] || expr[0] == '?') {
      MatchSound(expr[1..], name[1..]);
      PrependPiece(expr, name[..1], name[1..]);
      assert name == name[..1] + name[1..];
    } else {
      var k :| 0 <= k <= |name| && Matches(expr[1..], name[k..]);
      MatchSound(expr[1..], name[k..]);
      PrependPiece(expr, name[..k], name[k..]);
      assert name == name[..k] + name[k..];
    }
  }

  lemma StarMatches(expr: string, name: string, k: nat)
    requires expr != "" && expr[0] == '*' && '*' !in name
    requires k <= |name| && Matches(expr[1..], name[k..])
    ensures Matches(expr, name)
  {
    assert name != "" ==> name[0] in name;
  }

  /** A name without the character '*' that is in the language is accepted. */
  lemma {:induction false} MatchComplete(expr: string, name: string)
    requires InLanguage(expr, name) && '*' !in name
    ensures Matches(expr, name)
    decreases |expr|
  {
    if expr == "" {
      EmptyPattern(name);
    } else {
      hide InLanguage;
      var piece, rest := FirstPiece(expr, name);
      assert name[|piece|..] == rest;
      MatchComplete(expr[1..], rest);
      if expr[0] == '*' {
        StarMatches(expr, name, |piece|);
      } else {
        assert name[1..] == rest;
      }
    }
  }

  // ----- names that contain '*' -----

  lemma {:induction false} Literal(name: string)
    ensures InLanguage(name, name)
  {
    if name == "" {
      EmptyPattern("");
    } else {
      Literal(name[1..]);
      PrependPiece(name, name[..1], name[1..]);
      assert name == name[..1] + name[1..];
    }
  }

  lemma {:induction false} LiteralPrefix(u: string, expr: string, name: string)
    ensures Matches(u + expr, u + name) <==> Matches(expr, name)
    ensures InLanguage(expr, name) ==> InLanguage(u + expr, u + name)
  {
    if u == "" {
      assert u + expr == expr && u + name == name;
    } else {
      LiteralPrefix(u[1..], expr, name);
      assert (u + expr)[1..] == u[1..] + expr && (u + name)[1..] == u[1..] + name;
      if InLanguage(expr, name) {
        PrependPiece(u + expr, u[..1], u[1..] + name);
        assert u[..1] + (u[1..] + name) == u + name;
      }
    }
  }

  /** Without '*' in the pattern, a name in its language has the pattern's length. */
  lemma {:induction false} FixedLength(expr: string, name: string)
    requires '*' !in expr && InLanguage(expr, name)
    ensures |name| == |expr|
  {
    if expr == "" {
      EmptyPattern(name);
    } else {
      var piece, rest := FirstPiece(expr, name);
      FixedLength(expr[1..], rest);
    }
  }

  lemma {:induction false} LastStar(name: string) returns (u: string, v: string)
    requires '*' in name
    ensures name == u + "*" + v && '*' !in v
    decreases |name|
  {
    var last := |name| - 1;
    if name[last] == '*' {
      u, v := name[..last], "";
    } else {
      var w;
      u, w := LastStar(name[..last]);
      v := w + [name[last]];
    }
  }

  lemma OneTooMany(v: string)
    requires '*' !in v
    ensures !Matches("?" + v, v)
  {
    if Matches("?" + v, v) {
      MatchSound("?" + v, v);
      FixedLength("?" + v, v);
    }
  }

  /** A pattern that the matcher gets wrong on a given name with a '*': it covers the name but is refused. */
  lemma MissedPattern(name: string) returns (expr: string)
    requires '*' in name
    ensures InLanguage(expr, name) && !Matches(expr, name)
  {
    var u, v := LastStar(name);
    var tail, rest := "*?" + v, "*" + v;
    expr := u + tail;
    assert name == u + rest;
    Literal(v);
    assert tail[1..] == "?" + v && ("?" + v)[1..] == v && rest[1..] == v;
    PrependPiece("?" + v, "*", v);
    PrependPiece(tail, "", rest);
    assert "" + rest == rest;
    OneTooMany(v);
    LiteralPrefix(u, tail, rest);
  }

  /** The matcher decides every pattern's language on a name exactly when the name contains no '*'. */
  lemma MatchExact(name: string)
    ensures (forall expr: string :: Matches(expr, name) <==> InLanguage(expr, name)) <==> '*' !in name
  {
    if '*' in name {
      var expr := MissedPattern(name);
    } else {
      forall expr: string
        ensures Matches(expr, name) <==> InLanguage(expr, name)
      {
        if Matches(expr, name) { MatchSound(expr, name); }
        if InLanguage(expr, name) { MatchComplete(expr, name); }
      }
    }
  }
}
