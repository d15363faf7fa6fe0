/**
 A tuple space of named tuples: the queue of stored tuples, the queue of requests that wait for
 one, and the put, read and fetch handlers that work on them.
 */
module TupleSpaces {
  import opened Common
  import opened TupleCompare

  datatype Item = Item(name: string, data: seq<nat>)

  // What a waiting client asked for. Get and Pop take the tuple away, Read and Peek leave it.
  datatype Wanted = Get | Read | Pop | Peek

  datatype Request = Request(name: Option<string>, clientId: nat, wanted: Wanted, isLocal: bool)
  {
    predicate Takes() {
      wanted.Get? || wanted.Pop?
    }

    /** Get and Read wait for a name, Pop and Peek for any tuple. */
    predicate WellFormed() {
      wanted.Get? || wanted.Read? ==> name.Some?
    }
  }

  /** blckcmp_str: Pop and Peek match every tuple, the others compare names. */
  predicate Wants(regex: Regex, r: Request, t: Item) {
    r.WellFormed() && (r.wanted.Pop? || r.wanted.Peek? || Tplcmp(regex, Named(r.name.value), Named(t.name)) == 0)
  }

  /** The queue is searched with the stored tuple as the first operand. */
  predicate Finds(regex: Regex, t: Item, name: string) {
    Tplcmp(regex, Named(t.name), Named(name)) == 0
  }

  datatype Space = Space(queue: seq<Item>, requests: seq<Request>)

  // ----- what one put does -----

  /** The waiting requests that the tuple satisfies, in arrival order. */
  function Matching(regex: Regex, requests: seq<Request>, t: Item): (m: seq<Request>)
    ensures |m| <= |requests|
  {
    if requests == [] then []
    else
      var rest := Matching(regex, requests[1..], t);
      if Wants(regex, requests[0], t) then [requests[0]] + rest else rest
  }

  /** Up to and including the first request that takes the tuple. */
  function Through(m: seq<Request>): (a: seq<Request>)
    ensures a <= m
  {
    if m == [] then []
    else if m[0].Takes() then [m[0]]
    else [m[0]] + Through(m[1..])
  }

  /** The requests without the first n that the tuple satisfies. */
  function Without(regex: Regex, requests: seq<Request>, t: Item, n: nat): seq<Request> {
    if n == 0 || requests == [] then requests
    else if Wants(regex, requests[0], t) then Without(regex, requests[1..], t, n - 1)
    else [requests[0]] + Without(regex, requests[1..], t, n)
  }

  function Answered(regex: Regex, requests: seq<Request>, t: Item): seq<Request> {
    Through(Matching(regex, requests, t))
  }

  predicate Taken(regex: Regex, requests: seq<Request>, t: Item) {
    var a := Answered(regex, requests, t);
    a != [] && a[|a| - 1].Takes()
  }

  /** After a taker has been served one more matching request is removed, unanswered. */
  predicate OneDropped(regex: Regex, requests: seq<Request>, t: Item) {
    Taken(regex, requests, t) && |Answered(regex, requests, t)| < |Matching(regex, requests, t)|
  }

  function AfterPut(regex: Regex, s: Space, t: Item): Space {
    var gone := |Answered(regex, s.requests, t)| + (if OneDropped(regex, s.requests, t) then 1 else 0);
    Space(if Taken(regex, s.requests, t) then s.queue else s.queue + [t],
          Without(regex, s.requests, t, gone))
  }

  // ----- what one read or fetch does -----

  // The reply: a tuple, or not found (TsEnf, return code 2), or refused (TsEnf, return code 1).
  datatype Reply = Found(item: Item) | NotFound | Refused

  /** First position of a tuple with a matching name, or the length of the queue. */
  function FirstNamed(regex: Regex, queue: seq<Item>, name: string): (i: nat)
    ensures i <= |queue|
    ensures i < |queue| ==> Finds(regex, queue[i], name)
    ensures forall j | 0 <= j < i :: !Finds(regex, queue[j], name)
  {
    if queue == [] || Finds(regex, queue[0], name) then 0 else 1 + FirstNamed(regex, queue[1..], name)
  }

  function Removed<T>(s: seq<T>, i: nat): (r: seq<T>)
    requires i < |s|
    ensures |r| == |s| - 1
  {
    s[..i] + s[i + 1..]
  }

  function AfterRead(regex: Regex, s: Space, r: Request, blocking: bool, isActivated: bool): (Space, Reply)
    requires r.name.Some?
  {
    if !r.isLocal && !isActivated then (s, Refused)
    else
      var i := FirstNamed(regex, s.queue, r.name.value);
      if i == |s.queue| then (if blocking then s.(requests := s.requests + [r]) else s, NotFound)
      else (if r.Takes() then s.(queue := Removed(s.queue, i)) else s, Found(s.queue[i]))
  }

  function AfterFetch(s: Space, r: Request, blocking: bool): (Space, Reply) {
    if s.queue == [] then (if blocking then s.(requests := s.requests + [r]) else s, NotFound)
    else (if r.Takes() then s.(queue := s.queue[1..]) else s, Found(s.queue[0]))
  }

  // ----- the space in the daemon -----

  class TupleSpace {
    const regex: Regex
    var namedQueue: seq<Item>
    var namedQueueRequests: seq<Request>
    var isActivated: bool

    ghost function State(): Space
      reads this
    {
      Space(namedQueue, namedQueueRequests)
    }

    constructor (regex: Regex, isActivated: bool)
      ensures State() == Space([], []) && this.regex == regex && this.isActivated == isActivated
    {
      this.regex := regex;
      this.isActivated := isActivated;
      namedQueue, namedQueueRequests := [], [];
    }

    /** zlistx_find on the request queue. */
    method FindRequest(t: Item) returns (i: nat)
      ensures FirstWanting(regex, t, namedQueueRequests, i)
    {
      i := 0;
      while i < |namedQueueRequests| && !Wants(regex, namedQueueRequests[i], t)
        invariant i <= |namedQueueRequests|
        invariant forall j | 0 <= j < i :: !Wants(regex, namedQueueRequests[j], t)
      {
        i := i + 1;
      }
    }

    /** match_blocking_requests for TsPut; answered lists the requests that were sent the tuple. */
    method Put(t: Item) returns (answered: seq<Request>)
      modifies this`namedQueue, this`namedQueueRequests
      ensures State() == AfterPut(regex, old(State()), t)
      ensures answered == Answered(regex, old(namedQueueRequests), t)
      ensures namedQueue == old(namedQueue)
                            + (if answered != [] && answered[|answered| - 1].wanted in {Get, Pop} then [] else [t])
    {
      hide Wants, Matching, Without, Through, Removed, AfterPut, Answered, Serving, FirstWanting, Request.Takes;
      ghost var s := State();
      answered := [];
      var needAppend := true;
      ServingBegins(regex, namedQueueRequests, t);
      while true
        invariant namedQueue == s.queue && Serving(regex, s.requests, t, namedQueueRequests, answered, needAppend)
        decreases |namedQueueRequests|
      {
        var i := FindRequest(t);
        if i == |namedQueueRequests| || !needAppend {
          ServingEnds(regex, s, t, namedQueueRequests, answered, needAppend, i);
          if i < |namedQueueRequests| {
            namedQueueRequests := Removed(namedQueueRequests, i);
          }
          if needAppend {
            namedQueue := namedQueue + [t];
          }
          QueuedUnlessTaken(regex, s, t);
          break;
        }
        ServingGoesOn(regex, s.requests, t, namedQueueRequests, answered, i);
        var matched := namedQueueRequests[i];
        namedQueueRequests := Removed(namedQueueRequests, i);
        answered := answered + [matched];
        if matched.Takes() {
          needAppend := false;
        }
      }
    }

    /** named_queue_read_handler: TsRead, TsGet and their blocking forms. */
    method ReadOrGet(name: string, clientId: nat, get: bool, blocking: bool, isLocal: bool) returns (reply: Reply)
      modifies this`namedQueue, this`namedQueueRequests
      ensures (State(), reply) ==
              AfterRead(regex, old(State()), Request(Some(name), clientId, if get then Get else Read, isLocal),
                        blocking, isActivated)
      ensures reply == Refused <==> !isLocal && !isActivated
      ensures reply == Refused ==> State() == old(State())
      ensures reply == NotFound ==>
                && namedQueue == old(namedQueue)
                && (forall t | t in namedQueue :: Tplcmp(regex, Named(name), Named(t.name)) != 0)
                && namedQueueRequests
                   == old(namedQueueRequests)
                      + (if blocking then [Request(Some(name), clientId, if get then Get else Read, isLocal)] else [])
      ensures reply.Found? ==>
                && namedQueueRequests == old(namedQueueRequests)
                && exists i: nat :: i < |old(namedQueue)|
                     && reply.item == old(namedQueue)[i] && Tplcmp(regex, Named(name), Named(reply.item.name)) == 0
                     && (forall j | 0 <= j < i :: Tplcmp(regex, Named(name), Named(old(namedQueue)[j].name)) != 0)
                     && namedQueue == (if get then old(namedQueue)[..i] + old(namedQueue)[i + 1..] else old(namedQueue))
    {
      if !isLocal && !isActivated {
        return Refused;
      }
      var i := 0;
      while i < |namedQueue| && !Finds(regex, namedQueue[i], name)
        invariant i <= |namedQueue|
        invariant forall j | 0 <= j < i :: !Finds(regex, namedQueue[j], name)
      {
        i := i + 1;
      }
      FirstNamedIs(regex, namedQueue, name, i);
      forall j | 0 <= j < |namedQueue|
        ensures Finds(regex, namedQueue[j], name) <==> Tplcmp(regex, Named(name), Named(namedQueue[j].name)) == 0
      {
        ZeroIsSymmetric(regex, Named(namedQueue[j].name), Named(name));
      }
      if i == |namedQueue| {
        if blocking {
          namedQueueRequests :=
            namedQueueRequests + [Request(Some(name), clientId, if get then Get else Read, isLocal)];
        }
        return NotFound;
      }
      reply := Found(namedQueue[i]);
      if get {
        namedQueue := Removed(namedQueue, i);
      }
    }

    /** named_queue_fetch_handler: TsPeek, TsPop and their blocking forms. */
    method PeekOrPop(clientId: nat, pop: bool, blocking: bool, isLocal: bool) returns (reply: Reply)
      modifies this`namedQueue, this`namedQueueRequests
      ensures (State(), reply) ==
              AfterFetch(old(State()), Request(None, clientId, if pop then Pop else Peek, isLocal), blocking)
      ensures reply.Found? <==> old(namedQueue) != []
      ensures reply.Found? ==> old(namedQueue) == (if pop then [reply.item] + namedQueue else namedQueue)
                               && reply.item == old(namedQueue)[0] && namedQueueRequests == old(namedQueueRequests)
      ensures !reply.Found? ==>
                && reply == NotFound && namedQueue == []
                && namedQueueRequests
                   == old(namedQueueRequests)
                      + (if blocking then [Request(None, clientId, if pop then Pop else Peek, isLocal)] else [])
    {
      if |namedQueue| == 0 {
        if blocking {
          namedQueueRequests := namedQueueRequests + [Request(None, clientId, if pop then Pop else Peek, isLocal)];
        }
        return NotFound;
      }
      reply := Found(namedQueue[0]);
      if pop {
        namedQueue := namedQueue[1..];
      }
    }

    /** TsTerm: every waiting client is told, in arrival order, and the tuples are freed. */
    method Terminate() returns (told: seq<Request>, freed: seq<Item>)
      modifies this`namedQueue, this`namedQueueRequests, this`isActivated
      ensures State() == Space([], []) && !isActivated
      ensures told == old(namedQueueRequests) && freed == old(namedQueue)
    {
      isActivated := false;
      told, freed := [], [];
      while |namedQueueRequests| > 0
        invariant told + namedQueueRequests == old(namedQueueRequests)
        invariant namedQueue == old(namedQueue) && !isActivated
        decreases |namedQueueRequests|
      {
        told, namedQueueRequests := told + [namedQueueRequests[0]], namedQueueRequests[1..];
      }
      while |namedQueue| > 0
        invariant freed + namedQueue == old(namedQueue)
        invariant told == old(namedQueueRequests) && namedQueueRequests == [] && !isActivated
        decreases |namedQueue|
      {
        freed, namedQueue := freed + [namedQueue[0]], namedQueue[1..];
      }
    }
  }

  lemma FirstNamedIs(regex: Regex, queue: seq<Item>, name: string, i: nat)
    requires i <= |queue| && (i < |queue| ==> Finds(regex, queue[i], name))
    requires forall j | 0 <= j < i :: !Finds(regex, queue[j], name)
    ensures FirstNamed(regex, queue, name) == i
  {
  }

  // ----- the loop of a put -----

  /** The first matching request is the head of the matching ones, and removing it leaves the others. */
  lemma {:induction false} FindIsFirstMatching(regex: Regex, requests: seq<Request>, t: Item, i: nat)
    requires i <= |requests| && forall j | 0 <= j < i :: !Wants(regex, requests[j], t)
    requires i < |requests| ==> Wants(regex, requests[i], t)
    ensures i == |requests| ==> Matching(regex, requests, t) == []
    ensures i < |requests| ==>
              && Matching(regex, requests, t) == [requests[i]] + Matching(regex, Removed(requests, i), t)
              && Removed(requests, i) == Without(regex, requests, t, 1)
  {
    hide Wants;
    if i == 0 {
      if requests != [] { assert Removed(requests, 0) == requests[1..]; }
    } else {
      FindIsFirstMatching(regex, requests[1..], t, i - 1);
      if i < |requests| {
        assert Removed(requests, i) == [requests[0]] + Removed(requests[1..], i - 1);
      }
    }
  }

  lemma {:induction false} WithoutOneMore(regex: Regex, requests: seq<Request>, t: Item, n: nat)
    ensures Without(regex, Without(regex, requests, t, n), t, 1) == Without(regex, requests, t, n + 1)
    decreases |requests|
  {
    if requests != [] && n > 0 {
      if Wants(regex, requests[0], t) {
        WithoutOneMore(regex, requests[1..], t, n - 1);
      } else {
        WithoutOneMore(regex, requests[1..], t, n);
      }
    }
  }

  lemma WithoutNone(regex: Regex, requests: seq<Request>, t: Item)
    ensures Without(regex, requests, t, 0) == requests
  {
  }

  lemma {:induction false} NoneTakes(m: seq<Request>)
    requires forall r | r in m :: !r.Takes()
    ensures Through(m) == m
  {
    if m != [] { NoneTakes(m[1..]); }
  }

  lemma {:induction false} FirstTakes(before: seq<Request>, r: Request, after: seq<Request>)
    requires r.Takes() && forall b | b in before :: !b.Takes()
    ensures Through(before + ([r] + after)) == before + [r]
  {
    var m := before + ([r] + after);
    if before != [] {
      assert m[1..] == before[1..] + ([r] + after);
      FirstTakes(before[1..], r, after);
    }
  }

  lemma QueuedUnlessTaken(regex: Regex, s: Space, t: Item)
    ensures var answered := Answered(regex, s.requests, t);
            AfterPut(regex, s, t).queue
            == s.queue + (if answered != [] && answered[|answered| - 1].wanted in {Get, Pop} then [] else [t])
  {
    assert s.queue + [] == s.queue;
  }

  /** The state at the end of the loop is the one that AfterPut describes. */
  lemma PutOutcome(regex: Regex, s: Space, t: Item, answered: seq<Request>, current: seq<Request>)
    requires Matching(regex, s.requests, t) == answered + Matching(regex, current, t)
    requires current == Without(regex, s.requests, t, |answered|)
    requires || (Matching(regex, current, t) == [] && forall r | r in answered :: !r.Takes())
             || (answered != [] && answered[|answered| - 1].Takes()
                 && Through(Matching(regex, s.requests, t)) == answered)
    ensures answered == Answered(regex, s.requests, t)
    ensures var taken := answered != [] && answered[|answered| - 1].Takes();
            AfterPut(regex, s, t) == Space(if taken then s.queue else s.queue + [t],
                                           if taken && Matching(regex, current, t) != []
                                           then Without(regex, s.requests, t, |answered| + 1) else current)
  {
    if Matching(regex, current, t) == [] && forall r | r in answered :: !r.Takes() {
      NoneTakes(answered);
      assert answered + [] == answered;
    }
  }

  /** In the loop: who has been answered, who still waits, and whether the tuple has been taken. */
  ghost predicate Serving(regex: Regex, before: seq<Request>, t: Item, current: seq<Request>, answered: seq<Request>,
                          needAppend: bool)
  {
    && Matching(regex, before, t) == answered + Matching(regex, current, t)
    && current == Without(regex, before, t, |answered|)
    && (if needAppend then forall r | r in answered :: !r.Takes()
        else answered != [] && Through(Matching(regex, before, t)) == answered && answered[|answered| - 1].Takes())
  }

  lemma ServingBegins(regex: Regex, before: seq<Request>, t: Item)
    ensures Serving(regex, before, t, before, [], true)
  {
    WithoutNone(regex, before, t);
    assert [] + Matching(regex, before, t) == Matching(regex, before, t);
  }

  /** current[i] is the first request that the tuple satisfies, or i is their number. */
  predicate FirstWanting(regex: Regex, t: Item, current: seq<Request>, i: nat) {
    && i <= |current|
    && (forall j | 0 <= j < i :: !Wants(regex, current[j], t))
    && (i < |current| ==> Wants(regex, current[i], t))
  }

  lemma ServingGoesOn(regex: Regex, before: seq<Request>, t: Item, current: seq<Request>, answered: seq<Request>,
                      i: nat)
    requires Serving(regex, before, t, current, answered, true)
    requires FirstWanting(regex, t, current, i) && i < |current|
    ensures Serving(regex, before, t, Removed(current, i), answered + [current[i]], !current[i].Takes())
    ensures |Removed(current, i)| < |current|
  {
    FindIsFirstMatching(regex, current, t, i);
    WithoutOneMore(regex, before, t, |answered|);
    hide Wants, Matching, Without, Through, Request.Takes;
    var matched, rest := current[i], Matching(regex, Removed(current, i), t);
    assert answered + ([matched] + rest) == (answered + [matched]) + rest;
    if matched.Takes() { FirstTakes(answered, matched, rest); }
  }

  lemma ServingEnds(regex: Regex, s: Space, t: Item, current: seq<Request>, answered: seq<Request>, needAppend: bool,
                    i: nat)
    requires Serving(regex, s.requests, t, current, answered, needAppend)
    requires FirstWanting(regex, t, current, i) && (i == |current| || !needAppend)
    ensures answered == Answered(regex, s.requests, t)
    ensures AfterPut(regex, s, t) == Space(if needAppend then s.queue + [t] else s.queue,
                                           if i < |current| then Removed(current, i) else current)
  {
    FindIsFirstMatching(regex, current, t, i);
    WithoutOneMore(regex, s.requests, t, |answered|);
    hide Wants, Matching, Without, Through, AfterPut, Answered;
    PutOutcome(regex, s, t, answered, current);
  }

  // ----- what a put does to the requests -----

  /** At most one of the answered requests takes the tuple, and it is the last one. */
  lemma {:induction false} OnlyLastTakes(m: seq<Request>)
    ensures var a := Through(m); forall i | 0 <= i < |a| - 1 :: !a[i].Takes()
    ensures var a := Through(m); (forall r | r in a :: !r.Takes()) ==> a == m
  {
    if m != [] { OnlyLastTakes(m[1..]); }
  }

  lemma {:induction false} MatchingOfLater(regex: Regex, requests: seq<Request>, r: Request, t: Item)
    ensures Matching(regex, requests + [r], t)
            == Matching(regex, requests, t) + (if Wants(regex, r, t) then [r] else [])
  {
    hide Wants;
    if requests == [] {
      assert [] + [r] == [r] && [r][1..] == [];
    } else {
      MatchingOfLater(regex, requests[1..], r, t);
      assert (requests + [r])[1..] == requests[1..] + [r];
    }
  }

  lemma {:induction false} ThroughOfLater(m: seq<Request>, r: Request)
    ensures var a := Through(m);
            Through(m + [r]) == if a != [] && a[|a| - 1].Takes() then a else m + [r]
  {
    if m == [] {
      assert [] + [r] == [r] && [r][1..] == [];
    } else {
      assert (m + [r])[1..] == m[1..] + [r] && (m + [r])[0] == m[0];
      if !m[0].Takes() {
        ThroughOfLater(m[1..], r);
        var rest := Through(m[1..]);
        assert Through(m) == [m[0]] + rest;
        assert m + [r] == [m[0]] + (m[1..] + [r]);
      }
    }
  }

  /** Arrival order: a later request is answered exactly when it matches and nobody before it took the tuple. */
  lemma LaterArrival(regex: Regex, requests: seq<Request>, r: Request, t: Item)
    ensures Answered(regex, requests + [r], t)
            == Answered(regex, requests, t) + (if Wants(regex, r, t) && !Taken(regex, requests, t) then [r] else [])
  {
    var m := Matching(regex, requests, t);
    MatchingOfLater(regex, requests, r, t);
    ThroughOfLater(m, r);
    if !Taken(regex, requests, t) { AllAnswered(m); }
    assert m + [] == m && Through(m) + [] == Through(m);
  }

  lemma {:induction false} MatchingIsFilter(regex: Regex, requests: seq<Request>, t: Item)
    ensures forall r :: multiset(Matching(regex, requests, t))[r]
                        == if Wants(regex, r, t) then multiset(requests)[r] else 0
  {
    hide Wants;
    if requests != [] {
      MatchingIsFilter(regex, requests[1..], t);
      assert requests == [requests[0]] + requests[1..];
    }
  }

  /** The requests that stay, with the first n matching ones, are the requests there were. */
  lemma {:induction false} WithoutKeeps(regex: Regex, requests: seq<Request>, t: Item, n: nat)
    requires n <= |Matching(regex, requests, t)|
    ensures multiset(requests) == multiset(Without(regex, requests, t, n)) + multiset(Matching(regex, requests, t)[..n])
  {
    hide *;
    WithoutUnfolds(regex, requests, t, n);
    if n > 0 {
      var r, rest := requests[0], requests[1..];
      FirstOfBag(requests);
      if Wants(regex, r, t) {
        WithoutKeeps(regex, rest, t, n - 1);
        assert Matching(regex, requests, t)[..n] == [r] + Matching(regex, rest, t)[..n - 1];
      } else {
        WithoutKeeps(regex, rest, t, n);
      }
    } else {
      assert Matching(regex, requests, t)[..0] == [];
    }
  }

  /** Removing requests adds none. */
  lemma {:induction false} WithoutWithin(regex: Regex, requests: seq<Request>, t: Item, n: nat)
    ensures forall r | r in Without(regex, requests, t, n) :: r in requests
  {
    if n > 0 && requests != [] {
      WithoutWithin(regex, requests[1..], t, if Wants(regex, requests[0], t) then n - 1 else n);
    }
  }

  lemma FirstOfBag<T>(s: seq<T>)
    requires s != []
    ensures multiset(s) == multiset{s[0]} + multiset(s[1..])
  {
    assert s == [s[0]] + s[1..];
  }

  lemma WithoutUnfolds(regex: Regex, requests: seq<Request>, t: Item, n: nat)
    requires n <= |Matching(regex, requests, t)|
    ensures n == 0 ==> Without(regex, requests, t, n) == requests
    ensures n > 0 ==> requests != []
    ensures n > 0 && Wants(regex, requests[0], t) ==>
              && Without(regex, requests, t, n) == Without(regex, requests[1..], t, n - 1)
              && Matching(regex, requests, t) == [requests[0]] + Matching(regex, requests[1..], t)
    ensures n > 0 && !Wants(regex, requests[0], t) ==>
              && Without(regex, requests, t, n) == [requests[0]] + Without(regex, requests[1..], t, n)
              && Matching(regex, requests, t) == Matching(regex, requests[1..], t)
  {
    hide Wants;
  }

  /** A put divides the waiting requests into those that stay, those answered, and the one dropped, if any. */
  lemma PutDivides(regex: Regex, s: Space, t: Item)
    ensures var m, a := Matching(regex, s.requests, t), Answered(regex, s.requests, t);
            multiset(s.requests) == multiset(AfterPut(regex, s, t).requests) + multiset(a)
                                    + (if OneDropped(regex, s.requests, t) then multiset{m[|a|]} else multiset{})
  {
    hide Wants, Matching, Without, Through;
    var m, a := Matching(regex, s.requests, t), Answered(regex, s.requests, t);
    assert m[..|a|] == a;
    if OneDropped(regex, s.requests, t) {
      WithoutKeeps(regex, s.requests, t, |a| + 1);
      assert m[..|a| + 1] == a + [m[|a|]];
    } else {
      WithoutKeeps(regex, s.requests, t, |a|);
    }
  }

  lemma OneMore<T>(x: multiset<T>, y: multiset<T>, e: T)
    requires x == y + multiset{e}
    ensures x != y
  {
    assert x[e] == y[e] + 1;
  }

  /**
   Every request that waited before a put either still waits or has been answered, exactly when
   the tuple was not taken or no further matching request waited behind the taker.
   */
  lemma RequestsKeptOrAnswered(regex: Regex, s: Space, t: Item)
    ensures multiset(s.requests) == multiset(AfterPut(regex, s, t).requests) + multiset(Answered(regex, s.requests, t))
            <==> !OneDropped(regex, s.requests, t)
  {
    hide Wants, Matching, Without, Through, AfterPut;
    PutDivides(regex, s, t);
    var m, a := Matching(regex, s.requests, t), Answered(regex, s.requests, t);
    if OneDropped(regex, s.requests, t) {
      OneMore(multiset(s.requests), multiset(AfterPut(regex, s, t).requests) + multiset(a), m[|a|]);
    }
  }

  // ----- no missed match -----

  /** No stored tuple satisfies a waiting request. */
  ghost predicate Settled(regex: Regex, s: Space) {
    && (forall r | r in s.requests :: r.WellFormed())
    && forall r, t | r in s.requests && t in s.queue :: !Wants(regex, r, t)
  }

  lemma {:induction false} NoMatchLeft(regex: Regex, requests: seq<Request>, t: Item)
    ensures forall r | r in Without(regex, requests, t, |Matching(regex, requests, t)|) :: !Wants(regex, r, t)
  {
    if requests != [] {
      NoMatchLeft(regex, requests[1..], t);
      if Matching(regex, requests, t) == [] { MatchingIsFilter(regex, requests, t); }
    }
  }

  lemma PutKeepsSettled(regex: Regex, s: Space, t: Item)
    requires Settled(regex, s)
    ensures Settled(regex, AfterPut(regex, s, t))
  {
    var s' := AfterPut(regex, s, t);
    var m, a := Matching(regex, s.requests, t), Answered(regex, s.requests, t);
    if Taken(regex, s.requests, t) {
      WithoutWithin(regex, s.requests, t, |a| + (if OneDropped(regex, s.requests, t) then 1 else 0));
    } else {
      AllAnswered(m);
      WithoutWithin(regex, s.requests, t, |m|);
      NoMatchLeft(regex, s.requests, t);
      assert s' == Space(s.queue + [t], Without(regex, s.requests, t, |m|));
    }
  }

  /** If the last answered request does not take the tuple, every matching request is answered. */
  lemma AllAnswered(m: seq<Request>)
    requires var a := Through(m); a == [] || !a[|a| - 1].Takes()
    ensures Through(m) == m
  {
    OnlyLastTakes(m);
    var a := Through(m);
    assert forall r | r in a :: !r.Takes();
  }

  lemma ReadKeepsSettled(regex: Regex, s: Space, r: Request, blocking: bool, isActivated: bool)
    requires Settled(regex, s) && r.name.Some? && (r.wanted.Get? || r.wanted.Read?)
    ensures Settled(regex, AfterRead(regex, s, r, blocking, isActivated).0)
  {
    var i := FirstNamed(regex, s.queue, r.name.value);
    if i == |s.queue| {
      forall t | t in s.queue
        ensures !Wants(regex, r, t)
      {
        ZeroIsSymmetric(regex, Named(t.name), Named(r.name.value));
      }
    }
  }

  lemma FetchKeepsSettled(regex: Regex, s: Space, r: Request, blocking: bool)
    requires Settled(regex, s) && r.WellFormed()
    ensures Settled(regex, AfterFetch(s, r, blocking).0)
  {
  }

  // ----- who is handed a tuple -----

  /** One copy of the tuple for every answered request that takes it. */
  function HandedOut(answered: seq<Request>, t: Item): multiset<Item> {
    if answered == [] then multiset{}
    else (if answered[0].Takes() then multiset{t} else multiset{}) + HandedOut(answered[1..], t)
  }

  /** A put hands the tuple to one taker at most, and to one exactly if it is not queued. */
  lemma {:induction false} OneTakerAtMost(m: seq<Request>, t: Item)
    ensures var a := Through(m);
            HandedOut(a, t) == if a != [] && a[|a| - 1].Takes() then multiset{t} else multiset{}
  {
    if m != [] {
      OneTakerAtMost(m[1..], t);
      assert [m[0]][1..] == [];
      assert !m[0].Takes() ==> Through(m)[1..] == Through(m[1..]);
    }
  }

  // ----- whole runs -----

  datatype Event =
    | PutEvent(t: Item)
    | ReadEvent(name: string, clientId: nat, get: bool, blocking: bool, isLocal: bool, isActivated: bool)
    | FetchEvent(clientId: nat, pop: bool, blocking: bool, isLocal: bool)
    | TermEvent

  // The space with three tallies: every tuple ever put, every copy of one handed to a client that
  // takes it, and every tuple freed by a TsTerm.
  datatype History = History(space: Space, put: multiset<Item>, taken: multiset<Item>, freed: multiset<Item>)

  function TakenNow(takes: bool, reply: Reply): multiset<Item> {
    if takes && reply.Found? then multiset{reply.item} else multiset{}
  }

  function StepOf(regex: Regex, h: History, e: Event): History {
    match e
    case PutEvent(t) =>
      h.(space := AfterPut(regex, h.space, t), put := h.put + multiset{t},
         taken := h.taken + HandedOut(Answered(regex, h.space.requests, t), t))
    case ReadEvent(name, clientId, get, blocking, isLocal, isActivated) =>
      var r := Request(Some(name), clientId, if get then Get else Read, isLocal);
      var (space, reply) := AfterRead(regex, h.space, r, blocking, isActivated);
      h.(space := space, taken := h.taken + TakenNow(get, reply))
    case FetchEvent(clientId, pop, blocking, isLocal) =>
      var r := Request(None, clientId, if pop then Pop else Peek, isLocal);
      var (space, reply) := AfterFetch(h.space, r, blocking);
      h.(space := space, taken := h.taken + TakenNow(pop, reply))
    case TermEvent =>
      h.(space := Space([], []), freed := h.freed + multiset(h.space.queue))
  }

  function RunOf(regex: Regex, events: seq<Event>): History {
    if events == [] then History(Space([], []), multiset{}, multiset{}, multiset{})
    else StepOf(regex, RunOf(regex, events[..|events| - 1]), events[|events| - 1])
  }

  ghost predicate Conserved(h: History) {
    h.put == multiset(h.space.queue) + h.taken + h.freed
  }

  lemma RemovedMultiset<T>(s: seq<T>, i: nat)
    requires i < |s|
    ensures multiset(s) == multiset(Removed(s, i)) + multiset{s[i]}
  {
    assert s == s[..i] + [s[i]] + s[i + 1..];
  }

  lemma ReadConserves(regex: Regex, s: Space, r: Request, blocking: bool, isActivated: bool)
    requires r.name.Some?
    ensures var (s', reply) := AfterRead(regex, s, r, blocking, isActivated);
            multiset(s.queue) == multiset(s'.queue) + TakenNow(r.Takes(), reply)
  {
    var i := FirstNamed(regex, s.queue, r.name.value);
    if i < |s.queue| { RemovedMultiset(s.queue, i); }
  }

  lemma FetchConserves(s: Space, r: Request, blocking: bool)
    ensures var (s', reply) := AfterFetch(s, r, blocking);
            multiset(s.queue) == multiset(s'.queue) + TakenNow(r.Takes(), reply)
  {
    if s.queue != [] {
      RemovedMultiset(s.queue, 0);
      assert Removed(s.queue, 0) == s.queue[1..];
    }
  }

  lemma PutConserves(regex: Regex, s: Space, t: Item)
    ensures multiset(s.queue) + multiset{t}
            == multiset(AfterPut(regex, s, t).queue) + HandedOut(Answered(regex, s.requests, t), t)
  {
    OneTakerAtMost(Matching(regex, s.requests, t), t);
  }

  lemma Handed(put: multiset<Item>, q: multiset<Item>, q': multiset<Item>, taken: multiset<Item>, now: multiset<Item>,
               freed: multiset<Item>)
    requires put == q + taken + freed && q == q' + now
    ensures put == q' + (taken + now) + freed
  {
  }

  lemma StepConserves(regex: Regex, h: History, e: Event)
    requires Conserved(h)
    ensures Conserved(StepOf(regex, h, e))
  {
    hide AfterPut, AfterRead, AfterFetch, Answered, HandedOut, TakenNow;
    var q := multiset(h.space.queue);
    match e {
      case PutEvent(t) =>
        PutConserves(regex, h.space, t);
        var now := HandedOut(Answered(regex, h.space.requests, t), t);
        var q' := multiset(AfterPut(regex, h.space, t).queue);
        Handed(h.put + multiset{t}, q + multiset{t}, q', h.taken, now, h.freed);
      case ReadEvent(name, clientId, get, blocking, isLocal, isActivated) =>
        var r := Request(Some(name), clientId, if get then Get else Read, isLocal);
        ReadConserves(regex, h.space, r, blocking, isActivated);
        var (space, reply) := AfterRead(regex, h.space, r, blocking, isActivated);
        Handed(h.put, q, multiset(space.queue), h.taken, TakenNow(get, reply), h.freed);
      case FetchEvent(clientId, pop, blocking, isLocal) =>
        var r := Request(None, clientId, if pop then Pop else Peek, isLocal);
        FetchConserves(h.space, r, blocking);
        var (space, reply) := AfterFetch(h.space, r, blocking);
        Handed(h.put, q, multiset(space.queue), h.taken, TakenNow(pop, reply), h.freed);
      case TermEvent =>
    }
  }

  lemma StepKeepsSettled(regex: Regex, h: History, e: Event)
    requires Settled(regex, h.space)
    ensures Settled(regex, StepOf(regex, h, e).space)
  {
    match e {
      case PutEvent(t) => PutKeepsSettled(regex, h.space, t);
      case ReadEvent(name, clientId, get, blocking, isLocal, isActivated) =>
        var r := Request(Some(name), clientId, if get then Get else Read, isLocal);
        ReadKeepsSettled(regex, h.space, r, blocking, isActivated);
      case FetchEvent(clientId, pop, blocking, isLocal) =>
        FetchKeepsSettled(regex, h.space, Request(None, clientId, if pop then Pop else Peek, isLocal), blocking);
      case TermEvent =>
    }
  }

  /**
   After any run of puts, reads, fetches and terminations no stored tuple satisfies a waiting
   request, and the tuples put are those stored, those freed, and every copy handed to a taker.
   */
  lemma {:induction false} EveryRun(regex: Regex, events: seq<Event>)
    ensures Settled(regex, RunOf(regex, events).space) && Conserved(RunOf(regex, events))
    decreases |events|
  {
    if events != [] {
      var before, e := events[..|events| - 1], events[|events| - 1];
      EveryRun(regex, before);
      StepKeepsSettled(regex, RunOf(regex, before), e);
      StepConserves(regex, RunOf(regex, before), e);
    }
  }

  /** So a request to pop or peek waits only while no tuple is stored. */
  lemma PopWaitsOnlyOnEmpty(regex: Regex, events: seq<Event>, r: Request)
    requires r in RunOf(regex, events).space.requests && (r.wanted.Pop? || r.wanted.Peek?)
    ensures RunOf(regex, events).space.queue == []
  {
    EveryRun(regex, events);
    var s := RunOf(regex, events).space;
    if s.queue != [] { assert s.queue[0] in s.queue && Wants(regex, r, s.queue[0]); }
  }

  // ----- how long a request waits -----

  lemma MatchingOfFirst(regex: Regex, r: Request, rest: seq<Request>, t: Item)
    ensures Matching(regex, [r] + rest, t) == (if Wants(regex, r, t) then [r] else []) + Matching(regex, rest, t)
  {
    assert ([r] + rest)[1..] == rest;
  }

  lemma MatchingNone(regex: Regex, t: Item)
    ensures Matching(regex, [], t) == []
  {
  }

  lemma {:induction false} MatchingSplit(regex: Regex, a: seq<Request>, b: seq<Request>, t: Item)
    ensures Matching(regex, a + b, t) == Matching(regex, a, t) + Matching(regex, b, t)
    decreases |a|
  {
    MatchingNone(regex, t);
    hide *;
    if a == [] {
      assert a + b == b && Matching(regex, a, t) + Matching(regex, b, t) == Matching(regex, b, t);
    } else {
      var r, rest := a[0], a[1..];
      MatchingSplit(regex, rest, b, t);
      MatchingJoin(regex, r, rest, b, t);
      assert a == [r] + rest;
    }
  }

  lemma MatchingJoin(regex: Regex, r: Request, rest: seq<Request>, b: seq<Request>, t: Item)
    requires Matching(regex, rest + b, t) == Matching(regex, rest, t) + Matching(regex, b, t)
    ensures Matching(regex, ([r] + rest) + b, t) == Matching(regex, [r] + rest, t) + Matching(regex, b, t)
  {
    hide *;
    MatchingOfFirst(regex, r, rest, t);
    MatchingOfFirst(regex, r, rest + b, t);
    FirstAndRest(r, rest, b);
    var first := if Wants(regex, r, t) then [r] else [];
    assert (first + Matching(regex, rest, t)) + Matching(regex, b, t)
           == first + (Matching(regex, rest, t) + Matching(regex, b, t));
  }

  lemma ThroughOfReader(r: Request, rest: seq<Request>)
    requires !r.Takes()
    ensures Through([r] + rest) == [r] + Through(rest)
  {
    assert ([r] + rest)[1..] == rest;
  }

  lemma FirstAndRest<T>(r: T, a: seq<T>, b: seq<T>)
    ensures ([r] + a) + b == [r] + (a + b)
  {
  }

  lemma {:induction false} NoTakerPasses(m: seq<Request>, l: seq<Request>)
    requires forall r | r in m :: !r.Takes()
    ensures Through(m + l) == m + Through(l)
    decreases |m|
  {
    hide *;
    if m == [] {
      assert m + l == l && m + Through(l) == Through(l);
    } else {
      var r, rest := m[0], m[1..];
      assert m == [r] + rest;
      NoTakerPasses(rest, l);
      ThroughOfReader(r, rest + l);
      FirstAndRest(r, rest, l);
      FirstAndRest(r, rest, Through(l));
    }
  }

  lemma {:induction false} TakerStops(m: seq<Request>, l: seq<Request>)
    requires exists r :: r in m && r.Takes()
    ensures Through(m + l) == Through(m) && Through(m) != [] && Through(m)[|Through(m)| - 1].Takes()
  {
    hide Request.Takes;
    if !m[0].Takes() {
      assert (m + l)[1..] == m[1..] + l;
      TakerStops(m[1..], l);
    }
  }

  /** Requests that stay keep their order of arrival. */
  lemma {:induction false} WithoutSplit(regex: Regex, a: seq<Request>, b: seq<Request>, t: Item, n: nat)
    ensures var m := |Matching(regex, a, t)|;
            Without(regex, a + b, t, n) == Without(regex, a, t, n) + Without(regex, b, t, if n <= m then 0 else n - m)
  {
    hide Wants;
    if a == [] {
      assert a + b == b;
    } else {
      assert (a + b)[1..] == a[1..] + b && (a + b)[0] == a[0];
      if n > 0 {
        WithoutSplit(regex, a[1..], b, t, if Wants(regex, a[0], t) then n - 1 else n);
      }
    }
  }

  /**
   A waiting request is answered by a put exactly if it matches and nobody who waited before it takes
   the tuple, and then after those who waited before it.
   */
  lemma AnsweredInTurn(regex: Regex, before: seq<Request>, r: Request, after: seq<Request>, t: Item)
    ensures var answered, first := Answered(regex, before + [r] + after, t), Answered(regex, before, t);
            if Taken(regex, before, t) then answered == first
            else first <= answered && (Wants(regex, r, t) ==> |first| < |answered| && answered[|first|] == r)
  {
    var m := Matching(regex, before, t);
    assert before + [r] + after == before + ([r] + after);
    MatchingSplit(regex, before, [r] + after, t);
    assert ([r] + after)[1..] == after && ([r] + after)[0] == r;
    if exists x :: x in m && x.Takes() {
      TakerStops(m, Matching(regex, [r] + after, t));
    } else {
      NoTakerPasses(m, Matching(regex, [r] + after, t));
      NoneTakes(m);
    }
  }

  /** No put of a tuple that matches the request, and no termination. */
  predicate LetsWait(regex: Regex, r: Request, e: Event) {
    !e.TermEvent? && (e.PutEvent? ==> !Wants(regex, r, e.t))
  }

  lemma PutKeepsWaiting(regex: Regex, s: Space, before: seq<Request>, r: Request, after: seq<Request>, t: Item)
    returns (before': seq<Request>, after': seq<Request>)
    requires s.requests == before + [r] + after && !Wants(regex, r, t)
    ensures AfterPut(regex, s, t).requests == before' + [r] + after' && |before'| <= |before|
  {
    hide Through, Matching, Wants, OneDropped;
    var n := |Answered(regex, s.requests, t)| + (if OneDropped(regex, s.requests, t) then 1 else 0);
    var m := |Matching(regex, before, t)|;
    var k := if n <= m then 0 else n - m;
    WithoutSplit(regex, before, [r] + after, t, n);
    WithoutShorter(regex, before, t, n);
    WithoutPasses(regex, r, after, t, k);
    hide Without;
    assert before + [r] + after == before + ([r] + after);
    before', after' := Without(regex, before, t, n), Without(regex, after, t, k);
    assert before' + ([r] + after') == before' + [r] + after';
  }

  lemma WithoutPasses(regex: Regex, r: Request, after: seq<Request>, t: Item, n: nat)
    requires !Wants(regex, r, t)
    ensures Without(regex, [r] + after, t, n) == [r] + Without(regex, after, t, n)
  {
    assert ([r] + after)[1..] == after;
  }

  lemma StepKeepsWaiting(regex: Regex, h: History, before: seq<Request>, r: Request, after: seq<Request>, e: Event)
    returns (before': seq<Request>, after': seq<Request>)
    requires h.space.requests == before + [r] + after && LetsWait(regex, r, e)
    ensures StepOf(regex, h, e).space.requests == before' + [r] + after' && |before'| <= |before|
  {
    hide AfterPut, Answered, HandedOut, Wants, FirstNamed;
    if e.PutEvent? {
      before', after' := PutKeepsWaiting(regex, h.space, before, r, after, e.t);
    } else {
      before' := before;
      after' := StepOf(regex, h, e).space.requests[|before| + 1..];
    }
  }

  lemma {:induction false} WithoutShorter(regex: Regex, requests: seq<Request>, t: Item, n: nat)
    ensures |Without(regex, requests, t, n)| <= |requests|
  {
    if n > 0 && requests != [] {
      WithoutShorter(regex, requests[1..], t, if Wants(regex, requests[0], t) then n - 1 else n);
    }
  }

  /** While nothing that it matches is put, a request goes on waiting, whatever else happens. */
  lemma {:induction false} KeepsWaiting(regex: Regex, h: History, before: seq<Request>, r: Request, after: seq<Request>,
                                        events: seq<Event>)
    returns (before': seq<Request>, after': seq<Request>)
    requires h.space.requests == before + [r] + after && forall e | e in events :: LetsWait(regex, r, e)
    ensures RunFrom(regex, h, events).space.requests == before' + [r] + after' && |before'| <= |before|
    decreases |events|
  {
    if events == [] {
      before', after' := before, after;
    } else {
      var last := |events| - 1;
      before', after' := KeepsWaiting(regex, h, before, r, after, events[..last]);
      before', after' := StepKeepsWaiting(regex, RunFrom(regex, h, events[..last]), before', r, after', events[last]);
    }
  }

  function RunFrom(regex: Regex, h: History, events: seq<Event>): History {
    if events == [] then h else StepOf(regex, RunFrom(regex, h, events[..|events| - 1]), events[|events| - 1])
  }

  /**
   A blocking Read or Get that finds nothing waits until the first put of a tuple that it matches,
   and that put answers it, after the clients who waited longer, exactly if none of them takes the tuple.
   */
  lemma BlockedReadIsAnswered(regex: Regex, h: History, name: string, clientId: nat, get: bool, isLocal: bool,
                              events: seq<Event>, t: Item)
    returns (waitedLonger: seq<Request>)
    requires forall x | x in h.space.queue :: Tplcmp(regex, Named(name), Named(x.name)) != 0
    requires var r := Request(Some(name), clientId, if get then Get else Read, isLocal);
             forall e | e in events :: LetsWait(regex, r, e)
    requires Tplcmp(regex, Named(name), Named(t.name)) == 0
    ensures var r := Request(Some(name), clientId, if get then Get else Read, isLocal);
            var h1 := StepOf(regex, h, ReadEvent(name, clientId, get, true, isLocal, true));
            var h2 := RunFrom(regex, h1, events);
            var answered, first := Answered(regex, h2.space.requests, t), Answered(regex, waitedLonger, t);
            && |waitedLonger| <= |h.space.requests|
            && waitedLonger + [r] <= h2.space.requests
            && if Taken(regex, waitedLonger, t) then answered == first
               else first <= answered && |first| < |answered| && answered[|first|] == r
  {
    var r := Request(Some(name), clientId, if get then Get else Read, isLocal);
    var e := ReadEvent(name, clientId, get, true, isLocal, true);
    forall x | x in h.space.queue
      ensures !Finds(regex, x, name)
    {
      ZeroIsSymmetric(regex, Named(x.name), Named(name));
    }
    var h1 := StepOf(regex, h, e);
    assert h1.space.requests == h.space.requests + [r] + [];
    var after;
    waitedLonger, after := KeepsWaiting(regex, h1, h.space.requests, r, [], events);
    AnsweredInTurn(regex, waitedLonger, r, after, t);
  }

  /** Two clients wait to pop and one tuple arrives: the second is neither answered nor kept waiting. */
  lemma SecondPopIsLost(regex: Regex, t: Item)
    ensures var first, second := Request(None, 1, Pop, true), Request(None, 2, Pop, true);
            var waiting := RunOf(regex, [FetchEvent(1, true, true, true), FetchEvent(2, true, true, true)]).space;
            && waiting == Space([], [first, second])
            && AfterPut(regex, waiting, t).requests == [] && Answered(regex, waiting.requests, t) == [first]
  {
    var e1, e2 := FetchEvent(1, true, true, true), FetchEvent(2, true, true, true);
    assert [e1, e2][..1] == [e1] && [e1][..0] == [];
    assert RunOf(regex, [e1]) == StepOf(regex, RunOf(regex, []), e1);
    var first, second := Request(None, 1, Pop, true), Request(None, 2, Pop, true);
    assert [first, second][1..] == [second] && [second][1..] == [];
    assert Matching(regex, [second], t) == [second];
    assert Matching(regex, [first, second], t) == [first, second];
    assert Answered(regex, [first, second], t) == [first];
    assert Without(regex, [second], t, 1) == [];
  }

  // ----- the last loop of a termination -----

  /**
   The loop that is to empty the broadcast queue, after some rounds: it frees tuples of the named
   queue instead, one a round while there are any.
   */
  function ClearLoop(bcast: seq<Item>, named: seq<Item>, rounds: nat): (seq<Item>, seq<Item>) {
    if rounds == 0 || bcast == [] then (bcast, named)
    else ClearLoop(bcast, if named == [] then [] else named[1..], rounds - 1)
  }

  lemma {:induction false} ClearLoopKeeps(bcast: seq<Item>, named: seq<Item>, rounds: nat)
    ensures ClearLoop(bcast, named, rounds).0 == bcast
    decreases rounds
  {
    if rounds > 0 && bcast != [] { ClearLoopKeeps(bcast, if named == [] then [] else named[1..], rounds - 1); }
  }

  /** It ends exactly if no broadcast tuple was stored. */
  lemma ClearLoopEnds(bcast: seq<Item>, named: seq<Item>)
    ensures (exists rounds: nat :: ClearLoop(bcast, named, rounds).0 == []) <==> bcast == []
  {
    forall rounds: nat
      ensures ClearLoop(bcast, named, rounds).0 == bcast
    {
      ClearLoopKeeps(bcast, named, rounds);
    }
    assert ClearLoop(bcast, named, 0).0 == bcast;
  }

  // ----- the handlers, driven by any sequence of events -----

  /** The copies of a tuple sent to the clients that take it, counted one by one. */
  method CountHanded(answered: seq<Request>, t: Item) returns (handed: multiset<Item>)
    ensures handed == HandedOut(answered, t)
  {
    handed := multiset{};
    var i := |answered|;
    assert answered[i..] == [];
    while i > 0
      invariant 0 <= i <= |answered|
      invariant handed == HandedOut(answered[i..], t)
    {
      i := i - 1;
      assert answered[i..][1..] == answered[i + 1..];
      if answered[i].Takes() {
        handed := multiset{t} + handed;
      }
    }
    assert answered[0..] == answered;
  }

  /** One event on the daemon's space; handed is what its handler sent to clients that take. */
  method Perform(ts: TupleSpace, e: Event) returns (handed: multiset<Item>)
    modifies ts
    ensures forall h: History | h.space == old(ts.State()) ::
              StepOf(ts.regex, h, e).space == ts.State() && StepOf(ts.regex, h, e).taken == h.taken + handed
  {
    hide AfterPut, AfterRead, AfterFetch, Answered, HandedOut;
    match e {
      case PutEvent(t) =>
        var answered := ts.Put(t);
        handed := CountHanded(answered, t);
      case ReadEvent(name, clientId, get, blocking, isLocal, isActivated) =>
        ts.isActivated := isActivated;
        var reply := ts.ReadOrGet(name, clientId, get, blocking, isLocal);
        handed := if get && reply.Found? then multiset{reply.item} else multiset{};
      case FetchEvent(clientId, pop, blocking, isLocal) =>
        var reply := ts.PeekOrPop(clientId, pop, blocking, isLocal);
        handed := if pop && reply.Found? then multiset{reply.item} else multiset{};
      case TermEvent =>
        var told, freed := ts.Terminate();
        handed := multiset{};
    }
  }

  /** Any sequence of events on an empty space: where it ends, and all that its handlers handed out. */
  method RunAll(ts: TupleSpace, events: seq<Event>) returns (handed: multiset<Item>)
    requires ts.State() == Space([], [])
    modifies ts
    ensures ts.State() == RunOf(ts.regex, events).space && handed == RunOf(ts.regex, events).taken
    ensures Settled(ts.regex, ts.State())
  {
    hide StepOf, Settled;
    handed := multiset{};
    for i := 0 to |events|
      invariant ts.State() == RunOf(ts.regex, events[..i]).space && handed == RunOf(ts.regex, events[..i]).taken
    {
      assert events[..i + 1][..i] == events[..i];
      var now := Perform(ts, events[i]);
      handed := handed + now;
    }
    assert events[..|events|] == events;
    EveryRun(ts.regex, events);
  }
}
