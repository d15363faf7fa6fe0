/**
 Activating a tuple space around the ring: clients connect, a master activates the space and sends
 a token to its successor, and workers hold back their clients until the token arrives.
 */
module Activation {
  datatype Mode = Master | Worker | PeerToPeer

  // The modes a client can ask for, and the answers it gets.
  const TS_MODE_MASTER: nat := 0
  const TS_MODE_CLIENT: nat := 1
  const TS_MODE_P2P: nat := 3

  datatype Reply = ModeMaster | ModeClient(endpoint: nat) | ModeBlock | ModeP2P | ModeErr

  datatype Client = Client(id: nat, isLocal: bool)

  // One daemon's view of the space; holds is false where the space is not configured.
  datatype Node = Node(holds: bool, mode: Mode, endpoint: nat,
                       isActivated: bool, isRequested: bool, direct: nat, pending: seq<Client>)

  // ----- the two handlers, on values -----

  /** ts_connect_handler: the new state, the reply, and whether an activation token is sent. */
  function Connected(node: Node, client: Client, mode: nat): (Node, Reply, bool) {
    var asked := node.(isRequested := true);
    match node.mode
    case Master =>
      if mode == TS_MODE_MASTER then
        (asked.(isActivated := true, direct := node.endpoint), ModeMaster, !node.isActivated)
      else if mode == TS_MODE_CLIENT then (asked.(isActivated := true), ModeMaster, !node.isActivated)
      else (asked, ModeErr, false)
    case Worker =>
      if mode != TS_MODE_MASTER && mode != TS_MODE_CLIENT then (asked, ModeErr, false)
      else if node.isActivated then (asked, ModeClient(node.direct), false)
      else (asked.(pending := node.pending + [client]), ModeBlock, false)
    case PeerToPeer =>
      (asked, if mode == TS_MODE_P2P then ModeP2P else ModeErr, false)
  }

  /** connect_token_next with ttl -1: the new state, the clients answered, and whether the token goes on. */
  function Tokened(node: Node, endpoint: nat): (Node, seq<Client>, bool) {
    if !node.holds then (node, [], true)
    else if node.isActivated then (node, [], false)
    else
      var active := node.(isActivated := true, direct := endpoint);
      if node.isRequested then (active.(pending := []), node.pending, true) else (active, [], true)
  }

  /** TsTerm: the new state, and whether a termination token is sent. */
  function Terminated(node: Node): (Node, bool) {
    (node.(isActivated := false), node.isActivated)
  }

  /** term_token_next with ttl -1: the new state, and whether the token goes on. */
  function TermTokened(node: Node): (Node, bool) {
    if !node.holds then (node, false)
    else (node.(isActivated := false), node.isActivated)
  }

  // ----- the same handlers, updating the daemon's element in place -----

  class TsdElement {
    const mode: Mode
    const endpoint: nat
    var isActivated: bool
    var isRequested: bool
    var directEndpoint: nat
    var connectRequests: seq<Client>

    ghost function State(): Node
      reads this
    {
      Node(true, mode, endpoint, isActivated, isRequested, directEndpoint, connectRequests)
    }

    constructor (mode: Mode, endpoint: nat, direct: bool, directEndpoint: nat)
      ensures State() == Node(true, mode, endpoint, direct || mode.PeerToPeer?, false, directEndpoint, [])
    {
      this.mode, this.endpoint, this.directEndpoint := mode, endpoint, directEndpoint;
      isActivated, isRequested := direct || mode.PeerToPeer?, false;
      connectRequests := [];
    }

    /** ts_connect_send_activate_signal: true if the token is sent. */
    method SendActivateSignal() returns (sent: bool)
      modifies this`isActivated
      ensures isActivated && sent == !old(isActivated)
    {
      sent := false;
      if !isActivated {
        isActivated := true;
        sent := true;
      }
    }

    method Connect(client: Client, asked: nat) returns (reply: Reply, sent: bool)
      modifies this
      ensures (State(), reply, sent) == Connected(old(State()), client, asked)
      ensures isRequested && (sent <==> isActivated && !old(isActivated)) && (sent ==> mode.Master?)
      ensures mode.Master? ==>
                && reply == (if asked == TS_MODE_MASTER || asked == TS_MODE_CLIENT then ModeMaster else ModeErr)
                && isActivated == (old(isActivated) || reply == ModeMaster)
                && directEndpoint == (if asked == TS_MODE_MASTER then endpoint else old(directEndpoint))
      ensures mode.Worker? ==>
                && reply == (if asked != TS_MODE_MASTER && asked != TS_MODE_CLIENT then ModeErr
                             else if isActivated then ModeClient(directEndpoint) else ModeBlock)
      ensures mode.PeerToPeer? ==> reply == if asked == TS_MODE_P2P then ModeP2P else ModeErr
      ensures !mode.Master? ==> isActivated == old(isActivated) && directEndpoint == old(directEndpoint)
      ensures connectRequests == old(connectRequests) + (if reply.ModeBlock? then [client] else [])
    {
      isRequested := true;
      sent := false;
      if mode.Master? {
        if asked == TS_MODE_MASTER {
          sent := SendActivateSignal();
          directEndpoint := endpoint;
          isActivated := true;
          reply := ModeMaster;
        } else if asked == TS_MODE_CLIENT {
          sent := SendActivateSignal();
          isActivated := true;
          reply := ModeMaster;
        } else {
          reply := ModeErr;
        }
      } else if mode.Worker? {
        if asked != TS_MODE_MASTER && asked != TS_MODE_CLIENT {
          return ModeErr, false;
        }
        if isActivated {
          reply := ModeClient(directEndpoint);
        } else {
          connectRequests := connectRequests + [client];
          reply := ModeBlock;
        }
      } else {
        reply := if asked != TS_MODE_P2P then ModeErr else ModeP2P;
      }
    }

    /** connect_token_next where the space is found; answered clients are sent directEndpoint. */
    method TokenNext(tokenEndpoint: nat) returns (answered: seq<Client>, relayed: bool)
      modifies this
      ensures (State(), answered, relayed) == Tokened(old(State()), tokenEndpoint)
      ensures isActivated && relayed == !old(isActivated) && isRequested == old(isRequested)
      ensures directEndpoint == if relayed then tokenEndpoint else old(directEndpoint)
      ensures answered == if relayed && isRequested then old(connectRequests) else []
      ensures connectRequests == if relayed && isRequested then [] else old(connectRequests)
    {
      answered := [];
      if isActivated {
        return [], false;
      }
      isActivated := true;
      directEndpoint := tokenEndpoint;
      if isRequested {
        while |connectRequests| > 0
          invariant answered + connectRequests == old(connectRequests)
          invariant isActivated && isRequested && directEndpoint == tokenEndpoint
          decreases |connectRequests|
        {
          answered := answered + [connectRequests[0]];
          connectRequests := connectRequests[1..];
        }
      }
      assert isRequested ==> answered + [] == answered;
      relayed := true;
    }

    /** ts_term_send_decomission_signal, and what TsTerm does after it; true if the token is sent. */
    method Terminate() returns (sent: bool)
      modifies this`isActivated
      ensures (State(), sent) == Terminated(old(State()))
      ensures !isActivated && sent == old(isActivated)
    {
      sent := false;
      if isActivated {
        isActivated := false;
        sent := true;
      }
      isActivated := false;
    }

    /** term_token_next where the space is found. */
    method TermTokenNext() returns (relayed: bool)
      modifies this`isActivated
      ensures (State(), relayed) == TermTokened(old(State()))
      ensures !isActivated && relayed == old(isActivated)
    {
      relayed := isActivated;
      isActivated := false;
    }
  }

  // ----- the ring -----

  // A token: where it started, where it is delivered next, how often it was delivered, whether it still runs.
  datatype Token = Token(origin: nat, endpoint: nat, at: nat, hops: nat, running: bool)

  // A termination token: where it is delivered next, and whether it still runs.
  datatype TermToken = TermToken(at: nat, running: bool)

  // Tallies: every client told to wait, and every waiting client answered.
  datatype Ring = Ring(nodes: seq<Node>, tokens: seq<Token>, terms: seq<TermToken>,
                       deferred: multiset<Client>, answered: multiset<Client>)

  datatype Event =
    | ConnectEvent(i: nat, client: Client, mode: nat)
    | DeliverEvent(k: nat)
    | TermEvent(i: nat)
    | DeliverTermEvent(k: nat)

  function Successor(i: nat, n: nat): nat {
    if i + 1 == n then 0 else i + 1
  }

  predicate Enabled(s: Ring, e: Event) {
    match e
    case ConnectEvent(i, _, _) => i < |s.nodes| && s.nodes[i].holds
    case DeliverEvent(k) => k < |s.tokens| && s.tokens[k].running && s.tokens[k].at < |s.nodes|
    case TermEvent(i) => i < |s.nodes| && s.nodes[i].holds
    case DeliverTermEvent(k) => k < |s.terms| && s.terms[k].running && s.terms[k].at < |s.nodes|
  }

  /** Where a token is delivered next, if it is sent on. */
  function Onward(at: nat, n: nat, relayed: bool): nat {
    if relayed then Successor(at, n) else at
  }

  function Step(s: Ring, e: Event): Ring
    requires Enabled(s, e)
  {
    var n := |s.nodes|;
    match e
    case ConnectEvent(i, client, mode) =>
      var (node, reply, sent) := Connected(s.nodes[i], client, mode);
      s.(nodes := s.nodes[i := node],
         tokens := if sent then s.tokens + [Token(i, node.endpoint, Successor(i, n), 0, true)] else s.tokens,
         deferred := s.deferred + (if reply.ModeBlock? then multiset{client} else multiset{}))
    case DeliverEvent(k) =>
      var t := s.tokens[k];
      var (node, clients, relayed) := Tokened(s.nodes[t.at], t.endpoint);
      s.(nodes := s.nodes[t.at := node],
         tokens := s.tokens[k := t.(hops := t.hops + 1, at := Onward(t.at, n, relayed), running := relayed)],
         answered := s.answered + multiset(clients))
    case TermEvent(i) =>
      var (node, sent) := Terminated(s.nodes[i]);
      s.(nodes := s.nodes[i := node],
         terms := if sent then s.terms + [TermToken(Successor(i, n), true)] else s.terms)
    case DeliverTermEvent(k) =>
      var at := s.terms[k].at;
      var (node, relayed) := TermTokened(s.nodes[at]);
      s.(nodes := s.nodes[at := node], terms := s.terms[k := TermToken(Onward(at, n, relayed), relayed)])
  }

  /** Before the first event: nobody waits, no token runs; some nodes may be active already. */
  ghost predicate Fresh(s: Ring) {
    && s.nodes != [] && s.tokens == [] && s.terms == [] && s.deferred == multiset{} && s.answered == multiset{}
    && forall i | 0 <= i < |s.nodes| :: s.nodes[i].pending == [] && !s.nodes[i].isRequested
  }

  ghost predicate IsRun(start: Ring, events: seq<Event>)
    decreases |events|, 0
  {
    events == [] || (IsRun(start, events[..|events| - 1])
                     && Enabled(After(start, events[..|events| - 1]), events[|events| - 1]))
  }

  ghost function After(start: Ring, events: seq<Event>): Ring
    requires IsRun(start, events)
    decreases |events|, 1
  {
    if events == [] then start else Step(After(start, events[..|events| - 1]), events[|events| - 1])
  }

  // ----- positions on the ring -----

  /** Steps from i forward to x: 1 for the successor, n for i itself. */
  function Ahead(i: nat, x: nat, n: nat): int {
    if x > i then x - i else x + n - i
  }

  /** x lies after i and not after j, going round. */
  predicate InArc(i: nat, x: nat, j: nat, n: nat) {
    Ahead(i, x, n) <= Ahead(i, j, n)
  }

  lemma ArcStep(i: nat, x: nat, j: nat, n: nat)
    requires i < n && x < n && j < n
    ensures InArc(i, Successor(i, n), j, n)
    ensures InArc(i, x, j, n) && x != j ==> InArc(i, Successor(x, n), j, n)
  {
  }

  /** From a point inside the arc the rest of it is an arc, which does not come back to that point. */
  lemma ArcRest(i: nat, p: nat, x: nat, j: nat, n: nat)
    requires i < n && p < n && x < n && j < n && p != j
    requires InArc(i, p, j, n) && InArc(p, x, j, n) && i != j
    ensures InArc(i, x, j, n) && x != p
  {
  }

  // ----- the invariants -----

  ghost predicate ActiveHolder(s: Ring, i: nat) {
    i < |s.nodes| && s.nodes[i].holds && s.nodes[i].isActivated
  }

  ghost predicate IdleHolder(s: Ring, i: nat) {
    i < |s.nodes| && s.nodes[i].holds && !s.nodes[i].isActivated
  }

  /** A token has gone forward once per hop, fewer times than the ring is long while it runs, from an active master. */
  ghost predicate TokenOk(s: Ring, t: Token) {
    && t.at < |s.nodes|
    && ActiveHolder(s, t.origin) && s.nodes[t.origin].mode.Master? && t.endpoint == s.nodes[t.origin].endpoint
    && (if t.running then t.hops + 1 == Ahead(t.origin, t.at, |s.nodes|)
        else t.hops == Ahead(t.origin, t.at, |s.nodes|))
  }

  ghost predicate TokensOk(s: Ring) {
    forall k | 0 <= k < |s.tokens| :: TokenOk(s, s.tokens[k])
  }

  /** Clients wait only where the space is configured, has been requested, is a worker's, and is not active. */
  ghost predicate NodeOk(node: Node) {
    node.pending != [] ==> node.holds && node.mode.Worker? && node.isRequested && !node.isActivated
  }

  ghost predicate NodesOk(s: Ring) {
    forall i | 0 <= i < |s.nodes| :: NodeOk(s.nodes[i])
  }

  ghost predicate TokenBetween(s: Ring, i: nat, j: nat) {
    exists k :: 0 <= k < |s.tokens| && s.tokens[k].running && InArc(i, s.tokens[k].at, j, |s.nodes|)
  }

  ghost function Waiting(nodes: seq<Node>): multiset<Client> {
    if nodes == [] then multiset{} else Waiting(nodes[..|nodes| - 1]) + multiset(nodes[|nodes| - 1].pending)
  }

  ghost predicate Tallied(s: Ring) {
    s.deferred == Waiting(s.nodes) + s.answered
  }

  lemma {:induction false} WaitingOfUpdate(nodes: seq<Node>, i: nat, node: Node)
    requires i < |nodes|
    ensures Waiting(nodes[i := node]) + multiset(nodes[i].pending) == Waiting(nodes) + multiset(node.pending)
  {
    var last, after := |nodes| - 1, nodes[i := node];
    WaitingLast(nodes);
    WaitingLast(after);
    var here, there := multiset(nodes[i].pending), multiset(node.pending);
    if i < last {
      assert after[..last] == nodes[..last][i := node];
      WaitingOfUpdate(nodes[..last], i, node);
      AddBoth(Waiting(after[..last]), here, Waiting(nodes[..last]), there, multiset(nodes[last].pending));
    } else {
      assert after[..last] == nodes[..last];
    }
  }

  lemma WaitingLast(nodes: seq<Node>)
    requires nodes != []
    ensures Waiting(nodes) == Waiting(nodes[..|nodes| - 1]) + multiset(nodes[|nodes| - 1].pending)
  {
  }

  lemma AddBoth<T>(a: multiset<T>, b: multiset<T>, c: multiset<T>, d: multiset<T>, e: multiset<T>)
    requires a + b == c + d
    ensures (a + e) + b == (c + e) + d
  {
    forall x
      ensures ((a + e) + b)[x] == ((c + e) + d)[x]
    {
      assert (a + b)[x] == (c + d)[x];
    }
  }

  lemma Cancel<T>(a: multiset<T>, b: multiset<T>, c: multiset<T>, d: multiset<T>)
    requires a + b == c + (b + d)
    ensures a == c + d
  {
    forall x
      ensures a[x] == (c + d)[x]
    {
      assert (a + b)[x] == (c + (b + d))[x];
    }
  }

  lemma {:induction false} NobodyWaiting(nodes: seq<Node>)
    requires forall i | 0 <= i < |nodes| :: nodes[i].pending == []
    ensures Waiting(nodes) == multiset{}
  {
    if nodes != [] { NobodyWaiting(nodes[..|nodes| - 1]); }
  }

  // ----- every step keeps them -----

  /** What a handler call may change in a node. */
  ghost predicate Evolved(node: Node, node': Node) {
    && node'.holds == node.holds && node'.mode == node.mode && node'.endpoint == node.endpoint
    && (node.isActivated ==> node'.isActivated)
  }

  lemma ConnectedNode(node: Node, client: Client, mode: nat)
    requires NodeOk(node) && node.holds
    ensures var (node', reply, sent) := Connected(node, client, mode);
            && Evolved(node, node') && NodeOk(node')
            && (sent <==> !node.isActivated && node'.isActivated) && (sent ==> node.mode.Master?)
            && multiset(node'.pending)
               == multiset(node.pending) + (if reply.ModeBlock? then multiset{client} else multiset{})
  {
  }

  lemma TokenedNode(node: Node, endpoint: nat)
    requires NodeOk(node)
    ensures var (node', clients, relayed) := Tokened(node, endpoint);
            && Evolved(node, node') && NodeOk(node')
            && (relayed <==> !(node.holds && node.isActivated)) && (node.holds ==> node'.isActivated)
            && (!node.holds || node.isActivated ==> node' == node)
            && clients + node'.pending == node.pending
  {
  }

  lemma NodesKept(s: Ring, i: nat, node: Node, tokens: seq<Token>)
    requires TokensOk(s) && NodesOk(s) && i < |s.nodes| && Evolved(s.nodes[i], node) && NodeOk(node)
    ensures var nodes' := s.nodes[i := node];
            && NodesOk(s.(nodes := nodes'))
            && forall t | TokenOk(s, t) :: TokenOk(s.(nodes := nodes', tokens := tokens), t)
  {
  }

  lemma ConnectKeepsTokens(s: Ring, e: Event)
    requires TokensOk(s) && NodesOk(s) && Enabled(s, e) && e.ConnectEvent?
    ensures TokensOk(Step(s, e)) && NodesOk(Step(s, e))
  {
    var s' := Step(s, e);
    ConnectedNode(s.nodes[e.i], e.client, e.mode);
    NodesKept(s, e.i, s'.nodes[e.i], s'.tokens);
    forall k | 0 <= k < |s'.tokens|
      ensures TokenOk(s', s'.tokens[k])
    {
      if k < |s.tokens| { assert TokenOk(s, s.tokens[k]); }
    }
  }

  lemma DeliverKeepsTokens(s: Ring, e: Event)
    requires TokensOk(s) && NodesOk(s) && Enabled(s, e) && e.DeliverEvent?
    ensures TokensOk(Step(s, e)) && NodesOk(Step(s, e))
  {
    var s', t := Step(s, e), s.tokens[e.k];
    TokenedNode(s.nodes[t.at], t.endpoint);
    NodesKept(s, t.at, s'.nodes[t.at], s'.tokens);
    assert TokenOk(s, t) && TokenOk(s.(nodes := s'.nodes, tokens := s'.tokens), t);
    forall k | 0 <= k < |s'.tokens|
      ensures TokenOk(s', s'.tokens[k])
    {
      if k != e.k { assert TokenOk(s, s.tokens[k]); }
    }
  }

  lemma ConnectKeepsTally(s: Ring, e: Event)
    requires NodesOk(s) && Tallied(s) && Enabled(s, e) && e.ConnectEvent?
    ensures Tallied(Step(s, e))
  {
    var s', node := Step(s, e), s.nodes[e.i];
    ConnectedNode(node, e.client, e.mode);
    WaitingOfUpdate(s.nodes, e.i, s'.nodes[e.i]);
    var told := if Connected(node, e.client, e.mode).1.ModeBlock? then multiset{e.client} else multiset{};
    hide Waiting, Connected;
    Cancel(Waiting(s'.nodes), multiset(node.pending), Waiting(s.nodes), told);
  }

  lemma DeliverKeepsTally(s: Ring, e: Event)
    requires NodesOk(s) && Tallied(s) && Enabled(s, e) && e.DeliverEvent?
    ensures Tallied(Step(s, e))
  {
    var s', t := Step(s, e), s.tokens[e.k];
    var node, node' := s.nodes[t.at], s'.nodes[t.at];
    TokenedNode(node, t.endpoint);
    WaitingOfUpdate(s.nodes, t.at, node');
    var clients := Tokened(node, t.endpoint).1;
    hide Waiting, Tokened;
    assert multiset(node.pending) == multiset(node'.pending) + multiset(clients);
    Cancel(Waiting(s.nodes), multiset(node'.pending), Waiting(s'.nodes), multiset(clients));
  }

  /** A termination lets nobody wait and answers nobody. */
  lemma TermKeepsTally(s: Ring, e: Event)
    requires Tallied(s) && Enabled(s, e) && (e.TermEvent? || e.DeliverTermEvent?)
    ensures Tallied(Step(s, e))
  {
    var i := if e.TermEvent? then e.i else s.terms[e.k].at;
    var node' := Step(s, e).nodes[i];
    WaitingOfUpdate(s.nodes, i, node');
    assert node'.pending == s.nodes[i].pending;
    Cancel(Waiting(Step(s, e).nodes), multiset(node'.pending), Waiting(s.nodes), multiset{});
  }

  // ----- whole runs -----

  ghost predicate Quiet(s: Ring) {
    forall k | 0 <= k < |s.tokens| :: !s.tokens[k].running
  }

  lemma Extend(start: Ring, events: seq<Event>, e: Event)
    requires IsRun(start, events) && Enabled(After(start, events), e)
    ensures IsRun(start, events + [e]) && After(start, events + [e]) == Step(After(start, events), e)
  {
    assert (events + [e])[..|events|] == events;
  }

  /** What stays as it was set up. */
  ghost predicate SameSetup(start: Ring, s: Ring) {
    && |s.nodes| == |start.nodes|
    && forall i | 0 <= i < |s.nodes| ::
         && s.nodes[i].holds == start.nodes[i].holds
         && s.nodes[i].mode == start.nodes[i].mode
         && s.nodes[i].endpoint == start.nodes[i].endpoint
  }

  lemma StepKeepsNodes(s: Ring, e: Event)
    requires NodesOk(s) && Enabled(s, e)
    ensures NodesOk(Step(s, e)) && SameSetup(s, Step(s, e))
  {
    match e {
      case ConnectEvent(i, client, mode) => ConnectedNode(s.nodes[i], client, mode);
      case DeliverEvent(k) => TokenedNode(s.nodes[s.tokens[k].at], s.tokens[k].endpoint);
      case _ =>
    }
  }

  lemma StepKeepsTally(s: Ring, e: Event)
    requires NodesOk(s) && Tallied(s) && Enabled(s, e)
    ensures Tallied(Step(s, e))
  {
    hide Step, Enabled, NodesOk, Tallied;
    match e {
      case ConnectEvent(_, _, _) => ConnectKeepsTally(s, e);
      case DeliverEvent(_) => DeliverKeepsTally(s, e);
      case TermEvent(_) => TermKeepsTally(s, e);
      case DeliverTermEvent(_) => TermKeepsTally(s, e);
    }
  }

  /**
   In every reachable state, terminations included: a worker with an active space keeps nobody
   waiting, and every client told to wait either still waits or has been answered once.
   */
  lemma {:induction false} EveryRun(start: Ring, events: seq<Event>)
    requires Fresh(start) && IsRun(start, events)
    ensures var s := After(start, events); SameSetup(start, s) && NodesOk(s) && Tallied(s)
    decreases |events|
  {
    if events == [] {
      NobodyWaiting(start.nodes);
    } else {
      var before, e := events[..|events| - 1], events[|events| - 1];
      EveryRun(start, before);
      hide Step, Enabled, NodesOk, Tallied;
      StepKeepsNodes(After(start, before), e);
      StepKeepsTally(After(start, before), e);
    }
  }

  // ----- how far a token goes -----

  /** Deliveries of a token, with the one under way. */
  function Deliveries(t: Token): nat {
    t.hops + (if t.running then 1 else 0)
  }

  /** Within its first round a token has gone forward once per hop. It was sent by a master. */
  ghost predicate TokenPlaced(s: Ring, t: Token) {
    var n := |s.nodes|;
    && t.at < n && t.origin < n
    && s.nodes[t.origin].holds && s.nodes[t.origin].mode.Master? && t.endpoint == s.nodes[t.origin].endpoint
    && (Deliveries(t) <= n ==> Deliveries(t) == Ahead(t.origin, t.at, n))
  }

  ghost predicate TokensPlaced(s: Ring) {
    forall k | 0 <= k < |s.tokens| :: TokenPlaced(s, s.tokens[k])
  }

  ghost predicate OneRoundAtMost(s: Ring) {
    forall k | 0 <= k < |s.tokens| :: Deliveries(s.tokens[k]) <= |s.nodes|
  }

  /** A token is delivered to the node that sent it, where the space is no longer active. */
  ghost predicate ComesHomeInactive(s: Ring, e: Event) {
    e.DeliverEvent? && Enabled(s, e)
    && s.tokens[e.k].at == s.tokens[e.k].origin && !s.nodes[s.tokens[e.k].at].isActivated
  }

  ghost predicate CameHomeInactive(start: Ring, events: seq<Event>)
    requires IsRun(start, events)
    decreases |events|
  {
    if events == [] then false
    else
      var before := events[..|events| - 1];
      CameHomeInactive(start, before) || ComesHomeInactive(After(start, before), events[|events| - 1])
  }

  lemma StepKeepsPlaced(s: Ring, e: Event)
    requires TokensPlaced(s) && Enabled(s, e)
    ensures TokensPlaced(Step(s, e))
  {
    var s', n := Step(s, e), |s.nodes|;
    forall k | 0 <= k < |s'.tokens|
      ensures TokenPlaced(s', s'.tokens[k])
    {
      if k < |s.tokens| { assert TokenPlaced(s, s.tokens[k]); }
    }
  }

  lemma StepOneRound(s: Ring, e: Event)
    requires TokensPlaced(s) && Enabled(s, e)
    ensures OneRoundAtMost(Step(s, e)) <==> OneRoundAtMost(s) && !ComesHomeInactive(s, e)
  {
    var s', n := Step(s, e), |s.nodes|;
    assert |s'.nodes| == n;
    forall k | 0 <= k < |s.tokens|
      ensures Deliveries(s.tokens[k]) <= Deliveries(s'.tokens[k])
    {
    }
    if e.DeliverEvent? {
      var t := s.tokens[e.k];
      assert TokenPlaced(s, t);
      assert forall k | 0 <= k < |s.tokens| && k != e.k :: s'.tokens[k] == s.tokens[k];
    } else {
      assert forall k | 0 <= k < |s.tokens| :: s'.tokens[k] == s.tokens[k];
    }
  }

  /**
   In every run a token is delivered at most as often as the ring has nodes, exactly unless one
   came back to the node that sent it when a termination had made the space inactive there.
   */
  lemma {:induction false} OneRoundExactly(start: Ring, events: seq<Event>)
    requires Fresh(start) && IsRun(start, events)
    ensures TokensPlaced(After(start, events))
    ensures OneRoundAtMost(After(start, events)) <==> !CameHomeInactive(start, events)
    decreases |events|
  {
    if events != [] {
      var before, e := events[..|events| - 1], events[|events| - 1];
      OneRoundExactly(start, before);
      StepKeepsPlaced(After(start, before), e);
      StepOneRound(After(start, before), e);
    }
  }

  // A ring of a master and a worker.
  function TwoNodes(): Ring {
    Ring([Node(true, Master, 1, false, false, 0, []), Node(true, Worker, 2, false, false, 0, [])],
         [], [], multiset{}, multiset{})
  }

  // The same ring while the token, delivered hops times, is on its way to at.
  function TwoNodesLater(active0: bool, active1: bool, hops: nat, at: nat, terms: seq<TermToken>): Ring {
    Ring([Node(true, Master, 1, active0, true, 1, []),
          Node(true, Worker, 2, active1, false, if hops == 0 then 0 else 1, [])],
         [Token(0, 1, at, hops, true)], terms, multiset{}, multiset{})
  }

  lemma StepsOfTwoNodes()
    ensures var sent := ConnectEvent(0, Client(0, true), TS_MODE_MASTER);
            && Step(TwoNodes(), sent) == TwoNodesLater(true, false, 0, 1, [])
            && Step(TwoNodesLater(true, false, 0, 1, []), TermEvent(0))
               == TwoNodesLater(false, false, 0, 1, [TermToken(1, true)])
            && Step(TwoNodesLater(false, false, 0, 1, [TermToken(1, true)]), DeliverEvent(0))
               == TwoNodesLater(false, true, 1, 0, [TermToken(1, true)])
            && Step(TwoNodesLater(false, true, 1, 0, [TermToken(1, true)]), DeliverEvent(0))
               == TwoNodesLater(true, true, 2, 1, [TermToken(1, true)])
            && Step(TwoNodesLater(true, true, 2, 1, [TermToken(1, true)]), DeliverTermEvent(0))
               == TwoNodesLater(true, false, 2, 1, [TermToken(0, true)])
            && Step(TwoNodesLater(true, false, 2, 1, [TermToken(0, true)]), DeliverEvent(0))
               == TwoNodesLater(true, true, 3, 0, [TermToken(0, true)])
  {
  }

  lemma ChaseSteps(h: nat)
    requires h > 0
    ensures var round := TwoNodesLater(true, true, h, 0, [TermToken(0, true)]);
            && Step(round, DeliverTermEvent(0)) == TwoNodesLater(false, true, h, 0, [TermToken(1, true)])
            && Step(TwoNodesLater(false, true, h, 0, [TermToken(1, true)]), DeliverEvent(0))
               == TwoNodesLater(true, true, h + 1, 1, [TermToken(1, true)])
            && Step(TwoNodesLater(true, true, h + 1, 1, [TermToken(1, true)]), DeliverTermEvent(0))
               == TwoNodesLater(true, false, h + 1, 1, [TermToken(0, true)])
            && Step(TwoNodesLater(true, false, h + 1, 1, [TermToken(0, true)]), DeliverEvent(0))
               == TwoNodesLater(true, true, h + 2, 0, [TermToken(0, true)])
  {
  }

  lemma ExtendBy(start: Ring, events: seq<Event>, more: seq<Event>, s1: Ring, s2: Ring, s3: Ring, s4: Ring)
    requires IsRun(start, events) && |more| == 4
    requires var s := After(start, events);
             && Enabled(s, more[0]) && Step(s, more[0]) == s1 && Enabled(s1, more[1]) && Step(s1, more[1]) == s2
             && Enabled(s2, more[2]) && Step(s2, more[2]) == s3 && Enabled(s3, more[3]) && Step(s3, more[3]) == s4
    ensures IsRun(start, events + more) && After(start, events + more) == s4
  {
    hide Step, Enabled;
    var e1 := events + [more[0]];
    Extend(start, events, more[0]);
    Extend(start, e1, more[1]);
    Extend(start, e1 + [more[1]], more[2]);
    Extend(start, e1 + [more[1]] + [more[2]], more[3]);
    assert e1 + [more[1]] + [more[2]] + [more[3]] == events + more;
  }

  /** The start of the chase: a connect at the master, a termination there, and the first three deliveries. */
  lemma ThirdDelivery() returns (events: seq<Event>)
    ensures Fresh(TwoNodes()) && IsRun(TwoNodes(), events) && OneTermination(events)
    ensures After(TwoNodes(), events) == TwoNodesLater(true, true, 3, 0, [TermToken(0, true)])
  {
    StepsOfTwoNodes();
    hide Step;
    var steps := [ConnectEvent(0, Client(0, true), TS_MODE_MASTER), TermEvent(0), DeliverEvent(0), DeliverEvent(0),
                  DeliverTermEvent(0), DeliverEvent(0)];
    ExtendBy(TwoNodes(), [], steps[..4], TwoNodesLater(true, false, 0, 1, []),
             TwoNodesLater(false, false, 0, 1, [TermToken(1, true)]),
             TwoNodesLater(false, true, 1, 0, [TermToken(1, true)]),
             TwoNodesLater(true, true, 2, 1, [TermToken(1, true)]));
    events := [] + steps[..4];
    Extend(TwoNodes(), events, steps[4]);
    Extend(TwoNodes(), events + [steps[4]], steps[5]);
    events := events + [steps[4]] + [steps[5]];
  }

  /** One connect, one termination, and then only deliveries. */
  ghost predicate OneTermination(events: seq<Event>) {
    && |events| >= 2 && events[0].ConnectEvent? && events[1].TermEvent?
    && forall i | 2 <= i < |events| :: events[i].DeliverEvent? || events[i].DeliverTermEvent?
  }

  /**
   On a ring of two, after one connect and one termination the two tokens can follow each other
   round for ever: there is no bound on the deliveries.
   */
  lemma {:induction false} EndlessChase(k: nat) returns (events: seq<Event>)
    ensures Fresh(TwoNodes()) && IsRun(TwoNodes(), events) && OneTermination(events)
    ensures After(TwoNodes(), events) == TwoNodesLater(true, true, 3 + 2 * k, 0, [TermToken(0, true)])
  {
    if k == 0 {
      events := ThirdDelivery();
    } else {
      events := EndlessChase(k - 1);
      events := OnceRound(events, 1 + 2 * k);
    }
  }

  lemma OnceRound(events: seq<Event>, h: nat) returns (longer: seq<Event>)
    requires h > 0 && IsRun(TwoNodes(), events) && OneTermination(events)
    requires After(TwoNodes(), events) == TwoNodesLater(true, true, h, 0, [TermToken(0, true)])
    ensures IsRun(TwoNodes(), longer) && OneTermination(longer)
    ensures After(TwoNodes(), longer) == TwoNodesLater(true, true, h + 2, 0, [TermToken(0, true)])
  {
    ChaseSteps(h);
    hide Step, IsRun, After;
    var more := [DeliverTermEvent(0), DeliverEvent(0), DeliverTermEvent(0), DeliverEvent(0)];
    var next := h + 1;
    ExtendBy(TwoNodes(), events, more, TwoNodesLater(false, true, h, 0, [TermToken(1, true)]),
             TwoNodesLater(true, true, next, 1, [TermToken(1, true)]),
             TwoNodesLater(true, false, next, 1, [TermToken(0, true)]),
             TwoNodesLater(true, true, next + 1, 0, [TermToken(0, true)]));
    longer := events + more;
  }

  // ----- one termination -----

  /** Termination token k delivered over and over, n times or until it stops. */
  function TermFlood(s: Ring, k: nat, n: nat): Ring {
    if n == 0 then s
    else
      var before := TermFlood(s, k, n - 1);
      if Enabled(before, DeliverTermEvent(k)) then Step(before, DeliverTermEvent(k)) else before
  }

  /** A termination token just sent by node i. */
  ghost predicate JustTerminated(s: Ring, i: nat, k: nat) {
    && i < |s.nodes| && !ActiveHolder(s, i)
    && k < |s.terms| && s.terms[k] == TermToken(Successor(i, |s.nodes|), true)
  }

  /** r is s after h deliveries of the token, each but perhaps the last at an active holder. */
  ghost predicate TerminatedUpTo(s: Ring, r: Ring, i: nat, k: nat, h: nat)
    requires i < |s.nodes| && k < |s.terms|
  {
    var n := |s.nodes|;
    && |r.nodes| == n && |r.terms| == |s.terms| && r.terms[k].at < n
    && Ahead(i, r.terms[k].at, n) == (if r.terms[k].running then h + 1 else h)
    && (forall x | 0 <= x < n && Ahead(i, x, n) <= h :: r.nodes[x] == TermTokened(s.nodes[x]).0)
    && (forall x | 0 <= x < n && Ahead(i, x, n) > h :: r.nodes[x] == s.nodes[x])
    && (forall x | 0 <= x < n && Ahead(i, x, n) < h :: ActiveHolder(s, x))
    && (forall x | 0 <= x < n && Ahead(i, x, n) == h :: ActiveHolder(s, x) <==> r.terms[k].running)
  }

  lemma OneTermDelivery(s: Ring, r: Ring, i: nat, k: nat, h: nat)
    requires JustTerminated(s, i, k) && TerminatedUpTo(s, r, i, k, h) && r.terms[k].running
    ensures Enabled(r, DeliverTermEvent(k)) && TerminatedUpTo(s, Step(r, DeliverTermEvent(k)), i, k, h + 1)
  {
    var at, n := r.terms[k].at, |s.nodes|;
    forall x | 0 <= x < n
      ensures Ahead(i, x, n) == h + 1 <==> x == at
    {
      AheadInjective(i, x, at, n);
    }
    assert at == i ==> !ActiveHolder(s, at);
  }

  lemma {:induction false} TerminationStops(s: Ring, i: nat, k: nat, n: nat) returns (h: nat)
    requires JustTerminated(s, i, k)
    ensures TerminatedUpTo(s, TermFlood(s, k, n), i, k, h) && (TermFlood(s, k, n).terms[k].running ==> h == n)
  {
    if n == 0 {
      h := 0;
    } else {
      h := TerminationStops(s, i, k, n - 1);
      var before := TermFlood(s, k, n - 1);
      if before.terms[k].running {
        OneTermDelivery(s, before, i, k, h);
        h := h + 1;
      }
    }
  }

  /**
   A TsTerm at an active holder i, whose token is delivered until it stops, deactivates the space
   everywhere exactly if on the way of the token every other active holder comes before every node
   that does not have the space or has it inactive.
   */
  lemma TerminationReachesAll(s: Ring, i: nat)
    requires ActiveHolder(s, i)
    ensures var n, r := |s.nodes|, TermFlood(Step(s, TermEvent(i)), |s.terms|, |s.nodes|);
            (forall x :: !ActiveHolder(r, x))
            <==> forall x, y: nat | ActiveHolder(s, x) && x != i && y < n && !ActiveHolder(s, y) ::
                   Ahead(i, x, n) < Ahead(i, y, n)
  {
    var n, s1, r := |s.nodes|, Step(s, TermEvent(i)), TermFlood(Step(s, TermEvent(i)), |s.terms|, |s.nodes|);
    forall x: nat
      ensures ActiveHolder(s1, x) <==> ActiveHolder(s, x) && x != i
    {
    }
    var stop := TerminationOutcome(s1, i, |s.terms|);
    hide TermFlood, Step, ActiveHolder;
    assert stop == i || !ActiveHolder(s, stop);
    if forall x :: !ActiveHolder(r, x) {
      forall x, y: nat | ActiveHolder(s, x) && x != i && y < n && !ActiveHolder(s, y)
        ensures Ahead(i, x, n) < Ahead(i, y, n)
      {
        assert !ActiveHolder(r, x) && !ActiveHolder(s1, y);
        assert Ahead(i, x, n) < Ahead(i, stop, n) <= Ahead(i, y, n);
      }
    }
  }

  /** The node at which the token stops: the first that is not an active holder. */
  lemma TerminationOutcome(s: Ring, i: nat, k: nat) returns (stop: nat)
    requires JustTerminated(s, i, k)
    ensures stop < |s.nodes| && !ActiveHolder(s, stop)
    ensures var n, r := |s.nodes|, TermFlood(s, k, |s.nodes|);
            && (forall x: nat | ActiveHolder(r, x) :: ActiveHolder(s, x) && Ahead(i, x, n) > Ahead(i, stop, n))
            && (forall x: nat | ActiveHolder(s, x) && !ActiveHolder(r, x) ::
                  x < n && Ahead(i, x, n) < Ahead(i, stop, n))
            && (forall y: nat | y < n && !ActiveHolder(s, y) :: Ahead(i, stop, n) <= Ahead(i, y, n))
            && (forall x: nat | x < n && x != i :: Ahead(i, x, n) < Ahead(i, i, n))
  {
    var n, r := |s.nodes|, TermFlood(s, k, |s.nodes|);
    var h := TerminationStops(s, i, k, n);
    assert !r.terms[k].running;
    stop := r.terms[k].at;
    hide TermFlood;
    forall x: nat | x < n
      ensures Ahead(i, x, n) == h <==> x == stop
      ensures x != i ==> Ahead(i, x, n) < Ahead(i, i, n)
    {
      AheadInjective(i, x, stop, n);
      AheadInjective(i, x, i, n);
    }
  }

  // ----- runs without terminations -----

  ghost predicate NoTerm(events: seq<Event>) {
    forall e | e in events :: !e.TermEvent?
  }

  /** Nothing that was active has become inactive. */
  ghost predicate StillActive(start: Ring, s: Ring) {
    forall i | ActiveHolder(start, i) :: ActiveHolder(s, i)
  }

  /** Then the node that sent a token stays active, and stops it if nothing else does. */
  lemma {:induction false} QuietlyActive(start: Ring, events: seq<Event>)
    requires Fresh(start) && IsRun(start, events) && NoTerm(events)
    ensures var s := After(start, events);
            && SameSetup(start, s) && StillActive(start, s) && TokensOk(s) && NodesOk(s)
            && s.terms == [] && OneRoundAtMost(s)
    decreases |events|
  {
    if events != [] {
      var before, e := events[..|events| - 1], events[|events| - 1];
      QuietlyActive(start, before);
      var s := After(start, before);
      assert e in events && forall d | d in before :: d in events;
      if e.ConnectEvent? {
        ConnectedNode(s.nodes[e.i], e.client, e.mode);
        ConnectKeepsTokens(s, e);
      } else {
        TokenedNode(s.nodes[s.tokens[e.k].at], s.tokens[e.k].endpoint);
        DeliverKeepsTokens(s, e);
      }
      RoundOfTokensOk(Step(s, e));
    }
  }

  lemma RoundOfTokensOk(s: Ring)
    requires TokensOk(s)
    ensures OneRoundAtMost(s)
  {
    forall k | 0 <= k < |s.tokens|
      ensures Deliveries(s.tokens[k]) <= |s.nodes|
    {
      assert TokenOk(s, s.tokens[k]);
    }
  }

  // ----- one flood -----

  /** Token k delivered over and over, n times or until it stops. */
  function Flood(s: Ring, k: nat, n: nat): Ring {
    if n == 0 then s
    else
      var before := Flood(s, k, n - 1);
      if Enabled(before, DeliverEvent(k)) then Step(before, DeliverEvent(k)) else before
  }

  /** A token just sent by the node it names. */
  ghost predicate JustSent(s: Ring, k: nat) {
    TokensOk(s) && NodesOk(s) && k < |s.tokens| && s.tokens[k].running && s.tokens[k].hops == 0
  }

  /** r is s after token k has been delivered to the nodes up to its hop count, and to no others. */
  ghost predicate FloodedUpTo(s: Ring, r: Ring, k: nat)
    requires k < |s.tokens|
  {
    var t, n := s.tokens[k], |s.nodes|;
    && |r.nodes| == n && |r.tokens| == |s.tokens|
    && r.tokens[k].origin == t.origin && r.tokens[k].endpoint == t.endpoint
    && (forall x | 0 <= x < n && Ahead(t.origin, x, n) <= r.tokens[k].hops ::
          r.nodes[x] == Tokened(s.nodes[x], t.endpoint).0)
    && (forall x | 0 <= x < n && Ahead(t.origin, x, n) > r.tokens[k].hops :: r.nodes[x] == s.nodes[x])
    && (forall x | 0 <= x < n && Ahead(t.origin, x, n) < r.tokens[k].hops :: !ActiveHolder(s, x))
    && (r.tokens[k].hops > 0 ==>
          (r.tokens[k].running
           <==> forall x | 0 <= x < n && Ahead(t.origin, x, n) == r.tokens[k].hops :: !ActiveHolder(s, x)))
  }

  lemma AheadInjective(i: nat, x: nat, y: nat, n: nat)
    requires i < n && x < n && y < n
    ensures Ahead(i, x, n) == Ahead(i, y, n) <==> x == y
  {
  }

  lemma OneDelivery(s: Ring, r: Ring, k: nat)
    requires JustSent(s, k) && TokensOk(r) && FloodedUpTo(s, r, k) && Enabled(r, DeliverEvent(k))
    ensures FloodedUpTo(s, Step(r, DeliverEvent(k)), k)
  {
    var t, n := r.tokens[k], |s.nodes|;
    assert TokenOk(r, t) && TokenOk(s, s.tokens[k]);
    forall x | 0 <= x < n
      ensures Ahead(t.origin, x, n) == t.hops + 1 <==> x == t.at
    {
      AheadInjective(t.origin, x, t.at, n);
    }
  }

  /**
   A token sent once and delivered until it stops: it stops at the first active holder on its way,
   after at most as many deliveries as the ring has nodes. Exactly the nodes it was delivered to
   change, and they become active with the endpoint of the node that sent it.
   */
  lemma {:induction false} FloodStopsAtFirstActive(s: Ring, k: nat, n: nat)
    requires JustSent(s, k) && n <= |s.nodes|
    ensures var r := Flood(s, k, n);
            && TokensOk(r) && NodesOk(r) && FloodedUpTo(s, r, k) && r.tokens[k].hops <= n
            && (r.tokens[k].running ==> r.tokens[k].hops == n < |s.nodes|)
  {
    assert TokenOk(s, s.tokens[k]);
    if n > 0 {
      FloodStopsAtFirstActive(s, k, n - 1);
      var before := Flood(s, k, n - 1);
      assert TokenOk(before, before.tokens[k]);
      if before.tokens[k].running {
        DeliverKeepsTokens(before, DeliverEvent(k));
        OneDelivery(s, before, k);
        var after := Step(before, DeliverEvent(k));
        assert TokenOk(after, after.tokens[k]);
      }
    }
  }

  /**
   After one flood the space is active at all its holders exactly when every inactive one came
   before every active one on the way of the token.
   */
  lemma FloodReachesAll(s: Ring, k: nat)
    requires JustSent(s, k)
    ensures var origin, n, r := s.tokens[k].origin, |s.nodes|, Flood(s, k, |s.nodes|);
            (forall x :: !IdleHolder(r, x))
            <==> forall x, y | IdleHolder(s, x) && ActiveHolder(s, y) :: Ahead(origin, x, n) < Ahead(origin, y, n)
  {
    var n, r := |s.nodes|, Flood(s, k, |s.nodes|);
    FloodStopsAtFirstActive(s, k, n);
    var t := r.tokens[k];
    assert TokenOk(r, t) && TokenOk(s, s.tokens[k]) && !t.running && t.hops > 0;
    var stop :| 0 <= stop < n && Ahead(t.origin, stop, n) == t.hops && ActiveHolder(s, stop);
    forall x | IdleHolder(s, x)
      ensures IdleHolder(r, x) <==> Ahead(t.origin, x, n) > t.hops
    {
    }
    forall x | !IdleHolder(s, x)
      ensures !IdleHolder(r, x)
    {
    }
    forall x, y | IdleHolder(s, x) && ActiveHolder(s, y)
      ensures Ahead(t.origin, x, n) != Ahead(t.origin, y, n) && Ahead(t.origin, y, n) >= t.hops
    {
      AheadInjective(t.origin, x, y, n);
    }
  }

  // ----- whom every flood reaches -----

  lemma IdleFromStart(start: Ring, s: Ring, i: nat)
    requires SameSetup(start, s) && StillActive(start, s) && IdleHolder(s, i)
    ensures IdleHolder(start, i)
  {
    assert ActiveHolder(start, i) ==> ActiveHolder(s, i);
  }

  /** On the way of a token from any other inactive master, x comes before every node active from the start. */
  ghost predicate InTime(start: Ring, x: nat) {
    forall m: nat, y: nat | IdleHolder(start, m) && start.nodes[m].mode.Master? && m != x && ActiveHolder(start, y) ::
      Ahead(m, x, |start.nodes|) < Ahead(m, y, |start.nodes|)
  }

  /** A token has left no inactive holder behind it. */
  ghost predicate LeftNoneBehind(s: Ring, t: Token) {
    forall z | IdleHolder(s, z) :: Ahead(t.origin, z, |s.nodes|) > t.hops
  }

  /** While x is inactive, a token is on the way to it from every node that has become active. */
  ghost predicate OnTheWay(start: Ring, s: Ring, x: nat) {
    && SameSetup(start, s) && StillActive(start, s)
    && (forall k | 0 <= k < |s.tokens| :: IdleHolder(start, s.tokens[k].origin) && LeftNoneBehind(s, s.tokens[k]))
    && (IdleHolder(s, x) ==> forall i | ActiveHolder(s, i) && IdleHolder(start, i) :: TokenBetween(s, i, x))
  }

  lemma ConnectKeepsOnTheWay(start: Ring, s: Ring, e: Event, x: nat)
    requires TokensOk(s) && NodesOk(s) && OnTheWay(start, s, x) && Enabled(s, e) && e.ConnectEvent?
    ensures OnTheWay(start, Step(s, e), x)
  {
    var s', n := Step(s, e), |s.nodes|;
    ConnectedNode(s.nodes[e.i], e.client, e.mode);
    forall k | 0 <= k < |s'.tokens|
      ensures IdleHolder(start, s'.tokens[k].origin) && LeftNoneBehind(s', s'.tokens[k])
    {
      if k < |s.tokens| {
        assert s'.tokens[k] == s.tokens[k] && LeftNoneBehind(s, s.tokens[k]);
        assert forall z | IdleHolder(s', z) :: IdleHolder(s, z);
      } else {
        IdleFromStart(start, s, e.i);
      }
    }
    forall i | IdleHolder(s', x) && ActiveHolder(s', i) && IdleHolder(start, i)
      ensures TokenBetween(s', i, x)
    {
      assert IdleHolder(s, x);
      if ActiveHolder(s, i) {
        assert TokenBetween(s, i, x);
        var k :| 0 <= k < |s.tokens| && s.tokens[k].running && InArc(i, s.tokens[k].at, x, n);
        assert s'.tokens[k] == s.tokens[k];
      } else {
        var k := |s.tokens|;
        ArcStep(i, i, x, n);
        assert s'.tokens[k].at == Successor(i, n);
      }
    }
  }

  lemma DeliverKeepsBehind(start: Ring, s: Ring, e: Event, x: nat)
    requires TokensOk(s) && NodesOk(s) && OnTheWay(start, s, x) && Enabled(s, e) && e.DeliverEvent?
    ensures var s' := Step(s, e);
            forall k | 0 <= k < |s'.tokens| ::
              IdleHolder(start, s'.tokens[k].origin) && LeftNoneBehind(s', s'.tokens[k])
  {
    var s', n, t := Step(s, e), |s.nodes|, s.tokens[e.k];
    TokenedNode(s.nodes[t.at], t.endpoint);
    assert TokenOk(s, t);
    forall k | 0 <= k < |s'.tokens|
      ensures IdleHolder(start, s'.tokens[k].origin) && LeftNoneBehind(s', s'.tokens[k])
    {
      assert LeftNoneBehind(s, s.tokens[k]);
      forall z | IdleHolder(s', z)
        ensures Ahead(s.tokens[k].origin, z, n) > s'.tokens[k].hops
      {
        assert IdleHolder(s, z) && z != t.at;
        AheadInjective(t.origin, z, t.at, n);
      }
    }
  }

  lemma DeliverKeepsOnTheWay(start: Ring, s: Ring, e: Event, x: nat)
    requires TokensOk(s) && NodesOk(s) && OnTheWay(start, s, x) && Enabled(s, e) && e.DeliverEvent?
    requires IdleHolder(start, x) && InTime(start, x)
    ensures OnTheWay(start, Step(s, e), x)
  {
    var s', t := Step(s, e), s.tokens[e.k];
    TokenedNode(s.nodes[t.at], t.endpoint);
    DeliverKeepsBehind(start, s, e, x);
    forall i | IdleHolder(s', x) && ActiveHolder(s', i) && IdleHolder(start, i)
      ensures TokenBetween(s', i, x)
    {
      assert IdleHolder(s, x) && x != t.at;
      DeliverKeepsArc(start, s, e, i, x);
    }
  }

  lemma DeliverKeepsArc(start: Ring, s: Ring, e: Event, i: nat, x: nat)
    requires TokensOk(s) && NodesOk(s) && OnTheWay(start, s, x) && Enabled(s, e) && e.DeliverEvent?
    requires IdleHolder(start, x) && InTime(start, x)
    requires ActiveHolder(Step(s, e), i) && IdleHolder(start, i) && IdleHolder(s, x) && x != s.tokens[e.k].at
    ensures TokenBetween(Step(s, e), i, x)
  {
    var s', n, t := Step(s, e), |s.nodes|, s.tokens[e.k];
    TokenedNode(s.nodes[t.at], t.endpoint);
    if !ActiveHolder(s, i) {
      ArcStep(i, i, x, n);
      assert i == t.at && s'.tokens[e.k].running && s'.tokens[e.k].at == Successor(i, n);
    } else {
      assert TokenBetween(s, i, x);
      var k :| 0 <= k < |s.tokens| && s.tokens[k].running && InArc(i, s.tokens[k].at, x, n);
      if k != e.k {
        assert s'.tokens[k] == s.tokens[k];
      } else if !ActiveHolder(s, t.at) {
        ArcStep(i, t.at, x, n);
        assert s'.tokens[k].running && s'.tokens[k].at == Successor(t.at, n);
      } else {
        StoppedOnlyByNew(start, s, t, x);
        OtherToken(s, e, i, x);
      }
    }
  }

  /** A token that stops at an active node leaves the way on to another token. */
  lemma OtherToken(s: Ring, e: Event, i: nat, x: nat)
    requires TokensOk(s) && Enabled(s, e) && e.DeliverEvent?
    requires var at := s.tokens[e.k].at;
             && ActiveHolder(s, i) && IdleHolder(s, x) && x != at && InArc(i, at, x, |s.nodes|)
             && TokenBetween(s, at, x)
    ensures TokenBetween(Step(s, e), i, x)
  {
    var s', n, at := Step(s, e), |s.nodes|, s.tokens[e.k].at;
    var m :| 0 <= m < |s.tokens| && s.tokens[m].running && InArc(at, s.tokens[m].at, x, n);
    assert TokenOk(s, s.tokens[m]);
    ArcRest(i, at, s.tokens[m].at, x, n);
    assert s'.tokens[m] == s.tokens[m] && |s'.nodes| == n;
  }

  /** While x is inactive no token has come as far as a node that was active from the start. */
  lemma StoppedOnlyByNew(start: Ring, s: Ring, t: Token, x: nat)
    requires TokenOk(s, t) && t.running && SameSetup(start, s) && StillActive(start, s)
    requires IdleHolder(start, t.origin) && LeftNoneBehind(s, t)
    requires IdleHolder(start, x) && InTime(start, x) && IdleHolder(s, x) && ActiveHolder(s, t.at)
    ensures IdleHolder(start, t.at)
  {
    if ActiveHolder(start, t.at) {
      assert false;
    }
  }

  lemma {:induction false} RunOnTheWay(start: Ring, events: seq<Event>, x: nat)
    requires Fresh(start) && IsRun(start, events) && NoTerm(events)
    requires IdleHolder(start, x) && InTime(start, x)
    ensures OnTheWay(start, After(start, events), x)
    decreases |events|
  {
    if events != [] {
      var before, e := events[..|events| - 1], events[|events| - 1];
      assert e in events && forall d | d in before :: d in events;
      RunOnTheWay(start, before, x);
      QuietlyActive(start, before);
      var s := After(start, before);
      hide Step, OnTheWay, InTime, TokensOk, NodesOk, SameSetup, StillActive;
      if e.ConnectEvent? {
        ConnectKeepsOnTheWay(start, s, e, x);
      } else {
        DeliverKeepsOnTheWay(start, s, e, x);
      }
    }
  }

  /** A run in which some token was sent and all have stopped. */
  ghost predicate SettledRun(start: Ring, events: seq<Event>) {
    && IsRun(start, events) && NoTerm(events)
    && After(start, events).tokens != [] && Quiet(After(start, events))
  }

  lemma {:induction false} FloodRun(start: Ring, events: seq<Event>, k: nat, n: nat) returns (all: seq<Event>)
    requires IsRun(start, events) && NoTerm(events)
    ensures IsRun(start, all) && NoTerm(all) && After(start, all) == Flood(After(start, events), k, n)
  {
    if n == 0 {
      all := events;
    } else {
      all := FloodRun(start, events, k, n - 1);
      hide Step, Enabled;
      if Enabled(After(start, all), DeliverEvent(k)) {
        Extend(start, all, DeliverEvent(k));
        all := all + [DeliverEvent(k)];
      }
    }
  }

  /** A lone token that meets the active y before x stops there and leaves x as it is. */
  lemma FloodMisses(s: Ring, x: nat, y: nat)
    requires JustSent(s, 0) && |s.tokens| == 1 && x < |s.nodes| && x != y && ActiveHolder(s, y)
    requires var m := s.tokens[0].origin; Ahead(m, x, |s.nodes|) >= Ahead(m, y, |s.nodes|)
    ensures var r := Flood(s, 0, |s.nodes|);
            |r.tokens| == 1 && Quiet(r) && x < |r.nodes| && r.nodes[x] == s.nodes[x]
  {
    hide Flood, TokensOk, NodesOk, Tokened;
    FloodStopsAtFirstActive(s, 0, |s.nodes|);
    assert TokenOk(s, s.tokens[0]) by { FirstTokenOk(s); }
    AheadInjective(s.tokens[0].origin, x, y, |s.nodes|);
  }

  lemma FirstTokenOk(s: Ring)
    requires TokensOk(s) && s.tokens != []
    ensures TokenOk(s, s.tokens[0])
  {
  }

  /** A client connects to an idle master m, as master or not, and the token is on its way. */
  lemma SendFirst(s: Ring, m: nat, client: Client, mode: nat)
    requires NodesOk(s) && TokensOk(s) && s.tokens == [] && IdleHolder(s, m) && s.nodes[m].mode.Master?
    requires mode == TS_MODE_MASTER || mode == TS_MODE_CLIENT
    ensures var e := ConnectEvent(m, client, mode);
            && Enabled(s, e) && JustSent(Step(s, e), 0)
            && |Step(s, e).tokens| == 1 && Step(s, e).tokens[0].origin == m
            && Step(s, e).nodes == s.nodes[m := Step(s, e).nodes[m]]
  {
    var e := ConnectEvent(m, client, mode);
    ConnectKeepsTokens(s, e);
  }

  /** A flood from m that meets the active y before x stops there and leaves x as it is. */
  lemma LeftBehind(start: Ring, events: seq<Event>, m: nat, mode: nat, x: nat, y: nat) returns (all: seq<Event>)
    requires mode == TS_MODE_MASTER || mode == TS_MODE_CLIENT
    requires Fresh(start) && IsRun(start, events) && NoTerm(events) && After(start, events).tokens == []
    requires var s := After(start, events);
             && IdleHolder(s, m) && s.nodes[m].mode.Master? && IdleHolder(s, x) && m != x && ActiveHolder(s, y)
             && Ahead(m, x, |s.nodes|) >= Ahead(m, y, |s.nodes|)
    ensures SettledRun(start, all)
    ensures x < |After(start, all).nodes| && After(start, all).nodes[x] == After(start, events).nodes[x]
  {
    var s, e := After(start, events), ConnectEvent(m, Client(0, true), mode);
    QuietlyActive(start, events);
    SendFirst(s, m, Client(0, true), mode);
    hide Step, Flood, Enabled, JustSent, NodesOk, TokensOk;
    Extend(start, events, e);
    assert NoTerm(events + [e]);
    FloodMisses(Step(s, e), x, y);
    all := FloodRun(start, events + [e], 0, |Step(s, e).nodes|);
  }

  /**
   An inactive node is reached by the time the tokens stop, in every run in which one was sent,
   exactly if it comes before every node active from the start, seen from every other inactive master.
   */
  lemma ReachedInEveryRun(start: Ring, x: nat)
    requires Fresh(start) && IdleHolder(start, x)
    ensures (forall events | SettledRun(start, events) :: !IdleHolder(After(start, events), x)) <==> InTime(start, x)
  {
    if InTime(start, x) {
      forall events | SettledRun(start, events)
        ensures !IdleHolder(After(start, events), x)
      {
        RunOnTheWay(start, events, x);
        QuietlyActive(start, events);
        var s := After(start, events);
        assert TokenOk(s, s.tokens[0]);
        assert IdleHolder(s, x) ==> TokenBetween(s, s.tokens[0].origin, x);
      }
    } else {
      var m: nat, y: nat :| IdleHolder(start, m) && start.nodes[m].mode.Master? && m != x && ActiveHolder(start, y)
                  && !(Ahead(m, x, |start.nodes|) < Ahead(m, y, |start.nodes|));
      var events := LeftBehind(start, [], m, TS_MODE_MASTER, x, y);
      assert SettledRun(start, events) && IdleHolder(After(start, events), x);
    }
  }

  ghost predicate AllActive(s: Ring) {
    forall x: nat :: !IdleHolder(s, x)
  }

  /**
   The flood is complete, that is, once the tokens have stopped the space is active at all its
   holders, in every run in which a token was sent, exactly if every inactive node is in time.
   */
  lemma FloodIsComplete(start: Ring)
    requires Fresh(start)
    ensures (forall events | SettledRun(start, events) :: AllActive(After(start, events)))
            <==> forall x: nat | IdleHolder(start, x) :: InTime(start, x)
  {
    forall x: nat | IdleHolder(start, x)
      ensures (forall events | SettledRun(start, events) :: AllActive(After(start, events))) ==> InTime(start, x)
    {
      ReachedInEveryRun(start, x);
    }
    forall events | SettledRun(start, events) && forall x: nat | IdleHolder(start, x) :: InTime(start, x)
      ensures AllActive(After(start, events))
    {
      var s := After(start, events);
      QuietlyActive(start, events);
      forall x: nat
        ensures !IdleHolder(s, x)
      {
        if IdleHolder(s, x) {
          IdleFromStart(start, s, x);
          ReachedInEveryRun(start, x);
        }
      }
    }
  }

  lemma {:induction false} SomebodyWaiting(nodes: seq<Node>, i: nat)
    requires i < |nodes| && nodes[i].pending != []
    ensures Waiting(nodes) != multiset{}
    decreases |nodes|
  {
    var last := |nodes| - 1;
    if i < last {
      SomebodyWaiting(nodes[..last], i);
    } else {
      assert nodes[i].pending[0] in multiset(nodes[i].pending);
    }
  }

  lemma NotAll<T>(a: multiset<T>, b: multiset<T>)
    requires a != multiset{}
    ensures a + b != b
  {
    var x :| x in a;
    assert (a + b)[x] > b[x];
  }

  /** Every client that was told to wait has been answered. */
  ghost predicate AllAnswered(s: Ring) {
    s.answered == s.deferred
  }

  /** A client of x waits while the flood passes x by. */
  lemma ClientLeftWaiting(start: Ring, m: nat, x: nat, y: nat) returns (events: seq<Event>)
    requires Fresh(start) && IdleHolder(start, m) && start.nodes[m].mode.Master? && m != x && ActiveHolder(start, y)
    requires IdleHolder(start, x) && start.nodes[x].mode.Worker?
    requires Ahead(m, x, |start.nodes|) >= Ahead(m, y, |start.nodes|)
    ensures SettledRun(start, events) && !AllAnswered(After(start, events))
  {
    var e := ConnectEvent(x, Client(1, true), TS_MODE_CLIENT);
    Extend(start, [], e);
    assert NoTerm([] + [e]);
    events := LeftBehind(start, [] + [e], m, TS_MODE_CLIENT, x, y);
    var s := After(start, events);
    EveryRun(start, events);
    SomebodyWaiting(s.nodes, x);
    NotAll(Waiting(s.nodes), s.answered);
  }

  /**
   In every run in which a token was sent, every client told to wait has been answered once the
   tokens have stopped, exactly if every inactive worker is in time.
   */
  lemma EveryoneAnswered(start: Ring)
    requires Fresh(start)
    ensures (forall events | SettledRun(start, events) :: AllAnswered(After(start, events)))
            <==> forall x: nat | IdleHolder(start, x) && start.nodes[x].mode.Worker? :: InTime(start, x)
  {
    if forall x: nat | IdleHolder(start, x) && start.nodes[x].mode.Worker? :: InTime(start, x) {
      forall events | SettledRun(start, events)
        ensures AllAnswered(After(start, events))
      {
        var s := After(start, events);
        EveryRun(start, events);
        QuietlyActive(start, events);
        forall j | 0 <= j < |s.nodes|
          ensures s.nodes[j].pending == []
        {
          assert NodeOk(s.nodes[j]);
          if s.nodes[j].pending != [] {
            IdleFromStart(start, s, j);
            ReachedInEveryRun(start, j);
            assert false;
          }
        }
        NobodyWaiting(s.nodes);
      }
    } else {
      var x: nat :| IdleHolder(start, x) && start.nodes[x].mode.Worker? && !InTime(start, x);
      var m: nat, y: nat :| IdleHolder(start, m) && start.nodes[m].mode.Master? && m != x && ActiveHolder(start, y)
                  && !(Ahead(m, x, |start.nodes|) < Ahead(m, y, |start.nodes|));
      var events := ClientLeftWaiting(start, m, x, y);
      assert SettledRun(start, events) && !AllAnswered(After(start, events));
    }
  }

  // ----- the endpoints that workers hand out -----

  ghost predicate GivenBy(s: Ring, node: Node, o: nat) {
    ActiveHolder(s, o) && s.nodes[o].mode.Master? && node.direct == s.nodes[o].endpoint
  }

  /** The node, if it is an active worker's, knows the endpoint of a master with the space active. */
  ghost predicate GenuineNode(s: Ring, i: nat) {
    ActiveHolder(s, i) && s.nodes[i].mode.Worker? ==> exists o: nat :: GivenBy(s, s.nodes[i], o)
  }

  ghost predicate Genuine(s: Ring) {
    forall i: nat :: GenuineNode(s, i)
  }

  lemma StepKeepsGenuine(s: Ring, e: Event, i: nat)
    requires TokensOk(s) && NodesOk(s) && GenuineNode(s, i) && Enabled(s, e) && (e.ConnectEvent? || e.DeliverEvent?)
    ensures GenuineNode(Step(s, e), i)
  {
    var s' := Step(s, e);
    if ActiveHolder(s', i) && s'.nodes[i].mode.Worker? {
      if ActiveHolder(s, i) {
        var o: nat :| GivenBy(s, s.nodes[i], o);
        assert GivenBy(s', s'.nodes[i], o);
      } else {
        var t := s.tokens[e.k];
        assert TokenOk(s, t);
        assert GivenBy(s', s'.nodes[i], t.origin);
      }
    }
  }

  lemma {:induction false} RunKeepsGenuine(start: Ring, events: seq<Event>, i: nat)
    requires Fresh(start) && IsRun(start, events) && NoTerm(events) && GenuineNode(start, i)
    ensures GenuineNode(After(start, events), i)
    decreases |events|
  {
    if events != [] {
      var before, e := events[..|events| - 1], events[|events| - 1];
      assert e in events && forall d | d in before :: d in events;
      RunKeepsGenuine(start, before, i);
      QuietlyActive(start, before);
      StepKeepsGenuine(After(start, before), e, i);
    }
  }

  /** A worker that was not active from the start has, once active, the endpoint of a master with the space active. */
  lemma EndpointsGenuine(start: Ring, events: seq<Event>)
    requires Fresh(start) && IsRun(start, events) && NoTerm(events)
    ensures var s := After(start, events);
            forall i: nat | ActiveHolder(s, i) && s.nodes[i].mode.Worker? && IdleHolder(start, i) ::
              exists o: nat :: GivenBy(s, s.nodes[i], o)
  {
    forall i: nat | IdleHolder(start, i)
      ensures GenuineNode(After(start, events), i)
    {
      RunKeepsGenuine(start, events, i);
    }
  }

  /** So a client that was told to wait is answered with such an endpoint, and only clients of inactive workers wait. */
  lemma WaitersAnsweredGenuinely(start: Ring, events: seq<Event>, e: Event)
    requires Fresh(start) && IsRun(start, events) && NoTerm(events) && Enabled(After(start, events), e)
    ensures var s := After(start, events);
            match e
            case ConnectEvent(i, client, mode) =>
              Connected(s.nodes[i], client, mode).1.ModeBlock? ==> IdleHolder(s, i) && s.nodes[i].mode.Worker?
            case DeliverEvent(k) =>
              var t := s.tokens[k];
              Tokened(s.nodes[t.at], t.endpoint).1 != [] ==> GivenBy(s, Step(s, e).nodes[t.at], t.origin)
            case _ => true
  {
    var s := After(start, events);
    QuietlyActive(start, events);
    if e.DeliverEvent? { assert TokenOk(s, s.tokens[e.k]); }
  }

  /** If the run leads to a connect that is answered with an endpoint, a master with the space active has it. */
  ghost predicate ReplyGenuine(start: Ring, events: seq<Event>, i: nat, client: Client, mode: nat)
    requires IsRun(start, events)
  {
    var s := After(start, events);
    Enabled(s, ConnectEvent(i, client, mode)) ==>
      var reply := Connected(s.nodes[i], client, mode).1;
      reply.ModeClient? ==> exists o: nat :: GivenBy(s, s.nodes[i].(direct := reply.endpoint), o)
  }

  /**
   In every run every endpoint given to a connecting client is that of a master with the space
   active, exactly if every worker that is active from the start has such an endpoint.
   */
  lemma RepliesGenuine(start: Ring)
    requires Fresh(start)
    ensures (forall events, i, client, mode | IsRun(start, events) && NoTerm(events) ::
               ReplyGenuine(start, events, i, client, mode))
            <==> Genuine(start)
  {
    if Genuine(start) {
      forall events, i: nat, client, mode: nat | IsRun(start, events) && NoTerm(events)
        ensures ReplyGenuine(start, events, i, client, mode)
      {
        RunKeepsGenuine(start, events, i);
        ReplyIsOwn(start, events, i, client, mode);
      }
    } else {
      var i: nat :| !GenuineNode(start, i);
      assert IsRun(start, []) && NoTerm([]) && !ReplyGenuine(start, [], i, Client(0, true), TS_MODE_CLIENT);
    }
  }

  lemma ReplyIsOwn(start: Ring, events: seq<Event>, i: nat, client: Client, mode: nat)
    requires IsRun(start, events) && GenuineNode(After(start, events), i)
    ensures ReplyGenuine(start, events, i, client, mode)
  {
    var s := After(start, events);
    if Enabled(s, ConnectEvent(i, client, mode)) && Connected(s.nodes[i], client, mode).1.ModeClient? {
      var o: nat :| GivenBy(s, s.nodes[i], o);
      assert GivenBy(s, s.nodes[i].(direct := Connected(s.nodes[i], client, mode).1.endpoint), o);
    }
  }

  // A ring whose worker is configured with the endpoint of a master that has not activated the space.
  function DirectWorker(): Ring {
    Ring([Node(true, Master, 1, false, false, 0, []), Node(true, Worker, 2, true, false, 1, [])],
         [], [], multiset{}, multiset{})
  }

  /** There the worker gives that endpoint to its first client. */
  lemma DirectWorkerMisleads(client: Client)
    ensures Fresh(DirectWorker()) && !Genuine(DirectWorker())
    ensures Connected(DirectWorker().nodes[1], client, TS_MODE_CLIENT).1 == ModeClient(1)
    ensures !ReplyGenuine(DirectWorker(), [], 1, client, TS_MODE_CLIENT)
  {
    var s := DirectWorker();
    assert After(s, []) == s;
    assert !GenuineNode(s, 1);
  }

  // ----- the handlers, driven by any sequence of events -----

  function NotHeld(): Node {
    Node(false, Worker, 0, false, false, 0, [])
  }

  ghost function NodeOf(e: TsdElement?): Node
    reads e
  {
    if e == null then NotHeld() else e.State()
  }

  /** The elements of the daemons around the ring, null where the space is not configured. */
  ghost function NodesOf(es: seq<TsdElement?>): (nodes: seq<Node>)
    reads es
    ensures |nodes| == |es| && forall i | 0 <= i < |es| :: nodes[i] == NodeOf(es[i])
  {
    seq(|es|, i requires 0 <= i < |es| reads es => NodeOf(es[i]))
  }

  ghost predicate AllDifferent(es: seq<TsdElement?>) {
    forall i, j | 0 <= i < j < |es| && es[i] != null :: es[i] != es[j]
  }

  // What travels between the daemons and to the clients.
  datatype Traffic = Traffic(tokens: seq<Token>, terms: seq<TermToken>,
                             deferred: multiset<Client>, answered: multiset<Client>)

  ghost function RingOf(es: seq<TsdElement?>, w: Traffic): Ring
    reads es
  {
    Ring(NodesOf(es), w.tokens, w.terms, w.deferred, w.answered)
  }

  method ServeConnect(es: seq<TsdElement?>, w: Traffic, i: nat, client: Client, mode: nat) returns (w': Traffic)
    requires AllDifferent(es) && Enabled(RingOf(es, w), ConnectEvent(i, client, mode))
    modifies es
    ensures RingOf(es, w') == Step(old(RingOf(es, w)), ConnectEvent(i, client, mode))
  {
    ghost var was := NodesOf(es);
    var reply, sent := es[i].Connect(client, mode);
    var told := if reply.ModeBlock? then multiset{client} else multiset{};
    w' := w.(deferred := w.deferred + told);
    if sent {
      w' := w'.(tokens := w.tokens + [Token(i, es[i].endpoint, Successor(i, |es|), 0, true)]);
    }
    assert NodesOf(es) == was[i := es[i].State()];
  }

  method ServeToken(es: seq<TsdElement?>, w: Traffic, k: nat) returns (w': Traffic)
    requires AllDifferent(es) && Enabled(RingOf(es, w), DeliverEvent(k))
    modifies es
    ensures RingOf(es, w') == Step(old(RingOf(es, w)), DeliverEvent(k))
  {
    ghost var was := NodesOf(es);
    var t := w.tokens[k];
    var clients, relayed := [], true;
    if es[t.at] != null {
      clients, relayed := es[t.at].TokenNext(t.endpoint);
    }
    var next := t.(hops := t.hops + 1, at := Onward(t.at, |es|, relayed), running := relayed);
    w' := w.(tokens := w.tokens[k := next], answered := w.answered + multiset(clients));
    assert NodesOf(es) == was[t.at := NodeOf(es[t.at])];
  }

  method ServeTerm(es: seq<TsdElement?>, w: Traffic, i: nat) returns (w': Traffic)
    requires AllDifferent(es) && Enabled(RingOf(es, w), TermEvent(i))
    modifies es
    ensures RingOf(es, w') == Step(old(RingOf(es, w)), TermEvent(i))
  {
    ghost var was := NodesOf(es);
    var sent := es[i].Terminate();
    w' := w;
    if sent {
      w' := w.(terms := w.terms + [TermToken(Successor(i, |es|), true)]);
    }
    assert NodesOf(es) == was[i := es[i].State()];
  }

  method ServeTermToken(es: seq<TsdElement?>, w: Traffic, k: nat) returns (w': Traffic)
    requires AllDifferent(es) && Enabled(RingOf(es, w), DeliverTermEvent(k))
    modifies es
    ensures RingOf(es, w') == Step(old(RingOf(es, w)), DeliverTermEvent(k))
  {
    ghost var was := NodesOf(es);
    var at := w.terms[k].at;
    var relayed := false;
    if es[at] != null {
      relayed := es[at].TermTokenNext();
    }
    w' := w.(terms := w.terms[k := TermToken(Onward(at, |es|, relayed), relayed)]);
    assert NodesOf(es) == was[at := NodeOf(es[at])];
  }

  /** Any run on the daemons' own elements takes them through the states that the theorems speak of. */
  method RunRing(es: seq<TsdElement?>, events: seq<Event>) returns (w: Traffic)
    requires AllDifferent(es)
    requires var start := RingOf(es, Traffic([], [], multiset{}, multiset{})); Fresh(start) && IsRun(start, events)
    modifies es
    ensures RingOf(es, w) == After(old(RingOf(es, Traffic([], [], multiset{}, multiset{}))), events)
    ensures NodesOk(RingOf(es, w)) && Tallied(RingOf(es, w))
  {
    w := Traffic([], [], multiset{}, multiset{});
    ghost var start := RingOf(es, w);
    hide Step, NodesOk, Tallied, Fresh;
    for i := 0 to |events|
      invariant IsRun(start, events[..i]) && RingOf(es, w) == After(start, events[..i])
    {
      RunPrefix(start, events, i + 1);
      assert events[..i + 1][..i] == events[..i];
      match events[i] {
        case ConnectEvent(n, client, mode) => w := ServeConnect(es, w, n, client, mode);
        case DeliverEvent(k) => w := ServeToken(es, w, k);
        case TermEvent(n) => w := ServeTerm(es, w, n);
        case DeliverTermEvent(k) => w := ServeTermToken(es, w, k);
      }
    }
    assert events[..|events|] == events;
    EveryRun(start, events);
  }

  lemma {:induction false} RunPrefix(start: Ring, events: seq<Event>, n: nat)
    requires IsRun(start, events) && n <= |events|
    ensures IsRun(start, events[..n])
    decreases |events|
  {
    if n < |events| {
      var before := events[..|events| - 1];
      RunPrefix(start, before, n);
      assert before[..n] == events[..n];
    } else {
      assert events[..n] == events;
    }
  }
}
