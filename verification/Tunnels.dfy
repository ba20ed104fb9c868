/**
 * Protocol-upgrade tunnels: the permit steps of `forward_upgrade` and `forward_upgrade_inner` (src/proxy.rs), as
 * a transition system over any number of concurrent requests.
 */
module Tunnels {
  import opened Wrappers

  /** `max-upgrade-tunnels`: zero, like no setting, means unlimited (src/settings/mod.rs). */
  function MaxTunnels(configured: Option<nat>): Option<nat> {
    if configured == Some(0) then None else configured
  }

  datatype End = ServiceUnavailable | BadUpstreamUri | RequestFailed | NotSwitched | ClientGone | TunnelClosed

  /** Where an upgrade request stands. */
  datatype Phase = AwaitingUpstream | Tunnelling | Ended(how: End)

  datatype Event =
    | Arrive(id: nat)
    | UriFails(id: nat)
    | UpstreamFails(id: nat)
    | UpstreamRefuses(id: nat)
    | UpstreamSwitches(id: nat)
    | ClientLeaves(id: nat)
    | TunnelEnds(id: nat)

  /** `free` counts the semaphore's permits; there is no semaphore without a limit. */
  datatype State = State(free: Option<nat>, requests: map<nat, Phase>)

  function Initial(limit: Option<nat>): State {
    State(limit, map[])
  }

  predicate Is(st: State, id: nat, phase: Phase) {
    id in st.requests && st.requests[id] == phase
  }

  /** A permit lives in the request while it waits, moves into the tunnel task, and is dropped with either. */
  function Release(free: Option<nat>): Option<nat> {
    if free.Some? then Some(free.value + 1) else None
  }

  function Finish(st: State, id: nat, from: Phase, how: End): State {
    if Is(st, id, from) then State(Release(st.free), st.requests[id := Ended(how)]) else st
  }

  function Step(st: State, e: Event): State {
    match e
    case Arrive(id) =>
      if id in st.requests then st
      else if st.free.None? then st.(requests := st.requests[id := AwaitingUpstream])
      else if st.free.value == 0 then st.(requests := st.requests[id := Ended(ServiceUnavailable)])
      else State(Some(st.free.value - 1), st.requests[id := AwaitingUpstream])
    case UriFails(id) => Finish(st, id, AwaitingUpstream, BadUpstreamUri)
    case UpstreamFails(id) => Finish(st, id, AwaitingUpstream, RequestFailed)
    case UpstreamRefuses(id) => Finish(st, id, AwaitingUpstream, NotSwitched)
    case ClientLeaves(id) => Finish(st, id, AwaitingUpstream, ClientGone)
    case UpstreamSwitches(id) =>
      if Is(st, id, AwaitingUpstream) then st.(requests := st.requests[id := Tunnelling]) else st
    case TunnelEnds(id) => Finish(st, id, Tunnelling, TunnelClosed)
  }

  function Run(limit: Option<nat>, events: seq<Event>): State
    decreases |events|
  {
    if events == [] then Initial(limit) else Step(Run(limit, events[..|events| - 1]), events[|events| - 1])
  }

  ghost function In(st: State, phase: Phase): set<nat> {
    set id | id in st.requests && st.requests[id] == phase
  }

  /** Every permit is free, with a waiting request, or with a live tunnel. */
  ghost predicate Conserved(st: State, limit: Option<nat>) {
    && (limit.None? <==> st.free.None?)
    && (limit.Some? ==> st.free.value + |In(st, AwaitingUpstream)| + |In(st, Tunnelling)| == limit.value)
  }

  function One(b: bool): nat {
    if b then 1 else 0
  }

  /** The requests in a phase, apart from one. */
  ghost function Others(st: State, phase: Phase, id: nat): set<nat> {
    In(st, phase) - {id}
  }

  lemma CountOthers(st: State, id: nat, phase: Phase)
    ensures |In(st, phase)| == |Others(st, phase, id)| + One(Is(st, id, phase))
  {
    assert In(st, phase) == if Is(st, id, phase) then Others(st, phase, id) + {id} else Others(st, phase, id);
  }

  /** How giving one request a phase changes the number of requests in a phase. */
  lemma CountAfter(st: State, id: nat, now: Phase, st': State, phase: Phase)
    requires st'.requests == st.requests[id := now]
    ensures |In(st', phase)| == |In(st, phase)| - One(Is(st, id, phase)) + One(now == phase)
  {
    assert Others(st, phase, id) == Others(st', phase, id);
    hide In, Others;
    CountOthers(st, id, phase);
    CountOthers(st', id, phase);
  }

  lemma StepConserves(st: State, limit: Option<nat>, e: Event)
    requires Conserved(st, limit)
    ensures Conserved(Step(st, e), limit)
  {
    var st' := Step(st, e);
    hide In;
    if e.id in st'.requests {
      var now := st'.requests[e.id];
      assert st'.requests == st.requests[e.id := now];
      CountAfter(st, e.id, now, st', AwaitingUpstream);
      CountAfter(st, e.id, now, st', Tunnelling);
    } else {
      assert st' == st;
    }
  }

  /** In every run the permits are conserved; hence live tunnels never exceed the limit. */
  lemma {:induction false} PermitsAreConserved(limit: Option<nat>, events: seq<Event>)
    ensures Conserved(Run(limit, events), limit)
    ensures limit.Some? ==> |In(Run(limit, events), Tunnelling)| <= limit.value
    decreases |events|
  {
    if events == [] {
      assert In(Initial(limit), AwaitingUpstream) == {} && In(Initial(limit), Tunnelling) == {};
    } else {
      PermitsAreConserved(limit, events[..|events| - 1]);
      StepConserves(Run(limit, events[..|events| - 1]), limit, events[|events| - 1]);
    }
  }

  /**
   * In every run an upgrade request is refused with 503 exactly when as many requests and tunnels as the limit
   * allows are under way, and never without a limit.
   */
  lemma RefusedIffFull(limit: Option<nat>, events: seq<Event>, id: nat)
    requires id !in Run(limit, events).requests
    ensures var st := Run(limit, events);
            Is(Step(st, Arrive(id)), id, Ended(ServiceUnavailable)) <==>
              limit.Some? && |In(st, AwaitingUpstream)| + |In(st, Tunnelling)| == limit.value
  {
    PermitsAreConserved(limit, events);
  }

  // ----- One request among others -----

  function Free(st: State): nat {
    if st.free.Some? then st.free.value else 0
  }

  /** The permits a request holds: one while it waits for the upstream server or its tunnel lives. */
  function Held(st: State, id: nat): nat {
    One(Is(st, id, AwaitingUpstream)) + One(Is(st, id, Tunnelling))
  }

  lemma StepIsLocal(st: State, e: Event, other: nat)
    ensures other != e.id ==> (other in Step(st, e).requests <==> other in st.requests)
    ensures other != e.id && other in st.requests ==> Step(st, e).requests[other] == st.requests[other]
    ensures st.free.Some? ==> Step(st, e).free.Some? && Free(st) - Free(Step(st, e)) == Held(Step(st, e), e.id) - Held(st, e.id)
  {
  }

  /** The permits taken from the semaphore less those given back, by the events of one request. */
  function Taken(limit: Option<nat>, events: seq<Event>, id: nat): int
    decreases |events|
  {
    if events == [] then 0
    else
      var init, e := events[..|events| - 1], events[|events| - 1];
      Taken(limit, init, id) + if e.id == id then Free(Run(limit, init)) - Free(Run(limit, events)) else 0
  }

  /**
   * In every run, whatever other requests do between, the events of one request have taken exactly the permit it
   * holds now: one while it waits or its tunnel lives, none before, after, or if it was refused.
   */
  lemma {:induction false} PermitFollowsRequest(limit: Option<nat>, events: seq<Event>, id: nat)
    requires limit.Some?
    ensures Run(limit, events).free.Some? && Taken(limit, events, id) == Held(Run(limit, events), id)
    decreases |events|
  {
    hide Step, Held;
    if events == [] {
      NothingHeld(limit, id);
    } else {
      var init, e := events[..|events| - 1], events[|events| - 1];
      PermitFollowsRequest(limit, init, id);
      StepIsLocal(Run(limit, init), e, id);
      if e.id != id {
        SameHeld(Run(limit, init), Run(limit, events), id);
      }
    }
  }

  lemma NothingHeld(limit: Option<nat>, id: nat)
    ensures Held(Initial(limit), id) == 0
  {
  }

  lemma SameHeld(st: State, st': State, id: nat)
    requires id in st.requests <==> id in st'.requests
    requires id in st.requests ==> st.requests[id] == st'.requests[id]
    ensures Held(st, id) == Held(st', id)
  {
  }

  /** Events of other requests only. */
  ghost predicate Elsewhere(events: seq<Event>, id: nat) {
    forall e <- events :: e.id != id
  }

  lemma {:induction false} OthersLeaveAlone(limit: Option<nat>, events: seq<Event>, others: seq<Event>, id: nat, phase: Phase)
    requires Elsewhere(others, id) && Is(Run(limit, events), id, phase)
    ensures Is(Run(limit, events + others), id, phase)
    decreases |others|
  {
    if others == [] {
      assert events + others == events;
    } else {
      var init, e := others[..|others| - 1], others[|others| - 1];
      assert forall x <- init :: x in others;
      assert e in others;
      OthersLeaveAlone(limit, events, init, id, phase);
      Snoc(limit, events + init, e);
      assert events + others == events + init + [e];
      StepIsLocal(Run(limit, events + init), e, id);
    }
  }

  lemma Snoc(limit: Option<nat>, events: seq<Event>, e: Event)
    ensures Run(limit, events + [e]) == Step(Run(limit, events), e)
  {
    assert (events + [e])[..|events|] == events;
  }

  /** How a waiting request ends, if an event ends it. */
  function EndBy(e: Event): Option<End> {
    match e
    case UriFails(_) => Some(BadUpstreamUri)
    case UpstreamFails(_) => Some(RequestFailed)
    case UpstreamRefuses(_) => Some(NotSwitched)
    case ClientLeaves(_) => Some(ClientGone)
    case Arrive(_) => None
    case UpstreamSwitches(_) => None
    case TunnelEnds(_) => None
  }

  lemma AcceptedWaits(limit: Option<nat>, before: seq<Event>, others: seq<Event>, id: nat)
    requires id !in Run(limit, before).requests && Run(limit, before).free != Some(0) && Elsewhere(others, id)
    ensures Is(Run(limit, before + [Arrive(id)] + others), id, AwaitingUpstream)
  {
    Snoc(limit, before, Arrive(id));
    OthersLeaveAlone(limit, before + [Arrive(id)], others, id, AwaitingUpstream);
  }

  /** An accepted request that fails ends as its failure says, with its permit returned, whatever others do meanwhile. */
  lemma FailureEndsRequest(limit: Option<nat>, before: seq<Event>, others: seq<Event>, e: Event)
    requires var st := Run(limit, before); e.id !in st.requests && st.free != Some(0)
    requires Elsewhere(others, e.id) && EndBy(e).Some?
    ensures var events := before + [Arrive(e.id)] + others + [e];
            && Is(Run(limit, events), e.id, Ended(EndBy(e).value))
            && (limit.Some? ==> Taken(limit, events, e.id) == 0)
  {
    AcceptedWaits(limit, before, others, e.id);
    var waiting := before + [Arrive(e.id)] + others;
    Snoc(limit, waiting, e);
    if limit.Some? {
      PermitFollowsRequest(limit, waiting + [e], e.id);
    }
  }

  /** A switched connection keeps its permit until its tunnel ends, whatever else happens, and not longer. */
  lemma TunnelKeepsPermit(limit: Option<nat>, before: seq<Event>, others: seq<Event>, id: nat, more: seq<Event>)
    requires id !in Run(limit, before).requests && Run(limit, before).free != Some(0)
    requires Elsewhere(others, id) && TunnelEnds(id) !in more
    ensures var live := before + [Arrive(id)] + others + [UpstreamSwitches(id)] + more;
            && Is(Run(limit, live), id, Tunnelling) && Is(Run(limit, live + [TunnelEnds(id)]), id, Ended(TunnelClosed))
            && (limit.Some? ==> Taken(limit, live, id) == 1 && Taken(limit, live + [TunnelEnds(id)], id) == 0)
  {
    AcceptedWaits(limit, before, others, id);
    var waiting := before + [Arrive(id)] + others;
    var live := waiting + [UpstreamSwitches(id)] + more;
    Snoc(limit, waiting, UpstreamSwitches(id));
    TunnelLives(limit, waiting + [UpstreamSwitches(id)], more, id);
    Snoc(limit, live, TunnelEnds(id));
    if limit.Some? {
      PermitFollowsRequest(limit, live, id);
      PermitFollowsRequest(limit, live + [TunnelEnds(id)], id);
    }
  }

  lemma {:induction false} TunnelLives(limit: Option<nat>, events: seq<Event>, more: seq<Event>, id: nat)
    requires Is(Run(limit, events), id, Tunnelling) && TunnelEnds(id) !in more
    ensures Is(Run(limit, events + more), id, Tunnelling)
    decreases |more|
  {
    if more == [] {
      assert events + more == events;
    } else {
      var init, e := more[..|more| - 1], more[|more| - 1];
      assert forall x <- init :: x in more;
      assert e in more;
      TunnelLives(limit, events, init, id);
      Snoc(limit, events + init, e);
      assert events + more == events + init + [e];
      StepIsLocal(Run(limit, events + init), e, id);
    }
  }

  /** Once every request of a run has ended, all permits are back. */
  lemma AllPermitsReturn(limit: Option<nat>, events: seq<Event>)
    requires forall id <- Run(limit, events).requests :: Run(limit, events).requests[id].Ended?
    ensures Run(limit, events).free == limit
  {
    PermitsAreConserved(limit, events);
    assert In(Run(limit, events), AwaitingUpstream) == {} && In(Run(limit, events), Tunnelling) == {};
  }

  /** A configured limit other than zero bounds the live tunnels of every run. */
  lemma ConfiguredLimitBinds(configured: nat, events: seq<Event>)
    requires configured > 0
    ensures |In(Run(MaxTunnels(Some(configured)), events), Tunnelling)| <= configured
  {
    PermitsAreConserved(MaxTunnels(Some(configured)), events);
  }

  /** A configured limit of zero is no limit: nothing is ever refused. */
  lemma ZeroMeansUnlimited(events: seq<Event>, id: nat)
    requires id !in Run(MaxTunnels(Some(0)), events).requests
    ensures Is(Step(Run(MaxTunnels(Some(0)), events), Arrive(id)), id, AwaitingUpstream)
  {
    PermitsAreConserved(MaxTunnels(Some(0)), events);
  }

  /** The setting, whatever it is: a new request is refused exactly when it is a number above zero, all taken. */
  lemma SettingRefusesIff(configured: Option<nat>, events: seq<Event>, id: nat)
    requires id !in Run(MaxTunnels(configured), events).requests
    ensures var st := Run(MaxTunnels(configured), events);
            Is(Step(st, Arrive(id)), id, Ended(ServiceUnavailable)) <==>
              && configured.Some? && configured.value > 0
              && |In(st, AwaitingUpstream)| + |In(st, Tunnelling)| == configured.value
  {
    PermitsAreConserved(MaxTunnels(configured), events);
  }
}
