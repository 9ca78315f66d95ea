/** The approvals manager as a transition system: every locked region, channel operation and
    firing of a timer or cancellation is one step, and steps of all goroutines interleave freely. */
module Approvals {
  import opened Options

  datatype Resolution = Resolution(approved: bool, reason: string)

  /** Where a RequestApproval call is. `Rejected` calls were turned away by the rate limit. */
  datatype Phase =
    | Rejected
    | Admitted                    // counted, not yet registered
    | Waiting                     // registered, in the select
    | Expiring(reason: string)    // timer or cancellation chosen, own Resolve not yet begun
    | Draining(delivery: nat, reason: string) // own Resolve took an entry and is sending
    | Leaving(result: Resolution) // about to decrement the rate count
    | Returned(result: Resolution)

  /** One call with the one-slot channel of its pending entry. */
  datatype Call = Call(session: string, id: string, phase: Phase, inbox: Option<Resolution>)

  /** A Resolve that has removed an entry and not yet sent on its channel. */
  datatype Delivery = Delivery(target: nat, resolution: Resolution)

  datatype State = State(
    maxPerSession: nat,
    calls: map<nat, Call>,
    pending: map<string, nat>,
    sessionCounts: map<string, int>,
    transit: map<nat, Delivery>,
    won: map<nat, Resolution>) // history: the call a successful Resolve removed, and with what

  datatype Step =
    | Admit(call: nat, session: string, id: string)
    | Register(call: nat)
    | Resolve(delivery: nat, id: string, resolution: Resolution)
    | Send(delivery: nat)
    | Receive(call: nat)
    | Expire(call: nat, reason: string)
    | ResolveOwn(call: nat, delivery: nat)
    | Drained(call: nat)
    | Leave(call: nat)

  function Init(maxPerSession: nat): State { State(maxPerSession, map[], map[], map[], map[], map[]) }

  function Count(s: State, session: string): int {
    if session in s.sessionCounts then s.sessionCounts[session] else 0
  }

  function SetPhase(s: State, c: nat, p: Phase): State
    requires c in s.calls
  { s.(calls := s.calls[c := s.calls[c].(phase := p)]) }

  /** The locked region of Resolve, when the id is pending: remove the entry, keep its channel. */
  function Take(s: State, delivery: nat, id: string, r: Resolution): State
    requires id in s.pending
  {
    var c := s.pending[id];
    s.(pending := s.pending - {id}, transit := s.transit[delivery := Delivery(c, r)], won := s.won[c := r])
  }

  function Decrement(s: State, session: string): State {
    if s.maxPerSession == 0 then s
    else
      var n := Count(s, session) - 1;
      s.(sessionCounts := if n <= 0 then s.sessionCounts - {session} else s.sessionCounts[session := n])
  }

  /** Whether a step can happen now. */
  predicate Enabled(s: State, step: Step) {
    match step
    case Admit(c, _, _) => c !in s.calls
    case Register(c) => c in s.calls && s.calls[c].phase.Admitted?
    case Resolve(d, _, _) => d !in s.transit
    case Send(d) => d in s.transit && s.transit[d].target in s.calls
    case Receive(c) => c in s.calls && s.calls[c].phase.Waiting? && s.calls[c].inbox.Some?
    case Expire(c, _) => c in s.calls && s.calls[c].phase.Waiting?
    case ResolveOwn(c, d) => c in s.calls && s.calls[c].phase.Expiring? && d !in s.transit
    case Drained(c) => c in s.calls && s.calls[c].phase.Draining? && s.calls[c].phase.delivery !in s.transit
    case Leave(c) => c in s.calls && s.calls[c].phase.Leaving?
  }

  function Next(s: State, step: Step): State
    requires Enabled(s, step)
  {
    match step
    case Admit(c, session, id) =>
      if s.maxPerSession == 0 then s.(calls := s.calls[c := Call(session, id, Admitted, None)])
      else if Count(s, session) >= s.maxPerSession then s.(calls := s.calls[c := Call(session, id, Rejected, None)])
      else s.(calls := s.calls[c := Call(session, id, Admitted, None)],
              sessionCounts := s.sessionCounts[session := Count(s, session) + 1])
    case Register(c) => SetPhase(s, c, Waiting).(pending := s.pending[s.calls[c].id := c])
    case Resolve(d, id, r) => if id in s.pending then Take(s, d, id, r) else s
    case Send(d) =>
      var c := s.transit[d].target;
      var rest := s.(transit := s.transit - {d});
      if s.calls[c].inbox.Some? then rest // full: the non-blocking send drops the value
      else rest.(calls := s.calls[c := s.calls[c].(inbox := Some(s.transit[d].resolution))])
    case Receive(c) =>
      s.(calls := s.calls[c := s.calls[c].(phase := Leaving(s.calls[c].inbox.value), inbox := None)])
    case Expire(c, reason) => SetPhase(s, c, Expiring(reason))
    case ResolveOwn(c, d) =>
      var denied := Resolution(false, s.calls[c].phase.reason);
      if s.calls[c].id in s.pending then SetPhase(Take(s, d, s.calls[c].id, denied), c, Draining(d, denied.reason))
      else SetPhase(s, c, Leaving(denied))
    case Drained(c) => SetPhase(s, c, Leaving(Resolution(false, s.calls[c].phase.reason)))
    case Leave(c) => Decrement(SetPhase(s, c, Returned(s.calls[c].phase.result)), s.calls[c].session)
  }

  ghost predicate IsRun(s: State, steps: seq<Step>)
    decreases |steps|
  { steps == [] || (Enabled(s, steps[0]) && IsRun(Next(s, steps[0]), steps[1..])) }

  ghost function Exec(s: State, steps: seq<Step>): State
    requires IsRun(s, steps)
    decreases |steps|
  { if steps == [] then s else Exec(Next(s, steps[0]), steps[1..]) }

  // ---- What every interleaving keeps ----

  predicate InFlight(p: Phase) { !p.Rejected? && !p.Returned? }

  /** The calls of a session that passed the rate check and have not returned. */
  ghost function Active(calls: map<nat, Call>, session: string): set<nat> {
    set c | c in calls && calls[c].session == session && InFlight(calls[c].phase)
  }

  /** A pending entry belongs to a call that still waits for it and that nobody has won. */
  ghost predicate PendingInv(s: State) {
    forall id :: id in s.pending ==>
      var c := s.pending[id];
      && c in s.calls && s.calls[c].id == id && c !in s.won && s.calls[c].inbox.None?
      && (s.calls[c].phase.Waiting? || s.calls[c].phase.Expiring?)
  }

  /** A resolution under way is the one that won its call, has an empty channel to go to, and is alone. */
  ghost predicate TransitInv(s: State) {
    && (forall d :: d in s.transit ==>
          var Delivery(c, r) := s.transit[d];
          && c in s.calls && s.calls[c].inbox.None? && c in s.won && s.won[c] == r
          && !s.calls[c].phase.Admitted? && !s.calls[c].phase.Rejected?)
    && (forall d, e :: d in s.transit && e in s.transit && d != e ==> s.transit[d].target != s.transit[e].target)
  }

  ghost predicate FreshInv(s: State) {
    forall c :: c in s.won ==> c in s.calls && !s.calls[c].phase.Admitted? && !s.calls[c].phase.Rejected?
  }

  /** A channel value and an approving result both come from the win of that call. */
  ghost predicate ResultInv(s: State) {
    && (forall c :: c in s.calls && s.calls[c].inbox.Some? ==> c in s.won && s.won[c] == s.calls[c].inbox.value)
    && (forall c :: c in s.calls && (s.calls[c].phase.Leaving? || s.calls[c].phase.Returned?)
                    && s.calls[c].phase.result.approved
          ==> c in s.won && s.won[c] == s.calls[c].phase.result)
  }

  ghost predicate RateInv(s: State) {
    if s.maxPerSession == 0 then s.sessionCounts == map[]
    else
      && (forall session :: Count(s, session) == |Active(s.calls, session)| <= s.maxPerSession)
      && (forall session :: session in s.sessionCounts ==> s.sessionCounts[session] > 0)
  }

  ghost predicate ChannelInv(s: State) { PendingInv(s) && TransitInv(s) && FreshInv(s) && ResultInv(s) }

  ghost predicate Inv(s: State) { ChannelInv(s) && RateInv(s) }

  lemma NewCallKeepsChannels(s: State, c: nat, call: Call, counts: map<string, int>)
    requires ChannelInv(s) && c !in s.calls && call.inbox.None? && (call.phase.Admitted? || call.phase.Rejected?)
    ensures ChannelInv(s.(calls := s.calls[c := call], sessionCounts := counts))
  {}

  lemma RegisterKeepsChannels(s: State, step: Step)
    requires ChannelInv(s) && Enabled(s, step) && step.Register?
    ensures ChannelInv(Next(s, step))
  {}

  lemma TakeKeepsChannels(s: State, delivery: nat, id: string, r: Resolution)
    requires ChannelInv(s) && delivery !in s.transit && id in s.pending
    ensures ChannelInv(Take(s, delivery, id, r))
  {}

  lemma SendKeepsChannels(s: State, step: Step)
    requires ChannelInv(s) && Enabled(s, step) && step.Send?
    ensures ChannelInv(Next(s, step))
  {}

  lemma ReceiveKeepsChannels(s: State, step: Step)
    requires ChannelInv(s) && Enabled(s, step) && step.Receive?
    ensures ChannelInv(Next(s, step))
  {}

  lemma PhaseKeepsChannels(s: State, c: nat, p: Phase)
    requires ChannelInv(s) && c in s.calls && !s.calls[c].phase.Admitted? && !p.Admitted? && !p.Rejected?
    requires p.Expiring? || s.calls[c].id !in s.pending || s.pending[s.calls[c].id] != c
    requires (p.Leaving? || p.Returned?) && p.result.approved ==> c in s.won && s.won[c] == p.result
    ensures ChannelInv(SetPhase(s, c, p))
  {}

  lemma CountsKeepChannels(s: State, counts: map<string, int>)
    requires ChannelInv(s)
    ensures ChannelInv(s.(sessionCounts := counts))
  {}

  lemma ExpireKeepsChannels(s: State, step: Step)
    requires ChannelInv(s) && Enabled(s, step) && step.Expire?
    ensures ChannelInv(Next(s, step))
  {
    hide ChannelInv;
    PhaseKeepsChannels(s, step.call, Expiring(step.reason));
  }

  lemma DrainedKeepsChannels(s: State, step: Step)
    requires ChannelInv(s) && Enabled(s, step) && step.Drained?
    ensures ChannelInv(Next(s, step))
  {
    hide TransitInv, FreshInv, ResultInv;
    PhaseKeepsChannels(s, step.call, Leaving(Resolution(false, s.calls[step.call].phase.reason)));
  }

  lemma LeaveKeepsChannels(s: State, step: Step)
    requires ChannelInv(s) && Enabled(s, step) && step.Leave?
    ensures ChannelInv(Next(s, step))
  {
    hide TransitInv, FreshInv;
    var r := s.calls[step.call].phase.result;
    PhaseKeepsChannels(s, step.call, Returned(r));
    CountsKeepChannels(SetPhase(s, step.call, Returned(r)), Next(s, step).sessionCounts);
  }

  lemma AdmitKeepsChannels(s: State, step: Step)
    requires ChannelInv(s) && Enabled(s, step) && step.Admit?
    ensures ChannelInv(Next(s, step))
  {
    hide ChannelInv;
    var s' := Next(s, step);
    NewCallKeepsChannels(s, step.call, s'.calls[step.call], s'.sessionCounts);
  }

  lemma ResolveKeepsChannels(s: State, step: Step)
    requires ChannelInv(s) && Enabled(s, step) && step.Resolve?
    ensures ChannelInv(Next(s, step))
  {
    hide ChannelInv;
    if step.id in s.pending { TakeKeepsChannels(s, step.delivery, step.id, step.resolution); }
  }

  lemma StepKeepsChannels(s: State, step: Step)
    requires ChannelInv(s) && Enabled(s, step)
    ensures ChannelInv(Next(s, step))
  {
    hide ChannelInv, Enabled, Next;
    match step {
      case Admit(_, _, _) => AdmitKeepsChannels(s, step);
      case Register(_) => RegisterKeepsChannels(s, step);
      case Resolve(_, _, _) => ResolveKeepsChannels(s, step);
      case Send(_) => SendKeepsChannels(s, step);
      case Receive(_) => ReceiveKeepsChannels(s, step);
      case Expire(_, _) => ExpireKeepsChannels(s, step);
      case ResolveOwn(_, _) => ResolveOwnKeepsChannels(s, step);
      case Drained(_) => DrainedKeepsChannels(s, step);
      case Leave(_) => LeaveKeepsChannels(s, step);
    }
  }

  lemma ResolveOwnKeepsChannels(s: State, step: Step)
    requires ChannelInv(s) && Enabled(s, step) && step.ResolveOwn?
    ensures ChannelInv(Next(s, step))
  {
    var c, d := step.call, step.delivery;
    var denied := Resolution(false, s.calls[c].phase.reason);
    if s.calls[c].id in s.pending {
      TakeKeepsChannels(s, d, s.calls[c].id, denied);
      PhaseKeepsChannels(Take(s, d, s.calls[c].id, denied), c, Draining(d, denied.reason));
    } else {
      PhaseKeepsChannels(s, c, Leaving(denied));
    }
  }

  lemma ActiveAfter(calls: map<nat, Call>, c: nat, call: Call, session: string)
    ensures Active(calls[c := call], session)
            == Active(calls, session) - {c} + if call.session == session && InFlight(call.phase) then {c} else {}
  {}

  lemma ActiveGrows(calls: map<nat, Call>, c: nat, call: Call, session: string)
    requires c !in calls
    ensures |Active(calls[c := call], session)|
            == |Active(calls, session)| + if call.session == session && InFlight(call.phase) then 1 else 0
  {
    ActiveAfter(calls, c, call, session);
    NotActive(calls, c, session);
  }

  lemma ActiveShrinks(calls: map<nat, Call>, c: nat, call: Call, session: string)
    requires c in calls && InFlight(calls[c].phase) && !InFlight(call.phase)
    ensures |Active(calls[c := call], session)|
            == |Active(calls, session)| - if calls[c].session == session then 1 else 0
  {
    ActiveAfter(calls, c, call, session);
    if calls[c].session == session { IsActive(calls, c); } else { NotActive(calls, c, session); }
  }

  lemma AdmitKeepsRate(s: State, step: Step)
    requires RateInv(s) && Enabled(s, step) && step.Admit?
    ensures RateInv(Next(s, step))
  {
    hide Active;
    var s' := Next(s, step);
    if s.maxPerSession > 0 {
      forall session ensures Count(s', session) == |Active(s'.calls, session)| <= s.maxPerSession {
        ActiveGrows(s.calls, step.call, s'.calls[step.call], session);
      }
    }
  }

  lemma NotActive(calls: map<nat, Call>, c: nat, session: string)
    requires c !in calls || calls[c].session != session || !InFlight(calls[c].phase)
    ensures c !in Active(calls, session)
  {}

  lemma IsActive(calls: map<nat, Call>, c: nat)
    requires c in calls && InFlight(calls[c].phase)
    ensures c in Active(calls, calls[c].session)
  {}

  lemma LeaveKeepsRate(s: State, step: Step)
    requires RateInv(s) && Enabled(s, step) && step.Leave?
    ensures RateInv(Next(s, step))
  {
    hide Active;
    var s' := Next(s, step);
    if s.maxPerSession > 0 {
      forall session ensures Count(s', session) == |Active(s'.calls, session)| <= s.maxPerSession {
        ActiveShrinks(s.calls, step.call, s'.calls[step.call], session);
      }
    }
  }

  /** A step other than admission and leaving keeps the counts and who is active. */
  lemma OtherKeepsRate(s: State, step: Step)
    requires RateInv(s) && Enabled(s, step) && !step.Admit? && !step.Leave?
    ensures RateInv(Next(s, step))
  {
    hide Active;
    var s' := Next(s, step);
    forall session ensures Active(s'.calls, session) == Active(s.calls, session) {
      StaysActive(s, step, session);
    }
  }

  /** The call whose record a step rewrites. */
  function Subject(s: State, step: Step): nat
    requires Enabled(s, step) && !step.Resolve?
  { if step.Send? then s.transit[step.delivery].target else step.call }

  lemma StaysActive(s: State, step: Step, session: string)
    requires Enabled(s, step) && !step.Admit? && !step.Leave?
    ensures Active(Next(s, step).calls, session) == Active(s.calls, session)
  {
    hide Active;
    var s' := Next(s, step);
    if s'.calls != s.calls {
      var c := Subject(s, step);
      assert s'.calls == s.calls[c := s'.calls[c]];
      ActiveAfter(s.calls, c, s'.calls[c], session);
      if s.calls[c].session == session && InFlight(s.calls[c].phase) { IsActive(s.calls, c); }
      else { NotActive(s.calls, c, session); }
    }
  }

  lemma StepKeepsInv(s: State, step: Step)
    requires Inv(s) && Enabled(s, step)
    ensures Inv(Next(s, step))
  {
    hide ChannelInv, RateInv, Next;
    StepKeepsChannels(s, step);
    if step.Admit? { AdmitKeepsRate(s, step); }
    else if step.Leave? { LeaveKeepsRate(s, step); }
    else { OtherKeepsRate(s, step); }
  }

  lemma {:induction false} ExecKeepsInv(s: State, steps: seq<Step>)
    requires Inv(s) && IsRun(s, steps)
    ensures Inv(Exec(s, steps))
    decreases |steps|
  {
    hide Inv;
    if steps != [] {
      StepKeepsInv(s, steps[0]);
      ExecKeepsInv(Next(s, steps[0]), steps[1..]);
    }
  }

  // ---- Rate conservation ----

  ghost function PendingIds(s: State, session: string): set<string> {
    set id | id in s.pending && s.pending[id] in s.calls && s.calls[s.pending[id]].session == session
  }

  /** Distinct pending ids belong to distinct active calls. */
  lemma {:induction false} PendingBound(s: State, ids: set<string>, active: set<nat>)
    requires PendingInv(s)
    requires forall id :: id in ids ==> id in s.pending && s.pending[id] in active
    ensures |ids| <= |active|
    decreases ids
  {
    if ids != {} {
      var id :| id in ids;
      PendingBound(s, ids - {id}, active - {s.pending[id]});
    }
  }

  /** In every reachable state and for every session: pending requests <= count == calls in flight <= limit,
      no entry of the map is zero or negative, and without a limit nothing is counted. */
  lemma RateConserved(maxPerSession: nat, steps: seq<Step>, session: string)
    requires IsRun(Init(maxPerSession), steps)
    ensures var s := Exec(Init(maxPerSession), steps);
            && |PendingIds(s, session)| <= |Active(s.calls, session)|
            && (s.maxPerSession > 0 ==> Count(s, session) == |Active(s.calls, session)| <= s.maxPerSession)
            && (session in s.sessionCounts ==> s.maxPerSession > 0 && s.sessionCounts[session] > 0)
  {
    ExecKeepsInv(Init(maxPerSession), steps);
    var s := Exec(Init(maxPerSession), steps);
    PendingBound(s, PendingIds(s, session), Active(s.calls, session));
  }

  // ---- Single winner ----

  /** The call whose entry this step removes, that is, for which a Resolve returns true. */
  function Taken(s: State, step: Step): Option<nat>
    requires Enabled(s, step)
  {
    var id := if step.Resolve? then Some(step.id) else if step.ResolveOwn? then Some(s.calls[step.call].id) else None;
    if id.Some? && id.value in s.pending then Some(s.pending[id.value]) else None
  }

  /** How many Resolve calls of a run returned true for call `c`. */
  ghost function Wins(s: State, steps: seq<Step>, c: nat): nat
    requires IsRun(s, steps)
    decreases |steps|
  {
    if steps == [] then 0
    else (if Taken(s, steps[0]) == Some(c) then 1 else 0) + Wins(Next(s, steps[0]), steps[1..], c)
  }

  /** What a Resolve was called with: by another goroutine, or by the expiring call itself with a denial. */
  function Argument(s: State, step: Step): Resolution
    requires Enabled(s, step) && (step.Resolve? || step.ResolveOwn?)
  { if step.Resolve? then step.resolution else Resolution(false, s.calls[step.call].phase.reason) }

  lemma WonOnce(s: State, step: Step, c: nat)
    requires Inv(s) && Enabled(s, step)
    ensures var s' := Next(s, step);
            if Taken(s, step) == Some(c) then c !in s.won && c in s'.won && s'.won[c] == Argument(s, step)
            else (c in s.won <==> c in s'.won) && (c in s.won ==> s'.won[c] == s.won[c])
  {
    hide RateInv, TransitInv, FreshInv, ResultInv;
  }

  /** A call is won at most once, and its resolution never changes afterwards. */
  lemma {:induction false} AtMostOneWin(s: State, steps: seq<Step>, c: nat)
    requires Inv(s) && IsRun(s, steps)
    ensures (if c in s.won then 1 else 0) + Wins(s, steps, c) == if c in Exec(s, steps).won then 1 else 0
    ensures c in s.won ==> c in Exec(s, steps).won && Exec(s, steps).won[c] == s.won[c]
    decreases |steps|
  {
    hide Inv, Next, Taken;
    if steps != [] {
      StepKeepsInv(s, steps[0]);
      WonOnce(s, steps[0], c);
      AtMostOneWin(Next(s, steps[0]), steps[1..], c);
    }
  }

  /** Some Resolve of the run returned true for call `c` and was called with `r`; with `outside`, it was not the
      expiry of some call but a Resolve by another goroutine. */
  ghost predicate GivenBy(s: State, steps: seq<Step>, c: nat, r: Resolution, outside: bool)
    requires IsRun(s, steps)
    decreases |steps|
  {
    steps != [] &&
    (|| (&& Taken(s, steps[0]) == Some(c) && Argument(s, steps[0]) == r && (outside ==> steps[0].Resolve?))
     || GivenBy(Next(s, steps[0]), steps[1..], c, r, outside))
  }

  /** A call is won with what the winning Resolve was called with, and an approval comes from outside. */
  lemma {:induction false} WinIsGiven(s: State, steps: seq<Step>, c: nat)
    requires Inv(s) && IsRun(s, steps) && c !in s.won && c in Exec(s, steps).won
    ensures var r := Exec(s, steps).won[c]; GivenBy(s, steps, c, r, r.approved)
    decreases |steps|
  {
    hide Inv, Next, Taken, Enabled;
    if steps != [] {
      StepKeepsInv(s, steps[0]);
      WonOnce(s, steps[0], c);
      if Taken(s, steps[0]) == Some(c) {
        AtMostOneWin(Next(s, steps[0]), steps[1..], c);
        ArgumentApproves(s, steps[0]);
      } else {
        WinIsGiven(Next(s, steps[0]), steps[1..], c);
      }
    }
  }

  lemma ArgumentApproves(s: State, step: Step)
    requires Enabled(s, step) && Taken(s, step).Some?
    ensures (step.Resolve? || step.ResolveOwn?) && (Argument(s, step).approved ==> step.Resolve?)
  {}

  /** The rate limit turns a call away exactly when the session has the most calls in flight it may have. */
  lemma TurnedAwayExactly(s: State, step: Step)
    requires Inv(s) && Enabled(s, step) && step.Admit?
    ensures Next(s, step).calls[step.call].phase ==
            if s.maxPerSession > 0 && |Active(s.calls, step.session)| >= s.maxPerSession then Rejected else Admitted
  {
    hide ChannelInv, Active;
  }

  /** The call can no longer return an approval. */
  predicate Denied(s: State, c: nat) {
    && c in s.calls
    && match s.calls[c].phase
       case Expiring(_) => true
       case Draining(_, _) => true
       case Leaving(r) => !r.approved
       case Returned(r) => !r.approved
       case _ => false
  }

  /** A timeout or cancellation that was chosen always ends in a denial. */
  lemma {:induction false} ExpiryDenies(s: State, steps: seq<Step>, c: nat)
    requires Denied(s, c) && IsRun(s, steps)
    ensures Denied(Exec(s, steps), c)
    decreases |steps|
  {
    if steps != [] {
      DeniedStays(s, steps[0], c);
      hide Denied;
      ExpiryDenies(Next(s, steps[0]), steps[1..], c);
    }
  }

  lemma DeniedStays(s: State, step: Step, c: nat)
    requires Denied(s, c) && Enabled(s, step)
    ensures Denied(Next(s, step), c)
  {}

  ghost predicate DistinctIds(s: State) {
    forall c, d :: c in s.calls && d in s.calls && s.calls[c].id == s.calls[d].id ==> c == d
  }

  /** In every interleaving: at most one Resolve returns true for a call, its send finds the channel empty,
      an approval is returned only if that Resolve was called by another goroutine with that very approval, and a
      returned call has left the pending map, as has its id when ids are distinct. */
  lemma SingleWinner(maxPerSession: nat, steps: seq<Step>, c: nat)
    requires IsRun(Init(maxPerSession), steps)
    ensures Wins(Init(maxPerSession), steps, c) <= 1
    ensures var s := Exec(Init(maxPerSession), steps);
            && (forall d :: d in s.transit ==>
                  s.transit[d].target in s.calls && s.calls[s.transit[d].target].inbox.None?)
            && (c in s.calls && s.calls[c].phase.Returned? ==>
                  && (s.calls[c].phase.result.approved ==>
                        && Wins(Init(maxPerSession), steps, c) == 1
                        && c in s.won && s.won[c] == s.calls[c].phase.result
                        && GivenBy(Init(maxPerSession), steps, c, s.calls[c].phase.result, true))
                  && (forall id :: id in s.pending ==> s.pending[id] != c)
                  && (DistinctIds(s) ==> s.calls[c].id !in s.pending))
  {
    hide Next, RateInv;
    InitInv(maxPerSession);
    ExecKeepsInv(Init(maxPerSession), steps);
    AtMostOneWin(Init(maxPerSession), steps, c);
    if c in Exec(Init(maxPerSession), steps).won { WinIsGiven(Init(maxPerSession), steps, c); }
  }

  lemma InitInv(maxPerSession: nat)
    ensures Inv(Init(maxPerSession))
  {
    assert forall session :: Active(map[], session) == {};
  }

  /** A win is worth something: while the call waits, the winning resolution can be delivered, received and
      returned, and what is returned is that very resolution. */
  lemma WinIsReturned(s: State, c: nat, d: nat)
    requires Inv(s) && d in s.transit && s.transit[d].target == c && c in s.calls && s.calls[c].phase.Waiting?
    ensures IsRun(s, [Send(d), Receive(c), Leave(c)])
    ensures var s' := Exec(s, [Send(d), Receive(c), Leave(c)]);
            c in s'.calls && c in s.won && s'.calls[c].phase == Returned(s.won[c])
  {
    hide RateInv;
    var s1 := Next(s, Send(d));
    var s2 := Next(s1, Receive(c));
    Then(s2, Leave(c), []);
    Then(s1, Receive(c), [Leave(c)]);
    Then(s, Send(d), [Receive(c), Leave(c)]);
  }

  // ---- What a call returns ----

  /** The reason a timer or cancellation was chosen with in a run, if one was. */
  function Expiry(steps: seq<Step>, c: nat, before: Option<string>): Option<string> {
    if steps == [] then before
    else Expiry(steps[1..], c, if steps[0].Expire? && steps[0].call == c then Some(steps[0].reason) else before)
  }

  /** A call that did not expire leaves with what it was won with, one that did with its own denial. */
  predicate Accounted(s: State, c: nat, expiry: Option<string>) {
    if c !in s.calls then expiry.None?
    else
      match s.calls[c].phase
      case Expiring(reason) => expiry == Some(reason)
      case Draining(_, reason) => expiry == Some(reason)
      case Leaving(r) => if expiry.None? then c in s.won && s.won[c] == r else r == Resolution(false, expiry.value)
      case Returned(r) => if expiry.None? then c in s.won && s.won[c] == r else r == Resolution(false, expiry.value)
      case _ => expiry.None?
  }

  /** The step is the doing of call `c` itself. */
  predicate By(step: Step, c: nat) { !step.Resolve? && !step.Send? && step.call == c }

  lemma OthersKeepPhase(s: State, step: Step, c: nat)
    requires Enabled(s, step) && !By(step, c)
    ensures c in s.calls <==> c in Next(s, step).calls
    ensures c in s.calls ==> Next(s, step).calls[c].phase == s.calls[c].phase
  {
    hide Enabled, Next;
    if step.Send? || step.Resolve? { DeliveryKeepsPhase(s, step, c); } else { OtherCallKeepsPhase(s, step, c); }
  }

  lemma DeliveryKeepsPhase(s: State, step: Step, c: nat)
    requires Enabled(s, step) && (step.Send? || step.Resolve?)
    ensures c in s.calls <==> c in Next(s, step).calls
    ensures c in s.calls ==> Next(s, step).calls[c].phase == s.calls[c].phase
  {}

  lemma OtherCallKeepsPhase(s: State, step: Step, c: nat)
    requires Enabled(s, step) && !step.Send? && !step.Resolve? && step.call != c
    ensures c in s.calls <==> c in Next(s, step).calls
    ensures c in s.calls ==> Next(s, step).calls[c] == s.calls[c]
  {}

  lemma OwnStepAccounts(s: State, step: Step, c: nat, expiry: Option<string>)
    requires ResultInv(s) && Enabled(s, step) && Accounted(s, c, expiry) && By(step, c)
    requires c in s.won ==> c in Next(s, step).won && Next(s, step).won[c] == s.won[c]
    ensures Accounted(Next(s, step), c, if step.Expire? then Some(step.reason) else expiry)
  {}

  lemma StepAccounts(s: State, step: Step, c: nat, expiry: Option<string>)
    requires Inv(s) && Enabled(s, step) && Accounted(s, c, expiry)
    ensures Accounted(Next(s, step), c, if step.Expire? && step.call == c then Some(step.reason) else expiry)
  {
    hide Next, Enabled, RateInv, PendingInv, TransitInv, FreshInv, ResultInv;
    WonOnce(s, step, c);
    if By(step, c) { OwnStepAccounts(s, step, c, expiry); } else { OthersKeepPhase(s, step, c); }
  }

  lemma {:induction false} RunAccounts(s: State, steps: seq<Step>, c: nat, expiry: Option<string>)
    requires Inv(s) && IsRun(s, steps) && Accounted(s, c, expiry)
    ensures Accounted(Exec(s, steps), c, Expiry(steps, c, expiry))
    decreases |steps|
  {
    hide Inv, Next, Accounted;
    if steps != [] {
      StepKeepsInv(s, steps[0]);
      StepAccounts(s, steps[0], c, expiry);
      RunAccounts(Next(s, steps[0]), steps[1..], c,
                  if steps[0].Expire? && steps[0].call == c then Some(steps[0].reason) else expiry);
    }
  }

  /** In every interleaving a returned call has the resolution it was won with, exactly unless its timer or
      cancellation was chosen; then it has its own denial. */
  lemma ReturnsItsWin(maxPerSession: nat, steps: seq<Step>, c: nat)
    requires IsRun(Init(maxPerSession), steps)
    ensures var s, expiry := Exec(Init(maxPerSession), steps), Expiry(steps, c, None);
            c in s.calls && s.calls[c].phase.Returned? ==>
              if expiry.None? then c in s.won && s.calls[c].phase.result == s.won[c]
              else s.calls[c].phase.result == Resolution(false, expiry.value)
  {
    hide Inv, Next;
    InitInv(maxPerSession);
    RunAccounts(Init(maxPerSession), steps, c, None);
  }

  // ---- When an expiry is a call's own business ----

  /** No timeout or cancellation of the run removed the entry of another call. */
  ghost predicate OwnExpiriesOnly(s: State, steps: seq<Step>)
    requires IsRun(s, steps)
    decreases |steps|
  {
    steps == [] ||
    (&& (steps[0].ResolveOwn? ==> Taken(s, steps[0]) == None || Taken(s, steps[0]) == Some(steps[0].call))
     && OwnExpiriesOnly(Next(s, steps[0]), steps[1..]))
  }

  /** The requests of a run carry these ids. */
  ghost predicate Uses(steps: seq<Step>, ids: map<nat, string>) {
    forall i :: 0 <= i < |steps| && steps[i].Admit? ==> steps[i].call in ids && ids[steps[i].call] == steps[i].id
  }

  ghost predicate Carry(s: State, ids: map<nat, string>) {
    forall c :: c in s.calls ==> c in ids && ids[c] == s.calls[c].id
  }

  ghost predicate Injective(ids: map<nat, string>) {
    forall c, d :: c in ids && d in ids && ids[c] == ids[d] ==> c == d
  }

  lemma StepCarries(s: State, step: Step, ids: map<nat, string>)
    requires Enabled(s, step) && Carry(s, ids)
    requires step.Admit? ==> step.call in ids && ids[step.call] == step.id
    ensures Carry(Next(s, step), ids)
  {
    hide Carry;
    var s' := Next(s, step);
    forall c | c in s'.calls ensures c in ids && ids[c] == s'.calls[c].id {
      IdStays(s, step, c);
      if c in s.calls { assert c in ids && ids[c] == s.calls[c].id by { CarryAt(s, ids, c); } }
    }
    assert Carry(s', ids) by { CarryAll(s', ids); }
  }

  lemma CarryAt(s: State, ids: map<nat, string>, c: nat)
    requires Carry(s, ids) && c in s.calls
    ensures c in ids && ids[c] == s.calls[c].id
  {}

  lemma CarryAll(s: State, ids: map<nat, string>)
    requires forall c :: c in s.calls ==> c in ids && ids[c] == s.calls[c].id
    ensures Carry(s, ids)
  {}

  lemma IdStays(s: State, step: Step, c: nat)
    requires Enabled(s, step) && c in Next(s, step).calls
    ensures if c in s.calls then Next(s, step).calls[c].id == s.calls[c].id
            else step.Admit? && step.call == c && Next(s, step).calls[c].id == step.id
  {
    hide Next, Enabled;
    if step.Admit? { AdmittedId(s, step, c); }
    else if step.ResolveOwn? || step.Leave? { LeavingId(s, step, c); }
    else { OtherId(s, step, c); }
  }

  lemma AdmittedId(s: State, step: Step, c: nat)
    requires Enabled(s, step) && step.Admit? && c in Next(s, step).calls
    ensures if c in s.calls then Next(s, step).calls[c] == s.calls[c]
            else step.call == c && Next(s, step).calls[c].id == step.id
  {}

  lemma LeavingId(s: State, step: Step, c: nat)
    requires Enabled(s, step) && (step.ResolveOwn? || step.Leave?) && c in Next(s, step).calls
    ensures c in s.calls && Next(s, step).calls[c].id == s.calls[c].id
  {}

  lemma OtherId(s: State, step: Step, c: nat)
    requires Enabled(s, step) && !step.Admit? && !step.ResolveOwn? && !step.Leave? && c in Next(s, step).calls
    ensures c in s.calls && Next(s, step).calls[c].id == s.calls[c].id
  {}

  lemma OwnExpiry(s: State, step: Step, ids: map<nat, string>)
    requires Inv(s) && Enabled(s, step) && Carry(s, ids) && Injective(ids) && step.ResolveOwn?
    ensures Taken(s, step) == None || Taken(s, step) == Some(step.call)
  {
    hide RateInv, TransitInv, FreshInv, ResultInv, Next;
  }

  lemma {:induction false} DistinctIdsOwnExpiries(s: State, steps: seq<Step>, ids: map<nat, string>)
    requires Inv(s) && IsRun(s, steps) && Uses(steps, ids) && Carry(s, ids) && Injective(ids)
    ensures OwnExpiriesOnly(s, steps)
    decreases |steps|
  {
    hide Inv, Next, Taken, Carry, Injective;
    if steps != [] {
      StepKeepsInv(s, steps[0]);
      StepCarries(s, steps[0], ids);
      if steps[0].ResolveOwn? { OwnExpiry(s, steps[0], ids); }
      DistinctIdsOwnExpiries(Next(s, steps[0]), steps[1..], ids);
    }
  }

  // ---- What does not hold ----

  lemma Then(s: State, step: Step, rest: seq<Step>)
    requires Enabled(s, step) && IsRun(Next(s, step), rest)
    ensures IsRun(s, [step] + rest) && Exec(s, [step] + rest) == Exec(Next(s, step), rest)
  {
    assert ([step] + rest)[1..] == rest;
  }

  /** Ids matter: when a later call `b` registered under the id of an expiring call `a`, the expiry of `a`
      denies `b`, although nobody resolved it and it did not expire. */
  lemma SharedIdCrossTalk(s: State, a: nat, b: nat, d: nat)
    requires Inv(s) && d !in s.transit && a in s.calls && b in s.calls && a != b
    requires s.calls[a].phase.Expiring? && s.calls[b].phase.Waiting?
    requires s.calls[a].id in s.pending && s.pending[s.calls[a].id] == b
    ensures IsRun(s, [ResolveOwn(a, d), Send(d), Receive(b)])
    ensures var s' := Exec(s, [ResolveOwn(a, d), Send(d), Receive(b)]);
            b in s'.calls && s'.calls[b].phase == Leaving(Resolution(false, s.calls[a].phase.reason))
  {
    var s1 := Next(s, ResolveOwn(a, d));
    var s2 := Next(s1, Send(d));
    Then(s2, Receive(b), []);
    Then(s1, Send(d), [Receive(b)]);
    Then(s, ResolveOwn(a, d), [Send(d), Receive(b)]);
  }

  /** Such a state is one overlapping call away: the code does not check that an id is new. */
  lemma SharedIdArises(s: State, a: nat, b: nat, reason: string)
    requires Inv(s) && a in s.calls && b !in s.calls && s.calls[a].phase.Waiting?
    requires s.maxPerSession == 0 || Count(s, s.calls[a].session) < s.maxPerSession
    ensures var id, session := s.calls[a].id, s.calls[a].session;
            var steps := [Expire(a, reason), Admit(b, session, id), Register(b)];
            IsRun(s, steps) &&
            var s' := Exec(s, steps);
            && a in s'.calls && b in s'.calls && s'.calls[a].id == id
            && s'.calls[a].phase == Expiring(reason) && s'.calls[b].phase.Waiting?
            && id in s'.pending && s'.pending[id] == b && s'.transit == s.transit
  {
    hide Inv;
    var id, session := s.calls[a].id, s.calls[a].session;
    var s1 := Next(s, Expire(a, reason));
    var s2 := Next(s1, Admit(b, session, id));
    Then(s2, Register(b), []);
    Then(s1, Admit(b, session, id), [Register(b)]);
    Then(s, Expire(a, reason), [Admit(b, session, id), Register(b)]);
    assert [Expire(a, reason)] + [Admit(b, session, id), Register(b)]
        == [Expire(a, reason), Admit(b, session, id), Register(b)];
  }

  /** An approval can be lost: when the timer is chosen after a Resolve has won the call, the call is denied
      whatever the resolution was. */
  lemma TimerOverridesWin(s: State, c: nat, d: nat, reason: string)
    requires Inv(s) && c in s.won && s.calls[c].phase.Waiting? && d !in s.transit && DistinctIds(s)
    ensures IsRun(s, [Expire(c, reason), ResolveOwn(c, d)])
    ensures var s' := Exec(s, [Expire(c, reason), ResolveOwn(c, d)]);
            c in s'.calls && s'.calls[c].phase == Leaving(Resolution(false, reason)) && s'.won == s.won
  {
    var s1 := Next(s, Expire(c, reason));
    Then(s1, ResolveOwn(c, d), []);
    Then(s, Expire(c, reason), [ResolveOwn(c, d)]);
  }

  lemma ThenOwn(s: State, step: Step, rest: seq<Step>)
    requires Enabled(s, step) && IsRun(Next(s, step), rest) && !OwnExpiriesOnly(Next(s, step), rest)
    ensures IsRun(s, [step] + rest) && !OwnExpiriesOnly(s, [step] + rest)
  {
    assert ([step] + rest)[1..] == rest;
  }

  /** `a` expires, and its id is pending for `b`. */
  predicate Mistaken(s: State, a: nat, b: nat) {
    && a in s.calls && s.calls[a].phase.Expiring? && a != b && 0 !in s.transit
    && s.calls[a].id in s.pending && s.pending[s.calls[a].id] == b
  }

  lemma MistakenExpiry(s: State, a: nat, b: nat)
    requires Mistaken(s, a, b)
    ensures Enabled(s, ResolveOwn(a, 0)) && IsRun(s, [ResolveOwn(a, 0)]) && !OwnExpiriesOnly(s, [ResolveOwn(a, 0)])
  {
    assert [ResolveOwn(a, 0)] + [] == [ResolveOwn(a, 0)];
    Then(s, ResolveOwn(a, 0), []);
  }

  function Shared(a: nat, b: nat, id: string): seq<Step> {
    [Admit(a, "1", id)]
    + ([Register(a)] + ([Admit(b, "2", id)] + ([Register(b)] + ([Expire(a, "")] + [ResolveOwn(a, 0)]))))
  }

  lemma SharedIdRun(maxPerSession: nat, a: nat, b: nat, id: string)
    requires a != b
    ensures IsRun(Init(maxPerSession), Shared(a, b, id)) && !OwnExpiriesOnly(Init(maxPerSession), Shared(a, b, id))
  {
    hide OwnExpiriesOnly, IsRun;
    var s0 := Init(maxPerSession);
    var s1 := Next(s0, Admit(a, "1", id));
    var s2 := Next(s1, Register(a));
    var s3 := Next(s2, Admit(b, "2", id));
    var s4 := Next(s3, Register(b));
    var s5 := Next(s4, Expire(a, ""));
    MistakenExpiry(s5, a, b);
    ThenOwn(s4, Expire(a, ""), [ResolveOwn(a, 0)]);
    ThenOwn(s3, Register(b), [Expire(a, "")] + [ResolveOwn(a, 0)]);
    ThenOwn(s2, Admit(b, "2", id), [Register(b)] + ([Expire(a, "")] + [ResolveOwn(a, 0)]));
    ThenOwn(s1, Register(a), [Admit(b, "2", id)] + ([Register(b)] + ([Expire(a, "")] + [ResolveOwn(a, 0)])));
    ThenOwn(s0, Admit(a, "1", id),
            [Register(a)] + ([Admit(b, "2", id)] + ([Register(b)] + ([Expire(a, "")] + [ResolveOwn(a, 0)]))));
  }

  /** A timeout or cancellation removes the entry of its own call only, in every interleaving of these requests,
      exactly when their ids are distinct. */
  lemma OwnExpiriesExactly(maxPerSession: nat, ids: map<nat, string>)
    ensures (forall steps :: IsRun(Init(maxPerSession), steps) && Uses(steps, ids) ==>
               OwnExpiriesOnly(Init(maxPerSession), steps))
            <==> Injective(ids)
  {
    hide IsRun, OwnExpiriesOnly, Inv;
    var s := Init(maxPerSession);
    InitInv(maxPerSession);
    if Injective(ids) {
      forall steps | IsRun(s, steps) && Uses(steps, ids)
        ensures OwnExpiriesOnly(s, steps)
      {
        DistinctIdsOwnExpiries(s, steps, ids);
      }
    } else {
      var a, b :| a in ids && b in ids && ids[a] == ids[b] && a != b;
      SharedIdRun(maxPerSession, a, b, ids[a]);
      assert Uses(Shared(a, b, ids[a]), ids);
    }
  }
}
