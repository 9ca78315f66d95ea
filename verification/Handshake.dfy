/** The exec handshake between the seccomp wrapper, the notify handler and the exec goroutine, as a
    transition system. Any read, write or system call may fail, any goroutine may be delayed, the
    handler may panic anywhere and the wrapper may be killed at any time. */
module Handshake {
  import opened Options

  /** What travels to the server: the notify fd with its dummy byte, or a plain byte. */
  datatype Message = Fd | Byte(b: char)

  const ACK: char := '\U{0001}'
  const READY: char := 'R'
  const GO: char := 'G'

  /** What the handler reports on the one-slot channel. */
  datatype Signal = Ready | Broken

  datatype Wrapper = Starting | Installed | AwaitAck | Restricting | Prepared | AwaitGo | Cleared | Execed | Dead

  datatype Handler = Idle | Receiving | Received | Probed | Acknowledged | Serving | Draining | Signaled | Closed

  datatype Server = Launching | AwaitReady | Attaching | Attached | Resumed | Running | Failing | Failed

  /** What has happened so far. */
  datatype History = History(
    installed: bool, fdSent: bool, fdReceived: bool, probed: bool, ackWritten: bool, ackRead: bool, serving: bool,
    restricted: bool, readySent: bool, readyRead: bool, readySeen: bool, attached: bool, resumed: bool,
    goSent: bool, goRead: bool)

  /** `notify`: the filter yields a notify fd. `sync`: ptrace sync is on. `hook`: the wrapper is kept
      stopped between attach and resume. `execve`: the filter sends every execve to the notify fd, the wrapper's
      own last one included, so that it completes only when the serve loop answers it. */
  datatype Config = Config(notify: bool, sync: bool, hook: bool, execve: bool)

  datatype State = State(
    wrapper: Wrapper, handler: Handler, server: Server,
    toServer: seq<Message>, toWrapper: seq<char>, slot: Option<Signal>,
    stopped: bool, past: History)

  const INIT :=
    State(Starting, Idle, Launching, [], [], None, false,
          History(false, false, false, false, false, false, false, false, false, false, false, false, false, false,
                  false))

  /** Every step that talks to the outside says whether it succeeded. */
  datatype Step =
    // wrapper
    | InstallFilter(ok: bool) | SendFd(ok: bool) | ReadAck(ok: bool) | Restrict(ok: bool)
    | SendReady(ok: bool) | ReadGo(ok: bool) | Exec(ok: bool) | Kill
    // notify handler
    | ReceiveFd(ok: bool) | Probe(ok: bool) | WriteAck(ok: bool) | LaunchServe | ReadReady(ok: bool)
    | HandlerExit | CloseSocket
    // exec goroutine
    | StartHandler | AwaitSignal(cancelled: bool) | Attach(ok: bool) | Resume(ok: bool) | SendGo(ok: bool)
    | KillWrapper

  predicate OpenSocket(s: State) { !s.handler.Closed? }

  predicate HandlerLive(s: State) { !s.handler.Idle? && !s.handler.Signaled? && !s.handler.Closed? }

  predicate Enabled(cfg: Config, s: State, step: Step) {
    match step
    case InstallFilter(_) => s.wrapper.Starting? && !s.stopped
    case SendFd(ok) => s.wrapper.Installed? && !s.stopped && (ok && cfg.notify ==> OpenSocket(s))
    case ReadAck(ok) => s.wrapper.AwaitAck? && !s.stopped && (ok ==> s.toWrapper != [])
    case Restrict(_) => s.wrapper.Restricting? && !s.stopped
    case SendReady(ok) => s.wrapper.Prepared? && !s.stopped && (ok ==> OpenSocket(s))
    case ReadGo(ok) => s.wrapper.AwaitGo? && !s.stopped && (ok ==> s.toWrapper != [])
    case Exec(ok) => s.wrapper.Cleared? && !s.stopped && (ok && cfg.notify && cfg.execve ==> s.past.serving)
    case Kill => true
    case ReceiveFd(ok) => s.handler.Receiving? && (ok ==> s.toServer != [])
    case Probe(_) => s.handler.Received?
    case WriteAck(_) => s.handler.Probed?
    case LaunchServe => s.handler.Acknowledged?
    case ReadReady(ok) => s.handler.Serving? && (cfg.sync ==> (ok ==> s.toServer != []) && s.slot.None?)
    case HandlerExit => HandlerLive(s)
    case CloseSocket => s.handler.Signaled?
    case StartHandler => s.server.Launching?
    case AwaitSignal(cancelled) => s.server.AwaitReady? && (cancelled || s.slot.Some?)
    case Attach(_) => s.server.Attaching?
    case Resume(_) => s.server.Attached?
    case SendGo(ok) => s.server.Resumed? && (ok && cfg.sync ==> OpenSocket(s))
    case KillWrapper => s.server.Failing?
  }

  /** The deferred function of the handler: a non-blocking send, so the channel is never left empty. */
  function Leave(cfg: Config, s: State): State {
    s.(handler := Signaled, slot := if cfg.sync && s.slot.None? then Some(Broken) else s.slot)
  }

  function WrapperNext(cfg: Config, s: State, step: Step): State
    requires Enabled(cfg, s, step)
  {
    var p := s.past;
    match step
    case InstallFilter(ok) =>
      if ok then s.(wrapper := Installed, past := p.(installed := true)) else s.(wrapper := Dead)
    case SendFd(ok) =>
      if !cfg.notify then s.(wrapper := Restricting)
      else if ok then s.(wrapper := AwaitAck, toServer := s.toServer + [Fd], past := p.(fdSent := true))
      else s.(wrapper := Dead)
    case ReadAck(ok) => // the byte value is not checked
      if ok then s.(wrapper := Restricting, toWrapper := s.toWrapper[1..], past := p.(ackRead := true))
      else s.(wrapper := Dead)
    case Restrict(ok) =>
      if !ok then s.(wrapper := Dead)
      else s.(wrapper := if cfg.notify && cfg.sync then Prepared else Cleared, past := p.(restricted := true))
    case SendReady(ok) =>
      if ok then s.(wrapper := AwaitGo, toServer := s.toServer + [Byte(READY)], past := p.(readySent := true))
      else s.(wrapper := Dead)
    case ReadGo(ok) =>
      if !ok then s.(wrapper := Dead)
      else if s.toWrapper[0] != GO then s.(wrapper := Dead, toWrapper := s.toWrapper[1..])
      else s.(wrapper := Cleared, toWrapper := s.toWrapper[1..], past := p.(goRead := true))
    case Exec(ok) => s.(wrapper := if ok then Execed else Dead)
    case _ => s.(wrapper := Dead, stopped := false)
  }

  function HandlerNext(cfg: Config, s: State, step: Step): State
    requires Enabled(cfg, s, step)
  {
    var p := s.past;
    match step
    case ReceiveFd(ok) =>
      if !ok then Leave(cfg, s)
      else if s.toServer[0] != Fd then Leave(cfg, s.(toServer := s.toServer[1..]))
      else s.(handler := Received, toServer := s.toServer[1..], past := p.(fdReceived := true))
    case Probe(ok) => // no ACK is sent when it fails
      if ok then s.(handler := Probed, past := p.(probed := true)) else Leave(cfg, s)
    case WriteAck(ok) => // a failed write is only logged
      var s' := s.(handler := Acknowledged);
      if ok then s'.(toWrapper := s.toWrapper + [ACK], past := p.(ackWritten := true)) else s'
    case LaunchServe => s.(handler := Serving, past := p.(serving := true))
    case ReadReady(ok) =>
      var s' := s.(handler := Draining);
      if !cfg.sync then s'
      else if !ok then s'.(slot := Some(Broken))
      else if s.toServer[0] != Byte(READY) then s'.(toServer := s.toServer[1..], slot := Some(Broken))
      else s'.(toServer := s.toServer[1..], slot := Some(Ready), past := p.(readyRead := true))
    case HandlerExit => Leave(cfg, s)
    case _ => s.(handler := Closed)
  }

  function ServerNext(cfg: Config, s: State, step: Step): State
    requires Enabled(cfg, s, step)
  {
    var p := s.past;
    match step
    case StartHandler => s.(handler := Receiving, server := if cfg.sync then AwaitReady else Attaching)
    case AwaitSignal(cancelled) =>
      if cancelled || s.slot != Some(Ready) then s.(server := Failing, slot := if cancelled then s.slot else None)
      else s.(server := Attaching, slot := None, past := p.(readySeen := true))
    case Attach(ok) =>
      if ok then s.(server := Attached, stopped := cfg.hook, past := p.(attached := true)) else s.(server := Failing)
    case Resume(ok) =>
      if ok then s.(server := Resumed, stopped := false, past := p.(resumed := true)) else s.(server := Failing)
    case SendGo(ok) =>
      if !cfg.sync then s.(server := Running)
      else if ok then s.(server := Running, toWrapper := s.toWrapper + [GO], past := p.(goSent := true))
      else s.(server := Failing)
    case _ => s.(server := Failed, wrapper := Dead, stopped := false)
  }

  predicate OfWrapper(step: Step) {
    || step.InstallFilter? || step.SendFd? || step.ReadAck? || step.Restrict? || step.SendReady? || step.ReadGo?
    || step.Exec? || step.Kill?
  }

  predicate OfHandler(step: Step) {
    || step.ReceiveFd? || step.Probe? || step.WriteAck? || step.LaunchServe? || step.ReadReady?
    || step.HandlerExit? || step.CloseSocket?
  }

  function Next(cfg: Config, s: State, step: Step): State
    requires Enabled(cfg, s, step)
  {
    if OfWrapper(step) then WrapperNext(cfg, s, step)
    else if OfHandler(step) then HandlerNext(cfg, s, step)
    else ServerNext(cfg, s, step)
  }

  ghost predicate IsRun(cfg: Config, s: State, steps: seq<Step>)
    decreases |steps|
  { steps == [] || (Enabled(cfg, s, steps[0]) && IsRun(cfg, Next(cfg, s, steps[0]), steps[1..])) }

  ghost function Run(cfg: Config, s: State, steps: seq<Step>): State
    requires IsRun(cfg, s, steps)
    decreases |steps|
  { if steps == [] then s else Run(cfg, Next(cfg, s, steps[0]), steps[1..]) }

  // ---- The inductive invariant ----

  /** Each event happens only after the one before it. */
  predicate Causal(cfg: Config, s: State) {
    var p := s.past;
    && (p.fdSent ==> p.installed && cfg.notify) && (p.fdReceived ==> p.fdSent)
    && (p.probed ==> p.fdReceived) && (p.ackWritten ==> p.probed)
    && (p.ackRead ==> p.ackWritten) && (p.serving ==> p.probed)
    && (p.readySent ==> p.ackRead && p.restricted && cfg.sync) && (p.readyRead ==> p.readySent && p.serving)
    && (p.readySeen ==> p.readyRead) && (p.attached && cfg.sync ==> p.readySeen)
    && (p.resumed ==> p.attached) && (p.goSent ==> p.resumed && cfg.sync) && (p.goRead ==> p.goSent)
  }

  /** The socket holds exactly what was sent and not yet read, in order. */
  predicate Queues(s: State) {
    var p := s.past;
    && s.toServer == (if p.fdSent && !p.fdReceived then [Fd] else [])
                     + (if p.readySent && !p.readyRead then [Byte(READY)] else [])
    && s.toWrapper == (if p.ackWritten && !p.ackRead then [ACK] else [])
                      + (if p.goSent && !p.goRead then [GO] else [])
  }

  predicate WrapperInv(cfg: Config, s: State) {
    var p := s.past;
    match s.wrapper
    case Starting => !p.installed && !p.fdSent && !p.ackRead && !p.readySent && !p.goRead
    case Installed => p.installed && !p.fdSent && !p.ackRead && !p.readySent && !p.goRead
    case AwaitAck => p.fdSent && !p.ackRead && !p.readySent && !p.goRead
    case Restricting => p.installed && (cfg.notify ==> p.ackRead) && !p.readySent && !p.goRead
    case Prepared => p.installed && cfg.notify && cfg.sync && p.ackRead && p.restricted && !p.readySent && !p.goRead
    case AwaitGo => p.readySent && !p.goRead
    case Dead => true
    case _ =>
      && p.installed && p.restricted && (cfg.notify ==> p.ackRead) && (cfg.notify && cfg.sync ==> p.goRead)
      && (s.wrapper.Execed? && cfg.notify && cfg.execve ==> p.serving)
  }

  /** How far the handler has come. */
  function Stage(h: Handler): nat {
    match h
    case Idle => 0 case Receiving => 1 case Received => 2 case Probed => 3 case Acknowledged => 4
    case Serving => 5 case Draining => 6 case Signaled => 7 case Closed => 8
  }

  /** Until READY has been handled nobody has written to the channel. */
  predicate HandlerInv(cfg: Config, s: State) {
    var p, n := s.past, Stage(s.handler);
    && (n <= 1 ==> !p.fdReceived) && (2 <= n <= 5 ==> p.fdReceived)
    && (n <= 2 ==> !p.probed) && (3 <= n <= 5 ==> p.probed) && (n <= 3 ==> !p.ackWritten)
    && (n <= 4 ==> !p.serving) && (n == 5 ==> p.serving)
    && (n <= 5 ==> s.slot.None? && !p.readyRead)
    && (s.slot == Some(Ready) ==> p.readyRead && !p.readySeen)
    && (cfg.sync && s.server.AwaitReady? && n >= 6 ==> s.slot.Some?)
  }

  predicate ServerInv(cfg: Config, s: State) {
    var p := s.past;
    && (s.server.Launching? <==> s.handler.Idle?)
    && match s.server
       case Launching => !p.readySeen && !p.attached
       case AwaitReady => !p.readySeen && !p.attached
       case Attaching => (cfg.sync ==> p.readySeen) && !p.attached
       case Attached => p.attached && !p.resumed && (cfg.hook ==> s.stopped || s.wrapper.Dead?)
       case Resumed => p.resumed && !p.goSent
       case Running => p.resumed && (cfg.sync ==> p.goSent)
       case Failing => !p.goSent
       case Failed => !p.goSent && s.wrapper.Dead?
  }

  predicate Inv(cfg: Config, s: State) {
    Causal(cfg, s) && Queues(s) && WrapperInv(cfg, s) && HandlerInv(cfg, s) && ServerInv(cfg, s)
  }

  lemma WrapperKeepsInv(cfg: Config, s: State, step: Step)
    requires Inv(cfg, s) && Enabled(cfg, s, step) && OfWrapper(step)
    ensures Inv(cfg, WrapperNext(cfg, s, step))
  {}

  lemma ReceiveKeepsInv(cfg: Config, s: State, step: Step)
    requires Inv(cfg, s) && Enabled(cfg, s, step) && step.ReceiveFd?
    ensures Inv(cfg, HandlerNext(cfg, s, step))
  {}

  lemma AcknowledgeKeepsInv(cfg: Config, s: State, step: Step)
    requires Inv(cfg, s) && Enabled(cfg, s, step) && (step.Probe? || step.WriteAck? || step.LaunchServe?)
    ensures Inv(cfg, HandlerNext(cfg, s, step))
  {}

  lemma ReadyKeepsInv(cfg: Config, s: State, step: Step)
    requires Inv(cfg, s) && Enabled(cfg, s, step) && step.ReadReady?
    ensures Inv(cfg, HandlerNext(cfg, s, step))
  {}

  lemma LeaveKeepsInv(cfg: Config, s: State, step: Step)
    requires Inv(cfg, s) && Enabled(cfg, s, step) && (step.HandlerExit? || step.CloseSocket?)
    ensures Inv(cfg, HandlerNext(cfg, s, step))
  {}

  lemma HandlerKeepsInv(cfg: Config, s: State, step: Step)
    requires Inv(cfg, s) && Enabled(cfg, s, step) && OfHandler(step)
    ensures Inv(cfg, HandlerNext(cfg, s, step))
  {
    hide Inv, Enabled, HandlerNext;
    if step.ReceiveFd? { ReceiveKeepsInv(cfg, s, step); }
    else if step.ReadReady? { ReadyKeepsInv(cfg, s, step); }
    else if step.HandlerExit? || step.CloseSocket? { LeaveKeepsInv(cfg, s, step); }
    else { AcknowledgeKeepsInv(cfg, s, step); }
  }

  lemma ChannelKeepsInv(cfg: Config, s: State, step: Step)
    requires Inv(cfg, s) && Enabled(cfg, s, step) && (step.StartHandler? || step.AwaitSignal?)
    ensures Inv(cfg, ServerNext(cfg, s, step))
  {
    hide Queues;
    QueuesFixed(s, ServerNext(cfg, s, step));
  }

  lemma AttachedKeepsInv(cfg: Config, s: State)
    requires Inv(cfg, s) && s.server.Attaching?
    ensures Inv(cfg, s.(server := Attached, stopped := cfg.hook, past := s.past.(attached := true)))
  {
    hide Queues;
    QueuesFixed(s, s.(server := Attached, stopped := cfg.hook, past := s.past.(attached := true)));
  }

  lemma ResumedKeepsInv(cfg: Config, s: State)
    requires Inv(cfg, s) && s.server.Attached?
    ensures Inv(cfg, s.(server := Resumed, stopped := false, past := s.past.(resumed := true)))
  {
    hide Queues;
    QueuesFixed(s, s.(server := Resumed, stopped := false, past := s.past.(resumed := true)));
  }

  lemma FailingKeepsInv(cfg: Config, s: State)
    requires Inv(cfg, s) && (s.server.Attaching? || s.server.Attached?)
    ensures Inv(cfg, s.(server := Failing))
  {
    hide Queues;
    QueuesFixed(s, s.(server := Failing));
  }

  lemma PtraceKeepsInv(cfg: Config, s: State, step: Step)
    requires Inv(cfg, s) && Enabled(cfg, s, step) && (step.Attach? || step.Resume?)
    ensures Inv(cfg, ServerNext(cfg, s, step))
  {
    hide Inv;
    if !step.ok { FailingKeepsInv(cfg, s); }
    else if step.Attach? { AttachedKeepsInv(cfg, s); }
    else { ResumedKeepsInv(cfg, s); }
  }

  lemma KilledKeepsInv(cfg: Config, s: State)
    requires Inv(cfg, s) && s.server.Failing?
    ensures Inv(cfg, s.(server := Failed, wrapper := Dead, stopped := false))
  {
    hide Queues;
    QueuesFixed(s, s.(server := Failed, wrapper := Dead, stopped := false));
  }

  lemma KillKeepsInv(cfg: Config, s: State, step: Step)
    requires Inv(cfg, s) && Enabled(cfg, s, step) && step.KillWrapper?
    ensures Inv(cfg, ServerNext(cfg, s, step))
  {
    hide Inv;
    KilledKeepsInv(cfg, s);
  }

  lemma QueuesFixed(s: State, s': State)
    requires Queues(s) && s'.toServer == s.toServer && s'.toWrapper == s.toWrapper
    requires s'.past ==
             s.past.(readySeen := s'.past.readySeen, attached := s'.past.attached, resumed := s'.past.resumed)
    ensures Queues(s')
  {}

  lemma SendGoKeepsInv(cfg: Config, s: State, step: Step)
    requires Inv(cfg, s) && Enabled(cfg, s, step) && step.SendGo?
    ensures Inv(cfg, ServerNext(cfg, s, step))
  {}

  lemma StepKeepsInv(cfg: Config, s: State, step: Step)
    requires Inv(cfg, s) && Enabled(cfg, s, step)
    ensures Inv(cfg, Next(cfg, s, step))
  {
    hide Inv, Enabled, WrapperNext, HandlerNext, ServerNext;
    if OfWrapper(step) { WrapperKeepsInv(cfg, s, step); }
    else if OfHandler(step) { HandlerKeepsInv(cfg, s, step); }
    else if step.SendGo? { SendGoKeepsInv(cfg, s, step); }
    else if step.StartHandler? || step.AwaitSignal? { ChannelKeepsInv(cfg, s, step); }
    else if step.KillWrapper? { KillKeepsInv(cfg, s, step); }
    else { PtraceKeepsInv(cfg, s, step); }
  }

  lemma {:induction false} RunKeepsInv(cfg: Config, s: State, steps: seq<Step>)
    requires Inv(cfg, s) && IsRun(cfg, s, steps)
    ensures Inv(cfg, Run(cfg, s, steps))
    decreases |steps|
  {
    hide Inv, Enabled, Next;
    if steps != [] {
      StepKeepsInv(cfg, s, steps[0]);
      RunKeepsInv(cfg, Next(cfg, s, steps[0]), steps[1..]);
    }
  }

  // ---- What the handshake guarantees ----

  /** With a notify fd and ptrace sync on, the command runs only after the filter was installed, the fd received
      and probed, the ACK written, the serve loop launched, the wrapper restricted, READY read, ptrace attached and
      resumed, and GO sent. */
  lemma ExecOnlyAfterHandshake(cfg: Config, steps: seq<Step>)
    requires cfg.notify && cfg.sync && IsRun(cfg, INIT, steps)
    ensures var s := Run(cfg, INIT, steps);
            s.wrapper.Execed? ==>
              && s.past.installed && s.past.fdReceived && s.past.probed && s.past.ackWritten && s.past.serving
              && s.past.restricted && s.past.readyRead && s.past.attached && s.past.resumed && s.past.goSent
  {
    RunKeepsInv(cfg, INIT, steps);
  }

  /** The exec goroutine goes on past the wait only after READY was read; every exit of the handler, by
      return or panic, leaves a value for a waiting exec goroutine; and the handler's own send never blocks. */
  lemma ReadyChannel(cfg: Config, steps: seq<Step>)
    requires IsRun(cfg, INIT, steps)
    ensures var s := Run(cfg, INIT, steps);
            && (cfg.sync && s.server in {Attaching, Attached, Resumed, Running} ==> s.past.readyRead)
            && (cfg.sync && s.server.AwaitReady? && s.handler in {Draining, Signaled, Closed} ==> s.slot.Some?)
            && (s.handler.Serving? ==> s.slot.None?)
  {
    RunKeepsInv(cfg, INIT, steps);
  }

  /** No byte is taken for another: the unchecked ACK read only ever gets an ACK, the GO read only a GO, the
      fd receive only the fd and the READY read only READY. */
  lemma NoUnexpectedByte(cfg: Config, steps: seq<Step>)
    requires IsRun(cfg, INIT, steps)
    ensures var s := Run(cfg, INIT, steps);
            && (s.wrapper.AwaitAck? && s.toWrapper != [] ==> s.toWrapper == [ACK])
            && (s.wrapper.AwaitGo? && s.toWrapper != [] ==> s.toWrapper == [GO])
            && (s.handler.Receiving? && s.toServer != [] ==> s.toServer == [Fd])
            && (s.handler.Serving? && s.toServer != [] ==> s.toServer == [Byte(READY)])
  {
    RunKeepsInv(cfg, INIT, steps);
  }

  ghost predicate Reaches(cfg: Config, s: State, t: State) {
    exists steps :: IsRun(cfg, s, steps) && Run(cfg, s, steps) == t
  }

  lemma {:induction false} OneMore(cfg: Config, s: State, steps: seq<Step>, step: Step)
    requires IsRun(cfg, s, steps) && Enabled(cfg, Run(cfg, s, steps), step)
    ensures IsRun(cfg, s, steps + [step]) && Run(cfg, s, steps + [step]) == Next(cfg, Run(cfg, s, steps), step)
    decreases |steps|
  {
    hide Enabled, Next;
    if steps == [] {
      assert steps + [step] == [step];
      assert IsRun(cfg, Next(cfg, s, step), [step][1..]);
    } else {
      assert (steps + [step])[1..] == steps[1..] + [step];
      OneMore(cfg, Next(cfg, s, steps[0]), steps[1..], step);
    }
  }

  lemma Extend(cfg: Config, s: State, t: State, step: Step)
    requires Reaches(cfg, s, t) && Enabled(cfg, t, step)
    ensures Reaches(cfg, s, Next(cfg, t, step))
  {
    var steps :| IsRun(cfg, s, steps) && Run(cfg, s, steps) == t;
    OneMore(cfg, s, steps, step);
  }

  /** The ACK has been written and read, the serve loop not yet launched. */
  const UNSERVED :=
    State(Restricting, Acknowledged, Attaching, [], [], None, false,
          INIT.past.(installed := true, fdSent := true, fdReceived := true, probed := true, ackWritten := true,
                     ackRead := true))

  /** The handler has the fd. */
  function WithFd(cfg: Config): State {
    INIT.(wrapper := AwaitAck, handler := Received, server := if cfg.sync then AwaitReady else Attaching,
          past := INIT.past.(installed := true, fdSent := true, fdReceived := true))
  }

  function WithFilter(cfg: Config): State {
    WithFd(cfg).(wrapper := Installed, handler := Receiving, past := INIT.past.(installed := true))
  }

  lemma WithFilterIsReachable(cfg: Config)
    ensures Reaches(cfg, INIT, WithFilter(cfg))
  {
    hide Reaches, IsRun, Run, Inv, Enabled, Next;
    Stay(cfg, INIT);
    StartAndInstall(cfg, INIT);
    Extend(cfg, INIT, INIT, StartHandler);
    Extend(cfg, INIT, Next(cfg, INIT, StartHandler), InstallFilter(true));
  }

  lemma StartAndInstall(cfg: Config, s: State)
    requires s.wrapper.Starting? && s.server.Launching? && !s.stopped
    ensures Enabled(cfg, s, StartHandler) && Enabled(cfg, Next(cfg, s, StartHandler), InstallFilter(true))
    ensures Next(cfg, Next(cfg, s, StartHandler), InstallFilter(true)) ==
            s.(wrapper := Installed, handler := Receiving, server := if cfg.sync then AwaitReady else Attaching,
               past := s.past.(installed := true))
  {}

  lemma WithFdIsReachable(cfg: Config)
    requires cfg.notify
    ensures Reaches(cfg, INIT, WithFd(cfg))
  {
    hide Reaches, IsRun, Run, Inv;
    WithFilterIsReachable(cfg);
    var s0 := WithFilter(cfg);
    Extend(cfg, INIT, s0, SendFd(true));
    var s1 := Next(cfg, s0, SendFd(true));
    Extend(cfg, INIT, s1, ReceiveFd(true));
    assert s1.toServer == [Fd] && [Fd][1..] == [];
  }

  lemma AckedIsReachable(cfg: Config)
    requires cfg.notify
    ensures Reaches(cfg, INIT, UNSERVED.(server := WithFd(cfg).server))
  {
    hide Reaches, IsRun, Run, Inv;
    WithFdIsReachable(cfg);
    var s0 := WithFd(cfg);
    Extend(cfg, INIT, s0, Probe(true));
    var s1 := Next(cfg, s0, Probe(true));
    Extend(cfg, INIT, s1, WriteAck(true));
    var s2 := Next(cfg, s1, WriteAck(true));
    Extend(cfg, INIT, s2, ReadAck(true));
    assert s2.toWrapper == [ACK] && [ACK][1..] == [];
  }

  /** Without ptrace sync the ACK alone releases the wrapper, and it is written before the serve loop is
      launched: unless execve itself is intercepted, the command can already run while nobody serves its
      notifications. */
  lemma WithoutSyncExecMayPrecedeServe(cfg: Config)
    requires cfg.notify && !cfg.sync && !cfg.execve
    ensures exists s :: Reaches(cfg, INIT, s) && s.wrapper.Execed? && !s.past.serving
  {
    hide Reaches, IsRun, Run, Inv;
    AckedIsReachable(cfg);
    Extend(cfg, INIT, UNSERVED, Restrict(true));
    Extend(cfg, INIT, Next(cfg, UNSERVED, Restrict(true)), Exec(true));
  }

  /** With a notify fd, the command runs only when somebody serves its notifications, exactly if ptrace sync is on
      or execve is intercepted. */
  lemma ServedExactly(cfg: Config)
    requires cfg.notify
    ensures (forall s :: Reaches(cfg, INIT, s) && s.wrapper.Execed? ==> s.past.serving) <==> cfg.sync || cfg.execve
  {
    if cfg.sync || cfg.execve {
      forall s | Reaches(cfg, INIT, s) && s.wrapper.Execed?
        ensures s.past.serving
      {
        var steps :| IsRun(cfg, INIT, steps) && Run(cfg, INIT, steps) == s;
        RunKeepsInv(cfg, INIT, steps);
      }
    } else {
      WithoutSyncExecMayPrecedeServe(cfg);
    }
  }

  /** The serve loop runs and the wrapper has its ACK. */
  const SERVED := UNSERVED.(handler := Serving, server := AwaitReady, past := UNSERVED.past.(serving := true))

  /** READY has been sent, read and seen. */
  const READIED :=
    SERVED.(wrapper := AwaitGo, handler := Draining, server := Attaching,
            past := SERVED.past.(restricted := true, readySent := true, readyRead := true, readySeen := true))

  lemma ServedIsReachable(cfg: Config)
    requires cfg.notify && cfg.sync
    ensures Reaches(cfg, INIT, SERVED)
  {
    hide Reaches, IsRun, Run, Inv;
    AckedIsReachable(cfg);
    Extend(cfg, INIT, UNSERVED.(server := AwaitReady), LaunchServe);
  }

  lemma ReadiedIsReachable(cfg: Config)
    requires cfg.notify && cfg.sync
    ensures Reaches(cfg, INIT, READIED)
  {
    hide Reaches, IsRun, Run, Inv;
    ServedIsReachable(cfg);
    Extend(cfg, INIT, SERVED, Restrict(true));
    var s1 := Next(cfg, SERVED, Restrict(true));
    Extend(cfg, INIT, s1, SendReady(true));
    var s2 := Next(cfg, s1, SendReady(true));
    Extend(cfg, INIT, s2, ReadReady(true));
    assert s2.toServer == [Byte(READY)] && [Byte(READY)][1..] == [];
    Extend(cfg, INIT, Next(cfg, s2, ReadReady(true)), AwaitSignal(false));
  }

  /** GO is on its way. */
  const RELEASED :=
    READIED.(server := Running, toWrapper := [GO],
             past := READIED.past.(attached := true, resumed := true, goSent := true))

  lemma AttachAndResume(cfg: Config, s: State)
    requires s.server.Attaching?
    ensures Enabled(cfg, s, Attach(true)) && Enabled(cfg, Next(cfg, s, Attach(true)), Resume(true))
    ensures Next(cfg, Next(cfg, s, Attach(true)), Resume(true)) ==
            s.(server := Resumed, stopped := false, past := s.past.(attached := true, resumed := true))
  {}

  lemma Go(cfg: Config, s: State)
    requires cfg.sync && s.server.Resumed? && OpenSocket(s)
    ensures Enabled(cfg, s, SendGo(true))
    ensures Next(cfg, s, SendGo(true)) ==
            s.(server := Running, toWrapper := s.toWrapper + [GO], past := s.past.(goSent := true))
  {}

  lemma ReleasedIsReachable(cfg: Config)
    requires cfg.notify && cfg.sync
    ensures Reaches(cfg, INIT, RELEASED)
  {
    hide Reaches, IsRun, Run, Inv, Enabled, Next;
    ReadiedIsReachable(cfg);
    AttachAndResume(cfg, READIED);
    Extend(cfg, INIT, READIED, Attach(true));
    var s1 := Next(cfg, READIED, Attach(true));
    Extend(cfg, INIT, s1, Resume(true));
    var s2 := Next(cfg, s1, Resume(true));
    Go(cfg, s2);
    Extend(cfg, INIT, s2, SendGo(true));
    assert s2.toWrapper + [GO] == [GO];
  }

  /** The handshake can complete: with ptrace sync, and the wrapper kept stopped or not, the command gets to run. */
  lemma HandshakeCompletes(cfg: Config)
    requires cfg.notify && cfg.sync
    ensures exists s :: Reaches(cfg, INIT, s) && s.wrapper.Execed? && s.server.Running?
  {
    hide Reaches, IsRun, Run, Inv;
    ReleasedIsReachable(cfg);
    Extend(cfg, INIT, RELEASED, ReadGo(true));
    Extend(cfg, INIT, Next(cfg, RELEASED, ReadGo(true)), Exec(true));
  }

  lemma Stay(cfg: Config, s: State)
    ensures Reaches(cfg, s, s)
  {
    assert IsRun(cfg, s, []) && Run(cfg, s, []) == s;
  }

  /** Killing the wrapper is final: once dead it never runs the command. */
  lemma {:induction false} DeadStaysDead(cfg: Config, s: State, steps: seq<Step>)
    requires s.wrapper.Dead? && IsRun(cfg, s, steps)
    ensures Run(cfg, s, steps).wrapper.Dead?
    decreases |steps|
  {
    if steps != [] { DeadStaysDead(cfg, Next(cfg, s, steps[0]), steps[1..]); }
  }

  /** The command runs only after the filter was installed and the wrapper restricted, and with a notify fd only after
      the fd was received and probed and the ACK written, whatever else is on. */
  lemma ExecOnlyRestricted(cfg: Config, steps: seq<Step>)
    requires IsRun(cfg, INIT, steps)
    ensures var s := Run(cfg, INIT, steps);
            s.wrapper.Execed? ==>
              && s.past.installed && s.past.restricted
              && (cfg.notify ==> s.past.fdReceived && s.past.probed && s.past.ackWritten)
  {
    RunKeepsInv(cfg, INIT, steps);
  }

  /** With the hook on, the wrapper does nothing between attach and resume. */
  lemma HeldUntilResumed(cfg: Config, steps: seq<Step>, step: Step)
    requires IsRun(cfg, INIT, steps) && cfg.hook && Run(cfg, INIT, steps).server.Attached?
    requires Enabled(cfg, Run(cfg, INIT, steps), step) && OfWrapper(step)
    ensures step.Kill?
  {
    RunKeepsInv(cfg, INIT, steps);
  }

  /** The wait is cancelled or gets no READY, or attach, resume or the GO write fails. */
  predicate Fails(cfg: Config, s: State, step: Step) {
    || (step.AwaitSignal? && (step.cancelled || s.slot != Some(Ready)))
    || (step.Attach? && !step.ok) || (step.Resume? && !step.ok) || (cfg.sync && step.SendGo? && !step.ok)
  }

  lemma {:induction false} FailedStays(cfg: Config, s: State, steps: seq<Step>)
    requires Inv(cfg, s) && IsRun(cfg, s, steps) && s.server in {Failing, Failed}
    ensures var t := Run(cfg, s, steps);
            t.server in {Failing, Failed} && (s.server.Failed? || KillWrapper in steps ==> t.server.Failed?)
    decreases |steps|
  {
    if steps != [] {
      FailedStep(cfg, s, steps[0]);
      StepKeepsInv(cfg, s, steps[0]);
      hide Inv, Enabled, Next;
      FailedStays(cfg, Next(cfg, s, steps[0]), steps[1..]);
    }
  }

  lemma FailedStep(cfg: Config, s: State, step: Step)
    requires Inv(cfg, s) && Enabled(cfg, s, step) && s.server in {Failing, Failed}
    ensures Next(cfg, s, step).server == if step.KillWrapper? then Failed else s.server
  {
    hide Queues, WrapperInv, HandlerInv, Causal;
  }

  lemma FailsToFailing(cfg: Config, s: State, step: Step)
    requires Enabled(cfg, s, step) && Fails(cfg, s, step)
    ensures Next(cfg, s, step).server.Failing?
  {}

  lemma FailedInv(cfg: Config, s: State)
    requires Inv(cfg, s) && s.server in {Failing, Failed}
    ensures s.server.Failed? ==> s.wrapper.Dead?
    ensures cfg.notify && cfg.sync ==> !s.wrapper.Execed? && !s.wrapper.Cleared?
  {
    hide Queues, HandlerInv;
  }

  lemma InitInv(cfg: Config)
    ensures Inv(cfg, INIT)
  {}

  /** A failed start: once the wait, attach, resume or the GO write has failed, however the run goes on, the start has
      failed; with a notify fd and ptrace sync the command never runs; and after the kill the wrapper is dead. */
  lemma FailedStart(cfg: Config, before: seq<Step>, step: Step, after: seq<Step>)
    requires IsRun(cfg, INIT, before) && Enabled(cfg, Run(cfg, INIT, before), step)
    requires Fails(cfg, Run(cfg, INIT, before), step)
    requires IsRun(cfg, Next(cfg, Run(cfg, INIT, before), step), after)
    ensures var s := Run(cfg, Next(cfg, Run(cfg, INIT, before), step), after);
            && s.server in {Failing, Failed}
            && (cfg.notify && cfg.sync ==> !s.wrapper.Execed?)
            && (s.server.Failed? || KillWrapper in after ==> s.server.Failed? && s.wrapper.Dead?)
  {
    hide Inv, Enabled, Next, Fails, IsRun, Run;
    InitInv(cfg);
    RunKeepsInv(cfg, INIT, before);
    var s := Run(cfg, INIT, before);
    StepKeepsInv(cfg, s, step);
    FailsToFailing(cfg, s, step);
    FailedStays(cfg, Next(cfg, s, step), after);
    RunKeepsInv(cfg, Next(cfg, s, step), after);
    FailedInv(cfg, Run(cfg, Next(cfg, s, step), after));
  }

  /** In every reachable state, a start that has been given up has a dead wrapper. */
  lemma FailedIsDead(cfg: Config, steps: seq<Step>)
    requires IsRun(cfg, INIT, steps)
    ensures Run(cfg, INIT, steps).server.Failed? ==> Run(cfg, INIT, steps).wrapper.Dead?
  {
    RunKeepsInv(cfg, INIT, steps);
  }

  lemma {:induction false} ClosedStays(cfg: Config, s: State, steps: seq<Step>)
    requires Inv(cfg, s) && IsRun(cfg, s, steps) && s.handler.Closed?
    ensures var t := Run(cfg, s, steps);
            && t.handler.Closed? && t.past.fdSent == s.past.fdSent && t.past.readySent == s.past.readySent
            && t.past.goSent == s.past.goSent
    decreases |steps|
  {
    hide Enabled, Next, Inv;
    if steps != [] {
      StepKeepsInv(cfg, s, steps[0]);
      ClosedIsLaunched(cfg, s);
      ClosedStep(cfg, s, steps[0]);
      ClosedStays(cfg, Next(cfg, s, steps[0]), steps[1..]);
    }
  }

  lemma ClosedStep(cfg: Config, s: State, step: Step)
    requires Enabled(cfg, s, step) && s.handler.Closed? && !s.server.Launching?
    ensures var t := Next(cfg, s, step);
            && t.handler.Closed? && t.past.fdSent == s.past.fdSent && t.past.readySent == s.past.readySent
            && t.past.goSent == s.past.goSent
  {
    hide Enabled, WrapperNext, HandlerNext, ServerNext;
    ClosedHandlerStep(cfg, s, step);
    if OfWrapper(step) { ClosedWrapperStep(cfg, s, step); } else { ClosedServerStep(cfg, s, step); }
  }

  lemma ClosedWrapperStep(cfg: Config, s: State, step: Step)
    requires Enabled(cfg, s, step) && s.handler.Closed? && OfWrapper(step)
    ensures var t := WrapperNext(cfg, s, step);
            && t.handler.Closed? && t.past.fdSent == s.past.fdSent && t.past.readySent == s.past.readySent
            && t.past.goSent == s.past.goSent
  {}

  lemma ClosedHandlerStep(cfg: Config, s: State, step: Step)
    requires Enabled(cfg, s, step) && s.handler.Closed?
    ensures !OfHandler(step)
  {}

  lemma ClosedServerStep(cfg: Config, s: State, step: Step)
    requires Enabled(cfg, s, step) && s.handler.Closed? && !s.server.Launching? && !OfWrapper(step) && !OfHandler(step)
    ensures var t := ServerNext(cfg, s, step);
            && t.handler.Closed? && t.past.fdSent == s.past.fdSent && t.past.readySent == s.past.readySent
            && t.past.goSent == s.past.goSent
  {}

  lemma ClosedIsLaunched(cfg: Config, s: State)
    requires Inv(cfg, s) && s.handler.Closed?
    ensures !s.server.Launching?
  {
    hide Queues, WrapperInv, HandlerInv, Causal;
  }

  /** Once the handler has closed its socket, nothing more is sent over it: a wrapper that has not got its GO by then
      never runs the command under ptrace sync. */
  lemma ClosedSocketSilences(cfg: Config, before: seq<Step>, after: seq<Step>)
    requires IsRun(cfg, INIT, before) && Enabled(cfg, Run(cfg, INIT, before), CloseSocket)
    requires IsRun(cfg, Next(cfg, Run(cfg, INIT, before), CloseSocket), after)
    ensures var s := Run(cfg, INIT, before);
            var t := Run(cfg, Next(cfg, s, CloseSocket), after);
            && t.past.fdSent == s.past.fdSent && t.past.readySent == s.past.readySent && t.past.goSent == s.past.goSent
            && (cfg.notify && cfg.sync && !s.past.goSent ==> !t.wrapper.Execed?)
  {
    hide Inv, Enabled, Next, IsRun, Run;
    InitInv(cfg);
    RunKeepsInv(cfg, INIT, before);
    var s := Run(cfg, INIT, before);
    StepKeepsInv(cfg, s, CloseSocket);
    SocketCloses(cfg, s);
    var s' := Next(cfg, s, CloseSocket);
    ClosedStays(cfg, s', after);
    RunKeepsInv(cfg, s', after);
    if cfg.notify && cfg.sync && !s.past.goSent { NoGoNoExec(cfg, Run(cfg, s', after)); }
  }

  lemma SocketCloses(cfg: Config, s: State)
    requires Enabled(cfg, s, CloseSocket)
    ensures var s' := Next(cfg, s, CloseSocket); s'.handler.Closed? && s'.past == s.past
  {}

  lemma NoGoNoExec(cfg: Config, s: State)
    requires Inv(cfg, s) && cfg.notify && cfg.sync && !s.past.goSent
    ensures !s.wrapper.Execed?
  {
    hide Queues, HandlerInv, ServerInv;
  }
}
