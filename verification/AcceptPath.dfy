/** Accepting the notify fd of a wrapped command: which peer is served, what is written back to it, and who
    closes what. */
module AcceptPath {
  import opened Options
  import opened Ledgers
  import opened Cgroups

  datatype Received = ReceiveFailed | NoFd | Fd(hasMeta: bool, metaPid: int)

  /** A connection: the credentials the kernel reports for it, and what it sends. */
  datatype Peer = Peer(isUnix: bool, uid: nat, pid: int, sends: Received)

  /** Whether a wrapper pid claimed in the metadata is believed, given the pid and the user id of the peer. */
  type Validate = (int, int, nat) -> bool

  /** What the handler start-up finds: execve interception wanted and a handler created for it, the stub
      symlink created, a file handler, a policy engine, and whether the memory of the wrapper is readable. */
  datatype Handler = Handler(
    execve: bool, created: bool, linked: bool, files: bool, policy: bool, readable: bool)

  datatype Milestone = Ready(pid: int, v: Vars) | Started | Status(ok: bool)

  /** The peer is one to serve. The expected user id is cut to 32 bits; 0 matches every user. */
  predicate Acceptable(p: Peer, expectedUid: int) {
    p.isUnix && expectedUid >= 0 && (expectedUid == 0 || p.uid == expectedUid % 0x1_0000_0000)
  }

  /** The accept loop. `closed` counts the peers closed on the way, a prefix of the peers; accepting fails when
      they run out. The chosen peer is the first acceptable one. */
  method SelectPeer(peers: seq<Peer>, expectedUid: int) returns (chosen: Option<nat>, closed: nat)
    ensures closed <= |peers| && forall i :: 0 <= i < closed ==> !Acceptable(peers[i], expectedUid)
    ensures chosen.Some? ==>
              chosen.value == closed && closed < |peers| && Acceptable(peers[closed], expectedUid)
    ensures chosen.None? ==> forall i :: 0 <= i < |peers| ==> !Acceptable(peers[i], expectedUid)
    ensures chosen.None? && closed < |peers| ==> expectedUid < 0 && closed > 0 && peers[closed - 1].isUnix
    ensures chosen.Some? ==>
              && peers[closed].isUnix && expectedUid >= 0
              && (expectedUid != 0 ==> peers[closed].uid == expectedUid % 0x1_0000_0000)
    ensures chosen.None? ==>
              forall i :: 0 <= i < |peers| && peers[i].isUnix ==>
                expectedUid < 0 || (expectedUid > 0 && peers[i].uid != expectedUid % 0x1_0000_0000)
  {
    closed := 0;
    while closed < |peers|
      invariant closed <= |peers| && forall i :: 0 <= i < closed ==> !Acceptable(peers[i], expectedUid)
    {
      var p := peers[closed];
      if !p.isUnix {
        closed := closed + 1;
        continue;
      }
      if expectedUid < 0 { return None, closed + 1; }
      if expectedUid > 0 && p.uid != expectedUid % 0x1_0000_0000 {
        closed := closed + 1;
        continue;
      }
      return Some(closed), closed;
    }
    return None, closed;
  }

  /** The set-up that a wrapper waits for goes through: it works out, or doing without is tolerated. */
  predicate Tolerated(cfg: Config, w: World) {
    if w.manager && w.apply == Applied then cfg.enabled && cfg.required ==> EbpfWorks(cfg, w)
    else Degrades(cfg, w) || (Missing(w) && !cfg.required)
  }

  /** Cgroup set-up on behalf of a wrapper: unavailability is tolerated unless eBPF is required. */
  method SetUpForWrap(cfg: Config, w: World, s0: Session, pid: int)
    returns (s: Session, cleanup: Cleanup, failed: bool)
    requires Valid(s0, true, false) && s0.v == UNSET
    ensures Valid(s, true, false)
    ensures if failed then s.v == UNSET else SetUp(cfg, w, cleanup, s.v)
    ensures Needed(cfg) ==> (failed <==> !(pid > 0 && Tolerated(cfg, w)))
    ensures !failed && cfg.enabled && cfg.required ==>
              s.v.detach && s.v.collector && (cfg.enforce ==> s.v.allowlist.Some?)
    ensures !failed && cfg.required && !s.v.cgroup ==> !w.limits && !cfg.enabled
    ensures !failed && w.manager && w.apply.LimitsUnavailable? && Needed(cfg) ==>
              cfg.bestEffort && !cfg.enabled && !cfg.enforce && !cfg.required
    ensures pid > 0 && w.manager && w.apply == Applied && !cfg.required ==> !failed
    ensures pid > 0 && (!w.manager || w.apply.NoCgroup? || w.apply.CgroupUnavailable?) && !cfg.required ==> !failed
    ensures w.manager && w.apply.ApplyFailed? && Needed(cfg) ==> failed
  {
    hide Balance, Valid, NewestFirst, TeardownEvents, Attached;
    s := s0;
    if Needed(cfg) && pid <= 0 { return s, NoFunction, true; }
    var err;
    s, cleanup, err := ApplyCgroupV2(cfg, w, s, true, false);
    failed := err.Some?;
    if err == Some(Unavailable) && !cfg.required {
      return s, NoOp, false;
    }
  }

  /** The wrapper pid the handler works with. */
  function WrapperPid(p: Peer): int {
    if p.sends.Fd? && p.sends.hasMeta && p.sends.metaPid > 0 then p.sends.metaPid else p.pid
  }

  /** The peer vouches for a wrapper pid that is believed. */
  predicate Vouched(p: Peer, validate: Validate) {
    p.sends.Fd? && p.sends.hasMeta && p.sends.metaPid > 0 && validate(p.sends.metaPid, p.pid, p.uid)
  }

  /** The memory probe condemns the handler. */
  predicate Condemned(h: Handler, pid: int) {
    pid > 0 && !h.readable && (h.files || (h.execve && h.created) || h.policy)
  }

  method CreateSymlink(h: Handler, s0: Session) returns (s: Session, link: bool)
    requires Valid(s0, true, false)
    ensures Valid(s, true, link) && s.v == s0.v
    ensures link <==> h.execve && h.created && h.linked
  {
    hide Balance;
    s, link := s0, h.execve && h.created && h.linked;
    if link { s := Note(s, Acquire(Symlink)); }
  }

  method RemoveSymlink(s0: Session, link: bool, ghost fd: bool) returns (s: Session)
    requires Valid(s0, fd, link)
    ensures Valid(s, fd, false) && s.v == s0.v
  {
    hide Balance;
    s := s0;
    if link { s := Note(s, Release(Symlink)); }
  }

  method CloseFd(s0: Session, ghost link: bool) returns (s: Session)
    requires Valid(s0, true, link)
    ensures Valid(s, false, link) && s.v == s0.v
  {
    hide Balance;
    s := Note(s0, Release(NotifyFd));
  }

  /** Nothing is held, and everything was acquired and released in turn. */
  lemma NothingIsHeld(s: Session)
    requires Valid(s, false, false) && s.v == UNSET
    ensures Balance(s.log) == NOTHING_HELD
  {
    hide Balance;
  }

  /** Starting the handler. A condemned one is not started: fd, cgroup and symlink are given back at once. */
  method StartHandler(cfg: Config, w: World, cleanup: Cleanup, h: Handler, pid: int, s0: Session,
                      ticks: seq<bool>, late: bool)
    returns (s: Session, started: bool, link: bool)
    requires Valid(s0, true, false) && SetUp(cfg, w, cleanup, s0.v)
    ensures started <==> !Condemned(h, pid)
    ensures started ==> Valid(s, true, link) && s.v == s0.v
    ensures !started ==> Balance(s.log) == NOTHING_HELD
  {
    hide Balance, Valid, SetUp;
    s, link := CreateSymlink(h, s0);
    if pid > 0 && !h.readable && (h.files || (h.execve && h.created) || h.policy) {
      s := CloseFd(s, link);
      var before;
      s, before := RunCleanup(cfg, w, cleanup, s, ticks, late, false, link);
      s := RemoveSymlink(s, link, false);
      NothingIsHeld(s);
      return s, false, false;
    }
    started := true;
  }

  /** The end of a started handler: its defers, last one first. */
  method EndHandler(cfg: Config, w: World, cleanup: Cleanup, link: bool, s0: Session, ticks: seq<bool>, late: bool)
    returns (s: Session)
    requires Valid(s0, true, link) && SetUp(cfg, w, cleanup, s0.v)
    ensures Balance(s.log) == NOTHING_HELD
  {
    hide Balance, Valid, SetUp;
    s := RemoveSymlink(s0, link, true);
    var before;
    s, before := RunCleanup(cfg, w, cleanup, s, ticks, late, true, false);
    s := CloseFd(s, false);
    NothingIsHeld(s);
  }

  /** What the accept function leaves running. */
  datatype Job = Job(cleanup: Cleanup, link: bool)

  /** When eBPF is enabled and required, the milestones show that it was in force when the handler started. */
  predicate InForce(cfg: Config, v: Vars) {
    cfg.enabled && cfg.required ==> v.detach && v.collector && (cfg.enforce ==> v.allowlist.Some?)
  }

  /** The milestones of one served peer. Exactly one status is written, after everything else. It is true only
      after the handler started and, where a cgroup is needed, after the set-up for a pid that was believed. */
  predicate Orderly(cfg: Config, p: Peer, validate: Validate, steps: seq<Milestone>) {
    || steps == [Status(false)]
    || (&& |steps| == 2 && steps[0].Ready? && steps[1] == Status(false)
        && Needed(cfg) && Vouched(p, validate) && steps[0].pid == p.sends.metaPid)
    || (steps == [Started, Status(true)] && !Needed(cfg))
    || (&& |steps| == 3 && steps[0].Ready? && steps[1..] == [Started, Status(true)]
        && Needed(cfg) && Vouched(p, validate) && steps[0].pid == p.sends.metaPid && InForce(cfg, steps[0].v))
  }

  /** Exactly the peers whose command gets to run. */
  predicate Served(cfg: Config, w: World, p: Peer, validate: Validate, h: Handler) {
    && p.sends.Fd?
    && (Needed(cfg) ==> Vouched(p, validate) && Tolerated(cfg, w))
    && !Condemned(h, WrapperPid(p))
  }

  lemma NothingYet()
    ensures Balance([]) == NOTHING_HELD && Valid(Session(UNSET, []), false, false)
  {}

  lemma FdIsFirst(s: Session)
    requires s.v == UNSET && Balance(s.log) == Post(NOTHING_HELD, Acquire(NotifyFd), 1)
    ensures Valid(s, true, false)
  {
    hide Balance;
  }

  /** The accept function from the accepted peer on. It either leaves a handler running, which then owns fd,
      cgroup and symlink, or has given back everything it had taken. */
  method ServePeer(cfg: Config, w: World, p: Peer, validate: Validate, h: Handler, ticks: seq<bool>, late: bool)
    returns (s: Session, steps: seq<Milestone>, job: Option<Job>)
    ensures Orderly(cfg, p, validate, steps)
    ensures job.Some? <==> steps[|steps| - 1] == Status(true)
    ensures job.Some? <==> Served(cfg, w, p, validate, h)
    ensures job.Some? ==> Valid(s, true, job.value.link) && SetUp(cfg, w, job.value.cleanup, s.v)
    ensures job.None? ==> Balance(s.log) == NOTHING_HELD
    ensures job.Some? && (cfg.cgroups || cfg.enabled || cfg.enforce || cfg.required) ==>
              && p.sends.Fd? && p.sends.hasMeta && p.sends.metaPid > 0 && validate(p.sends.metaPid, p.pid, p.uid)
              && (cfg.required && !s.v.cgroup ==> !w.limits && !cfg.enabled)
              && (!h.readable ==> !h.files && !h.policy && !(h.execve && h.created))
    ensures !cfg.cgroups && !cfg.enabled && !cfg.enforce && !cfg.required ==>
              (job.Some? <==>
               && p.sends.Fd?
               && (|| h.readable || (!h.files && !h.policy && !(h.execve && h.created))
                   || (p.pid <= 0 && (!p.sends.hasMeta || p.sends.metaPid <= 0))))
    ensures (&& p.sends.Fd? && p.sends.hasMeta && p.sends.metaPid > 0 && validate(p.sends.metaPid, p.pid, p.uid)
             && h.readable && w.manager && w.apply == Applied && !cfg.required) ==> job.Some?
  {
    hide Balance, Valid, Tolerated, Attached;
    s, steps, job := Session(UNSET, []), [], None;
    NothingYet();
    if !p.sends.Fd? { return s, [Status(false)], None; }
    s := Note(s, Acquire(NotifyFd));
    FdIsFirst(s);
    var pid := WrapperPid(p);
    var cleanup := NoFunction;
    if Needed(cfg) {
      if !p.sends.hasMeta || p.sends.metaPid <= 0 || !validate(p.sends.metaPid, p.pid, p.uid) {
        s := CloseFd(s, false);
        NothingIsHeld(s);
        return s, [Status(false)], None;
      }
      var failed;
      s, cleanup, failed := SetUpForWrap(cfg, w, s, pid);
      if failed {
        s := CloseFd(s, false);
        NothingIsHeld(s);
        return s, [Status(false)], None;
      }
      steps := [Ready(pid, s.v)];
    }
    var started, link;
    s, started, link := StartHandler(cfg, w, cleanup, h, pid, s, ticks, late);
    if !started { return s, steps + [Status(false)], None; }
    return s, steps + [Started, Status(true)], Some(Job(cleanup, link));
  }

  /** A completed run of the accept path, the handler's end included: every peer taken from the listener is
      closed, at most one is served, and for it one status is written and everything acquired is released
      exactly once. */
  method AcceptNotifyFd(cfg: Config, w: World, peers: seq<Peer>, expectedUid: int, validate: Validate,
                        h: Handler, ticks: seq<bool>, late: bool)
    returns (log: seq<Event>, steps: seq<Milestone>, chosen: Option<nat>, closed: nat)
    ensures closed <= |peers|
    ensures chosen.Some? ==>
              && closed == chosen.value + 1 && Acceptable(peers[chosen.value], expectedUid)
              && Orderly(cfg, peers[chosen.value], validate, steps)
              && (steps[|steps| - 1] == Status(true) <==> Served(cfg, w, peers[chosen.value], validate, h))
    ensures forall i :: 0 <= i < closed && Some(i) != chosen ==> !Acceptable(peers[i], expectedUid)
    ensures chosen.None? ==> steps == [] && log == []
    ensures Balance(log) == NOTHING_HELD
  {
    hide Valid, SetUp, Tolerated, Condemned;
    log, steps := [], [];
    chosen, closed := SelectPeer(peers, expectedUid);
    if chosen.Some? {
      var s, job;
      s, steps, job := ServePeer(cfg, w, peers[chosen.value], validate, h, ticks, late);
      if job.Some? {
        s := EndHandler(cfg, w, job.value.cleanup, job.value.link, s, ticks, late);
      }
      log := s.log;
      closed := closed + 1;
    }
  }
}
