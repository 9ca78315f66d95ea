/** A ledger of acquisitions and releases. */
module Ledgers {
  datatype Resource = NotifyFd | Cgroup | Attachment | Allowlist | RefreshLoop | Collector | Symlink

  datatype Event = Acquire(r: Resource) | Release(r: Resource)

  /** For each resource the number of the event that acquired it, counted from 1, or 0 when it is not held; and
      whether nothing was ever acquired while held or released while not held. A fair book in which nothing is
      held says that each acquisition was followed by exactly one release. */
  datatype Book = Book(notifyFd: nat, cgroup: nat, attachment: nat, allowlist: nat, refreshLoop: nat,
                       collector: nat, symlink: nat, fair: bool)

  const NOTHING_HELD := Book(0, 0, 0, 0, 0, 0, 0, true)

  function At(b: Book, r: Resource): nat {
    match r
    case NotifyFd => b.notifyFd
    case Cgroup => b.cgroup
    case Attachment => b.attachment
    case Allowlist => b.allowlist
    case RefreshLoop => b.refreshLoop
    case Collector => b.collector
    case Symlink => b.symlink
  }

  function Post(b: Book, e: Event, n: nat): Book {
    var at := if e.Acquire? then n else 0;
    var b := b.(fair := b.fair && (At(b, e.r) == 0 <==> e.Acquire?));
    match e.r
    case NotifyFd => b.(notifyFd := at)
    case Cgroup => b.(cgroup := at)
    case Attachment => b.(attachment := at)
    case Allowlist => b.(allowlist := at)
    case RefreshLoop => b.(refreshLoop := at)
    case Collector => b.(collector := at)
    case Symlink => b.(symlink := at)
  }

  function Balance(log: seq<Event>): Book {
    if log == [] then NOTHING_HELD else Post(Balance(log[..|log| - 1]), log[|log| - 1], |log|)
  }

  lemma BalanceAppend(log: seq<Event>, e: Event)
    ensures Balance(log + [e]) == Post(Balance(log), e, |log| + 1)
  {
    assert (log + [e])[..|log|] == log;
  }

  predicate UpTo(b: Book, n: nat) {
    && b.notifyFd <= n && b.cgroup <= n && b.attachment <= n && b.allowlist <= n && b.refreshLoop <= n
    && b.collector <= n && b.symlink <= n
  }

  lemma {:induction false} BalanceUpTo(log: seq<Event>)
    ensures UpTo(Balance(log), |log|)
  {
    if log != [] { BalanceUpTo(log[..|log| - 1]); }
  }

  function When(b: bool, r: Resource): seq<Event> { if b then [Release(r)] else [] }

  /** The events release what the book holds, each acquired before `bound` and after the next one. */
  predicate NewestFirst(b: Book, bound: nat, es: seq<Event>) {
    es == [] || (es[0].Release? && 0 < At(b, es[0].r) < bound && NewestFirst(b, At(b, es[0].r), es[1..]))
  }
}

/** Setting up the cgroup and eBPF enforcement of one command, and the closures that tear it down. */
module Cgroups {
  import opened Options
  import opened Ledgers

  datatype Config = Config(
    cgroups: bool, bestEffort: bool,
    enabled: bool, required: bool, enforce: bool, enforceWithoutDns: bool, refreshSeconds: int)

  datatype ApplyResult = Applied | NoCgroup | LimitsUnavailable | CgroupUnavailable | ApplyFailed

  /** Everything the outside decides: whether there is a manager, whether the policy sets limits, and how
      each system call and the allowlist construction turn out. */
  datatype World = World(
    manager: bool, limits: bool, apply: ApplyResult, supported: bool, attaches: bool,
    cgroupId: Option<nat>, populates: bool, endpoints: bool, strict: bool, domains: bool, earlyTick: bool,
    collects: bool, lateTick: bool)

  datatype SetupError = Unavailable | UnavailableLimits | Other

  /** The cleanup function handed to the caller. */
  datatype Cleanup = NoFunction | NoOp | Teardown

  predicate Degradable(cfg: Config) { cfg.bestEffort && !cfg.enabled && !cfg.enforce && !cfg.required }

  predicate Needed(cfg: Config) { cfg.cgroups || cfg.enabled || cfg.enforce || cfg.required }

  /** The variables that the cleanup closures capture, and what they do not show: whether the maps of the loaded
      program hold allowlist entries, and whether those come from the refresh loop alone. */
  datatype Vars = Vars(
    cgroup: bool, detach: bool, allowlist: Option<nat>, refresh: bool, collector: bool,
    entries: bool, restocked: bool)
  {
    /** Teardown clears the allowlist; it skips one of cgroup id 0, which it takes for an unset variable. */
    predicate Removable() { allowlist.Some? && allowlist.value != 0 }
  }

  const UNSET := Vars(false, false, None, false, false, false, false)

  /** Captured variables and ledger of one command. */
  datatype Session = Session(v: Vars, log: seq<Event>)

  /** The ledger shows what the variables account for, the entries, and what the caller holds besides. */
  predicate Shows(b: Book, v: Vars, fd: bool, link: bool) {
    && b.fair && (b.notifyFd > 0 <==> fd) && (b.symlink > 0 <==> link)
    && (b.cgroup > 0 <==> v.cgroup) && (b.attachment > 0 <==> v.detach) && (b.allowlist > 0 <==> v.entries)
    && (b.refreshLoop > 0 <==> v.refresh) && (b.collector > 0 <==> v.collector)
  }

  /** Resources depend on earlier ones, and entries that the variables account for are older than the loop. */
  predicate InOrder(b: Book, v: Vars) {
    && (v.detach ==> v.cgroup && b.cgroup < b.attachment)
    && (v.entries ==> v.detach && b.attachment < b.allowlist)
    && (v.allowlist.Some? ==> v.entries && !v.restocked)
    && (v.restocked ==> v.entries)
    && (v.refresh ==> v.detach && b.attachment < b.refreshLoop)
    && (v.refresh && v.entries ==>
          if v.restocked then b.refreshLoop < b.allowlist else b.allowlist < b.refreshLoop)
    && (v.collector ==> v.detach && b.attachment < b.collector)
    && (v.collector && v.refresh ==> b.refreshLoop < b.collector)
    && (v.collector && v.entries && !v.restocked ==> b.allowlist < b.collector)
  }

  predicate Valid(s: Session, fd: bool, link: bool) {
    Shows(Balance(s.log), s.v, fd, link) && InOrder(Balance(s.log), s.v)
  }

  method Note(s0: Session, e: Event) returns (s: Session)
    ensures s == Session(s0.v, s0.log + [e])
    ensures Balance(s.log) == Post(Balance(s0.log), e, |s.log|) && UpTo(Balance(s0.log), |s0.log|)
  {
    BalanceAppend(s0.log, e);
    BalanceUpTo(s0.log);
    s := s0.(log := s0.log + [e]);
  }

  /** What a teardown appends first: it stops what runs and clears the entries it knows of. */
  function StopEvents(v: Vars): seq<Event> {
    When(v.collector, Collector) + When(v.refresh, RefreshLoop) + When(v.Removable(), Allowlist)
  }

  /** Entries the teardown does not know of. */
  predicate Left(v: Vars) { v.entries && !v.Removable() }

  /** Then a population under way when the loop was cancelled may finish late, and detaching closes the loaded
      program and its maps, and with them whatever entries there are. */
  function CloseEvents(again: bool, left: bool, attached: bool): seq<Event> {
    (if again then [Acquire(Allowlist)] else []) + (When(left || again, Allowlist) + When(attached, Attachment))
  }

  function TeardownEvents(v: Vars, late: bool): seq<Event> {
    StopEvents(v) + CloseEvents(late && v.refresh && !Left(v), Left(v), v.detach)
  }

  method CloseCollector(s0: Session, ghost fd: bool, ghost link: bool) returns (s: Session)
    requires Valid(s0, fd, link)
    ensures Valid(s, fd, link) && s.v == s0.v.(collector := false)
    ensures s.log == s0.log + When(s0.v.collector, Collector)
  {
    hide Balance;
    s := s0;
    if s.v.collector {
      s := Note(s, Release(Collector));
      s := s.(v := s.v.(collector := false));
    }
  }

  method StopRefresh(s0: Session, ghost fd: bool, ghost link: bool) returns (s: Session)
    requires Valid(s0, fd, link)
    ensures Valid(s, fd, link) && s.v == s0.v.(refresh := false)
    ensures s.log == s0.log + When(s0.v.refresh, RefreshLoop)
  {
    hide Balance;
    s := s0;
    if s.v.refresh {
      s := Note(s, Release(RefreshLoop));
      s := s.(v := s.v.(refresh := false));
    }
  }

  method ClearAllowlist(s0: Session, ghost fd: bool, ghost link: bool) returns (s: Session)
    requires Valid(s0, fd, link)
    ensures Valid(s, fd, link)
    ensures s.v == if s0.v.Removable() then s0.v.(allowlist := None, entries := false) else s0.v
    ensures s.log == s0.log + When(s0.v.Removable(), Allowlist)
    ensures s0.v.allowlist == Some(0) ==> s == s0
    ensures s0.v.allowlist.Some? && s0.v.allowlist.value > 0 ==> s.log == s0.log + [Release(Allowlist)]
  {
    hide Balance;
    s := s0;
    if s.v.allowlist.Some? && s.v.allowlist.value != 0 {
      s := Note(s, Release(Allowlist));
      s := s.(v := s.v.(allowlist := None, entries := false));
    }
  }

  /** The population that was under way when the loop was cancelled. */
  method FinishPopulation(s0: Session, again: bool, ghost fd: bool, ghost link: bool) returns (s: Session)
    requires Valid(s0, fd, link) && !s0.v.refresh && !s0.v.collector
    requires again ==> s0.v.detach && !s0.v.entries
    ensures Valid(s, fd, link)
    ensures s.v == if again then s0.v.(entries := true, restocked := true) else s0.v
    ensures s.log == s0.log + if again then [Acquire(Allowlist)] else []
  {
    hide Balance;
    s := s0;
    if again {
      s := Note(s, Acquire(Allowlist));
      s := s.(v := s.v.(entries := true, restocked := true));
    }
  }

  /** Closing the maps with the entries in them, and the program. */
  method Detach(s0: Session, ghost fd: bool, ghost link: bool) returns (s: Session)
    requires Valid(s0, fd, link) && !s0.v.refresh && !s0.v.collector
    ensures Valid(s, fd, link) && s.v == UNSET.(cgroup := s0.v.cgroup)
    ensures s.log == s0.log + (When(s0.v.entries, Allowlist) + When(s0.v.detach, Attachment))
  {
    hide Balance;
    s := s0;
    if s.v.detach {
      if s.v.entries {
        s := Note(s, Release(Allowlist));
        s := s.(v := s.v.(allowlist := None, entries := false, restocked := false));
      }
      s := Note(s, Release(Attachment));
      s := s.(v := s.v.(detach := false));
    }
  }

  lemma Dependencies(s: Session, fd: bool, link: bool)
    requires Valid(s, fd, link)
    ensures (s.v.refresh ==> s.v.detach) && (s.v.allowlist.Some? ==> s.v.entries)
  {
    hide Balance;
  }

  method StopEbpf(s0: Session, ghost fd: bool, ghost link: bool) returns (s: Session)
    requires Valid(s0, fd, link)
    ensures Valid(s, fd, link) && s.log == s0.log + StopEvents(s0.v)
    ensures s.v == s0.v.(collector := false, refresh := false, entries := Left(s0.v),
                         allowlist := if s0.v.Removable() then None else s0.v.allowlist)
  {
    hide Valid, When;
    Dependencies(s0, fd, link);
    s := CloseCollector(s0, fd, link);
    s := StopRefresh(s, fd, link);
    s := ClearAllowlist(s, fd, link);
  }

  method CloseEbpf(s0: Session, again: bool, ghost fd: bool, ghost link: bool) returns (s: Session)
    requires Valid(s0, fd, link) && !s0.v.refresh && !s0.v.collector
    requires again ==> s0.v.detach && !s0.v.entries
    ensures Valid(s, fd, link) && s.v == UNSET.(cgroup := s0.v.cgroup)
    ensures s.log == s0.log + CloseEvents(again, s0.v.entries, s0.v.detach)
  {
    hide Valid, When;
    s := FinishPopulation(s0, again, fd, link);
    s := Detach(s, fd, link);
  }

  method CleanupEbpf(s0: Session, late: bool, ghost fd: bool, ghost link: bool) returns (s: Session)
    requires Valid(s0, fd, link)
    ensures Valid(s, fd, link) && s.v == UNSET.(cgroup := s0.v.cgroup)
    ensures s.log == s0.log + TeardownEvents(s0.v, late)
  {
    hide Valid, Vars.Removable, CloseEvents, StopEvents;
    Dependencies(s0, fd, link);
    s := StopEbpf(s0, fd, link);
    s := CloseEbpf(s, late && s0.v.refresh && !s.v.entries, fd, link);
  }

  /** The cleanup function of a concrete set-up: afterwards it holds nothing at all. */
  method CleanupResources(s0: Session, late: bool, ghost fd: bool, ghost link: bool) returns (s: Session)
    requires Valid(s0, fd, link) && s0.v.cgroup
    ensures Valid(s, fd, link) && s.v == UNSET
    ensures s.log == s0.log + TeardownEvents(s0.v, late) + [Release(Cgroup)]
  {
    hide Balance, TeardownEvents;
    s := CleanupEbpf(s0, late, fd, link);
    s := Note(s, Release(Cgroup));
    s := s.(v := s.v.(cgroup := false));
  }

  // ---- The order of the teardown ----

  lemma NewestFirstWhen(b: Book, bound: nat, held: bool, r: Resource, rest: seq<Event>)
    ensures NewestFirst(b, bound, When(held, r) + rest) <==>
            if held then 0 < At(b, r) < bound && NewestFirst(b, At(b, r), rest) else NewestFirst(b, bound, rest)
  {
    if held {
      assert ([Release(r)] + rest)[1..] == rest;
    } else {
      assert When(held, r) + rest == rest;
    }
  }

  /** A teardown of these resources, written out. */
  function Spelled(v: Vars): seq<Event> {
    When(v.collector, Collector) + (When(v.refresh, RefreshLoop)
    + (When(v.entries, Allowlist) + (When(v.detach, Attachment) + When(v.cgroup, Cgroup))))
  }

  lemma SpelledOut(v: Vars)
    requires v.cgroup && (v.allowlist.Some? ==> v.entries)
    ensures TeardownEvents(v, false) + [Release(Cgroup)] == Spelled(v)
  {
    assert When(v.Removable(), Allowlist) + When(Left(v), Allowlist) == When(v.entries, Allowlist);
  }

  lemma SpelledOrder(b: Book, bound: nat, v: Vars, fd: bool, link: bool)
    requires Shows(b, v, fd, link) && InOrder(b, v) && bound > 0 && UpTo(b, bound - 1)
    requires v.restocked ==> v.refresh
    ensures NewestFirst(b, bound, Spelled(v)) <==> !v.restocked
  {
    hide When, NewestFirst;
    var es0 := When(v.cgroup, Cgroup);
    var es1 := When(v.detach, Attachment) + es0;
    var es2 := When(v.entries, Allowlist) + es1;
    var es3 := When(v.refresh, RefreshLoop) + es2;
    var b3 := if v.collector then b.collector else bound;
    var b2 := if v.refresh then b.refreshLoop else b3;
    var b1 := if v.entries then b.allowlist else b2;
    var b0 := if v.detach then b.attachment else b1;
    NewestFirstWhen(b, bound, v.collector, Collector, es3);
    NewestFirstWhen(b, b3, v.refresh, RefreshLoop, es2);
    NewestFirstWhen(b, b2, v.entries, Allowlist, es1);
    NewestFirstWhen(b, b1, v.detach, Attachment, es0);
    assert es0 + [] == es0;
    NewestFirstWhen(b, b0, v.cgroup, Cgroup, []);
    NothingToRelease(b, b.cgroup);
    NothingToRelease(b, b0);
  }

  lemma NothingToRelease(b: Book, bound: nat)
    ensures NewestFirst(b, bound, [])
  {}

  /** The teardown releases in reverse order of acquisition, exactly unless the entries come from the refresh
      loop, which is stopped before they are removed. */
  lemma TeardownOrder(s: Session, fd: bool, link: bool)
    requires Valid(s, fd, link) && s.v.cgroup && (s.v.restocked ==> s.v.refresh)
    ensures NewestFirst(Balance(s.log), |s.log| + 1, TeardownEvents(s.v, false) + [Release(Cgroup)])
            <==> !s.v.restocked
  {
    hide Balance, TeardownEvents, Spelled, NewestFirst;
    BalanceUpTo(s.log);
    Dependencies(s, fd, link);
    SpelledOut(s.v);
    SpelledOrder(Balance(s.log), |s.log| + 1, s.v, fd, link);
  }

  // ---- The set-up ----

  /** One firing of the refresh timer: populate the allowlist again. After a failed first population no
      variable accounts for the entries this creates. */
  method RefreshTick(s0: Session, populates: bool, ghost fd: bool, ghost link: bool) returns (s: Session)
    requires Valid(s0, fd, link) && s0.v.refresh
    ensures Valid(s, fd, link)
    ensures s.v == if populates && !s0.v.entries then s0.v.(entries := true, restocked := true) else s0.v
  {
    hide Balance;
    s := s0;
    if populates && !s.v.entries {
      s := Note(s, Acquire(Allowlist));
      s := s.(v := s.v.(entries := true, restocked := true));
    }
  }

  /** The refresh loop between set-up and teardown: each element says whether that firing populated. */
  method RefreshTicks(s0: Session, ticks: seq<bool>, ghost fd: bool, ghost link: bool) returns (s: Session)
    requires Valid(s0, fd, link)
    ensures Valid(s, fd, link)
    ensures s.v == if s0.v.refresh && !s0.v.entries && true in ticks
                   then s0.v.(entries := true, restocked := true) else s0.v
  {
    hide Balance, Valid;
    s := s0;
    if s.v.refresh {
      for i := 0 to |ticks|
        invariant Valid(s, fd, link)
        invariant s.v == if !s0.v.entries && true in ticks[..i]
                         then s0.v.(entries := true, restocked := true) else s0.v
      {
        s := RefreshTick(s, ticks[i], fd, link);
        assert ticks[..i + 1] == ticks[..i] + [ticks[i]];
      }
      assert ticks[..|ticks|] == ticks;
    }
  }

  /** The set-up gets as far as the allowlist. */
  predicate ReachesAllowlist(cfg: Config, w: World) {
    && w.manager && w.apply == Applied && cfg.enabled && w.supported && w.attaches
    && cfg.enforce && w.cgroupId.Some?
  }

  /** Domain rules under strict enforcement are refreshed. */
  predicate Refreshes(cfg: Config, w: World) {
    w.domains && w.strict && (w.endpoints || cfg.enforceWithoutDns) && cfg.refreshSeconds > 0
  }

  /** Populating failed, that was tolerated, and the refresh loop populates, before the set-up is complete or in one
      of the later firings. */
  predicate Restocks(cfg: Config, w: World, ticks: seq<bool>) {
    && ReachesAllowlist(cfg, w) && !w.populates && !cfg.required && Refreshes(cfg, w) && w.collects
    && (w.earlyTick || true in ticks)
  }

  /** The enforcement part once the cgroup id is known. A failed population may have made some of the entries. */
  method PopulateAllowlist(cfg: Config, w: World, s0: Session, ghost fd: bool, ghost link: bool)
    returns (s: Session, err: Option<SetupError>)
    requires Valid(s0, fd, link) && s0.v == UNSET.(cgroup := true, detach := true) && w.cgroupId.Some?
    ensures Valid(s, fd, link)
    ensures err.Some? <==> cfg.required && !w.populates
    ensures err.Some? ==> err.value.Other? && s.v == UNSET
    ensures err.None? ==>
              s.v == s0.v.(allowlist := if w.populates then w.cgroupId else None, entries := w.populates,
                           refresh := Refreshes(cfg, w))
  {
    hide Balance, TeardownEvents;
    err := None;
    s := Note(s0, Acquire(Allowlist));
    s := s.(v := s.v.(allowlist := w.cgroupId, entries := true));
    var strict := w.strict && (w.endpoints || cfg.enforceWithoutDns);
    if !w.populates {
      if cfg.required {
        s := CleanupResources(s, false, fd, link);
        return s, Some(Other);
      }
      s := Note(s, Release(Allowlist));
      s := s.(v := s.v.(allowlist := None, entries := false));
    }
    if w.domains && strict && cfg.refreshSeconds > 0 {
      s := Note(s, Acquire(RefreshLoop));
      s := s.(v := s.v.(refresh := true));
    }
  }

  /** The enforcement part, after attaching. */
  method Enforce(cfg: Config, w: World, s0: Session, ghost fd: bool, ghost link: bool)
    returns (s: Session, err: Option<SetupError>)
    requires Valid(s0, fd, link) && s0.v == UNSET.(cgroup := true, detach := true)
    ensures Valid(s, fd, link)
    ensures err.Some? <==> cfg.enforce && cfg.required && (w.cgroupId.None? || !w.populates)
    ensures err.Some? ==> err.value.Other? && s.v == UNSET
    ensures err.None? ==>
              s.v == s0.v.(
                allowlist := if cfg.enforce && w.populates then w.cgroupId else None,
                entries := cfg.enforce && w.cgroupId.Some? && w.populates,
                refresh := cfg.enforce && w.cgroupId.Some? && Refreshes(cfg, w))
  {
    hide Balance, Valid, TeardownEvents, Refreshes;
    s, err := s0, None;
    if cfg.enforce {
      if w.cgroupId.None? {
        if cfg.required {
          s := CleanupResources(s, false, fd, link);
          return s, Some(Other);
        }
      } else {
        s, err := PopulateAllowlist(cfg, w, s, fd, link);
      }
    }
  }

  /** The collector, last of all. */
  method StartCollector(cfg: Config, w: World, s0: Session, ghost fd: bool, ghost link: bool)
    returns (s: Session, err: Option<SetupError>)
    requires Valid(s0, fd, link) && s0.v.detach && !s0.v.collector
    ensures Valid(s, fd, link)
    ensures err.Some? <==> !w.collects && cfg.required
    ensures err.Some? ==> err.value.Other? && s.v == UNSET
    ensures err.None? ==> s.v == if w.collects then s0.v.(collector := true) else UNSET.(cgroup := true)
  {
    hide Balance, TeardownEvents;
    s, err := s0, None;
    if !w.collects {
      if cfg.required {
        s := CleanupResources(s, w.lateTick, fd, link);
        return s, Some(Other);
      }
      s := CleanupEbpf(s, w.lateTick, fd, link);
    } else {
      s := Note(s, Acquire(Collector));
      s := s.(v := s.v.(collector := true));
    }
  }

  /** Every eBPF step that the configuration asks for works out. */
  predicate EbpfWorks(cfg: Config, w: World) {
    w.supported && w.attaches && (cfg.enforce ==> w.cgroupId.Some? && w.populates) && w.collects
  }

  /** What the variables say after a set-up that ran to its end with eBPF enabled. */
  predicate Attached(cfg: Config, w: World, v: Vars) {
    && v.cgroup && v.detach == v.collector == (w.supported && w.attaches && w.collects)
    && (v.allowlist.Some? <==> v.detach && ReachesAllowlist(cfg, w) && w.populates)
    && (v.refresh <==> v.detach && ReachesAllowlist(cfg, w) && Refreshes(cfg, w))
    && (v.restocked <==> Restocks(cfg, w, []))
    && (cfg.required && cfg.enforce && w.cgroupId.Some? ==> w.populates)
    && (v.entries <==> v.allowlist.Some? || v.restocked)
  }

  /** Attaching, enforcing and collecting, once the cgroup exists. */
  method AttachEbpf(cfg: Config, w: World, s0: Session, ghost fd: bool, ghost link: bool)
    returns (s: Session, err: Option<SetupError>)
    requires Valid(s0, fd, link) && s0.v == UNSET.(cgroup := true)
    requires cfg.enabled && w.manager && w.apply == Applied
    ensures Valid(s, fd, link)
    ensures err.Some? <==> cfg.required && !EbpfWorks(cfg, w)
    ensures err.Some? ==> err.value.Other? && s.v == UNSET
    ensures err.None? ==> Attached(cfg, w, s.v)
  {
    hide Balance, TeardownEvents, Refreshes;
    s, err := s0, None;
    if !w.supported || !w.attaches {
      if cfg.required {
        s := CleanupResources(s, false, fd, link);
        return s, Some(Other);
      }
    } else {
      s := Note(s, Acquire(Attachment));
      s := s.(v := s.v.(detach := true));
      s, err := Enforce(cfg, w, s, fd, link);
      if err.Some? { return s, err; }
      if w.earlyTick && s.v.refresh { s := RefreshTick(s, true, fd, link); }
      s, err := StartCollector(cfg, w, s, fd, link);
    }
  }

  /** Doing without a cgroup is fine: nothing concrete is asked of it, or the configuration is best effort. */
  predicate Degrades(cfg: Config, w: World) {
    || (!w.limits && !cfg.enabled && (!w.manager || w.apply.NoCgroup?))
    || (w.manager && (w.apply.LimitsUnavailable? || w.apply.CgroupUnavailable?) && Degradable(cfg))
  }

  /** There is no cgroup to be had, whatever the limits. */
  predicate Missing(w: World) { !w.manager || w.apply.CgroupUnavailable? || w.apply.NoCgroup? }

  /** Everything before a cgroup exists: nothing to do, or degrade where that is allowed, or refuse. */
  method Gate(cfg: Config, w: World) returns (proceed: bool, cleanup: Cleanup, err: Option<SetupError>)
    ensures proceed <==> Needed(cfg) && w.manager && w.apply == Applied
    ensures proceed || err.Some? ==> cleanup.NoFunction?
    ensures proceed || !Needed(cfg) ==> err.None?
    ensures !proceed && err.None? ==> !cleanup.Teardown? && (cleanup.NoFunction? <==> !Needed(cfg)) && !cfg.enabled
    ensures Needed(cfg) && !proceed ==> (err.None? <==> Degrades(cfg, w))
    ensures err == Some(Unavailable) <==> Needed(cfg) && !Degrades(cfg, w) && Missing(w)
    ensures !cfg.cgroups && !cfg.enabled && !cfg.enforce && !cfg.required ==> !proceed && err.None?
    ensures cfg.cgroups || cfg.enabled || cfg.enforce || cfg.required ==>
              && (w.manager && (w.apply.LimitsUnavailable? || w.apply.CgroupUnavailable?) ==>
                    (err.None? <==> cfg.bestEffort && !cfg.enabled && !cfg.enforce && !cfg.required))
              && (!w.manager || w.apply.NoCgroup? ==> (err.None? <==> !w.limits && !cfg.enabled))
              && (w.manager && w.apply.ApplyFailed? ==> err == Some(Other))
              && (w.manager && w.apply.LimitsUnavailable? && err.Some? ==> err == Some(UnavailableLimits))
              && (!w.manager || w.apply.NoCgroup? || w.apply.CgroupUnavailable? ==>
                    err.None? || err == Some(Unavailable))
              && (w.limits && !cfg.bestEffort && err.None? ==> proceed)
  {
    proceed, cleanup, err := false, NoFunction, None;
    if !Needed(cfg) { return; }
    var concrete := w.limits || cfg.enabled;
    if !w.manager {
      if !concrete { return false, NoOp, None; }
      return false, NoFunction, Some(Unavailable);
    }
    match w.apply
    case Applied => proceed := true;
    case LimitsUnavailable =>
      if Degradable(cfg) { return false, NoOp, None; }
      err := Some(UnavailableLimits);
    case CgroupUnavailable =>
      if Degradable(cfg) { return false, NoOp, None; }
      err := Some(Unavailable);
    case ApplyFailed => err := Some(Other);
    case NoCgroup =>
      if !concrete { return false, NoOp, None; }
      err := Some(Unavailable);
  }

  /** What the variables say after a successful set-up that handed out `cleanup`. */
  predicate SetUp(cfg: Config, w: World, cleanup: Cleanup, v: Vars) {
    && (cleanup.Teardown? <==> v.cgroup)
    && (!cleanup.Teardown? ==> v == UNSET)
    && (cleanup.Teardown? && cfg.enabled ==> Attached(cfg, w, v))
    && (cleanup.Teardown? && !cfg.enabled ==> v == UNSET.(cgroup := true))
  }

  /** The whole set-up. An error has released each resource exactly once; success hands out a teardown for exactly
      what is held, which releases it in reverse order of acquisition unless the refresh loop got in between; and
      when eBPF is enabled and required, success means that the program is attached, the collector runs and,
      under enforcement, the allowlist is populated. */
  method ApplyCgroupV2(cfg: Config, w: World, s0: Session, ghost fd: bool, ghost link: bool)
    returns (s: Session, cleanup: Cleanup, err: Option<SetupError>)
    requires Valid(s0, fd, link) && s0.v == UNSET
    ensures Valid(s, fd, link)
    ensures err.Some? ==> cleanup.NoFunction? && s.v == UNSET
    ensures cleanup.Teardown? <==> err.None? && Needed(cfg) && w.manager && w.apply == Applied
    ensures !w.manager || w.apply != Applied || !Needed(cfg) ==> s == s0
    ensures !Needed(cfg) ==> cleanup.NoFunction? && err.None?
    ensures w.manager && w.apply == Applied ==>
              (err.None? <==> cfg.enabled && cfg.required ==> EbpfWorks(cfg, w)) && err != Some(Unavailable)
    ensures !(w.manager && w.apply == Applied) && Needed(cfg) ==>
              && (err.None? <==> Degrades(cfg, w))
              && (err == Some(Unavailable) <==> !Degrades(cfg, w) && Missing(w))
    ensures err.None? ==> SetUp(cfg, w, cleanup, s.v)
    ensures cfg.enabled && cfg.required && err.None? ==>
              cleanup.Teardown? && s.v.detach && s.v.collector && (cfg.enforce ==> s.v.allowlist.Some?)
    ensures cfg.cgroups || cfg.enabled || cfg.enforce || cfg.required ==>
              && (w.manager && (w.apply.LimitsUnavailable? || w.apply.CgroupUnavailable?) ==>
                    (err.None? <==> cfg.bestEffort && !cfg.enabled && !cfg.enforce && !cfg.required))
              && (w.limits && !cfg.bestEffort && err.None? ==> s.v.cgroup)
              && (w.manager && w.apply == Applied ==>
                    (err.Some? <==>
                     && cfg.enabled && cfg.required
                     && !(w.supported && w.attaches && w.collects
                          && (cfg.enforce ==> w.cgroupId.Some? && w.populates))))
    ensures s.v.detach <==> cfg.enabled && w.manager && w.apply == Applied && err.None?
                            && w.supported && w.attaches && w.collects
    ensures s.v.refresh <==> s.v.detach && cfg.enforce && w.cgroupId.Some? && w.domains && w.strict
                             && (w.endpoints || cfg.enforceWithoutDns) && cfg.refreshSeconds > 0
    ensures cleanup.Teardown? ==>
              (NewestFirst(Balance(s.log), |s.log| + 1, TeardownEvents(s.v, false) + [Release(Cgroup)])
               <==> !Restocks(cfg, w, []))
  {
    hide Balance, TeardownEvents, NewestFirst;
    s := s0;
    var proceed;
    proceed, cleanup, err := Gate(cfg, w);
    if !proceed { return; }
    s := Note(s, Acquire(Cgroup));
    s := s.(v := s.v.(cgroup := true));
    if cfg.enabled {
      s, err := AttachEbpf(cfg, w, s, fd, link);
      if err.Some? { return s, NoFunction, err; }
    }
    TeardownOrder(s, fd, link);
    return s, Teardown, None;
  }

  /** The refresh loop and then the cleanup function, as the owner of the set-up runs it. Nothing is left,
      whatever the cgroup id, the refresh loop and the tolerated failures; and `before`, what there was right before
      the teardown, is released in reverse order of acquisition exactly unless the refresh loop made the entries. */
  method RunCleanup(cfg: Config, w: World, cleanup: Cleanup, s0: Session, ticks: seq<bool>, late: bool,
                    ghost fd: bool, ghost link: bool)
    returns (s: Session, before: Session)
    requires Valid(s0, fd, link) && SetUp(cfg, w, cleanup, s0.v)
    ensures Valid(s, fd, link) && s.v == UNSET
    ensures !cleanup.Teardown? ==> s == before
    ensures cleanup.Teardown? ==>
              && s.log == before.log + TeardownEvents(before.v, late) + [Release(Cgroup)]
              && (NewestFirst(Balance(before.log), |before.log| + 1,
                              TeardownEvents(before.v, false) + [Release(Cgroup)])
                  <==> !Restocks(cfg, w, ticks))
  {
    hide Balance, Valid, TeardownEvents, NewestFirst, Refreshes;
    before := RefreshTicks(s0, ticks, fd, link);
    s := before;
    if cleanup.Teardown? {
      TeardownOrder(before, fd, link);
      s := CleanupResources(s, late, fd, link);
    }
  }
}
