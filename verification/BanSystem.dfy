/** The whole ban path as a state machine: config frames, the mailbox and its worker, firewall resync,
    the start-up purge, and the nftables backend underneath, under any interleaving and any failure. */
module BanSystem {
  import opened Prefixes
  import opened IntervalSet
  import opened BanSafety
  import opened BanDelta

  /** banWorker: waiting on the channel, woken before takeBanDelta, or holding a batch it has not
      applied yet (it takes the batch before it acquires the apply lock). */
  datatype Worker = Idle | Woken | Holding(add: set<Prefix>, remove: set<Prefix>, texts: set<Token>)

  datatype System = System(
    kernel: set<Prefix>, covered: set<Prefix>,  // the backend
    legacy: set<Prefix>,                        // its pre-interval set, while rules match it
    ops: Ops, texts: set<Token>,                // the mailbox: by entry, and removals that do not parse
    signal: bool, queuers: nat,                 // the wake-up, and the queuers between unlock and send
    worker: Worker,
    resync: Option<set<Prefix>>,                // the list a resync holding the apply lock enforces
    started: bool,                              // the first backend call was made
    purged: bool)                               // the start-up purge went through

  /** How a flush ended: the sets could not be listed (the delta is lost), or they could, and these are
      the sets it left. */
  datatype Outcome = NotListed | Listed(kernel: set<Prefix>, legacy: set<Prefix>)

  /** How the migration of the pre-interval set ended, which the first backend call of a process runs: it
      was skipped, or its elements were planned into the interval sets, and this is the kernel it left;
      the rules were switched only if no element was refused. */
  datatype Copying = Skipped | Copied(kernel: set<Prefix>, switched: bool)

  /** How much of a report could be read: nothing, the interval sets, or the pre-interval set as well. */
  datatype Read = Nothing | Sets | All

  datatype Event =
    | Frame(adds: seq<Token>, removes: seq<Token>)
    | Signal | Wake | Take
    | Migrate(copying: Copying)
    | Apply(outcome: Outcome)
    | ResyncStart(bans: seq<Token>)
    | ResyncApply(read: Read, outcome: Outcome)
    | Purge(read: Read, outcome: Outcome)

  // ----- One backend round -----

  /** The entries requested after a delta whose removals each occur once. */
  ghost function AfterDelta(kernel: set<Prefix>, covered: set<Prefix>, add: set<Prefix>, remove: set<Prefix>)
    : set<Prefix>
  {
    (kernel + covered - (remove - kernel * covered)) + add
  }

  /** It is what the planner is specified by. */
  lemma DeltaIsRequested(kernel: set<Prefix>, covered: set<Prefix>, adds: seq<Token>, dels: seq<Token>)
    requires forall p :: Count(p, dels) <= 1
    ensures Requested(kernel, covered, adds, dels) == AfterDelta(kernel, covered, Canonical(adds), Canonical(dels))
  {
    forall p ensures Count(p, dels) > 0 <==> p in Canonical(dels) { CountIsMembership(p, dels); }
  }

  /** The sets a flush can leave when single elements may fail: NftablesFirewall.Flush. */
  ghost predicate Possible(s: System, add: set<Prefix>, remove: set<Prefix>, o: Outcome) {
    var all := AfterDelta(s.kernel, s.covered, add, remove);
    o.Listed? ==>
      && Antichain(o.kernel) && s.kernel * Maximal(all) - remove <= o.kernel <= s.kernel + Maximal(all)
      && s.legacy - remove <= o.legacy <= s.legacy
  }

  /** A flush with nothing to do does nothing; a removal that does not parse is something to do. */
  ghost predicate Idles(add: set<Prefix>, remove: set<Prefix>, texts: set<Token>) {
    add + remove == {} && texts == {}
  }

  ghost function Flushed(s: System, add: set<Prefix>, remove: set<Prefix>, texts: set<Token>, o: Outcome): System {
    if o.NotListed? || Idles(add, remove, texts) then s
    else
      var all := AfterDelta(s.kernel, s.covered, add, remove);
      s.(kernel := o.kernel, covered := all - Maximal(all), legacy := o.legacy)
  }

  /** The outcome in which nothing is refused. */
  ghost function Done(s: System, add: set<Prefix>, remove: set<Prefix>): Outcome {
    Listed(Maximal(AfterDelta(s.kernel, s.covered, add, remove)), s.legacy - remove)
  }

  ghost predicate Full(s: System, add: set<Prefix>, remove: set<Prefix>, texts: set<Token>, o: Outcome) {
    Idles(add, remove, texts) || o == Done(s, add, remove)
  }

  /** GetBannedIPs; a failed read reports nothing. */
  ghost function Report(s: System, read: Read): set<Prefix> {
    match read
    case Nothing => {}
    case Sets => Reported(s.kernel, s.covered)
    case All => Reported(s.kernel, s.covered) + s.legacy
  }

  /** The add and remove lists of resyncFirewall. */
  ghost function ResyncAdd(s: System, want: set<Prefix>, read: Read): set<Prefix> {
    want - Report(s, read)
  }

  ghost function ResyncRemove(s: System, want: set<Prefix>, read: Read): set<Prefix> {
    Report(s, read) - want
  }

  ghost function PurgeRemove(g: Guard, s: System, read: Read): set<Prefix> {
    Report(s, read) - SafeOf(g, Report(s, read))
  }

  /** The entries of a removal list that do not parse. */
  ghost function Texts(ts: seq<Token>): set<Token> {
    set t | t in ts && CanonicalBanEntry(t).None? && t != Junk("")
  }

  // ----- Steps -----

  ghost predicate Enabled(g: Guard, s: System, e: Event) {
    match e
    case Frame(_, _) => true
    case Signal => s.queuers > 0
    case Wake => s.signal && s.worker.Idle?
    case Take => s.worker.Woken?
    case Migrate(m) =>
      && !s.started
      && (m.Copied? ==>
            && Antichain(m.kernel) && s.kernel <= m.kernel <= Maximal(s.kernel + s.legacy)
            && (m.switched ==> m.kernel == Maximal(s.kernel + s.legacy)))
    case Apply(o) => s.started && s.worker.Holding? && s.resync.None? && Possible(s, s.worker.add, s.worker.remove, o)
    case ResyncStart(_) => s.resync.None?
    case ResyncApply(read, o) =>
      && s.started && s.resync.Some?
      && Possible(s, ResyncAdd(s, s.resync.value, read), ResyncRemove(s, s.resync.value, read), o)
    case Purge(read, o) => s.started && s.resync.None? && Possible(s, {}, PurgeRemove(g, s, read), o)
  }

  ghost function MergedOps(ops: Ops, add: set<Prefix>, remove: set<Prefix>): Ops {
    map k | k in ops.Keys + add + remove :: if k in remove then false else if k in add then true else ops[k]
  }

  ghost function Do(g: Guard, s: System, e: Event): System
    requires Enabled(g, s, e)
  {
    match e
    case Frame(adds, removes) =>
      var add, remove := SafeOf(g, Canonical(adds)), Canonical(removes);
      if Idles(add, remove, Texts(removes)) then s
      else
        s.(ops := MergedOps(s.ops, add, remove), texts := s.texts + Texts(removes), queuers := s.queuers + 1)
    case Signal => s.(queuers := s.queuers - 1, signal := true)
    case Wake => s.(signal := false, worker := Woken)
    case Take =>
      if s.ops == map[] && s.texts == {} then s.(worker := Idle)
      else s.(ops := map[], texts := {}, worker := Holding(Bans(s.ops), Lifts(s.ops), s.texts))
    case Migrate(m) => Migrated(s, m).(started := true)
    case Apply(o) => Flushed(s, s.worker.add, s.worker.remove, s.worker.texts, o).(worker := Idle)
    case ResyncStart(bans) => s.(ops := map[], texts := {}, resync := Some(SafeOf(g, Canonical(bans))))
    case ResyncApply(read, o) =>
      Flushed(s, ResyncAdd(s, s.resync.value, read), ResyncRemove(s, s.resync.value, read), {}, o).(resync := None)
    case Purge(read, o) =>
      Flushed(s, {}, PurgeRemove(g, s, read), {}, o).(purged := s.purged || PurgeSucceeds(g, s, read, o))
  }

  ghost function Migrated(s: System, m: Copying): System {
    if m.Skipped? then s
    else
      var all := s.kernel + s.legacy;
      s.(kernel := m.kernel, covered := all - Maximal(all), legacy := if m.switched then {} else s.legacy)
  }

  /** The entries a report cannot tell apart: in both parts, or hidden by nothing. */
  ghost function Blind(s: System): set<Prefix> {
    s.kernel * s.covered + (s.covered - Report(s, All))
  }

  /** Everything could be read, and nothing was refused. */
  ghost predicate PurgeSucceeds(g: Guard, s: System, read: Read, o: Outcome) {
    && Full(s, {}, PurgeRemove(g, s, read), {}, o)
    && (read.All? || (read.Sets? && s.legacy == {}))
  }

  /** A run: every event enabled in the state the previous ones lead to. */
  ghost predicate IsRun(g: Guard, s: System, es: seq<Event>)
    decreases |es|
  {
    es == [] || (Enabled(g, s, es[0]) && IsRun(g, Do(g, s, es[0]), es[1..]))
  }

  ghost function Final(g: Guard, s: System, es: seq<Event>): System
    requires IsRun(g, s, es)
    decreases |es|
  {
    if es == [] then s else Final(g, Do(g, s, es[0]), es[1..])
  }

  /** A process start: an overlap-free kernel and a pre-interval set left by anyone, nothing else. */
  ghost predicate Start(s: System) {
    Antichain(s.kernel) && Hosts4(s.legacy)
    && s == System(s.kernel, {}, s.legacy, map[], {}, false, 0, Idle, None, false, false)
  }

  // ----- Safety: under any interleaving and any failure -----

  /** What the host drops. */
  ghost function Enforcing(s: System): set<Prefix> {
    s.kernel + s.legacy
  }

  /** Each one is safe, or was found at start and is not purged yet. */
  ghost predicate Allowed(g: Guard, found: set<Prefix>, purged: bool, ps: set<Prefix>) {
    forall p :: p in ps ==> Safe(g, p) || (!purged && p in found)
  }

  /** The unsafe hidden entries are single addresses inside an element in force: a report shows them. */
  ghost predicate InSight(g: Guard, s: System) {
    forall p :: p in s.covered && !Safe(g, p) ==> IsHost(p) && p !in s.kernel && CoveredBy(p, s.kernel)
  }

  /** Nothing unsafe is on its way; unsafe entries in force or hidden can only be those found at start, and
      only until the purge goes through. No pending operation is stranded. */
  ghost predicate Inv(g: Guard, found: set<Prefix>, s: System) {
    && Antichain(s.kernel) && Hosts4(s.legacy)
    && Allowed(g, found, s.purged, s.kernel) && Allowed(g, found, s.purged, s.covered)
    && Allowed(g, found, s.purged, s.legacy)
    && AllSafe(g, Bans(s.ops))
    && (s.worker.Holding? ==> AllSafe(g, s.worker.add) && s.worker.add !! s.worker.remove)
    && (s.resync.Some? ==> AllSafe(g, s.resync.value))
    && (!s.started ==> s.covered == {}) && InSight(g, s)
    && (s.ops != map[] || s.texts != {} ==> s.signal || s.queuers > 0 || s.worker.Woken?)
  }

  /** The hidden part of a request over a safe delta is safe, whatever the kernel holds: what hides a
      kernel element comes from the delta or was hidden itself. */
  lemma HiddenIsSafe(g: Guard, kernel: set<Prefix>, covered: set<Prefix>, add: set<Prefix>, remove: set<Prefix>)
    requires Antichain(kernel) && AllSafe(g, covered) && AllSafe(g, add)
    ensures var all := AfterDelta(kernel, covered, add, remove); AllSafe(g, all - Maximal(all))
  {
    var all := AfterDelta(kernel, covered, add, remove);
    forall c | c in all - Maximal(all) ensures Safe(g, c) {
      var n :| n in all && StrictlyCovers(n, c);
      if c in kernel { SafeInside(g, n, c); }
    }
  }

  lemma FlushKeepsSafe(g: Guard, found: set<Prefix>, s: System, add: set<Prefix>, remove: set<Prefix>,
                       texts: set<Token>, o: Outcome)
    requires Inv(g, found, s) && AllSafe(g, add) && Possible(s, add, remove, o)
    ensures var s' := Flushed(s, add, remove, texts, o);
            && Antichain(s'.kernel) && Hosts4(s'.legacy)
            && Allowed(g, found, s.purged, s'.kernel) && Allowed(g, found, s.purged, s'.covered)
            && Allowed(g, found, s.purged, s'.legacy) && InSight(g, s')
  {
    FlushKeepsSight(g, s, add, remove, texts, o);
    var all := AfterDelta(s.kernel, s.covered, add, remove);
    assert Allowed(g, found, s.purged, all);
  }

  /** What a successful purge keeps. */
  lemma PurgeKeeps(g: Guard, s: System, read: Read, o: Outcome)
    requires PurgeSucceeds(g, s, read, o)
    ensures var seen := Report(s, All);
            Held(Flushed(s, {}, PurgeRemove(g, s, read), {}, o)) == SafeOf(g, seen) + Blind(s)
  {
    var remove, seen := PurgeRemove(g, s, read), Report(s, All);
    assert Report(s, read) == seen;
    if remove == {} {
      forall p | p in Held(s) ensures p in SafeOf(g, seen) + Blind(s) { assert p in seen ==> p !in remove; }
    } else {
      var all := AfterDelta(s.kernel, s.covered, {}, remove);
      assert Maximal(all) + (all - Maximal(all)) == all;
    }
  }

  /** A purge that succeeds leaves only safe entries, in force or hidden: nothing unsafe is ever out of its
      sight. */
  lemma PurgeCleans(g: Guard, s: System, read: Read, o: Outcome)
    requires InSight(g, s) && PurgeSucceeds(g, s, read, o)
    ensures AllSafe(g, Blind(s)) && AllSafe(g, Held(Flushed(s, {}, PurgeRemove(g, s, read), {}, o)))
  {
    PurgeKeeps(g, s, read, o);
  }

  lemma FlushKeepsSight(g: Guard, s: System, add: set<Prefix>, remove: set<Prefix>, texts: set<Token>, o: Outcome)
    requires Antichain(s.kernel) && InSight(g, s) && AllSafe(g, add) && Possible(s, add, remove, o)
    ensures InSight(g, Flushed(s, add, remove, texts, o))
  {
    var s', all := Flushed(s, add, remove, texts, o), AfterDelta(s.kernel, s.covered, add, remove);
    if o.Listed? && !Idles(add, remove, texts) {
      forall p | p in s'.covered && !Safe(g, p)
        ensures IsHost(p) && p !in s'.kernel && CoveredBy(p, s'.kernel)
      {
        HiddenInSight(g, s, add, remove, o, p);
      }
    }
  }

  /** What hides an unsafe entry after a flush is an element the flush kept. */
  lemma HiddenInSight(g: Guard, s: System, add: set<Prefix>, remove: set<Prefix>, o: Outcome, p: Prefix)
    requires Antichain(s.kernel) && InSight(g, s) && AllSafe(g, add) && !Safe(g, p)
    requires o.Listed? && Possible(s, add, remove, o)
    requires var all := AfterDelta(s.kernel, s.covered, add, remove); p in all && p !in Maximal(all)
    ensures IsHost(p) && p !in o.kernel && CoveredBy(p, o.kernel)
  {
    var all := AfterDelta(s.kernel, s.covered, add, remove);
    var q := MaximalAbove(all, p);
    UnsafeCover(g, s, add, remove, p, q);
    assert q in o.kernel;
  }

  lemma UnsafeCover(g: Guard, s: System, add: set<Prefix>, remove: set<Prefix>, p: Prefix, q: Prefix)
    requires Antichain(s.kernel) && InSight(g, s) && AllSafe(g, add) && !Safe(g, p) && StrictlyCovers(q, p)
    requires var all := AfterDelta(s.kernel, s.covered, add, remove); p in all && q in all
    ensures q in s.kernel - remove && IsHost(p)
  {
    if Safe(g, q) { SafeInside(g, q, p); }
    if IsHost(q) { HostCoversNothing(q, p); }
    assert q in s.kernel && q !in s.covered;
  }

  /** Single addresses hide nothing: what is covered by their copy is hidden by the kernel there was. */
  lemma CopyIsClean(kernel: set<Prefix>, legacy: set<Prefix>, copied: set<Prefix>)
    requires Antichain(copied) && Hosts4(legacy) && kernel <= copied <= Maximal(kernel + legacy)
    ensures var all := kernel + legacy; Clean(copied, all - Maximal(all)) && copied + (all - Maximal(all)) <= all
  {
    var all := kernel + legacy;
    forall c | c in all - Maximal(all) ensures CoveredBy(c, copied) {
      var n :| n in all && StrictlyCovers(n, c);
      if n in legacy { HostCoversNothing(n, c); }
    }
  }

  /** The migration of the pre-interval set, however it ends, keeps everything that is held, leaves a clean
      state and no address unblocked. */
  lemma MigrationKeeps(g: Guard, s: System, m: Copying, f: Family, a: nat)
    requires Enabled(g, s, Migrate(m)) && Antichain(s.kernel) && Hosts4(s.legacy) && s.covered == {}
    ensures var t := Do(g, s, Migrate(m));
            && Clean(t.kernel, t.covered) && Held(t) == Held(s)
            && (Blocks(Enforcing(s), f, a) ==> Blocks(Enforcing(t), f, a))
  {
    var t, all := Do(g, s, Migrate(m)), s.kernel + s.legacy;
    if m.Copied? { CopyIsClean(s.kernel, s.legacy, m.kernel); }
    if Blocks(Enforcing(s), f, a) {
      var p :| p in Enforcing(s) && Has(p, f, a);
      if m.Copied? && m.switched {
        assert Blocks(all, f, a) by { assert p in all; }
        MaximalBlocksAll(all, f, a);
        var q :| q in Maximal(all) && Has(q, f, a);
        assert q in Enforcing(t);
      } else {
        assert p in Enforcing(t);
      }
    }
  }

  lemma FrameKeepsInv(g: Guard, found: set<Prefix>, s: System, adds: seq<Token>, removes: seq<Token>)
    requires Inv(g, found, s)
    ensures Inv(g, found, Do(g, s, Frame(adds, removes)))
  {
  }

  lemma PurgeKeepsInv(g: Guard, found: set<Prefix>, s: System, read: Read, o: Outcome)
    requires Inv(g, found, s) && Enabled(g, s, Purge(read, o))
    ensures Inv(g, found, Do(g, s, Purge(read, o)))
  {
    FlushKeepsSafe(g, found, s, {}, PurgeRemove(g, s, read), {}, o);
    if PurgeSucceeds(g, s, read, o) {
      PurgeCleans(g, s, read, o);
      var s' := Flushed(s, {}, PurgeRemove(g, s, read), {}, o);
      assert forall p :: p in s'.kernel || p in s'.covered || p in s'.legacy ==> p in Held(s');
    }
  }

  lemma MailboxKeepsInv(g: Guard, found: set<Prefix>, s: System, e: Event)
    requires Inv(g, found, s) && Enabled(g, s, e) && (e.Signal? || e.Wake? || e.Take? || e.ResyncStart?)
    ensures Inv(g, found, Do(g, s, e))
  {
  }

  lemma MigrateKeepsInv(g: Guard, found: set<Prefix>, s: System, m: Copying)
    requires Inv(g, found, s) && Enabled(g, s, Migrate(m))
    ensures Inv(g, found, Do(g, s, Migrate(m)))
  {
    var all := s.kernel + s.legacy;
    assert Allowed(g, found, s.purged, all);
    if m.Copied? { CopyKeepsSight(s.kernel, s.legacy, m.kernel); }
  }

  /** What the copy of single addresses hides is such an address, inside an element there was. */
  lemma CopyKeepsSight(kernel: set<Prefix>, legacy: set<Prefix>, copied: set<Prefix>)
    requires Antichain(kernel) && Antichain(copied) && Hosts4(legacy) && kernel <= copied <= Maximal(kernel + legacy)
    ensures var all := kernel + legacy;
            forall p :: p in all - Maximal(all) ==> IsHost(p) && p !in copied && CoveredBy(p, copied)
  {
    var all := kernel + legacy;
    forall p | p in all - Maximal(all) ensures IsHost(p) && p !in copied && CoveredBy(p, copied) {
      var n :| n in all && StrictlyCovers(n, p);
      if n in legacy { HostCoversNothing(n, p); }
      assert n in copied;
    }
  }

  lemma ApplyKeepsInv(g: Guard, found: set<Prefix>, s: System, o: Outcome)
    requires Inv(g, found, s) && Enabled(g, s, Apply(o))
    ensures Inv(g, found, Do(g, s, Apply(o)))
  {
    FlushKeepsSafe(g, found, s, s.worker.add, s.worker.remove, s.worker.texts, o);
  }

  lemma ResyncKeepsInv(g: Guard, found: set<Prefix>, s: System, read: Read, o: Outcome)
    requires Inv(g, found, s) && Enabled(g, s, ResyncApply(read, o))
    ensures Inv(g, found, Do(g, s, ResyncApply(read, o)))
  {
    FlushKeepsSafe(g, found, s, ResyncAdd(s, s.resync.value, read), ResyncRemove(s, s.resync.value, read), {}, o);
  }

  lemma StepKeepsInv(g: Guard, found: set<Prefix>, s: System, e: Event)
    requires Inv(g, found, s) && Enabled(g, s, e)
    ensures Inv(g, found, Do(g, s, e))
  {
    match e
    case Frame(adds, removes) => FrameKeepsInv(g, found, s, adds, removes);
    case Migrate(m) => MigrateKeepsInv(g, found, s, m);
    case Apply(o) => ApplyKeepsInv(g, found, s, o);
    case ResyncApply(read, o) => ResyncKeepsInv(g, found, s, read, o);
    case Purge(read, o) => PurgeKeepsInv(g, found, s, read, o);
    case _ => MailboxKeepsInv(g, found, s, e);
  }

  lemma {:induction false} RunKeepsInv(g: Guard, found: set<Prefix>, s: System, es: seq<Event>)
    requires Inv(g, found, s) && IsRun(g, s, es)
    ensures Inv(g, found, Final(g, s, es))
    decreases |es|
  {
    if es != [] {
      StepKeepsInv(g, found, s, es[0]);
      RunKeepsInv(g, found, Do(g, s, es[0]), es[1..]);
    }
  }

  /** No run ever blocks an address the agent needs, other than through a ban that was already in force
      at start and only until the purge has gone through. */
  lemma ProtectedAddressesStayReachable(g: Guard, s: System, es: seq<Event>, a: ProtectedAddr)
    requires Start(s) && IsRun(g, s, es) && a in g.protectedAddrs
    ensures var t := Final(g, s, es);
            Blocks(Enforcing(t), a.family, a.addr) ==> !t.purged && Blocks(Enforcing(s), a.family, a.addr)
  {
    RunKeepsInv(g, Enforcing(s), s, es);
    var t := Final(g, s, es);
    if Blocks(Enforcing(t), a.family, a.addr) {
      var p :| p in Enforcing(t) && Has(p, a.family, a.addr);
      assert p in Enforcing(s);
    }
  }

  /** After the purge only prefixes the guard accepts are in force or hidden. */
  lemma PurgedKernelIsSafe(g: Guard, s: System, es: seq<Event>)
    requires Start(s) && IsRun(g, s, es) && Final(g, s, es).purged
    ensures AllSafe(g, Held(Final(g, s, es)))
  {
    RunKeepsInv(g, Enforcing(s), s, es);
  }

  // ----- Meaning: runs in which every flush and read succeeds -----

  ghost predicate Succeeds(g: Guard, s: System, e: Event) {
    match e
    case Apply(o) => s.worker.Holding? && Full(s, s.worker.add, s.worker.remove, s.worker.texts, o)
    case ResyncApply(read, o) =>
      && read.All? && s.resync.Some?
      && Full(s, ResyncAdd(s, s.resync.value, All), ResyncRemove(s, s.resync.value, All), {}, o)
    case Purge(read, o) => read.All? && Full(s, {}, PurgeRemove(g, s, All), {}, o)
    case _ => true
  }

  ghost predicate AllSucceed(g: Guard, s: System, es: seq<Event>)
    requires IsRun(g, s, es)
    decreases |es|
  {
    es == [] || (Succeeds(g, s, es[0]) && AllSucceed(g, Do(g, s, es[0]), es[1..]))
  }

  /** The entries the backend was asked to enforce. */
  ghost function Held(s: System): set<Prefix> {
    s.kernel + s.covered + s.legacy
  }

  ghost function AfterWorker(w: Worker, base: set<Prefix>): set<Prefix> {
    if w.Holding? then Overlay(base, w.add, w.remove) else base
  }

  /** What the backend will be asked to enforce once everything in flight has landed: the resync list
      or the backend's set, then the batch the worker holds, then the mailbox. */
  ghost function Goal(s: System): set<Prefix> {
    Overlay(AfterWorker(s.worker, if s.resync.Some? then s.resync.value else Held(s)), Bans(s.ops), Lifts(s.ops))
  }

  /** What one event means, without mailbox, worker or backend. */
  ghost function GoalAfter(g: Guard, s: System, e: Event, goal: set<Prefix>): set<Prefix> {
    match e
    case Frame(adds, removes) => Overlay(goal, SafeOf(g, Canonical(adds)), Canonical(removes))
    case ResyncStart(bans) => AfterWorker(s.worker, SafeOf(g, Canonical(bans)))
    case Purge(_, _) => SafeOf(g, goal)
    case _ => goal
  }

  lemma CleanDelta(kernel: set<Prefix>, covered: set<Prefix>, add: set<Prefix>, remove: set<Prefix>)
    requires Clean(kernel, covered) && add !! remove
    ensures AfterDelta(kernel, covered, add, remove) == Overlay(kernel + covered, add, remove)
    ensures Reported(kernel, covered) == kernel + covered
  {
    CleanIsCanonical(kernel, covered);
  }

  lemma FullFlush(s: System, add: set<Prefix>, remove: set<Prefix>, texts: set<Token>, o: Outcome)
    requires Clean(s.kernel, s.covered) && add !! remove && Full(s, add, remove, texts, o)
    ensures var s' := Flushed(s, add, remove, texts, o);
            Clean(s'.kernel, s'.covered) && Held(s') == Overlay(Held(s), add, remove)
  {
    CleanDelta(s.kernel, s.covered, add, remove);
    if !Idles(add, remove, texts) { SplitIsClean(AfterDelta(s.kernel, s.covered, add, remove)); }
  }

  lemma CleanReport(s: System)
    requires Clean(s.kernel, s.covered)
    ensures Report(s, All) == Held(s)
  {
    CleanDelta(s.kernel, s.covered, {}, {});
  }

  /** What remains in flight after a step that changed only the backend. */
  lemma PurgeMeaning(g: Guard, found: set<Prefix>, s: System, o: Outcome)
    requires Inv(g, found, s) && Clean(s.kernel, s.covered) && s.resync.None?
    requires Enabled(g, s, Purge(All, o)) && Full(s, {}, PurgeRemove(g, s, All), {}, o)
    ensures var s' := Do(g, s, Purge(All, o)); Clean(s'.kernel, s'.covered) && Goal(s') == SafeOf(g, Goal(s))
  {
    CleanReport(s);
    FullFlush(s, {}, PurgeRemove(g, s, All), {}, o);
  }

  lemma MigrationMeaning(g: Guard, s: System, m: Copying)
    requires Enabled(g, s, Migrate(m)) && Antichain(s.kernel) && Hosts4(s.legacy) && s.covered == {}
    ensures var s' := Do(g, s, Migrate(m)); Clean(s'.kernel, s'.covered) && Goal(s') == Goal(s)
  {
    MigrationKeeps(g, s, m, V4, 0);
  }

  lemma FrameMeaning(g: Guard, s: System, adds: seq<Token>, removes: seq<Token>)
    requires Clean(s.kernel, s.covered)
    ensures var s' := Do(g, s, Frame(adds, removes));
            Clean(s'.kernel, s'.covered) && Goal(s') == Overlay(Goal(s), SafeOf(g, Canonical(adds)), Canonical(removes))
  {
    var add, remove := SafeOf(g, Canonical(adds)), Canonical(removes);
    MergeIsSequential(AfterWorker(s.worker, if s.resync.Some? then s.resync.value else Held(s)),
                      s.ops, MergedOps(s.ops, add, remove), add, remove);
  }

  lemma ResyncMeaning(s: System, want: set<Prefix>, o: Outcome)
    requires Clean(s.kernel, s.covered) && Full(s, ResyncAdd(s, want, All), ResyncRemove(s, want, All), {}, o)
    ensures var t := Flushed(s, ResyncAdd(s, want, All), ResyncRemove(s, want, All), {}, o);
            Clean(t.kernel, t.covered) && Held(t) == want
  {
    CleanReport(s);
    FullFlush(s, ResyncAdd(s, want, All), ResyncRemove(s, want, All), {}, o);
    assert Overlay(Held(s), want - Held(s), Held(s) - want) == want;
  }

  /** Every step keeps the state clean and the goal, except that frames, resyncs and the purge change
      the goal by what they mean. */
  lemma StepMeaning(g: Guard, found: set<Prefix>, s: System, e: Event)
    requires Inv(g, found, s) && Clean(s.kernel, s.covered)
    requires Enabled(g, s, e) && Succeeds(g, s, e)
    ensures var s' := Do(g, s, e);
            Clean(s'.kernel, s'.covered) && Goal(s') == GoalAfter(g, s, e, Goal(s))
  {
    match e
    case Frame(adds, removes) => FrameMeaning(g, s, adds, removes);
    case Signal =>
    case Wake =>
    case Take =>
      assert Bans(map[]) == {} && Lifts(map[]) == {};
    case Migrate(m) => MigrationMeaning(g, s, m);
    case Apply(o) => FullFlush(s, s.worker.add, s.worker.remove, s.worker.texts, o);
    case ResyncStart(bans) =>
      assert Bans(map[]) == {} && Lifts(map[]) == {};
    case ResyncApply(read, o) => ResyncMeaning(s, s.resync.value, o);
    case Purge(read, o) => PurgeMeaning(g, found, s, o);
  }

  /** The goal of a run, event by event. */
  ghost function GoalOf(g: Guard, s: System, es: seq<Event>, goal: set<Prefix>): set<Prefix>
    requires IsRun(g, s, es)
    decreases |es|
  {
    if es == [] then goal else GoalOf(g, Do(g, s, es[0]), es[1..], GoalAfter(g, s, es[0], goal))
  }

  lemma {:induction false} RunMeaning(g: Guard, found: set<Prefix>, s: System, es: seq<Event>)
    requires Inv(g, found, s) && Clean(s.kernel, s.covered)
    requires IsRun(g, s, es) && AllSucceed(g, s, es)
    ensures var t := Final(g, s, es);
            Clean(t.kernel, t.covered) && Goal(t) == GoalOf(g, s, es, Goal(s))
    decreases |es|
  {
    if es != [] {
      StepMeaning(g, found, s, es[0]);
      StepKeepsInv(g, found, s, es[0]);
      RunMeaning(g, found, Do(g, s, es[0]), es[1..]);
    }
  }

  /** The deltas of a run applied one by one, in order, to a set. */
  ghost function Deltas(g: Guard, es: seq<Event>, s: set<Prefix>): set<Prefix> {
    if es == [] then s
    else
      var next := if es[0].Frame? then Overlay(s, SafeOf(g, Canonical(es[0].adds)), Canonical(es[0].removes)) else s;
      Deltas(g, es[1..], next)
  }

  lemma {:induction false} GoalIsDeltas(g: Guard, s: System, es: seq<Event>, goal: set<Prefix>)
    requires IsRun(g, s, es) && forall e :: e in es ==> !e.ResyncStart? && !e.Purge?
    ensures GoalOf(g, s, es, goal) == Deltas(g, es, goal)
    decreases |es|
  {
    if es != [] {
      forall e | e in es[1..] ensures e in es {}
      assert es[0] in es;
      GoalIsDeltas(g, Do(g, s, es[0]), es[1..], GoalAfter(g, s, es[0], goal));
    }
  }

  // ----- Nothing is stranded -----

  ghost predicate Internal(e: Event) {
    e.Signal? || e.Wake? || e.Take? || e.Migrate? || e.Apply? || e.ResyncApply?
  }

  /** The internal steps left at most. */
  function Work(s: System): nat {
    (if s.started then 0 else 1) + 5 * s.queuers + (if s.signal then 4 else 0) + (if s.resync.Some? then 1 else 0) +
    match s.worker { case Idle => 0 case Woken => 3 case Holding(_, _, _) => 2 }
  }

  lemma InternalStepsEnd(g: Guard, s: System, e: Event)
    requires Enabled(g, s, e) && Internal(e)
    ensures Work(Do(g, s, e)) < Work(s)
  {
  }

  /** Without new frames every run of internal steps is bounded. */
  lemma {:induction false} InternalRunsEnd(g: Guard, s: System, es: seq<Event>)
    requires IsRun(g, s, es) && forall e :: e in es ==> Internal(e)
    ensures |es| + Work(Final(g, s, es)) <= Work(s)
    decreases |es|
  {
    if es != [] {
      assert es[0] in es;
      InternalStepsEnd(g, s, es[0]);
      forall e | e in es[1..] ensures e in es {}
      InternalRunsEnd(g, Do(g, s, es[0]), es[1..]);
    }
  }

  lemma DoneIsPossible(s: System, add: set<Prefix>, remove: set<Prefix>)
    ensures Possible(s, add, remove, Done(s, add, remove))
  {
    MaximalIsAntichain(AfterDelta(s.kernel, s.covered, add, remove));
  }

  /** A state with work left has an internal step, and it can succeed. */
  lemma WorkCanGoOn(g: Guard, found: set<Prefix>, s: System) returns (e: Event)
    requires Inv(g, found, s) && Work(s) > 0
    ensures Internal(e) && Enabled(g, s, e) && Succeeds(g, s, e)
  {
    if !s.started {
      e := Migrate(Skipped);
    } else if s.resync.Some? {
      var add, remove := ResyncAdd(s, s.resync.value, All), ResyncRemove(s, s.resync.value, All);
      DoneIsPossible(s, add, remove);
      e := ResyncApply(All, Done(s, add, remove));
    } else if s.queuers > 0 {
      e := Signal;
    } else if s.worker.Woken? {
      e := Take;
    } else if s.worker.Holding? {
      DoneIsPossible(s, s.worker.add, s.worker.remove);
      e := Apply(Done(s, s.worker.add, s.worker.remove));
    } else {
      e := Wake;
    }
  }

  /** With no work left nothing is pending anywhere: the host blocks exactly the addresses of the goal,
      the report is the goal itself, and without a pre-interval set the kernel holds exactly the maximal
      entries. */
  lemma QuietMeansEnforced(g: Guard, found: set<Prefix>, s: System, f: Family, a: nat)
    requires Inv(g, found, s) && Clean(s.kernel, s.covered) && Work(s) == 0
    ensures Report(s, All) == Goal(s) && (Blocks(Enforcing(s), f, a) <==> Blocks(Goal(s), f, a))
    ensures s.legacy == {} ==> s.kernel == Maximal(Goal(s))
  {
    assert s.ops == map[] && s.texts == {};
    assert Bans(s.ops) == {} && Lifts(s.ops) == {};
    CleanReport(s);
    CleanIsCanonical(s.kernel, s.covered);
    EnforcingHeld(s, f, a);
    if s.legacy == {} { assert Held(s) == s.kernel + s.covered; }
  }

  lemma EnforcingHeld(s: System, f: Family, a: nat)
    requires Clean(s.kernel, s.covered)
    ensures Blocks(Enforcing(s), f, a) <==> Blocks(Held(s), f, a)
  {
    CleanIsCanonical(s.kernel, s.covered);
    if Blocks(Held(s), f, a) {
      var p :| p in Held(s) && Has(p, f, a);
      if p !in s.legacy {
        assert Blocks(s.kernel + s.covered, f, a);
        MaximalBlocksAll(s.kernel + s.covered, f, a);
        var q :| q in s.kernel && Has(q, f, a);
        assert q in Enforcing(s);
      }
    }
    if Blocks(Enforcing(s), f, a) {
      var p :| p in Enforcing(s) && Has(p, f, a);
      assert p in Held(s);
    }
  }

  /** End to end, without resync or purge: when a run of frames, in any interleaving with the worker, has
      come to rest, the host blocks exactly what the deltas applied one by one to the initial set ask
      for, and reports exactly that set. */
  lemma DeltasAreEnforced(g: Guard, s: System, es: seq<Event>, f: Family, a: nat)
    requires Start(s) && IsRun(g, s, es) && AllSucceed(g, s, es)
    requires forall e :: e in es ==> !e.ResyncStart? && !e.Purge?
    requires Work(Final(g, s, es)) == 0
    ensures var t, want := Final(g, s, es), Deltas(g, es, Enforcing(s));
            && Report(t, All) == want && (Blocks(Enforcing(t), f, a) <==> Blocks(want, f, a))
            && (t.legacy == {} ==> t.kernel == Maximal(want))
  {
    RunKeepsInv(g, Enforcing(s), s, es);
    assert Goal(s) == Enforcing(s);
    RunMeaning(g, Enforcing(s), s, es);
    GoalIsDeltas(g, s, es, Goal(s));
    QuietMeansEnforced(g, Enforcing(s), Final(g, s, es), f, a);
  }

  /** A resync makes the enforced set the sent list at the moment its lock is released. */
  lemma ResyncEnforcesItsList(g: Guard, found: set<Prefix>, s: System, o: Outcome, f: Family, a: nat)
    requires Inv(g, found, s) && Clean(s.kernel, s.covered) && s.resync.Some?
    requires Enabled(g, s, ResyncApply(All, o)) && Succeeds(g, s, ResyncApply(All, o))
    ensures var t, want := Do(g, s, ResyncApply(All, o)), s.resync.value;
            && Report(t, All) == want && (Blocks(Enforcing(t), f, a) <==> Blocks(want, f, a))
            && (t.legacy == {} ==> t.kernel == Maximal(want))
  {
    ResyncMeaning(s, s.resync.value, o);
    var t := Do(g, s, ResyncApply(All, o));
    CleanReport(t);
    EnforcingHeld(t, f, a);
    if t.legacy == {} {
      CleanIsCanonical(t.kernel, t.covered);
      assert Held(t) == t.kernel + t.covered;
    }
  }

  lemma NoDifference<T>(a: set<T>, b: set<T>)
    ensures a - b + (b - a) == {} ==> a == b
  {
    var apart := a - b + (b - a);
    if apart == {} {
      forall x ensures x in a <==> x in b { assert x !in apart; }
    }
  }

  /** From any reachable state, whatever failed before: a resync that goes through leaves a clean state
      unless it found nothing to change, and the report is its list if and only if there was nothing to
      change or the list holds every entry the report could not tell apart (in both parts, or hidden by
      nothing). */
  lemma ResyncHeals(g: Guard, found: set<Prefix>, s: System, o: Outcome)
    requires Inv(g, found, s) && s.resync.Some?
    requires Enabled(g, s, ResyncApply(All, o)) && Succeeds(g, s, ResyncApply(All, o))
    ensures var t, want, seen := Do(g, s, ResyncApply(All, o)), s.resync.value, Report(s, All);
            && (Clean(t.kernel, t.covered) <==> want != seen || Clean(s.kernel, s.covered))
            && (Report(t, All) == want
                <==> want == seen || Blind(s) <= want)
  {
    var want, seen := s.resync.value, Report(s, All);
    var add, remove := ResyncAdd(s, want, All), ResyncRemove(s, want, All);
    if want == seen {
      assert add + remove == {};
    } else {
      NoDifference(want, seen);
      assert add + remove != {};
      SplitIsClean(AfterDelta(s.kernel, s.covered, add, remove));
      forall p | p in Blind(s) && p !in want
        ensures p in AfterDelta(s.kernel, s.covered, add, remove)
      {
      }
    }
  }

  // ----- Runs that show the conditions are met -----

  lemma {:induction false} RunConcat(g: Guard, s: System, a: seq<Event>, b: seq<Event>)
    requires IsRun(g, s, a) && IsRun(g, Final(g, s, a), b)
    ensures IsRun(g, s, a + b) && Final(g, s, a + b) == Final(g, Final(g, s, a), b)
    decreases |a|
  {
    if a == [] {
      assert a + b == b;
    } else {
      var ab := a + b;
      assert ab[0] == a[0] && ab[1..] == a[1..] + b;
      RunConcat(g, Do(g, s, a[0]), a[1..], b);
    }
  }

  lemma RunOne(g: Guard, s: System, e: Event)
    requires Enabled(g, s, e)
    ensures IsRun(g, s, [e]) && Final(g, s, [e]) == Do(g, s, e)
  {
    assert [e][1..] == [];
  }

  lemma RunThen(g: Guard, s: System, es: seq<Event>, e: Event)
    requires IsRun(g, s, es) && Enabled(g, Final(g, s, es), e)
    ensures IsRun(g, s, es + [e]) && Final(g, s, es + [e]) == Do(g, Final(g, s, es), e)
  {
    RunOne(g, Final(g, s, es), e);
    RunConcat(g, s, es, [e]);
  }

  /** Nothing in flight. */
  ghost predicate AtRest(s: System) {
    Work(s) == 0 && s.ops == map[] && s.texts == {}
  }

  /** A process after its first backend call, with nothing in flight. */
  ghost function Resting(kernel: set<Prefix>, covered: set<Prefix>): System {
    System(kernel, covered, {}, map[], {}, false, 0, Idle, None, true, false)
  }

  /** A delta up to the worker holding it. */
  ghost function Taking(adds: seq<Token>, removes: seq<Token>): seq<Event> {
    [Frame(adds, removes)] + [Signal] + [Wake] + [Take]
  }

  ghost function Round(adds: seq<Token>, removes: seq<Token>, o: Outcome): seq<Event> {
    Taking(adds, removes) + [Apply(o)]
  }

  lemma FrameStep(g: Guard, s: System, adds: seq<Token>, removes: seq<Token>, ops: Ops)
    requires AtRest(s) && !Idles(SafeOf(g, Canonical(adds)), Canonical(removes), Texts(removes))
    requires ops == MergedOps(map[], SafeOf(g, Canonical(adds)), Canonical(removes))
    ensures IsRun(g, s, [Frame(adds, removes)])
    ensures Final(g, s, [Frame(adds, removes)]) == s.(ops := ops, texts := Texts(removes), queuers := 1)
  {
    RunOne(g, s, Frame(adds, removes));
  }

  /** The mailbox reaches the worker. */
  lemma HandOver(g: Guard, s: System)
    requires s.started && s.resync.None? && s.worker.Idle? && !s.signal && s.queuers == 1
    requires s.ops != map[] || s.texts != {}
    ensures IsRun(g, s, [Signal] + [Wake] + [Take])
    ensures Final(g, s, [Signal] + [Wake] + [Take])
            == s.(ops := map[], texts := {}, queuers := 0, worker := Holding(Bans(s.ops), Lifts(s.ops), s.texts))
  {
    RunOne(g, s, Signal);
    RunThen(g, s, [Signal], Wake);
    RunThen(g, s, [Signal] + [Wake], Take);
  }

  lemma BatchTaken(g: Guard, s: System, adds: seq<Token>, removes: seq<Token>)
    requires AtRest(s) && SafeOf(g, Canonical(adds)) !! Canonical(removes)
    requires !Idles(SafeOf(g, Canonical(adds)), Canonical(removes), Texts(removes))
    ensures IsRun(g, s, Taking(adds, removes))
    ensures Final(g, s, Taking(adds, removes))
            == s.(worker := Holding(SafeOf(g, Canonical(adds)), Canonical(removes), Texts(removes)))
  {
    var add, remove := SafeOf(g, Canonical(adds)), Canonical(removes);
    var ops := MergedOps(map[], add, remove);
    assert Bans(ops) == add && Lifts(ops) == remove;
    assert ops == map[] ==> add + remove == {};
    FrameStep(g, s, adds, removes, ops);
    HandOver(g, s.(ops := ops, texts := Texts(removes), queuers := 1));
    RunConcat(g, s, [Frame(adds, removes)], [Signal] + [Wake] + [Take]);
    assert Taking(adds, removes) == [Frame(adds, removes)] + ([Signal] + [Wake] + [Take]);
  }

  /** One delta from frame to flush, with nothing in between. */
  lemma DeltaRound(g: Guard, s: System, adds: seq<Token>, removes: seq<Token>, o: Outcome)
    requires AtRest(s) && SafeOf(g, Canonical(adds)) !! Canonical(removes)
    requires !Idles(SafeOf(g, Canonical(adds)), Canonical(removes), Texts(removes))
    requires Possible(s, SafeOf(g, Canonical(adds)), Canonical(removes), o)
    ensures IsRun(g, s, Round(adds, removes, o))
    ensures Final(g, s, Round(adds, removes, o))
            == Flushed(s, SafeOf(g, Canonical(adds)), Canonical(removes), Texts(removes), o)
  {
    BatchTaken(g, s, adds, removes);
    RunThen(g, s, Taking(adds, removes), Apply(o));
  }

  /** A network lands over an element while the kernel refuses both the delete and the add: the element
      ends in both parts. */
  lemma RefusedRound(g: Guard, s: System, net: Prefix, h: Prefix, addNet: Token, o: Outcome)
    requires StrictlyCovers(net, h) && Safe(g, net) && CanonicalBanEntry(addNet) == Some(net)
    requires s == Resting({h}, {}) && o == Listed({h}, {})
    ensures IsRun(g, s, Round([addNet], [], o)) && Final(g, s, Round([addNet], [], o)) == Resting({h}, {h})
  {
    assert Canonical([addNet]) == {net} && Canonical([]) == {} && Texts([]) == {};
    assert SafeOf(g, {net}) == {net};
    HiddenBy(net, h);
    var all := AfterDelta({h}, {}, {net}, {});
    assert all == {h, net} && Maximal(all) == {net} && all - Maximal(all) == {h};
    DeltaRound(g, s, [addNet], [], o);
  }

  /** From there a lift in which every command succeeds leaves the element where it is. */
  lemma LiftIsSwallowed(g: Guard, s: System, h: Prefix, liftH: Token, o: Outcome)
    requires s == Resting({h}, {h}) && CanonicalBanEntry(liftH) == Some(h)
    requires o == Done(s, {}, {h})
    ensures IsRun(g, s, Round([], [liftH], o)) && Final(g, s, Round([], [liftH], o)).kernel == {h}
  {
    assert Canonical([liftH]) == {h} && Canonical([]) == {} && SafeOf(g, {}) == {} && Texts([liftH]) == {};
    assert AfterDelta({h}, {h}, {}, {h}) == {h} && Maximal({h}) == {h};
    DoneIsPossible(s, {}, {h});
    DeltaRound(g, s, [], [liftH], o);
  }

  /** A process starts over an element, and its first round is refused. */
  lemma StartAndRefuse(g: Guard, net: Prefix, h: Prefix, addNet: Token) returns (s: System, es: seq<Event>)
    requires StrictlyCovers(net, h) && Safe(g, net) && CanonicalBanEntry(addNet) == Some(net)
    ensures Start(s) && es == [Migrate(Skipped)] + Round([addNet], [], Listed({h}, {}))
    ensures IsRun(g, s, es) && Final(g, s, es) == Resting({h}, {h})
  {
    HiddenBy(net, h);
    s := Resting({h}, {}).(started := false);
    RunOne(g, s, Migrate(Skipped));
    assert Final(g, s, [Migrate(Skipped)]) == Resting({h}, {});
    RefusedRound(g, Resting({h}, {}), net, h, addNet, Listed({h}, {}));
    RunConcat(g, s, [Migrate(Skipped)], Round([addNet], [], Listed({h}, {})));
    es := [Migrate(Skipped)] + Round([addNet], [], Listed({h}, {}));
  }

  /** So from a start state an entry can come to need two lifts: after a round whose commands are refused
      it is in both parts, and after a further one that lifts it, all commands succeeding, it is still in
      force and reported. */
  lemma LiftNeedsTwoRounds(g: Guard, net: Prefix, h: Prefix, addNet: Token, liftH: Token)
    returns (s: System, first: seq<Event>, second: seq<Event>)
    requires StrictlyCovers(net, h) && Safe(g, net)
    requires CanonicalBanEntry(addNet) == Some(net) && CanonicalBanEntry(liftH) == Some(h)
    ensures Start(s) && IsRun(g, s, first) && Final(g, s, first) == Resting({h}, {h})
    ensures second == Round([], [liftH], Done(Resting({h}, {h}), {}, {h}))
    ensures IsRun(g, s, first + second) && h in Report(Final(g, s, first + second), All)
  {
    s, first := StartAndRefuse(g, net, h, addNet);
    second := Round([], [liftH], Done(Resting({h}, {h}), {}, {h}));
    LiftIsSwallowed(g, Resting({h}, {h}), h, liftH, Done(Resting({h}, {h}), {}, {h}));
    RunConcat(g, s, first, second);
  }

  ghost function Resync(bans: seq<Token>, o: Outcome): seq<Event> {
    [ResyncStart(bans)] + [ResyncApply(All, o)]
  }

  lemma ResyncRound(g: Guard, s: System, bans: seq<Token>, o: Outcome)
    requires s.started && s.resync.None?
    requires var want := SafeOf(g, Canonical(bans)); Possible(s, ResyncAdd(s, want, All), ResyncRemove(s, want, All), o)
    ensures IsRun(g, s, Resync(bans, o))
    ensures var want := SafeOf(g, Canonical(bans));
            Final(g, s, Resync(bans, o))
            == Flushed(s, ResyncAdd(s, want, All), ResyncRemove(s, want, All), {}, o).(ops := map[], texts := {})
  {
    var want := SafeOf(g, Canonical(bans));
    var s1 := s.(ops := map[], texts := {}, resync := Some(want));
    RunOne(g, s, ResyncStart(bans));
    assert Final(g, s, [ResyncStart(bans)]) == s1;
    assert Report(s1, All) == Report(s, All) && Enabled(g, s1, ResyncApply(All, o));
    RunThen(g, s, [ResyncStart(bans)], ResyncApply(All, o));
  }

  /** A resync that heals nothing: its list is what is reported, so it changes nothing, and the entry in
      both parts stays there. */
  lemma ResyncFindsNothing(g: Guard, net: Prefix, h: Prefix, addNet: Token, listH: Token)
    returns (s: System, first: seq<Event>, second: seq<Event>)
    requires StrictlyCovers(net, h) && Safe(g, net)
    requires CanonicalBanEntry(addNet) == Some(net) && CanonicalBanEntry(listH) == Some(h)
    ensures Start(s) && IsRun(g, s, first) && second == Resync([listH], NotListed) && IsRun(g, s, first + second)
    ensures var t := Final(g, s, first + second);
            t == Resting({h}, {h}) && Report(t, All) == SafeOf(g, Canonical([listH])) && !Clean(t.kernel, t.covered)
  {
    s, first := StartAndRefuse(g, net, h, addNet);
    second := Resync([listH], NotListed);
    SafeInside(g, net, h);
    var t := Resting({h}, {h});
    OneListed(g, listH, h);
    assert Report(t, All) == {h};
    ResyncRound(g, t, [listH], NotListed);
    assert t.(ops := map[], texts := {}) == t;
    RunConcat(g, s, first, second);
    assert !CoveredBy(h, {h});
  }

  lemma OneListed(g: Guard, listH: Token, h: Prefix)
    requires CanonicalBanEntry(listH) == Some(h) && Safe(g, h)
    ensures Canonical([listH]) == {h} && SafeOf(g, {h}) == {h}
  {
  }

  lemma HiddenBy(net: Prefix, h: Prefix)
    requires StrictlyCovers(net, h)
    ensures net != h && Maximal({h, net}) == {net} && Antichain({h}) && Maximal({h}) == {h}
  {
    StrictCoverIsBroader(net, h);
    assert CoveredBy(h, {h, net}) by { assert net in {h, net}; }
  }

  lemma FirstStep(g: Guard, s: System, e: Event, es: seq<Event>)
    requires es != [] && es[0] == e && IsRun(g, s, es) && AllSucceed(g, s, es)
    ensures Enabled(g, s, e) && Succeeds(g, s, e)
    ensures var s' := Do(g, s, e);
            IsRun(g, s', es[1..]) && AllSucceed(g, s', es[1..]) && Final(g, s, es) == Final(g, s', es[1..])
  {
  }

  lemma LandsAfter(g: Guard, s: System, want: set<Prefix>, o: Outcome)
    requires Clean(s.kernel, s.covered) && Held(s) == want && s.worker.Holding? && s.worker.add !! s.worker.remove
    requires Enabled(g, s, Apply(o)) && Succeeds(g, s, Apply(o))
    ensures var t := Do(g, s, Apply(o));
            && Report(t, All) == Held(t)
            && (Held(t) == want <==> s.worker.add <= want && s.worker.remove !! want)
  {
    FullFlush(s, s.worker.add, s.worker.remove, s.worker.texts, o);
    CleanReport(Do(g, s, Apply(o)));
  }

  /** A batch the worker took before a resync lands after it. Run from a clean state through the resync
      and the batch, everything succeeding: what is held and reported in the end is the list of the
      resync if and only if the batch bans nothing outside the list and lifts nothing inside it. */
  lemma HeldBatchAfterResync(g: Guard, found: set<Prefix>, s: System, bans: seq<Token>, o1: Outcome, o2: Outcome,
                             es: seq<Event>)
    requires Inv(g, found, s) && Clean(s.kernel, s.covered) && s.worker.Holding? && s.resync.None?
    requires es == [ResyncStart(bans), ResyncApply(All, o1), Apply(o2)]
    requires IsRun(g, s, es) && AllSucceed(g, s, es)
    ensures var t, want := Final(g, s, es), SafeOf(g, Canonical(bans));
            && Report(t, All) == Held(t)
            && (Held(t) == want <==> s.worker.add <= want && s.worker.remove !! want)
  {
    var want := SafeOf(g, Canonical(bans));
    FirstStep(g, s, es[0], es);
    var s1 := Do(g, s, es[0]);
    FirstStep(g, s1, es[1], es[1..]);
    ResyncMeaning(s1, want, o1);
    var s2 := Do(g, s1, es[1]);
    assert es[1..][1..] == [es[2]] && [es[2]][1..] == [];
    FirstStep(g, s2, es[2], [es[2]]);
    LandsAfter(g, s2, want, o2);
  }

  /** A run in which the list of a resync does not survive: the batch that bans a network was taken before
      the resync to an empty list, and the network is in force afterwards. */
  lemma HeldBatchOverrides(g: Guard, net: Prefix, addNet: Token)
    returns (s: System, before: seq<Event>, after: seq<Event>)
    requires Safe(g, net) && CanonicalBanEntry(addNet) == Some(net)
    ensures Start(s) && IsRun(g, s, before) && Final(g, s, before).worker == Holding({net}, {}, {})
    ensures after == Resync([], NotListed) + [Apply(Listed({net}, {}))]
    ensures IsRun(g, s, before + after) && Report(Final(g, s, before + after), All) == {net}
  {
    s := Resting({}, {}).(started := false);
    var held := Resting({}, {}).(worker := Holding({net}, {}, {}));
    before := TakeOne(g, s, net, addNet);
    assert Canonical([]) == {} && SafeOf(g, {}) == {};
    ResyncRound(g, held, [], NotListed);
    assert Final(g, held, Resync([], NotListed)) == held;
    assert Maximal({net}) == {net} && AfterDelta({}, {}, {net}, {}) == {net};
    RunThen(g, held, Resync([], NotListed), Apply(Listed({net}, {})));
    after := Resync([], NotListed) + [Apply(Listed({net}, {}))];
    RunConcat(g, s, before, after);
  }

  /** A process start up to the worker holding one ban. */
  lemma TakeOne(g: Guard, s: System, net: Prefix, addNet: Token) returns (es: seq<Event>)
    requires s == Resting({}, {}).(started := false) && Safe(g, net) && CanonicalBanEntry(addNet) == Some(net)
    ensures IsRun(g, s, es) && Final(g, s, es) == Resting({}, {}).(worker := Holding({net}, {}, {}))
  {
    assert Canonical([addNet]) == {net} && Canonical([]) == {} && Texts([]) == {} && SafeOf(g, {net}) == {net};
    RunOne(g, s, Migrate(Skipped));
    assert Final(g, s, [Migrate(Skipped)]) == Resting({}, {});
    BatchTaken(g, Resting({}, {}), [addNet], []);
    RunConcat(g, s, [Migrate(Skipped)], Taking([addNet], []));
    es := [Migrate(Skipped)] + Taking([addNet], []);
  }
}
