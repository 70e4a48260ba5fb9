/** The WFP backend while several goroutines use it: bans and unbans arrive between any two batches of a
    flush, and resync ticks between any two flushes. Aborts are taken to succeed here. */
module WfpRuns {
  import opened Prefixes
  import opened IntervalSet
  import opened WfpFilters
  import opened WfpBackend
  import opened Chunks

  /** What a flush under way has: the books and the desired set it started from, its ops, how far it is,
      and the ops that took effect. */
  datatype Phase = Idle | Flushing(from: Books, want: set<Prefix>, ops: seq<Op>, start: nat, log: seq<Op>)

  datatype State = State(books: Books, desired: set<Prefix>, phase: Phase)

  /** BanIP and UnbanIP; the snapshot of a flush, one of its batches with the ops that took effect, its
      end; and the read of a resync, which replaces the mirror. */
  datatype Event = Ban(key: Prefix) | Unban(key: Prefix) | Begin(ops: seq<Op>) | Batch(committed: seq<Op>) | End | Read

  function BatchEnd(ops: seq<Op>, start: nat): nat {
    if start + WFP_BATCH_SIZE > |ops| then |ops| else start + WFP_BATCH_SIZE
  }

  /** The entries with their own filter in the current form, by id. */
  ghost function EntriesOf(filters: Filters): map<Prefix, RuleId> {
    map id | id in filters && id.KeyId? && Enforced(filters, id.entry) :: id.entry := id
  }

  /** What a read of the engine gives. */
  ghost function ReadBooks(filters: Filters): Books {
    Books(filters, EntriesOf(filters), set id | id in filters && !(id.KeyId? && Enforced(filters, id.entry)))
  }

  ghost predicate Enabled(s: State, e: Event) {
    match e
    case Ban(_) => true
    case Unban(_) => true
    case Begin(ops) =>
      && s.phase.Idle? && FlushLog(ops, s.desired, s.books.applied, s.books.stale)
      && Complete(ops, s.desired, s.books.applied, s.books.stale)
    case Batch(committed) =>
      && s.phase.Flushing? && s.phase.start < |s.phase.ops|
      && Subsequence(committed, s.phase.ops[s.phase.start..BatchEnd(s.phase.ops, s.phase.start)])
    case End => s.phase.Flushing? && s.phase.start >= |s.phase.ops|
    case Read => s.phase.Idle?
  }

  function Wanted(desired: set<Prefix>, e: Event): set<Prefix> {
    match e
    case Ban(k) => if k in desired || |desired| < WFP_MAX_FILTERS then desired + {k} else desired
    case Unban(k) => desired - {k}
    case _ => desired
  }

  ghost function Do(s: State, e: Event): State
    requires Enabled(s, e)
  {
    match e
    case Ban(_) => s.(desired := Wanted(s.desired, e))
    case Unban(_) => s.(desired := Wanted(s.desired, e))
    case Begin(ops) => s.(phase := Flushing(s.books, s.desired, ops, 0, []))
    case Batch(committed) =>
      var b, p := s.books, s.phase;
      State(Books(EffectAll(b.filters, committed), AppliedAll(b.applied, committed), b.stale), s.desired,
            p.(start := BatchEnd(p.ops, p.start), log := p.log + committed))
    case End =>
      var b := s.books;
      State(b.(stale := set id | id in b.stale && DeleteStale(id) !in s.phase.log), s.desired, Idle)
    case Read => s.(books := ReadBooks(s.books.filters))
  }

  ghost predicate IsRun(s: State, es: seq<Event>)
    decreases |es|
  {
    es == [] || (Enabled(s, es[0]) && IsRun(Do(s, es[0]), es[1..]))
  }

  ghost function Final(s: State, es: seq<Event>): State
    requires IsRun(s, es)
    decreases |es|
  {
    if es == [] then s else Final(Do(s, es[0]), es[1..])
  }

  lemma {:induction false} RunConcat(s: State, a: seq<Event>, b: seq<Event>)
    requires IsRun(s, a) && IsRun(Final(s, a), b)
    ensures IsRun(s, a + b) && Final(s, a + b) == Final(Final(s, a), b)
    decreases |a|
  {
    if a == [] {
      assert a + b == b;
    } else {
      var next, rest := Do(s, a[0]), a[1..];
      RunConcat(next, rest, b);
      FirstThenRest(a, b);
      Prepend(s, a[0], next, rest + b);
    }
  }

  lemma FirstThenRest(a: seq<Event>, b: seq<Event>)
    requires a != []
    ensures a + b == [a[0]] + (a[1..] + b)
  {
  }

  lemma Prepend(s: State, e: Event, next: State, es: seq<Event>)
    requires Enabled(s, e) && next == Do(s, e) && IsRun(next, es)
    ensures IsRun(s, [e] + es) && Final(s, [e] + es) == Final(next, es)
  {
    assert ([e] + es)[1..] == es;
  }

  lemma {:induction false} RunSplit(s: State, a: seq<Event>, b: seq<Event>)
    requires IsRun(s, a + b)
    ensures IsRun(s, a) && IsRun(Final(s, a), b) && Final(s, a + b) == Final(Final(s, a), b)
    decreases |a|
  {
    if a == [] {
      assert a + b == b;
    } else {
      assert (a + b)[1..] == a[1..] + b;
      RunSplit(Do(s, a[0]), a[1..], b);
    }
  }

  lemma RunMore(s: State, es: seq<Event>, e: Event)
    requires IsRun(s, es) && Enabled(Final(s, es), e)
    ensures IsRun(s, es + [e]) && Final(s, es + [e]) == Do(Final(s, es), e)
  {
    assert [e][1..] == [];
    assert IsRun(Final(s, es), [e]);
    RunConcat(s, es, [e]);
  }

  ghost predicate Tracks(s: State, es: seq<Event>, now: State) {
    IsRun(s, es) && Final(s, es) == now
  }

  lemma TracksOne(s: State, e: Event)
    requires Enabled(s, e)
    ensures Tracks(s, [e], Do(s, e))
  {
    assert [e][1..] == [];
  }

  lemma TracksMore(s: State, es: seq<Event>, now: State, e: Event)
    requires Tracks(s, es, now) && Enabled(now, e)
    ensures Tracks(s, es + [e], Do(now, e))
  {
    RunMore(s, es, e);
  }

  lemma TracksThen(s: State, es: seq<Event>, now: State, more: seq<Event>, then_: State)
    requires Tracks(s, es, now) && Tracks(now, more, then_)
    ensures Tracks(s, es + more, then_)
  {
    RunConcat(s, es, more);
  }

  // ----- Every run -----

  /** A flush under way has done to the books it started from what its ops that took effect do. */
  ghost predicate Inv(s: State) {
    && OwnIds(s.books.applied)
    && (s.phase.Flushing? ==>
          var p := s.phase;
          && OwnIds(p.from.applied) && p.start <= |p.ops| && Subsequence(p.log, p.ops[..p.start])
          && FlushLog(p.ops, p.want, p.from.applied, p.from.stale)
          && Complete(p.ops, p.want, p.from.applied, p.from.stale)
          && s.books == Books(EffectAll(p.from.filters, p.log), AppliedAll(p.from.applied, p.log), p.from.stale))
  }

  lemma {:induction false} AppliedOwn(applied: map<Prefix, RuleId>, log: seq<Op>)
    requires OwnIds(applied)
    ensures OwnIds(AppliedAll(applied, log))
    decreases |log|
  {
    if log != [] { AppliedOwn(applied, log[..|log| - 1]); }
  }

  lemma BatchKeepsInv(s: State, committed: seq<Op>)
    requires Inv(s) && Enabled(s, Batch(committed))
    ensures Inv(Do(s, Batch(committed)))
  {
    var p := s.phase;
    BatchLog(p.from.filters, p.from.applied, p.ops, p.start, BatchEnd(p.ops, p.start), p.log, committed);
    AppliedOwn(s.books.applied, committed);
  }

  lemma StepKeepsInv(s: State, e: Event)
    requires Inv(s) && Enabled(s, e)
    ensures Inv(Do(s, e))
  {
    match e
    case Batch(committed) => BatchKeepsInv(s, committed);
    case Begin(ops) => assert ops[..0] == [];
    case _ =>
  }

  lemma {:induction false} RunKeepsInv(s: State, es: seq<Event>)
    requires Inv(s) && IsRun(s, es)
    ensures Inv(Final(s, es))
    decreases |es|
  {
    if es != [] {
      StepKeepsInv(s, es[0]);
      RunKeepsInv(Do(s, es[0]), es[1..]);
    }
  }

  /** The end of a flush, whatever was banned and unbanned and whatever failed meanwhile, leaves what a
      flush alone would: the fate of each entry is decided by the books and the desired set it began
      with and by what it got through. */
  lemma EndIsFlush(s: State)
    requires Inv(s) && Enabled(s, End)
    ensures var p, b := s.phase, Do(s, End).books;
            && Flushes(p.from, p.want, p.log, b) && (forall k :: k in b.applied ==> Fate(p.from, b, k))
            && (p.log == p.ops ==> b.stale == {} && b.applied.Keys == p.want)
            && (p.log == p.ops && Fresh(p.from) ==> Exactly(b.filters, p.want))
  {
    var p, b := s.phase, Do(s, End).books;
    assert p.ops[..p.start] == p.ops;
    FlushDone(p.from, p.want, p.ops, p.log, b.stale);
  }

  // ----- No unban is lost -----

  /** The desired set after the bans and unbans of a run, and nothing else. */
  function Goal(desired: set<Prefix>, es: seq<Event>): set<Prefix>
    decreases |es|
  {
    if es == [] then desired else Goal(Wanted(desired, es[0]), es[1..])
  }

  /** Flushes and resyncs never touch the desired set. */
  lemma {:induction false} DesiredIsGoal(s: State, es: seq<Event>)
    requires IsRun(s, es)
    ensures Final(s, es).desired == Goal(s.desired, es)
    decreases |es|
  {
    if es != [] { DesiredIsGoal(Do(s, es[0]), es[1..]); }
  }

  /** An entry unbanned and not banned again is out of the set. */
  lemma {:induction false} UnbannedIsOut(desired: set<Prefix>, es: seq<Event>, k: Prefix)
    requires Ban(k) !in es && (k !in desired || Unban(k) in es)
    ensures k !in Goal(desired, es)
    decreases |es|
  {
    if es != [] {
      var d := Wanted(desired, es[0]);
      assert k in d ==> k in desired && es[0] != Unban(k);
      UnbannedIsOut(d, es[1..], k);
    }
  }

  /** The test of resync: the mirror and the desired set differ, or something is stale. */
  predicate NeedsFlush(s: State) {
    s.books.stale != {} || s.desired != s.books.applied.Keys
  }

  lemma ReadIsFresh(filters: Filters)
    ensures Fresh(ReadBooks(filters)) && ReadBooks(filters).filters == filters
  {
  }

  /** Books that are right are those a read gives. */
  lemma FreshIsRead(b: Books)
    requires Fresh(b)
    ensures b == ReadBooks(b.filters)
  {
    var r := ReadBooks(b.filters);
    forall k ensures k in b.applied <==> k in r.applied {
      if k in r.applied { assert KeyId(k) in b.filters; }
    }
    assert b.applied.Keys == r.applied.Keys;
    forall k | k in b.applied ensures b.applied[k] == r.applied[k] { }
    assert b.stale == r.stale;
  }

  /** With right books the test decides whether the engine holds exactly the filters of the desired set. */
  lemma NeedsFlushIff(s: State)
    requires Fresh(s.books)
    ensures NeedsFlush(s) <==> !Exactly(s.books.filters, s.desired)
  {
    var b := s.books;
    if !NeedsFlush(s) { MirrorIsExact(b.filters, b.applied); }
    if Exactly(b.filters, s.desired) { ExactIsSettled(b, s.desired); }
  }

  lemma ExactIsSettled(b: Books, want: set<Prefix>)
    requires Fresh(b) && Exactly(b.filters, want)
    ensures b.stale == {} && want == b.applied.Keys
  {
    FreshIsRead(b);
    forall k ensures k in want <==> k in b.applied {
      if k in want { assert KeyId(k) in b.filters && Enforced(b.filters, k); }
    }
  }

  /** A batch that deletes the stale filters it should; other ops may fail. */
  ghost predicate DropsStale(s: State, e: Event)
    requires Enabled(s, e)
  {
    e.Batch? ==>
      forall i :: s.phase.start <= i < BatchEnd(s.phase.ops, s.phase.start) && s.phase.ops[i].DeleteStale? ==>
                    s.phase.ops[i] in e.committed
  }

  /** The books were right when the flush under way began, and it has deleted all stale filters so far;
      between flushes they are right. */
  ghost predicate Sound(s: State) {
    && Inv(s) && (s.phase.Idle? ==> Fresh(s.books))
    && (s.phase.Flushing? ==>
          && Fresh(s.phase.from)
          && forall i :: 0 <= i < s.phase.start && s.phase.ops[i].DeleteStale? ==> s.phase.ops[i] in s.phase.log)
  }

  lemma SoundEnd(s: State)
    requires Sound(s) && Enabled(s, End)
    ensures Sound(Do(s, End)) && Do(s, End).books.stale == {}
  {
    var p, b := s.phase, Do(s, End).books;
    EndIsFlush(s);
    assert forall id :: id in p.from.stale ==> DeleteStale(id) in p.ops;
    MirrorLog(p.from.filters, p.from.applied, p.from.stale, p.want, p.log);
    StepKeepsInv(s, End);
  }

  lemma SoundStep(s: State, e: Event)
    requires Enabled(s, e) && Inv(s) && (Sound(s) || e.Read?) && DropsStale(s, e)
    ensures Sound(Do(s, e))
  {
    StepKeepsInv(s, e);
    match e
    case Read => ReadIsFresh(s.books.filters);
    case End => SoundEnd(s);
    case _ =>
  }

  ghost predicate AllDropStale(s: State, es: seq<Event>)
    requires IsRun(s, es)
    decreases |es|
  {
    es == [] || (DropsStale(s, es[0]) && AllDropStale(Do(s, es[0]), es[1..]))
  }

  lemma {:induction false} SoundRun(s: State, es: seq<Event>)
    requires Sound(s) && IsRun(s, es) && AllDropStale(s, es)
    ensures Sound(Final(s, es))
    decreases |es|
  {
    if es != [] {
      SoundStep(s, es[0]);
      SoundRun(Do(s, es[0]), es[1..]);
    }
  }

  /** A resync makes the books right whatever they held; they stay right through any interleaving of
      bans, unbans, flushes and resyncs in which adds and deletes of entries may fail and only those of
      stale filters do not; and whenever no flush is under way the test decides whether the engine
      holds exactly what the bans and unbans ask for. */
  lemma AfterRead(s: State, es: seq<Event>)
    requires Inv(s) && IsRun(s, [Read] + es) && AllDropStale(s, [Read] + es) && Final(s, [Read] + es).phase.Idle?
    ensures var t := Final(s, [Read] + es);
            Fresh(t.books) && (NeedsFlush(t) <==> !Exactly(t.books.filters, Goal(s.desired, es)))
  {
    assert ([Read] + es)[1..] == es;
    SoundStep(s, Read);
    SoundRun(Do(s, Read), es);
    DesiredIsGoal(Do(s, Read), es);
    NeedsFlushIff(Final(s, [Read] + es));
  }

  // ----- One whole flush -----

  /** Bans, unbans and batches in which nothing fails: the middle of a flush. */
  ghost predicate Full(s: State, es: seq<Event>)
    requires IsRun(s, es)
    decreases |es|
  {
    es == [] ||
    (&& (es[0].Ban? || es[0].Unban? || es[0].Batch?)
     && (es[0].Batch? ==> es[0].committed == s.phase.ops[s.phase.start..BatchEnd(s.phase.ops, s.phase.start)])
     && Full(Do(s, es[0]), es[1..]))
  }

  lemma {:induction false} FullRun(s: State, es: seq<Event>)
    requires Inv(s) && IsRun(s, es) && Full(s, es) && s.phase.Flushing? && s.phase.log == s.phase.ops[..s.phase.start]
    ensures var p, q := s.phase, Final(s, es).phase;
            && q.Flushing? && q.from == p.from && q.want == p.want && q.ops == p.ops
            && Inv(Final(s, es)) && q.log == q.ops[..q.start]
    decreases |es|
  {
    if es != [] {
      StepKeepsInv(s, es[0]);
      var p := s.phase;
      if es[0].Batch? {
        assert p.ops[..p.start] + p.ops[p.start..BatchEnd(p.ops, p.start)] == p.ops[..BatchEnd(p.ops, p.start)];
      }
      FullRun(Do(s, es[0]), es[1..]);
    }
  }

  /** A flush from right books in which nothing fails brings the engine to the set desired when it began;
      so nothing is left to do exactly when the bans and unbans it ran among changed nothing. */
  lemma FlushReaches(s: State, ops: seq<Op>, mid: seq<Event>)
    requires Inv(s) && Fresh(s.books) && IsRun(s, [Begin(ops)] + (mid + [End]))
    requires IsRun(Do(s, Begin(ops)), mid) && Full(Do(s, Begin(ops)), mid)
    ensures var t := Final(s, [Begin(ops)] + (mid + [End]));
            && t.phase.Idle? && Inv(t) && Exactly(t.books.filters, s.desired)
            && t.books.stale == {} && t.books.applied.Keys == s.desired
            && (NeedsFlush(t) <==> Goal(s.desired, mid) != s.desired)
  {
    var s1 := Do(s, Begin(ops));
    assert ([Begin(ops)] + (mid + [End]))[1..] == mid + [End];
    RunSplit(s1, mid, [End]);
    StepKeepsInv(s, Begin(ops));
    assert ops[..0] == [];
    FullRun(s1, mid);
    var s2 := Final(s1, mid);
    assert s2.phase.ops[..s2.phase.start] == s2.phase.ops;
    assert [End][1..] == [];
    EndIsFlush(s2);
    StepKeepsInv(s2, End);
    DesiredIsGoal(s1, mid);
  }

  lemma {:induction false} GoalConcat(desired: set<Prefix>, a: seq<Event>, b: seq<Event>)
    ensures Goal(desired, a + b) == Goal(Goal(desired, a), b)
    decreases |a|
  {
    if a == [] {
      assert a + b == b;
    } else {
      assert (a + b)[1..] == a[1..] + b;
      GoalConcat(Wanted(desired, a[0]), a[1..], b);
    }
  }

  /** The last call about the entry was an unban. */
  ghost predicate Unbanned(es: seq<Event>, k: Prefix) {
    exists i :: 0 <= i < |es| && es[i] == Unban(k) && Ban(k) !in es[i..]
  }

  lemma UnbannedStaysOut(desired: set<Prefix>, es: seq<Event>, k: Prefix)
    requires Unbanned(es, k)
    ensures k !in Goal(desired, es)
  {
    var i :| 0 <= i < |es| && es[i] == Unban(k) && Ban(k) !in es[i..];
    GoalConcat(desired, es[..i], es[i..]);
    assert es[..i] + es[i..] == es && es[i..][0] == Unban(k);
    UnbannedIsOut(Goal(desired, es[..i]), es[i..], k);
  }

  /** Any run, whatever failed in it; then a resync, anywhere among the bans and unbans, and events in
      which stale filters are deleted when they should; then a flush in which nothing fails. The engine
      holds exactly the filters of the set that all bans and unbans before that flush ask for, and none
      of an entry last unbanned, even if the resync came between its unban and the flush paired with
      it. The test asks for another flush exactly when the calls during this one changed something. */
  lemma NoUnbanIsLost(s: State, a: seq<Event>, b: seq<Event>, ops: seq<Op>, mid: seq<Event>)
    requires Inv(s) && IsRun(s, a) && IsRun(Final(s, a), [Read] + b) && AllDropStale(Final(s, a), [Read] + b)
    requires var u := Final(Final(s, a), [Read] + b);
             && IsRun(u, [Begin(ops)] + (mid + [End]))
             && IsRun(Do(u, Begin(ops)), mid) && Full(Do(u, Begin(ops)), mid)
    ensures var t := Final(Final(Final(s, a), [Read] + b), [Begin(ops)] + (mid + [End]));
            && Exactly(t.books.filters, Goal(s.desired, a + b))
            && (forall k :: Unbanned(a + b, k) ==> KeyId(k) !in t.books.filters)
            && (NeedsFlush(t) <==> Goal(s.desired, a + b + mid) != Goal(s.desired, a + b))
  {
    var r := Final(s, a);
    var u := Final(r, [Read] + b);
    RunKeepsInv(s, a);
    RunKeepsInv(r, [Read] + b);
    AfterRead(r, b);
    DesiredIsGoal(s, a);
    DesiredIsGoal(r, [Read] + b);
    assert ([Read] + b)[1..] == b;
    GoalConcat(s.desired, a, b);
    GoalConcat(s.desired, a + b, mid);
    FlushReaches(u, ops, mid);
    forall k | Unbanned(a + b, k) ensures k !in Goal(s.desired, a + b) { UnbannedStaysOut(s.desired, a + b, k); }
  }

  /** The race that run is about: an entry is unbanned, a resync ticks before the flush of the unban. The
      resync finds the entry still enforced and asks for a flush, which lifts it. */
  lemma LiftRacesResync(p: Prefix)
    ensures var s := Holding(p);
            && Inv(s) && Fresh(s.books) && Exactly(s.books.filters, {p})
            && Tracks(s, [Unban(p)] + [Read], Lifting(p))
    ensures var u := Lifting(p);
            && Enforced(u.books.filters, p) && p in u.books.applied && p !in u.desired && NeedsFlush(u)
            && Tracks(u, FullFlush(DeleteEntry(p, KeyId(p))), State(Books(map[], map[], {}), {}, Idle))
  {
    var s, u := Holding(p), Lifting(p);
    HoldingIsRight(p);
    FreshIsRead(s.books);
    TracksOne(s, Unban(p));
    TracksMore(s, [Unban(p)], u, Read);
    SubsequenceKeep([], [], DeleteEntry(p, KeyId(p)));
    assert [] + [DeleteEntry(p, KeyId(p))] == [DeleteEntry(p, KeyId(p))];
    PartFlushIs(u, [DeleteEntry(p, KeyId(p))], DeleteEntry(p, KeyId(p)));
  }

  /** An engine that holds the filter of one entry, and the agent knows it. */
  ghost function Holding(p: Prefix): State {
    State(Books(map[KeyId(p) := [WfpRemoteMatch(p)]], map[p := KeyId(p)], {}), {p}, Idle)
  }

  /** The same, with the entry unbanned. */
  ghost function Lifting(p: Prefix): State {
    Holding(p).(desired := {})
  }

  /** A flush of one op. */
  function FullFlush(o: Op): seq<Event> {
    PartFlush([o], o)
  }

  lemma HoldingIsRight(p: Prefix)
    ensures var s := Holding(p);
            Inv(s) && Fresh(s.books) && Exactly(s.books.filters, {p}) && Enforced(s.books.filters, p)
  {
    MatchRoundTrip(p);
  }

  // ----- How a filter is lost -----

  /** A flush of one batch of which one op took effect. */
  function PartFlush(ops: seq<Op>, o: Op): seq<Event> {
    [Begin(ops)] + [Batch([o])] + [End]
  }

  ghost function AfterPart(s: State, o: Op): State {
    var b := s.books;
    s.(books := Books(Effect(b.filters, o), Applied(b.applied, o), Left(b.stale, o)))
  }

  lemma PartFlushIs(s: State, ops: seq<Op>, o: Op)
    requires Enabled(s, Begin(ops)) && 0 < |ops| <= WFP_BATCH_SIZE && Subsequence([o], ops)
    ensures Tracks(s, PartFlush(ops, o), AfterPart(s, o))
  {
    var s1 := Do(s, Begin(ops));
    assert ops[0..|ops|] == ops;
    TracksOne(s, Begin(ops));
    OneOp(s.books, o);
    var s2 := Do(s1, Batch([o]));
    TracksMore(s, [Begin(ops)], s1, Batch([o]));
    TracksMore(s, [Begin(ops)] + [Batch([o])], s2, End);
    assert s2.phase.log == [o];
    assert Do(s2, End).books.stale == Left(s.books.stale, o);
  }

  /** An engine that holds an outdated filter of one desired entry, and the agent knows it is stale; the
      entry is counted as applied or not. */
  ghost function Behind(p: Prefix, outdated: seq<Match>, applied: map<Prefix, RuleId>): State {
    State(Books(map[KeyId(p) := outdated], applied, {KeyId(p)}), {p}, Idle)
  }

  lemma AddsBehind(p: Prefix, outdated: seq<Match>)
    ensures Tracks(Behind(p, outdated, map[]), PartFlush([DeleteStale(KeyId(p)), AddEntry(p)], AddEntry(p)),
                   Behind(p, outdated, map[p := KeyId(p)]))
  {
    var drop, add := DeleteStale(KeyId(p)), AddEntry(p);
    SubsequenceKeep([], [drop], add);
    assert [drop] + [add] == [drop, add] && [] + [add] == [add];
    PartFlushIs(Behind(p, outdated, map[]), [drop, add], add);
  }

  lemma DropsBehind(p: Prefix, outdated: seq<Match>)
    ensures var drop := DeleteStale(KeyId(p));
            Tracks(Behind(p, outdated, map[p := KeyId(p)]), PartFlush([drop], drop),
                   State(Books(map[], map[p := KeyId(p)], {}), {p}, Idle))
  {
    var drop := DeleteStale(KeyId(p));
    SubsequenceKeep([], [], drop);
    assert [] + [drop] == [drop];
    PartFlushIs(Behind(p, outdated, map[p := KeyId(p)]), [drop], drop);
  }

  /** The run of the two flushes of TwoFlushesUnenforce: a batch that adds the entry but fails to delete
      its outdated filter, and one that deletes it. The books then show nothing left to do. */
  lemma TwoFlushesRun(p: Prefix, outdated: seq<Match>)
    requires !Enforces(outdated, p)
    ensures var s, drop, add := Behind(p, outdated, map[]), DeleteStale(KeyId(p)), AddEntry(p);
            var t := State(Books(map[], map[p := KeyId(p)], {}), {p}, Idle);
            && Inv(s) && Fresh(s.books) && s.desired == {p} && !NeedsFlush(t) && !Enforced(t.books.filters, p)
            && Tracks(s, PartFlush([drop, add], add) + PartFlush([drop], drop), t)
  {
    var s, drop, add := Behind(p, outdated, map[]), DeleteStale(KeyId(p)), AddEntry(p);
    AddsBehind(p, outdated);
    DropsBehind(p, outdated);
    var t := State(Books(map[], map[p := KeyId(p)], {}), {p}, Idle);
    TracksThen(s, PartFlush([drop, add], add), Behind(p, outdated, map[p := KeyId(p)]), PartFlush([drop], drop), t);
  }

  // ----- The code -----

  predicate OnlyCalls(es: seq<Event>) {
    forall i :: 0 <= i < |es| ==> es[i].Ban? || es[i].Unban?
  }

  ghost function Now(fw: WFPFirewall): State
    reads fw, fw.engine
  {
    State(fw.BooksNow(), fw.desired, Idle)
  }

  /** The calls other goroutines get in while the lock of the desired set is free. */
  method Calls(fw: WFPFirewall, calls: seq<Event>, ghost s: State)
    requires OnlyCalls(calls) && s.desired == fw.desired
    modifies fw`desired
    ensures Tracks(s, calls, s.(desired := fw.desired))
  {
    for i := 0 to |calls|
      invariant Tracks(s, calls[..i], s.(desired := fw.desired))
    {
      TracksMore(s, calls[..i], s.(desired := fw.desired), calls[i]);
      assert calls[..i + 1] == calls[..i] + [calls[i]];
      match calls[i] {
        case Ban(k) => var _ := fw.BanIP(Some(k));
        case Unban(k) => var _ := fw.UnbanIP(Some(k));
        case _ => assert false;
      }
    }
    assert calls[..|calls|] == calls;
  }

  /** A flush from s under way. */
  ghost function Midway(fw: WFPFirewall, s: State, ops: seq<Op>, start: nat, log: seq<Op>): State
    reads fw, fw.engine
  {
    State(fw.BooksNow(), fw.desired, Flushing(s.books, s.desired, ops, start, log))
  }

  /** The calls that get in after a snapshot, and after each batch. */
  function Turn(calls: seq<seq<Event>>, i: nat): seq<Event> {
    if i < |calls| then calls[i] else []
  }

  /** A flush without its end: the snapshot and the batches with what they committed, each followed by the
      calls of its turn. */
  function Woven(ops: seq<Op>, commits: seq<seq<Op>>, calls: seq<seq<Event>>): seq<Event> {
    if commits == [] then [Begin(ops)] + Turn(calls, 0)
    else
      Woven(ops, commits[..|commits| - 1], calls) + [Batch(commits[|commits| - 1])] + Turn(calls, |commits|)
  }

  lemma WovenNext(ops: seq<Op>, commits: seq<seq<Op>>, calls: seq<seq<Event>>, committed: seq<Op>)
    ensures Woven(ops, commits + [committed], calls)
            == Woven(ops, commits, calls) + [Batch(committed)] + Turn(calls, |commits| + 1)
  {
    assert (commits + [committed])[..|commits|] == commits;
  }

  /** One batch of it. */
  method NextBatch(fw: WFPFirewall, handle: bool, ops: seq<Op>, start: nat, ghost s: State, ghost es: seq<Event>,
                   ghost log: seq<Op>)
    returns (end: nat, done: set<RuleId>, committed: seq<Op>)
    requires fw.Valid() && start < |ops|
    modifies fw`applied
    modifies fw.engine`filters, fw.engine`staged, fw.engine`inTxn, fw.engine`aborts, fw.engine`refusals, fw.engine.obs
    ensures fw.Valid() && start < end <= |ops| && (old(fw.engine.inTxn) ==> fw.engine.inTxn)
    ensures !fw.engine.inTxn && Tracks(s, es, old(Midway(fw, s, ops, start, log))) ==>
              Tracks(s, es + [Batch(committed)], Midway(fw, s, ops, end, log + committed))
    ensures forall id :: id in done <==> DeleteStale(id) in committed
    ensures fw.engine.refusals >= old(fw.engine.refusals) && end == BatchEnd(ops, start)
    ensures fw.engine.refusals == old(fw.engine.refusals) ==> committed == ops[start..end]
  {
    end := start + WFP_BATCH_SIZE;
    if end > |ops| { end := |ops|; }
    ghost var now := Midway(fw, s, ops, start, log);
    done, committed := fw.FlushBatch(handle, ops[start..end]);
    AppliedOwn(now.books.applied, committed);
    if !fw.engine.inTxn && Tracks(s, es, now) { TracksMore(s, es, now, Batch(committed)); }
  }

  /** The batches are the consecutive pieces of the ops, committed whole, up to a position. */
  ghost predicate AllCommitted(ops: seq<Op>, commits: seq<seq<Op>>, upto: nat) {
    && Cut(|commits|, WFP_BATCH_SIZE, |ops|) == upto
    && forall i: nat :: i < |commits| ==> commits[i] == Piece(ops, WFP_BATCH_SIZE, i)
  }

  lemma CommittedNext(ops: seq<Op>, commits: seq<seq<Op>>, start: nat)
    requires AllCommitted(ops, commits, start) && start < |ops|
    ensures AllCommitted(ops, commits + [ops[start..BatchEnd(ops, start)]], BatchEnd(ops, start))
  {
    assert (|commits| + 1) * WFP_BATCH_SIZE == |commits| * WFP_BATCH_SIZE + WFP_BATCH_SIZE;
  }

  /** Flush, with the given calls after its snapshot and after each batch: a run of the machine, in which
      they get in exactly there. */
  method FlushAmongCalls(fw: WFPFirewall, handle: bool, calls: seq<seq<Event>>)
    returns (ok: bool, ghost ops: seq<Op>, ghost commits: seq<seq<Op>>)
    requires fw.Valid() && forall c :: c in calls ==> OnlyCalls(c)
    modifies fw`applied, fw`stale, fw`desired
    modifies fw.engine`filters, fw.engine`staged, fw.engine`inTxn, fw.engine`aborts, fw.engine`refusals, fw.engine.obs
    ensures fw.Valid() && ok == !fw.closed && (old(fw.engine.inTxn) ==> fw.engine.inTxn)
    ensures !ok ==> Now(fw) == old(Now(fw))
    ensures ok && !fw.engine.inTxn ==> Tracks(old(Now(fw)), Woven(ops, commits, calls) + [End], Now(fw))
    ensures fw.engine.refusals >= old(fw.engine.refusals)
    ensures ok && fw.engine.refusals == old(fw.engine.refusals) ==> AllCommitted(ops, commits, |ops|)
  {
    ops, commits := [], [];
    if fw.closed { return false, ops, commits; }
    ghost var s, log := Now(fw), [];
    var todo := fw.BuildOps();
    ops := todo;
    TracksOne(s, Begin(ops));
    var start, turn := 0, 0;
    var staleDone: set<RuleId> := {};
    CallsOfTurn(fw, calls, turn, s, [Begin(ops)], Do(s, Begin(ops)));
    while start < |todo|
      invariant 0 <= start <= |todo| && fw.Valid() && fw.stale == old(fw.stale) && turn == |commits|
      invariant old(fw.engine.inTxn) ==> fw.engine.inTxn
      invariant !fw.engine.inTxn ==> Tracks(s, Woven(ops, commits, calls), Midway(fw, s, ops, start, log))
      invariant forall id :: id in staleDone <==> DeleteStale(id) in log
      invariant fw.engine.refusals >= old(fw.engine.refusals)
      invariant fw.engine.refusals == old(fw.engine.refusals) ==> AllCommitted(ops, commits, start)
      decreases |todo| - start
    {
      var done, committed;
      ghost var es, from := Woven(ops, commits, calls), start;
      start, done, committed := NextBatch(fw, handle, todo, start, s, es, log);
      WovenNext(ops, commits, calls, committed);
      if AllCommitted(ops, commits, from) { CommittedNext(ops, commits, from); }
      staleDone, turn := staleDone + done, turn + 1;
      log, commits := log + committed, commits + [committed];
      CallsOfTurn(fw, calls, turn, s, es + [Batch(committed)], Midway(fw, s, ops, start, log));
    }
    ghost var now := Midway(fw, s, ops, start, log);
    fw.KeepUndone(staleDone);
    if !fw.engine.inTxn {
      TracksMore(s, Woven(ops, commits, calls), now, End);
      assert Do(now, End) == Now(fw);
    }
    ok := true;
  }

  method CallsOfTurn(fw: WFPFirewall, calls: seq<seq<Event>>, turn: nat, ghost s: State, ghost es: seq<Event>,
                     ghost now: State)
    requires (forall c :: c in calls ==> OnlyCalls(c)) && now.desired == fw.desired
    modifies fw`desired
    ensures Tracks(s, es, now) ==> Tracks(s, es + Turn(calls, turn), now.(desired := fw.desired))
  {
    if turn < |calls| {
      assert OnlyCalls(calls[turn]);
      Calls(fw, calls[turn], now);
      if Tracks(s, es, now) { TracksThen(s, es, now, calls[turn], now.(desired := fw.desired)); }
    } else {
      assert es + [] == es;
    }
  }

  /** resync, with calls between its read and its flush, and during the flush: a run of the machine, in
      which the flush is there exactly when the test asked for it. */
  method ResyncAmongCalls(fw: WFPFirewall, handle: bool, before: seq<Event>, calls: seq<seq<Event>>)
    returns (ok: bool, need: bool, ghost ops: seq<Op>, ghost commits: seq<seq<Op>>)
    requires fw.Valid() && OnlyCalls(before) && forall c :: c in calls ==> OnlyCalls(c)
    modifies fw`applied, fw`stale, fw`desired
    modifies fw.engine`filters, fw.engine`staged, fw.engine`inTxn, fw.engine`aborts, fw.engine`refusals, fw.engine.obs
    ensures fw.Valid() && (!ok ==> Now(fw) == old(Now(fw)))
    ensures ok && !fw.engine.inTxn ==>
              && need == NeedsFlush(Do(old(Now(fw)), Read))
              && Tracks(old(Now(fw)), [Read] + before + if need then Woven(ops, commits, calls) + [End] else [],
                        Now(fw))
    ensures fw.engine.refusals >= old(fw.engine.refusals)
    ensures !fw.closed && fw.engine.refusals == old(fw.engine.refusals) ==>
              ok && (need ==> AllCommitted(ops, commits, |ops|))
  {
    ops, commits := [], [];
    ghost var s := Now(fw);
    ok, need := Reread(fw);
    if !ok { return; }
    ghost var read := Now(fw);
    Calls(fw, before, read);
    ghost var mid := Now(fw);
    if need {
      var flushed;
      flushed, ops, commits := FlushAmongCalls(fw, handle, calls);
      assert flushed;
    }
    if !fw.engine.inTxn {
      TracksOne(s, Read);
      TracksThen(s, [Read], read, before, mid);
      TracksThen(s, [Read] + before, mid, if need then Woven(ops, commits, calls) + [End] else [], Now(fw));
    }
  }

  /** The part of resync under both locks: the read, the swap of the mirror and the test are one step. */
  method Reread(fw: WFPFirewall) returns (ok: bool, need: bool)
    requires fw.Valid()
    modifies fw`applied, fw`stale, fw.engine`refusals
    ensures fw.Valid() && (!ok ==> Now(fw) == old(Now(fw))) && (ok ==> !fw.closed)
    ensures ok && !fw.engine.inTxn ==> Now(fw) == Do(old(Now(fw)), Read)
    ensures ok ==> need == NeedsFlush(Now(fw))
    ensures fw.engine.refusals == old(fw.engine.refusals) + if !fw.closed && !ok then 1 else 0
  {
    var cur, left;
    need := false;
    cur, left, ok := fw.Enumerate();
    if ok {
      fw.applied, fw.stale := cur, left;
      need := fw.NeedFlush();
      NoElems(left);
      if !fw.engine.inTxn { FreshIsRead(fw.BooksNow()); }
    }
  }
}
