/** The WFP backend: filters committed in transactions that may fail at every point, mirrored by the
    agent and reconciled with what the engine holds. */
module WfpBackend {
  import opened Prefixes
  import opened IntervalSet
  import opened WfpFilters
  import Observer

  type Filters = map<RuleId, seq<Match>>

  datatype OpResult = Done | AlreadyExists | NotFound | HardError

  datatype Op = DeleteStale(id: RuleId) | AddEntry(key: Prefix) | DeleteEntry(key: Prefix, id: RuleId)

  /** What an op that took effect does; an add of an existing id and a delete of an absent one are
      successes without effect. */
  ghost function Effect(view: Filters, o: Op): Filters {
    match o
    case DeleteStale(id) => view - {id}
    case AddEntry(k) => if KeyId(k) in view then view else view[KeyId(k) := [WfpRemoteMatch(k)]]
    case DeleteEntry(_, id) => view - {id}
  }

  ghost function EffectAll(view: Filters, ops: seq<Op>): Filters {
    if ops == [] then view else Effect(EffectAll(view, ops[..|ops| - 1]), ops[|ops| - 1])
  }

  lemma EffectAppend(view: Filters, ops: seq<Op>, o: Op)
    ensures EffectAll(view, ops + [o]) == Effect(EffectAll(view, ops), o)
  {
    assert (ops + [o])[..|ops|] == ops;
  }

  lemma {:induction false} EffectConcat(view: Filters, a: seq<Op>, b: seq<Op>)
    ensures EffectAll(view, a + b) == EffectAll(EffectAll(view, a), b)
    decreases |b|
  {
    if b == [] {
      assert a + b == a;
    } else {
      EffectConcat(view, a, b[..|b| - 1]);
      assert (a + b)[..|a + b| - 1] == a + b[..|b| - 1];
    }
  }

  // ----- Subsequences -----

  /** a is b with some elements left out. */
  ghost predicate Subsequence<T(!new)>(a: seq<T>, b: seq<T>) {
    a == [] ||
    (b != [] &&
     ((a[|a| - 1] == b[|b| - 1] && Subsequence(a[..|a| - 1], b[..|b| - 1])) || Subsequence(a, b[..|b| - 1])))
  }

  lemma SubsequenceKeep<T(!new)>(a: seq<T>, b: seq<T>, x: T)
    requires Subsequence(a, b)
    ensures Subsequence(a + [x], b + [x]) && Subsequence(a, b + [x])
  {
    assert (a + [x])[..|a|] == a && (b + [x])[..|b|] == b;
  }

  lemma {:induction false} SubsequenceConcat<T(!new)>(a: seq<T>, b: seq<T>, c: seq<T>, d: seq<T>)
    requires Subsequence(a, b) && Subsequence(c, d)
    ensures Subsequence(a + c, b + d)
    decreases |d|
  {
    if d == [] {
      assert a + c == a && b + d == b;
    } else {
      var d', x := d[..|d| - 1], d[|d| - 1];
      assert b + d == (b + d') + [x];
      if c != [] && c[|c| - 1] == x && Subsequence(c[..|c| - 1], d') {
        var c' := c[..|c| - 1];
        SubsequenceConcat(a, b, c', d');
        SubsequenceKeep(a + c', b + d', x);
        assert a + c == (a + c') + [x];
      } else {
        if c == [] { assert Subsequence(c, d'); }
        SubsequenceConcat(a, b, c, d');
        SubsequenceKeep(a + c, b + d', x);
      }
    }
  }

  lemma {:induction false} SubsequenceElems<T(!new)>(a: seq<T>, b: seq<T>, x: T)
    requires Subsequence(a, b) && x in a
    ensures x in b
    decreases |b|
  {
    var b' := b[..|b| - 1];
    if a[|a| - 1] == b[|b| - 1] && Subsequence(a[..|a| - 1], b') {
      if x != a[|a| - 1] {
        assert x in a[..|a| - 1];
        SubsequenceElems(a[..|a| - 1], b', x);
      }
    } else {
      SubsequenceElems(a, b', x);
    }
  }

  /** Stale deletes come before everything else. */
  ghost predicate StaleFirst(ops: seq<Op>) {
    forall i, j :: 0 <= i < j < |ops| && ops[j].DeleteStale? ==> ops[i].DeleteStale?
  }

  lemma {:induction false} SubsequenceStaleFirst(a: seq<Op>, b: seq<Op>)
    requires Subsequence(a, b) && StaleFirst(b)
    ensures StaleFirst(a)
    decreases |b|
  {
    if a != [] {
      var a', b' := a[..|a| - 1], b[..|b| - 1];
      if a[|a| - 1] == b[|b| - 1] && Subsequence(a', b') {
        SubsequenceStaleFirst(a', b');
        if a[|a| - 1].DeleteStale? {
          forall i | 0 <= i < |a'| ensures a[i].DeleteStale? {
            assert a[i] in a';
            SubsequenceElems(a', b', a[i]);
          }
        }
      } else {
        SubsequenceStaleFirst(a, b');
      }
    }
  }

  /** The ops of a batch that took effect so far; without an error they are all of them. */
  ghost predicate Ran(start: Filters, now: Filters, batch: seq<Op>, applied: seq<Op>, err: bool) {
    now == EffectAll(start, applied) && Subsequence(applied, batch) && (!err ==> applied == batch)
  }

  lemma RanStep(start: Filters, now: Filters, batch: seq<Op>, i: nat, applied: seq<Op>, err: bool)
    requires i < |batch| && Ran(start, now, batch[..i], applied, err)
    ensures Ran(start, Effect(now, batch[i]), batch[..i + 1], applied + [batch[i]], err)
    ensures Ran(start, now, batch[..i + 1], applied, true)
  {
    assert batch[..i + 1] == batch[..i] + [batch[i]];
    EffectAppend(start, applied, batch[i]);
    SubsequenceKeep(applied, batch[..i], batch[i]);
  }

  lemma RanPart(start: Filters, now: Filters, batch: seq<Op>, i: nat, applied: seq<Op>)
    requires i <= |batch| && Ran(start, now, batch[..i], applied, true)
    ensures Ran(start, now, batch, applied, true)
  {
    assert batch[..i] + batch[i..] == batch && applied + [] == applied;
    SubsequenceConcat(applied, batch[..i], [], batch[i..]);
  }

  // ----- The engine -----

  /** The filter engine. Begin, commit, abort and every single operation may fail; a failed commit may
      leave the transaction open. Outside a transaction each operation commits by itself; in an open
      one that is never committed it has no effect. */
  class WfpEngine {
    var filters: Filters
    var staged: Filters
    var inTxn: bool

    /** The aborts that failed: each left a transaction open. */
    ghost var aborts: nat
    /** The commands that were refused although they could have been carried out, failed aborts among
        them, and the reads that failed. */
    ghost var refusals: nat
    ghost const obs: Observer.Observer

    constructor (filters: Filters, obs: Observer.Observer)
      ensures this.filters == filters && !inTxn && aborts == 0 && refusals == 0 && this.obs == obs
    {
      this.filters, staged, inTxn := filters, map[], false;
      this.aborts, this.refusals, this.obs := 0, 0, obs;
    }

    /** Whether a command or a read goes through. */
    method Accepted() returns (ok: bool)
      modifies `refusals
      ensures refusals == old(refusals) + if ok then 0 else 1
    {
      ok := *;
      if !ok { refusals := refusals + 1; }
    }

    function View(): Filters
      reads this
    {
      if inTxn then staged else filters
    }

    /** The observer knows which of its entries the filters in force enforce. */
    ghost predicate Seen()
      reads this, obs
    {
      obs.byWfp == EnforcedIn(filters, obs.watched)
    }

    /** The observer has seen everything; entries the other backend enforces leave no gap. */
    twostate predicate Observed()
      reads this, obs
    {
      && obs.watched == old(obs.watched) && obs.watches == old(obs.watches) && obs.byNetsh == old(obs.byNetsh)
      && (old(Seen()) ==> Seen()) && (old(obs.gap) ==> obs.gap)
      && (obs.watched <= obs.byNetsh ==> obs.gap == old(obs.gap))
    }

    /** A transaction is open exactly when one was or an abort failed, which is a refusal. */
    twostate predicate Counted()
      reads this
    {
      && aborts >= old(aborts) && refusals - old(refusals) >= aborts - old(aborts)
      && inTxn == (old(inTxn) || aborts > old(aborts))
    }

    /** The filters in force change. */
    method Store(v: Filters)
      modifies `filters, obs
      ensures filters == v && Observed()
    {
      filters := v;
      obs.SeeWfp(EnforcedIn(filters, obs.watched));
    }

    method SetView(v: Filters)
      modifies `filters, `staged, obs
      ensures View() == v && (inTxn ==> filters == old(filters))
      ensures Observed()
    {
      if inTxn { staged := v; } else { Store(v); }
    }

    method TxnBegin() returns (ok: bool)
      modifies `staged, `inTxn, `refusals
      ensures ok <==> !old(inTxn) && inTxn
      ensures if ok then View() == filters else inTxn == old(inTxn) && staged == old(staged)
      ensures refusals == old(refusals) + if !ok && !old(inTxn) then 1 else 0
    {
      ok := !inTxn;
      if ok { ok := Accepted(); }
      if ok { staged, inTxn := filters, true; }
    }

    method TxnCommit() returns (ok: bool)
      requires inTxn
      modifies `filters, `inTxn, `refusals, obs
      ensures ok ==> !inTxn && filters == staged
      ensures refusals == old(refusals) + if ok then 0 else 1
      ensures !ok ==> filters == old(filters)
      ensures Observed()
    {
      ok := Accepted();
      if ok {
        inTxn := false;
        Store(staged);
      } else {
        inTxn := *;
      }
    }

    /** Nothing to do when the transaction is over; otherwise it may fail. */
    method TxnAbort()
      modifies `inTxn, `aborts, `refusals
      ensures inTxn ==> old(inTxn)
      ensures aborts == old(aborts) + (if inTxn then 1 else 0)
      ensures refusals == old(refusals) + if inTxn then 1 else 0
    {
      if inTxn {
        var ok := Accepted();
        if ok { inTxn := false; } else { aborts := aborts + 1; }
      }
    }

    /** A session starts or ends: no transaction is open. */
    method NewSession()
      modifies `inTxn
      ensures !inTxn
    {
      inTxn := false;
    }

    method AddRule(k: Prefix) returns (r: OpResult)
      modifies `filters, `staged, `refusals, obs
      ensures refusals == old(refusals) + if r.HardError? then 1 else 0
      ensures r.Done? || r.AlreadyExists? ==> View() == Effect(old(View()), AddEntry(k))
      ensures r.HardError? ==> View() == old(View())
      ensures !r.NotFound? && (inTxn ==> filters == old(filters))
      ensures Observed()
    {
      var ok := Accepted();
      if !ok { return HardError; }
      if KeyId(k) in View() { return AlreadyExists; }
      SetView(View()[KeyId(k) := [WfpRemoteMatch(k)]]);
      return Done;
    }

    method DeleteRule(id: RuleId) returns (r: OpResult)
      modifies `filters, `staged, `refusals, obs
      ensures refusals == old(refusals) + if r.HardError? then 1 else 0
      ensures r.Done? || r.NotFound? ==> View() == old(View()) - {id}
      ensures r.HardError? ==> View() == old(View())
      ensures !r.AlreadyExists? && (inTxn ==> filters == old(filters))
      ensures Observed()
    {
      var ok := Accepted();
      if !ok { return HardError; }
      if id !in View() {
        assert View() == View() - {id};
        return NotFound;
      }
      SetView(View() - {id});
      return Done;
    }

    /** One operation; AlreadyExists and NotFound are successes. */
    method RunOne(o: Op) returns (ok: bool)
      modifies `filters, `staged, `refusals, obs
      ensures View() == if ok then Effect(old(View()), o) else old(View())
      ensures refusals == old(refusals) + if ok then 0 else 1
      ensures inTxn ==> filters == old(filters)
      ensures Observed()
    {
      var r;
      match o {
        case DeleteStale(id) => r := DeleteRule(id);
        case AddEntry(k) => r := AddRule(k);
        case DeleteEntry(_, id) => r := DeleteRule(id);
      }
      ok := !r.HardError?;
    }

    /** runOps: in a transaction it stops at the first hard error; otherwise it skips failures. The
        returned ops are exactly what took effect, in order. */
    method RunOps(batch: seq<Op>, stopOnErr: bool) returns (applied: seq<Op>, err: bool)
      modifies `filters, `staged, `refusals, obs
      ensures View() == EffectAll(old(View()), applied)
      ensures refusals >= old(refusals) && (err <==> refusals > old(refusals))
      ensures Subsequence(applied, batch) && (!err ==> applied == batch)
      ensures inTxn ==> filters == old(filters)
      ensures Observed()
    {
      ghost var start := View();
      applied, err := [], false;
      for i := 0 to |batch|
        invariant Ran(start, View(), batch[..i], applied, err)
        invariant inTxn ==> filters == old(filters)
        invariant refusals >= old(refusals) && (err <==> refusals > old(refusals))
        invariant Observed()
      {
        RanStep(start, View(), batch, i, applied, err);
        var ok := RunOne(batch[i]);
        if ok {
          applied := applied + [batch[i]];
        } else {
          err := true;
          if stopOnErr {
            RanPart(start, View(), batch, i + 1, applied);
            return;
          }
        }
      }
      assert batch[..|batch|] == batch;
    }

    /** The refusals a batch can do with: one, in a transaction of its own, since what it stops is replayed. */
    function Spare(handle: bool): nat
      reads this
    {
      if handle && !inTxn then 1 else 0
    }

    /** commitBatch. The transaction stays open exactly when it was before or when an abort failed. The
        returned ops are in force when none is open; otherwise, although they are returned as done,
        nothing of the batch is. */
    method CommitBatch(handle: bool, batch: seq<Op>) returns (committed: seq<Op>)
      modifies `filters, `staged, `inTxn, `aborts, `refusals, obs
      ensures Counted()
      ensures filters == if inTxn then old(filters) else EffectAll(old(filters), committed)
      ensures Subsequence(committed, batch) && Observed()
      ensures refusals <= old(refusals + Spare(handle)) ==> committed == batch && aborts == old(aborts)
    {
      var err;
      if handle {
        var begun := TxnBegin();
        if begun {
          committed, err := RunOps(batch, true);
          if !err {
            var ok := TxnCommit();
            if ok { return; }
          }
          TxnAbort();
        }
      }
      committed, err := RunOps(batch, false);
    }
  }

  // ----- The mirror through one op -----

  ghost function Applied(cur: map<Prefix, RuleId>, o: Op): map<Prefix, RuleId> {
    match o
    case DeleteStale(_) => cur
    case AddEntry(k) => cur[k := KeyId(k)]
    case DeleteEntry(k, _) => cur - {k}
  }

  ghost function Left(stale: set<RuleId>, o: Op): set<RuleId> {
    if o.DeleteStale? then stale - {o.id} else stale
  }

  /** A committed op keeps the bookkeeping in step with the engine; a stale id may be deleted only
      while no enforced entry has it. */
  lemma MirrorStep(filters: Filters, cur: map<Prefix, RuleId>, stale: set<RuleId>, o: Op)
    requires Mirror(filters, cur, stale)
    requires o.DeleteStale? ==> NoClash(cur, stale) && o.id in stale
    requires o.DeleteEntry? ==> o.id == KeyId(o.key)
    ensures Mirror(Effect(filters, o), Applied(cur, o), Left(stale, o))
    ensures o.DeleteStale? ==> NoClash(cur, Left(stale, o))
  {
    if o.AddEntry? { MatchRoundTrip(o.key); }
  }

  /** The loop state of Flush after a list of committed ops. */
  ghost function AppliedAll(cur: map<Prefix, RuleId>, log: seq<Op>): map<Prefix, RuleId> {
    if log == [] then cur else Applied(AppliedAll(cur, log[..|log| - 1]), log[|log| - 1])
  }

  ghost function LeftAll(stale: set<RuleId>, log: seq<Op>): set<RuleId> {
    if log == [] then stale else Left(LeftAll(stale, log[..|log| - 1]), log[|log| - 1])
  }

  /** The ops of a flush from `have` to `want`. */
  ghost predicate FlushOp(o: Op, want: set<Prefix>, have: map<Prefix, RuleId>, stale: set<RuleId>) {
    match o
    case DeleteStale(id) => id in stale
    case AddEntry(k) => k in want && k !in have
    case DeleteEntry(k, id) => k in have && k !in want && id == KeyId(k)
  }

  ghost predicate FlushLog(log: seq<Op>, want: set<Prefix>, have: map<Prefix, RuleId>, stale: set<RuleId>) {
    StaleFirst(log) && NoDup(log) && forall o :: o in log ==> FlushOp(o, want, have, stale)
  }

  lemma FlushLogFront(log: seq<Op>, want: set<Prefix>, have: map<Prefix, RuleId>, stale: set<RuleId>)
    requires log != [] && FlushLog(log, want, have, stale)
    ensures var front, o := log[..|log| - 1], log[|log| - 1];
            && FlushLog(front, want, have, stale) && FlushOp(o, want, have, stale) && o !in front
            && (o.DeleteStale? ==> forall p :: p in front ==> p.DeleteStale?)
            && forall p :: p in log <==> p in front || p == o
  {
    assert log[|log| - 1] in log;
  }

  /** What a log leaves stale, and what it leaves in the mirror. */
  lemma {:induction false} LogEffect(have: map<Prefix, RuleId>, stale: set<RuleId>, want: set<Prefix>, log: seq<Op>)
    requires FlushLog(log, want, have, stale)
    ensures forall id :: id in LeftAll(stale, log) <==> id in stale && DeleteStale(id) !in log
    ensures forall k :: k in AppliedAll(have, log) <==>
              (k in have && DeleteEntry(k, KeyId(k)) !in log) || AddEntry(k) in log
    ensures OwnIds(have) ==> OwnIds(AppliedAll(have, log))
    decreases |log|
  {
    if log != [] {
      FlushLogFront(log, want, have, stale);
      LogEffect(have, stale, want, log[..|log| - 1]);
    }
  }

  /** What a log leaves under the id of an entry. */
  lemma {:induction false} FilterAfter(filters: Filters, have: map<Prefix, RuleId>, stale: set<RuleId>,
                                       want: set<Prefix>, log: seq<Op>, k: Prefix)
    requires FlushLog(log, want, have, stale)
    ensures var f, id := EffectAll(filters, log), KeyId(k);
            && (id in f <==> DeleteEntry(k, id) !in log
                             && (AddEntry(k) in log || (id in filters && DeleteStale(id) !in log)))
            && (id in f ==> f[id] == if id in filters && DeleteStale(id) !in log then filters[id]
                                     else [WfpRemoteMatch(k)])
    decreases |log|
  {
    if log != [] {
      FlushLogFront(log, want, have, stale);
      FilterAfter(filters, have, stale, want, log[..|log| - 1], k);
    }
  }

  /** The mirror holds after any log of a flush, even a partial one. */
  lemma {:induction false} MirrorLog(filters: Filters, have: map<Prefix, RuleId>, stale: set<RuleId>,
                                     want: set<Prefix>, log: seq<Op>)
    requires Mirror(filters, have, stale) && NoClash(have, stale) && FlushLog(log, want, have, stale)
    ensures Mirror(EffectAll(filters, log), AppliedAll(have, log), LeftAll(stale, log))
    decreases |log|
  {
    if log != [] {
      var front, o := log[..|log| - 1], log[|log| - 1];
      FlushLogFront(log, want, have, stale);
      MirrorLog(filters, have, stale, want, front);
      LogEffect(have, stale, want, front);
      if o.DeleteStale? { StaleLogKeepsMirror(have, front); }
      MirrorStep(EffectAll(filters, front), AppliedAll(have, front), LeftAll(stale, front), o);
    }
  }

  lemma {:induction false} StaleLogKeepsMirror(have: map<Prefix, RuleId>, log: seq<Op>)
    requires forall o :: o in log ==> o.DeleteStale?
    ensures AppliedAll(have, log) == have
    decreases |log|
  {
    if log != [] {
      assert log[|log| - 1] in log;
      StaleLogKeepsMirror(have, log[..|log| - 1]);
    }
  }

  // ----- Flushes, from any state -----

  /** The engine's filters, and what the agent believes about them. */
  datatype Books = Books(filters: Filters, applied: map<Prefix, RuleId>, stale: set<RuleId>)

  ghost predicate OwnIds(applied: map<Prefix, RuleId>) {
    forall k :: k in applied ==> applied[k] == KeyId(k)
  }

  /** A flush that got through the ops of `log`, whichever others failed. */
  ghost predicate Flushes(b: Books, want: set<Prefix>, log: seq<Op>, b': Books) {
    && FlushLog(log, want, b.applied, b.stale)
    && b' == Books(EffectAll(b.filters, log), AppliedAll(b.applied, log), LeftAll(b.stale, log))
  }

  /** The stale id of an entry was deleted between two states. */
  ghost predicate Cleared(b: Books, b': Books, k: Prefix) {
    KeyId(k) in b.stale && KeyId(k) !in b'.stale
  }

  /** What a flush does to an entry counted as applied afterwards. One that was counted before is
      enforced exactly when it was and its stale id, if it had one, was not deleted. One that was added
      is enforced exactly when it was, or its id was free, or was freed. */
  ghost predicate Fate(b: Books, b': Books, k: Prefix) {
    if k in b.applied then
      && (KeyId(k) in b'.filters <==> KeyId(k) in b.filters && !Cleared(b, b', k))
      && (Enforced(b'.filters, k) <==> Enforced(b.filters, k) && !Cleared(b, b', k))
    else
      && KeyId(k) in b'.filters
      && (Enforced(b'.filters, k) <==> Enforced(b.filters, k) || KeyId(k) !in b.filters || Cleared(b, b', k))
  }

  lemma FlushFate(b: Books, want: set<Prefix>, log: seq<Op>, b': Books, k: Prefix)
    requires Flushes(b, want, log, b') && k in b'.applied
    ensures Fate(b, b', k)
  {
    LogEffect(b.applied, b.stale, want, log);
    FilterAfter(b.filters, b.applied, b.stale, want, log, k);
    MatchRoundTrip(k);
  }

  /** A flush, even a partial one, ends with every entry counted as applied enforced if and only if each
      was enforced already or got a fresh filter, and no stale id of a counted one was deleted. */
  lemma AllEnforcedIff(b: Books, want: set<Prefix>, log: seq<Op>, b': Books)
    requires Flushes(b, want, log, b')
    ensures (forall k :: k in b'.applied ==> Enforced(b'.filters, k))
            <==> forall k :: k in b'.applied ==>
                   if k in b.applied then Enforced(b.filters, k) && !Cleared(b, b', k)
                   else Enforced(b.filters, k) || KeyId(k) !in b.filters || Cleared(b, b', k)
  {
    forall k | k in b'.applied ensures Fate(b, b', k) { FlushFate(b, want, log, b', k); }
  }

  /** Two flushes that cost an entry its only filter, from books just read from the engine: the delete
      of an outdated filter fails hard while the entry is added (the add reads as already there), and
      goes through at the next flush. Afterwards the books show nothing left to do. */
  lemma TwoFlushesUnenforce(p: Prefix, outdated: seq<Match>)
    returns (b0: Books, log1: seq<Op>, b1: Books, log2: seq<Op>, b2: Books)
    requires !Enforces(outdated, p)
    ensures Fresh(b0) && b0.filters == map[KeyId(p) := outdated]
    ensures Flushes(b0, {p}, log1, b1) && Flushes(b1, {p}, log2, b2)
    ensures b2.filters == map[] && b2.applied.Keys == {p} && b2.stale == {}
  {
    var id, add, drop := KeyId(p), AddEntry(p), DeleteStale(KeyId(p));
    b0 := Books(map[id := outdated], map[], {id});
    b1 := Books(map[id := outdated], map[p := id], {id});
    b2 := Books(map[], map[p := id], {});
    log1, log2 := [add], [drop];
    OneOp(b0, add);
    OneOp(b1, drop);
    assert map[][p := id] == map[p := id];
  }

  lemma OneOp(b: Books, o: Op)
    ensures EffectAll(b.filters, [o]) == Effect(b.filters, o)
    ensures AppliedAll(b.applied, [o]) == Applied(b.applied, o) && LeftAll(b.stale, [o]) == Left(b.stale, o)
  {
    assert [o][..0] == [];
  }

  /** Books just read from the engine. */
  ghost predicate Fresh(b: Books) {
    && Mirror(b.filters, b.applied, b.stale) && NoClash(b.applied, b.stale)
    && Outdated(b.filters, b.stale) && b.stale <= b.filters.Keys
  }

  /** Books that tell the truth: an entry counted as applied is enforced unless its id is stale. */
  ghost predicate Told(b: Books) {
    && Mirror(b.filters, b.applied, b.stale)
    && forall k :: k in b.applied ==> (Enforced(b.filters, k) <==> KeyId(k) !in b.stale)
  }

  lemma FreshFlushTells(b: Books, want: set<Prefix>, log: seq<Op>, b': Books)
    requires Fresh(b) && Flushes(b, want, log, b')
    ensures Told(b')
  {
    MirrorLog(b.filters, b.applied, b.stale, want, log);
    LogEffect(b.applied, b.stale, want, log);
    forall k | k in b'.applied ensures Enforced(b'.filters, k) <==> KeyId(k) !in b'.stale {
      FlushFate(b, want, log, b', k);
    }
  }

  /** The id of the entry is free, or the entry is enforced. */
  ghost predicate FreeOrEnforced(filters: Filters, k: Prefix) {
    KeyId(k) in filters ==> Enforced(filters, k)
  }

  lemma {:induction false} FreeOrEnforcedStays(filters: Filters, log: seq<Op>, k: Prefix)
    requires FreeOrEnforced(filters, k)
    ensures FreeOrEnforced(EffectAll(filters, log), k)
    decreases |log|
  {
    if log != [] {
      FreeOrEnforcedStays(filters, log[..|log| - 1], k);
      MatchRoundTrip(k);
    }
  }

  // ----- Any list of ops -----

  /** The op takes away the filter under the id of the entry. */
  predicate Takes(o: Op, k: Prefix) {
    (o.DeleteStale? || o.DeleteEntry?) && o.id == KeyId(k)
  }

  ghost predicate Freed(ops: seq<Op>, k: Prefix) {
    exists o :: o in ops && Takes(o, k)
  }

  /** The entry was added after the last op that took its filter away. */
  ghost predicate AddedLast(ops: seq<Op>, k: Prefix) {
    ops != [] && (ops[|ops| - 1] == AddEntry(k)
                  || (!Takes(ops[|ops| - 1], k) && AddedLast(ops[..|ops| - 1], k)))
  }

  /** Whether the id of the entry has a filter after the ops, judged by the filters before. */
  ghost predicate PresentBy(filters: Filters, ops: seq<Op>, k: Prefix) {
    if Freed(ops, k) then AddedLast(ops, k) else KeyId(k) in filters || AddEntry(k) in ops
  }

  /** Whether the entry is enforced after the ops, judged by the filters before. */
  ghost predicate EnforcedBy(filters: Filters, ops: seq<Op>, k: Prefix) {
    if Freed(ops, k) then AddedLast(ops, k)
    else Enforced(filters, k) || (KeyId(k) !in filters && AddEntry(k) in ops)
  }

  lemma LastOp(ops: seq<Op>, k: Prefix)
    requires ops != []
    ensures var front, o := ops[..|ops| - 1], ops[|ops| - 1];
            && (Freed(ops, k) <==> Freed(front, k) || Takes(o, k))
            && (AddEntry(k) in ops <==> AddEntry(k) in front || o == AddEntry(k))
  {
    var front, o := ops[..|ops| - 1], ops[|ops| - 1];
    assert forall p :: p in ops <==> p in front || p == o;
    if Takes(o, k) { assert o in ops; }
  }

  lemma EffectOn(filters: Filters, o: Op, k: Prefix)
    ensures var f := Effect(filters, o);
            && (Takes(o, k) ==> KeyId(k) !in f)
            && (o == AddEntry(k) ==>
                  KeyId(k) in f && (Enforced(f, k) <==> Enforced(filters, k) || KeyId(k) !in filters))
            && (!Takes(o, k) && o != AddEntry(k) ==>
                  (KeyId(k) in f <==> KeyId(k) in filters) && (Enforced(f, k) <==> Enforced(filters, k)))
  {
    MatchRoundTrip(k);
  }

  /** What any list of ops that took effect leaves of an entry: its filter, if a delete took it away,
      only if it was added again afterwards; else the filter it had, which an add does not replace. */
  lemma {:induction false} EnforcedAfter(filters: Filters, ops: seq<Op>, k: Prefix)
    ensures Enforced(EffectAll(filters, ops), k) <==> EnforcedBy(filters, ops, k)
    ensures KeyId(k) in EffectAll(filters, ops) <==> PresentBy(filters, ops, k)
    decreases |ops|
  {
    if ops != [] {
      var front, o := ops[..|ops| - 1], ops[|ops| - 1];
      EnforcedAfter(filters, front, k);
      LastOp(ops, k);
      EffectOn(EffectAll(filters, front), o, k);
    }
  }

  // ----- The backend -----

  const WFP_BATCH_SIZE: nat := 4096
  const WFP_MAX_FILTERS: nat := 100000

  class WFPFirewall {
    const engine: WfpEngine
    var desired: set<Prefix>
    var applied: map<Prefix, RuleId>
    var stale: seq<RuleId>
    var closed: bool

    /** All that is known of the bookkeeping whatever happened before. */
    ghost predicate Valid()
      reads this
    {
      NoDup(stale) && OwnIds(applied)
    }

    ghost function BooksNow(): Books
      reads this, engine
    {
      Books(engine.filters, applied, Elems(stale))
    }

    /** A session on an engine that may already hold filters. */
    constructor (engine: WfpEngine)
      ensures Valid() && this.engine == engine && applied == map[] && stale == [] && desired == {} && !closed
    {
      this.engine := engine;
      desired, applied, stale, closed := {}, map[], [], false;
    }

    /** BanIP, on the parsed entry: refused, and so left unreported, beyond the cap. */
    method BanIP(entry: Option<Prefix>) returns (ok: bool)
      modifies `desired
      ensures ok == (entry.Some? && (entry.value in old(desired) || |old(desired)| < WFP_MAX_FILTERS))
      ensures desired == if ok then old(desired) + {entry.value} else old(desired)
    {
      if entry.None? { return false; }
      if entry.value in desired { return true; }
      if |desired| >= WFP_MAX_FILTERS { return false; }
      desired := desired + {entry.value};
      return true;
    }

    method UnbanIP(entry: Option<Prefix>) returns (ok: bool)
      modifies `desired
      ensures ok == entry.Some? && desired == if ok then old(desired) - {entry.value} else old(desired)
    {
      if entry.Some? { desired := desired - {entry.value}; }
      ok := entry.Some?;
    }

    /** GetBannedIPs reports the mirror. */
    method GetBannedIPs() returns (out: set<Prefix>)
      ensures out == applied.Keys
    {
      out := applied.Keys;
    }

    /** The op list of Flush: stale deletes first, then the missing adds, then the extra deletes. */
    method BuildOps() returns (ops: seq<Op>)
      requires Valid()
      ensures FlushLog(ops, desired, applied, Elems(stale)) && Complete(ops, desired, applied, Elems(stale))
    {
      ops := StaleOps(desired, applied, stale);
      ops := AddOps(ops, desired, applied, Elems(stale));
      ops := DeleteOps(ops, desired, applied, Elems(stale));
    }

    /** One batch of a flush: committed, then taken over into the mirror. */
    method FlushBatch(handle: bool, batch: seq<Op>) returns (done: set<RuleId>, committed: seq<Op>)
      modifies `applied, engine`filters, engine`staged, engine`inTxn, engine`aborts, engine`refusals, engine.obs
      ensures engine.Counted()
      ensures engine.filters == if engine.inTxn then old(engine.filters) else EffectAll(old(engine.filters), committed)
      ensures Subsequence(committed, batch) && applied == AppliedAll(old(applied), committed)
      ensures forall id :: id in done <==> DeleteStale(id) in committed
      ensures engine.Observed()
      ensures engine.refusals <= old(engine.refusals + engine.Spare(handle)) ==>
                committed == batch && engine.aborts == old(engine.aborts)
    {
      committed := engine.CommitBatch(handle, batch);
      done := Absorb(committed);
    }

    /** Flush: the diff between desired and applied, batch by batch, from any state. `log` is what it takes
        for done, ops of a flush to the desired set that the books now show; `inForce` is the part of it
        that is: all of it as long as no abort failed, and only what came before such an abort
        otherwise, so nothing in a transaction left open earlier. While they are the same, what it
        leaves decides the fate of every entry counted as applied; when nothing fails and the books
        were right the engine holds exactly the filters of the desired set. */
    method Flush(handle: bool) returns (ok: bool, ghost log: seq<Op>, ghost inForce: seq<Op>, ghost complete: bool)
      requires Valid()
      modifies `applied, `stale, engine`filters, engine`staged, engine`inTxn, engine`aborts, engine`refusals, engine.obs
      ensures Valid() && ok == !closed && engine.Observed() && engine.Counted()
      ensures engine.filters == EffectAll(old(engine.filters), inForce)
      ensures inForce <= log && (!engine.inTxn ==> inForce == log)
      ensures old(engine.inTxn) ==> inForce == []
      ensures !ok ==> log == [] && !complete && engine.aborts == old(engine.aborts)
      ensures FlushLog(log, desired, old(applied), Elems(old(stale)))
      ensures applied == AppliedAll(old(applied), log) && Elems(stale) == LeftAll(Elems(old(stale)), log)
      ensures old(applied).Keys * desired <= applied.Keys <= old(applied).Keys + desired
      ensures ok && !engine.inTxn ==> forall k :: k in applied ==> Fate(old(BooksNow()), BooksNow(), k)
      ensures ok && engine.refusals <= old(engine.refusals + engine.Spare(handle)) ==>
                complete && engine.aborts == old(engine.aborts)
      ensures complete ==> stale == [] && applied.Keys == desired
      ensures complete && !engine.inTxn
                && old(Mirror(engine.filters, applied, Elems(stale)) && NoClash(applied, Elems(stale)))
              ==> Exactly(engine.filters, desired)
    {
      log, inForce, complete := [], [], false;
      if closed { return false, log, inForce, false; }
      ghost var b := BooksNow();
      var ops := BuildOps();
      var staleDone;
      staleDone, log, inForce, complete := CommitAll(handle, ops);
      KeepUndone(staleDone);
      FlushDone(b, desired, ops, log, Elems(stale));
      NoElems(stale);
      ok := true;
    }

    /** One batch, tracked as part of the whole. */
    method CommitNext(handle: bool, batch: seq<Op>, ghost b: Books, ghost ops: seq<Op>, ghost log: seq<Op>,
                      ghost inForce: seq<Op>)
      returns (done: set<RuleId>, committed: seq<Op>, ghost inForce': seq<Op>)
      requires Progress(b, ops, log, inForce, engine.filters, applied, engine.inTxn)
      modifies `applied, engine`filters, engine`staged, engine`inTxn, engine`aborts, engine`refusals, engine.obs
      ensures engine.Counted() && engine.Observed()
      ensures Progress(b, ops + batch, log + committed, inForce', engine.filters, applied, engine.inTxn)
      ensures inForce' == if engine.inTxn then inForce else log + committed
      ensures forall id :: id in done <==> DeleteStale(id) in committed
      ensures engine.refusals <= old(engine.refusals + engine.Spare(handle)) ==>
                committed == batch && engine.aborts == old(engine.aborts)
    {
      ghost var filters, applied0, open := engine.filters, applied, engine.inTxn;
      done, committed := FlushBatch(handle, batch);
      ProgressNext(b, ops, batch, log, inForce, committed, filters, applied0, open, engine.inTxn);
      inForce' := if engine.inTxn then inForce else log + committed;
    }

    /** The batches of a flush. */
    method CommitAll(handle: bool, ops: seq<Op>)
      returns (staleDone: set<RuleId>, ghost log: seq<Op>, ghost inForce: seq<Op>, ghost complete: bool)
      modifies `applied, engine`filters, engine`staged, engine`inTxn, engine`aborts, engine`refusals, engine.obs
      ensures engine.Observed() && engine.Counted()
      ensures old(engine.inTxn) ==> inForce == []
      ensures Progress(old(BooksNow()), ops, log, inForce, engine.filters, applied, engine.inTxn)
      ensures complete ==> log == ops
      ensures engine.refusals <= old(engine.refusals + engine.Spare(handle)) ==>
                complete && engine.aborts == old(engine.aborts)
      ensures forall id :: id in staleDone <==> DeleteStale(id) in log
    {
      log, inForce, complete, staleDone := [], [], true, {};
      ghost var b := BooksNow();
      var start := 0;
      while start < |ops|
        invariant 0 <= start <= |ops|
        invariant engine.Counted()
        invariant old(engine.inTxn) ==> inForce == []
        invariant engine.refusals <= old(engine.refusals + engine.Spare(handle)) ==>
                    complete && engine.aborts == old(engine.aborts)
        invariant engine.Observed()
        invariant Progress(b, ops[..start], log, inForce, engine.filters, applied, engine.inTxn)
        invariant complete ==> log == ops[..start]
        invariant forall id :: id in staleDone <==> DeleteStale(id) in log
        decreases |ops| - start
      {
        var end := start + WFP_BATCH_SIZE;
        if end > |ops| { end := |ops|; }
        assert ops[..start] + ops[start..end] == ops[..end];
        var done, committed;
        done, committed, inForce := CommitNext(handle, ops[start..end], b, ops[..start], log, inForce);
        staleDone := staleDone + done;
        if committed != ops[start..end] { complete := false; }
        log := log + committed;
        start := end;
      }
      assert ops[..|ops|] == ops;
    }

    /** enumerate: the engine read back, as this session sees it; the read may fail. */
    method Enumerate() returns (cur: map<Prefix, RuleId>, left: seq<RuleId>, ok: bool)
      modifies engine`refusals
      ensures engine.refusals == old(engine.refusals) + if !closed && !ok then 1 else 0
      ensures ok ==> !closed && NoDup(left) && Fresh(Books(engine.View(), cur, Elems(left)))
      ensures OwnIds(cur) && NoDup(left)
    {
      cur, left := map[], [];
      if closed { return cur, left, false; }
      ok := engine.Accepted();
      if !ok { return; }
      var rules := ListRules(engine.View());
      cur, left := ClassifyWFPRules(rules);
      StaleIsOutdated(rules, cur, left);
    }

    /** The divergence test of resync: length and one-sided inclusion decide equality. */
    method NeedFlush() returns (need: bool)
      ensures need <==> stale != [] || desired != applied.Keys
    {
      need := |stale| > 0 || |desired| != |applied|;
      if !need {
        var todo := desired;
        while todo != {} && !need
          invariant todo <= desired && (need ==> !(desired <= applied.Keys))
          invariant !need ==> desired - todo <= applied.Keys
          decreases |todo|
        {
          var k :| k in todo;
          todo := todo - {k};
          if k !in applied { need := true; }
        }
        SameSizeSubset(desired, applied.Keys);
      }
    }

    /** resync: whatever the books held before, after a successful read they tell the truth, and with
        a complete flush engine, books and desired set agree. The desired set is not in the frame: no
        unban is ever reverted. `read` are the books read; `log` and `inForce` are those of the flush. */
    method Resync(handle: bool)
      returns (ok: bool, ghost read: Books, ghost log: seq<Op>, ghost inForce: seq<Op>, ghost complete: bool)
      requires Valid()
      modifies `applied, `stale, engine`filters, engine`staged, engine`inTxn, engine`aborts, engine`refusals, engine.obs
      ensures Valid() && engine.Observed() && engine.Counted()
      ensures engine.filters == EffectAll(old(engine.filters), inForce)
      ensures inForce <= log && (!engine.inTxn ==> inForce == log)
      ensures old(engine.inTxn) ==> inForce == []
      ensures !ok ==> applied == old(applied) && stale == old(stale) && log == []
      ensures !ok ==> engine.aborts == old(engine.aborts)
      ensures ok ==> Fresh(read) && read.filters == old(engine.View())
      ensures ok ==> FlushLog(log, desired, read.applied, read.stale)
      ensures ok ==> applied == AppliedAll(read.applied, log) && Elems(stale) == LeftAll(read.stale, log)
      ensures !closed && engine.refusals == old(engine.refusals) ==> ok && complete
      ensures ok && !engine.inTxn ==> Told(BooksNow())
      ensures ok && complete && !engine.inTxn ==>
                stale == [] && applied.Keys == desired && Exactly(engine.filters, desired)
    {
      log, inForce, complete := [], [], false;
      read := Books(engine.View(), map[], {});
      var cur, left;
      cur, left, ok := Enumerate();
      if !ok { return; }
      applied, stale := cur, left;
      read := Books(engine.View(), cur, Elems(left));
      var need := NeedFlush();
      if need {
        var flushed;
        flushed, log, inForce, complete := Flush(handle);
        if !engine.inTxn { FreshFlushTells(read, desired, log, BooksNow()); }
      } else {
        complete := true;
        NoElems(stale);
        if !engine.inTxn { MirrorIsExact(engine.filters, applied); }
      }
    }

    /** The update of the mirror after one batch; returns the stale ids the batch deleted. */
    method Absorb(committed: seq<Op>) returns (done: set<RuleId>)
      modifies `applied
      ensures applied == AppliedAll(old(applied), committed)
      ensures forall id :: id in done <==> DeleteStale(id) in committed
    {
      done := {};
      for i := 0 to |committed|
        invariant applied == AppliedAll(old(applied), committed[..i])
        invariant forall id :: id in done <==> DeleteStale(id) in committed[..i]
      {
        var o := committed[i];
        assert committed[..i + 1][..i] == committed[..i];
        assert committed[..i + 1] == committed[..i] + [o];
        match o {
          case DeleteStale(id) => done := done + {id};
          case AddEntry(k) => applied := applied[k := KeyId(k)];
          case DeleteEntry(k, _) => applied := applied - {k};
        }
      }
      assert committed[..|committed|] == committed;
    }

    /** The stale ids that could not be deleted stay for the next flush. */
    method KeepUndone(done: set<RuleId>)
      requires NoDup(stale)
      modifies `stale
      ensures NoDup(stale) && Elems(stale) == Elems(old(stale)) - done
    {
      var left, was := [], stale;
      for i := 0 to |was|
        invariant NoDup(left) && Elems(left) == Elems(was[..i]) - done
      {
        assert was[..i + 1] == was[..i] + [was[i]] && was[i] !in was[..i];
        AppendElems(was[..i], [was[i]]);
        AppendElems(left, [was[i]]);
        assert Elems([was[i]]) == {was[i]};
        if was[i] !in done { left := left + [was[i]]; }
      }
      assert was[..|was|] == was;
      stale := left;
    }
  }

  lemma SameSizeSubset<T>(a: set<T>, b: set<T>)
    ensures |a| == |b| && a <= b ==> a == b
  {
    if a <= b { assert b == a + (b - a); }
  }

  /** The rules listed so far show the filters with other ids than those of `todo`. */
  ghost predicate Listed(rules: seq<Rule>, filters: Filters, todo: set<RuleId>) {
    && FiltersOf(rules) == filters - todo && DistinctIds(rules)
    && forall i :: 0 <= i < |rules| ==> rules[i].id !in todo
  }

  lemma ListedStep(rules: seq<Rule>, filters: Filters, todo: set<RuleId>, id: RuleId)
    requires Listed(rules, filters, todo) && id in todo && id in filters
    ensures Listed(rules + [Rule(id, true, filters[id])], filters, todo - {id})
  {
    OwnRule(rules, Rule(id, true, filters[id]));
    assert (filters - todo)[id := filters[id]] == filters - (todo - {id});
  }

  /** The rules of an engine, in any order. */
  method ListRules(filters: Filters) returns (rules: seq<Rule>)
    ensures DistinctIds(rules) && FiltersOf(rules) == filters
  {
    rules := [];
    var todo := filters.Keys;
    assert filters - todo == map[];
    while todo != {}
      invariant todo <= filters.Keys && Listed(rules, filters, todo)
      decreases |todo|
    {
      var id :| id in todo;
      ListedStep(rules, filters, todo, id);
      todo := todo - {id};
      rules := rules + [Rule(id, true, filters[id])];
    }
    assert filters - todo == filters;
  }

  /** Every difference has its op. */
  ghost predicate Complete(ops: seq<Op>, want: set<Prefix>, have: map<Prefix, RuleId>, stale: set<RuleId>) {
    && (forall id :: id in stale ==> DeleteStale(id) in ops)
    && (forall k :: k in want && k !in have ==> AddEntry(k) in ops)
    && (forall k :: k in have && k !in want ==> DeleteEntry(k, KeyId(k)) in ops)
  }

  lemma OpsAppend(ops: seq<Op>, o: Op, want: set<Prefix>, have: map<Prefix, RuleId>, stale: set<RuleId>)
    requires FlushLog(ops, want, have, stale) && FlushOp(o, want, have, stale) && o !in ops
    requires o.DeleteStale? ==> forall p :: p in ops ==> p.DeleteStale?
    ensures FlushLog(ops + [o], want, have, stale)
    ensures forall p :: p in ops + [o] <==> p in ops || p == o
  {
  }

  method StaleOps(want: set<Prefix>, have: map<Prefix, RuleId>, stale: seq<RuleId>) returns (ops: seq<Op>)
    requires NoDup(stale)
    ensures FlushLog(ops, want, have, Elems(stale))
    ensures forall o :: o in ops <==> o.DeleteStale? && o.id in stale
  {
    ops := [];
    for i := 0 to |stale|
      invariant FlushLog(ops, want, have, Elems(stale))
      invariant forall o :: o in ops <==> o.DeleteStale? && o.id in stale[..i]
    {
      assert stale[i] in stale && stale[i] !in stale[..i];
      OpsAppend(ops, DeleteStale(stale[i]), want, have, Elems(stale));
      assert stale[..i + 1] == stale[..i] + [stale[i]];
      ops := ops + [DeleteStale(stale[i])];
    }
    assert stale[..|stale|] == stale;
  }

  method AddOps(before: seq<Op>, want: set<Prefix>, have: map<Prefix, RuleId>, ghost stale: set<RuleId>)
    returns (ops: seq<Op>)
    requires FlushLog(before, want, have, stale) && forall o :: o in before ==> o.DeleteStale?
    ensures FlushLog(ops, want, have, stale)
    ensures forall o :: o in ops <==> o in before || (o.AddEntry? && o.key in want - have.Keys)
  {
    ops := before;
    var todo := want - have.Keys;
    while todo != {}
      invariant todo <= want - have.Keys && FlushLog(ops, want, have, stale)
      invariant forall o :: o in ops <==> o in before || (o.AddEntry? && o.key in want - have.Keys - todo)
      decreases |todo|
    {
      var k :| k in todo;
      todo := todo - {k};
      OpsAppend(ops, AddEntry(k), want, have, stale);
      ops := ops + [AddEntry(k)];
    }
  }

  method DeleteOps(before: seq<Op>, want: set<Prefix>, have: map<Prefix, RuleId>, ghost stale: set<RuleId>)
    returns (ops: seq<Op>)
    requires FlushLog(before, want, have, stale) && (forall o :: o in before ==> !o.DeleteEntry?)
    requires forall k :: k in have ==> have[k] == KeyId(k)
    ensures FlushLog(ops, want, have, stale)
    ensures forall o :: o in ops <==>
              o in before || (o.DeleteEntry? && o.key in have.Keys - want && o.id == KeyId(o.key))
  {
    ops := before;
    var todo := have.Keys - want;
    while todo != {}
      invariant todo <= have.Keys - want && FlushLog(ops, want, have, stale)
      invariant forall o :: o in ops <==>
                  o in before || (o.DeleteEntry? && o.key in have.Keys - want - todo && o.id == KeyId(o.key))
      decreases |todo|
    {
      var k :| k in todo;
      todo := todo - {k};
      OpsAppend(ops, DeleteEntry(k, have[k]), want, have, stale);
      ops := ops + [DeleteEntry(k, have[k])];
    }
  }

  lemma {:induction false} AppliedConcat(cur: map<Prefix, RuleId>, a: seq<Op>, b: seq<Op>)
    ensures AppliedAll(cur, a + b) == AppliedAll(AppliedAll(cur, a), b)
    decreases |b|
  {
    if b == [] {
      assert a + b == a;
    } else {
      AppliedConcat(cur, a, b[..|b| - 1]);
      assert (a + b)[..|a + b| - 1] == a + b[..|b| - 1];
    }
  }

  /** How far a flush is from the books it began with: what it took for done of the ops so far, and what of
      that is in force. */
  ghost predicate Progress(b: Books, ops: seq<Op>, log: seq<Op>, inForce: seq<Op>, filters: Filters,
                           applied: map<Prefix, RuleId>, open: bool)
  {
    && Subsequence(log, ops) && inForce <= log && (!open ==> inForce == log)
    && filters == EffectAll(b.filters, inForce) && applied == AppliedAll(b.applied, log)
  }

  lemma ProgressNext(b: Books, ops: seq<Op>, batch: seq<Op>, log: seq<Op>, inForce: seq<Op>, committed: seq<Op>,
                     filters: Filters, applied: map<Prefix, RuleId>, open: bool, open': bool)
    requires Progress(b, ops, log, inForce, filters, applied, open) && Subsequence(committed, batch)
    requires open ==> open'
    ensures Progress(b, ops + batch, log + committed, if open' then inForce else log + committed,
                     if open' then filters else EffectAll(filters, committed), AppliedAll(applied, committed), open')
  {
    SubsequenceConcat(log, ops, committed, batch);
    EffectConcat(b.filters, log, committed);
    AppliedConcat(b.applied, log, committed);
  }

  lemma BatchLog(filters: Filters, have: map<Prefix, RuleId>, ops: seq<Op>, start: nat, end: nat,
                 log: seq<Op>, committed: seq<Op>)
    requires start <= end <= |ops| && Subsequence(log, ops[..start]) && Subsequence(committed, ops[start..end])
    ensures Subsequence(log + committed, ops[..end]) && ops[..start] + ops[start..end] == ops[..end]
    ensures EffectAll(filters, log + committed) == EffectAll(EffectAll(filters, log), committed)
    ensures AppliedAll(have, log + committed) == AppliedAll(AppliedAll(have, log), committed)
  {
    assert ops[..start] + ops[start..end] == ops[..end];
    SubsequenceConcat(log, ops[..start], committed, ops[start..end]);
    EffectConcat(filters, log, committed);
    AppliedConcat(have, log, committed);
  }

  lemma {:induction false} SubsequenceNoDup<T(!new)>(a: seq<T>, b: seq<T>)
    requires Subsequence(a, b) && NoDup(b)
    ensures NoDup(a)
    decreases |b|
  {
    if a != [] {
      var a', b' := a[..|a| - 1], b[..|b| - 1];
      if a[|a| - 1] == b[|b| - 1] && Subsequence(a', b') {
        SubsequenceNoDup(a', b');
        forall i | 0 <= i < |a'| ensures a'[i] != a[|a| - 1] {
          assert a'[i] in a';
          SubsequenceElems(a', b', a'[i]);
        }
      } else {
        SubsequenceNoDup(a, b');
      }
    }
  }

  /** What a flush leaves, from what it committed. */
  lemma FlushDone(b: Books, want: set<Prefix>, ops: seq<Op>, log: seq<Op>, left: set<RuleId>)
    requires FlushLog(ops, want, b.applied, b.stale) && Complete(ops, want, b.applied, b.stale)
    requires OwnIds(b.applied) && Subsequence(log, ops)
    requires forall id :: id in left <==> id in b.stale && DeleteStale(id) !in log
    ensures var b' := Books(EffectAll(b.filters, log), AppliedAll(b.applied, log), left);
            && Flushes(b, want, log, b') && OwnIds(b'.applied)
            && (forall k :: k in b'.applied ==> Fate(b, b', k))
            && b.applied.Keys * want <= b'.applied.Keys <= b.applied.Keys + want
            && (log == ops ==> left == {} && b'.applied.Keys == want)
            && (log == ops && Mirror(b.filters, b.applied, b.stale) && NoClash(b.applied, b.stale)
                ==> Exactly(b'.filters, want))
  {
    var b' := Books(EffectAll(b.filters, log), AppliedAll(b.applied, log), left);
    SubsequenceStaleFirst(log, ops);
    SubsequenceNoDup(log, ops);
    forall o | o in log ensures FlushOp(o, want, b.applied, b.stale) { SubsequenceElems(log, ops, o); }
    LogEffect(b.applied, b.stale, want, log);
    assert left == LeftAll(b.stale, log);
    assert Flushes(b, want, log, b');
    forall k | k in b'.applied ensures Fate(b, b', k) { FlushFate(b, want, log, b', k); }
    if log == ops && Mirror(b.filters, b.applied, b.stale) && NoClash(b.applied, b.stale) {
      MirrorLog(b.filters, b.applied, b.stale, want, log);
      MirrorIsExact(b'.filters, b'.applied);
    }
  }
}
