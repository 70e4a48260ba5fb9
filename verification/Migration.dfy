/** The switch between the WFP and netsh backends on one host, from the flush of the old backend on. One
    observer looks at every command of either backend: it reports a gap once an entry that was enforced
    when the migration began is enforced by neither of them. */
module Migration {
  import opened Prefixes
  import opened IntervalSet
  import Wfp = WfpBackend
  import Filters = WfpFilters
  import Netsh
  import Switch = BackendSwitch

  /** The entries of a set the engine enforces, and those netsh enforces. */
  ghost function ByWfp(engine: Wfp.WfpEngine, want: set<Prefix>): set<Prefix>
    reads engine
  {
    Filters.EnforcedIn(engine.filters, want)
  }

  ghost function ByNetsh(host: Netsh.NetshHost, want: set<Prefix>): set<Prefix>
    reads host
  {
    Netsh.ListedIn(host.rules, want)
  }

  /** Every id that was free or current still is. */
  ghost predicate Steady(before: Wfp.Filters, after: Wfp.Filters) {
    forall k :: Wfp.FreeOrEnforced(before, k) ==> Wfp.FreeOrEnforced(after, k)
  }

  lemma LogIsSteady(before: Wfp.Filters, log: seq<Wfp.Op>)
    ensures Steady(before, Wfp.EffectAll(before, log))
  {
    forall k | Wfp.FreeOrEnforced(before, k) ensures Wfp.FreeOrEnforced(Wfp.EffectAll(before, log), k) {
      Wfp.FreeOrEnforcedStays(before, log, k);
    }
  }

  /** cleanupWFP: our filters go away, as far as the engine lets them; with nothing refused all of them. */
  method PurgeWfp(engine: Wfp.WfpEngine)
    modifies engine`filters, engine`staged, engine`refusals, engine.obs
    ensures engine.Observed() && Steady(old(engine.filters), engine.filters)
    ensures engine.refusals >= old(engine.refusals)
    ensures !engine.inTxn && engine.refusals == old(engine.refusals) ==> engine.filters == map[]
  {
    var listed := engine.Accepted();
    if !listed { return; }
    var todo := engine.filters.Keys;
    while todo != {}
      invariant engine.Observed() && Steady(old(engine.filters), engine.filters)
      invariant engine.refusals >= old(engine.refusals)
      invariant !engine.inTxn && engine.refusals == old(engine.refusals) ==> engine.filters.Keys <= todo
      decreases |todo|
    {
      var id :| id in todo;
      todo := todo - {id};
      var _ := engine.DeleteRule(id);
    }
  }

  /** retire: the session is closed for good, then the filters are purged. */
  method Retire(fw: Wfp.WFPFirewall)
    modifies fw`closed, fw.engine`filters, fw.engine`staged, fw.engine`inTxn, fw.engine`refusals, fw.engine.obs
    ensures fw.closed && !fw.engine.inTxn
    ensures fw.engine.Observed() && Steady(old(fw.engine.filters), fw.engine.filters)
    ensures fw.engine.refusals >= old(fw.engine.refusals)
    ensures fw.engine.refusals == old(fw.engine.refusals) ==> fw.engine.filters == map[]
  {
    fw.closed := true;
    fw.engine.NewSession();
    PurgeWfp(fw.engine);
  }

  /** deleteGroupedRules: the base names, then by number up to a gap of eight. */
  method DeleteGroupedRules(host: Netsh.NetshHost)
    modifies host`rules, host`refusals, host.obs
    ensures host.rules <= old(host.rules) && host.Observed() && host.refusals >= old(host.refusals)
    ensures host.refusals == old(host.refusals) ==>
              Netsh.Walked(Netsh.NoBase(old(host.rules)), host.rules, 1, 100001)
  {
    var _ := host.DeleteRule(Netsh.Base(Netsh.In));
    var _ := host.DeleteRule(Netsh.Base(Netsh.Out));
    Netsh.BaseNames();
    ghost var numbered := host.rules;
    assert host.refusals == old(host.refusals) ==> numbered == Netsh.NoBase(old(host.rules));
    WalkNumbers(host);
  }

  method WalkNumbers(host: Netsh.NetshHost)
    modifies host`rules, host`refusals, host.obs
    ensures host.rules <= old(host.rules) && host.Observed() && host.refusals >= old(host.refusals)
    ensures host.refusals == old(host.refusals) ==> Netsh.Walked(old(host.rules), host.rules, 1, 100001)
  {
    var misses, i := 0, 1;
    while misses < 8 && i <= 100000
      invariant host.rules <= old(host.rules) && host.Observed() && host.refusals >= old(host.refusals)
      invariant 0 <= misses <= 8 && 1 + misses <= i <= 100001
      invariant host.refusals == old(host.refusals) ==> Netsh.Walking(old(host.rules), host.rules, 1, i, misses)
      decreases 100001 - i
    {
      ghost var now := host.rules;
      var hitIn := host.DeleteRule(Netsh.Numbered(Netsh.In, i));
      var hitOut := host.DeleteRule(Netsh.Numbered(Netsh.Out, i));
      if host.refusals == old(host.refusals) {
        Netsh.WalkOn(old(host.rules), now, host.rules, 1, i, misses, hitIn || hitOut);
      }
      if hitIn || hitOut { misses := 0; } else { misses := misses + 1; }
      i := i + 1;
    }
  }

  /** cleanupLegacyRules: only names that are not grouped; with nothing refused all of those. */
  method CleanupLegacyRules(host: Netsh.NetshHost)
    modifies host`rules, host`refusals, host.obs
    ensures host.rules <= old(host.rules) && host.Observed() && host.refusals >= old(host.refusals)
    ensures forall r :: r in old(host.rules) && !r.name.Foreign? ==> r in host.rules
    ensures host.refusals == old(host.refusals) ==> forall r :: r in host.rules ==> !r.name.Foreign?
  {
    var listed := host.Accepted();
    if !listed { return; }
    var names := set r | r in host.rules :: r.name;
    var todo := names;
    while todo != {}
      invariant host.rules <= old(host.rules) && host.Observed() && host.refusals >= old(host.refusals)
      invariant forall r :: r in old(host.rules) && !r.name.Foreign? ==> r in host.rules
      invariant host.refusals == old(host.refusals) ==>
                  forall r :: r in host.rules && r.name.Foreign? ==> r.name in todo
      decreases |todo|
    {
      var n :| n in todo;
      todo := todo - {n};
      if n.Foreign? { var _ := host.DeleteRule(n); }
    }
  }

  /** The tail of reconcile, which the WFP backend runs in the background: once its filters are
      verified it clears netsh rules, unless a switch to netsh is under way or over. */
  method Reconcile(fw: Wfp.WFPFirewall, handover: bool, host: Netsh.NetshHost)
    modifies host`rules, host`refusals, host.obs
    ensures host.Observed() && host.refusals >= old(host.refusals)
    ensures handover || fw.closed ==>
              host.rules == old(host.rules) && host.obs.gap == old(host.obs.gap) && host.refusals == old(host.refusals)
  {
    var verified: bool := *;
    if verified && !handover && !fw.closed { DeleteGroupedRules(host); }
  }

  // ----- netsh to WFP -----

  lemma SmallerThan(a: set<Prefix>, k: Prefix, b: set<Prefix>)
    requires a <= b - {k} && k in b
    ensures |a| < |b|
  {
    SubsetSize(a, b - {k});
  }

  lemma SubsetSize(a: set<Prefix>, b: set<Prefix>)
    requires a <= b
    ensures |a| <= |b|
  {
    assert b == a + (b - a);
  }

  /** The desired set of a new WFP backend: the set to move, up to the cap. */
  method LoadDesired(fw: Wfp.WFPFirewall, want: set<Prefix>)
    modifies fw`desired
    ensures fw.desired <= want && (|want| <= Wfp.WFP_MAX_FILTERS ==> fw.desired == want)
  {
    fw.desired := {};
    var todo := want;
    while todo != {}
      invariant todo <= want && fw.desired <= want - todo
      invariant |want| <= Wfp.WFP_MAX_FILTERS ==> fw.desired == want - todo
      decreases |todo|
    {
      var k :| k in todo;
      SmallerThan(fw.desired, k, want);
      todo := todo - {k};
      var _ := fw.BanIP(Some(k));
    }
  }

  /** When an entry counted as applied by the new backend is enforced: if the engine could be read once,
      exactly when its id is not stale; if not, exactly when before the switch its id was free or it was
      enforced. */
  ghost predicate Verdict(read: bool, before: Wfp.Filters, b: Wfp.Books, k: Prefix) {
    && Filters.KeyId(k) in b.filters
    && (Filters.Enforced(b.filters, k)
        <==> if read then Filters.KeyId(k) !in b.stale else Wfp.FreeOrEnforced(before, k))
    && (Wfp.FreeOrEnforced(before, k) ==> Filters.Enforced(b.filters, k))
  }

  /** What the building phase reads and does: the books of its first read (empty if that failed), the ops
      its first flush takes for done, the same of its resync, the ops in force, and the books in the end. */
  datatype Build = Build(listed: bool, first: Wfp.Books, log: seq<Wfp.Op>,
                         resynced: bool, second: Wfp.Books, log': seq<Wfp.Op>, inForce: seq<Wfp.Op>,
                         last: Wfp.Books)

  /** Both flushes are flushes to the desired set from the books of the last read, and lead to the books
      of the new backend. */
  ghost predicate Builds(t: Build, before: Wfp.Filters, want: set<Prefix>) {
    && t.first.filters == before
    && (if t.listed then Wfp.Fresh(t.first) else t.first.applied == map[] && t.first.stale == {})
    && Wfp.FlushLog(t.log, want, t.first.applied, t.first.stale)
    && (if t.resynced then
          && Wfp.Fresh(t.second) && Wfp.FlushLog(t.log', want, t.second.applied, t.second.stale)
          && t.last.applied == Wfp.AppliedAll(t.second.applied, t.log')
        else
          t.log' == [] && t.last.applied == Wfp.AppliedAll(t.first.applied, t.log))
  }

  /** The verdicts on a set after a building phase in which no abort failed. */
  ghost predicate Verdicts(t: Build, before: Wfp.Filters, want: set<Prefix>) {
    forall k :: k in want ==> Verdict(t.listed || t.resynced, before, t.last, k)
  }

  /** A flush whose every op taken for done is in force. */
  ghost function AfterLog(b: Wfp.Books, log: seq<Wfp.Op>): Wfp.Books {
    Wfp.Books(Wfp.EffectAll(b.filters, log), Wfp.AppliedAll(b.applied, log), Wfp.LeftAll(b.stale, log))
  }

  lemma BuildVerdict(t: Build, want: set<Prefix>, last: Wfp.Books, k: Prefix)
    requires if t.listed then Wfp.Fresh(t.first) else t.first.applied == map[] && t.first.stale == {}
    requires Wfp.FlushLog(t.log, want, t.first.applied, t.first.stale)
    requires if t.resynced then
               && Wfp.Fresh(t.second) && t.second.filters == AfterLog(t.first, t.log).filters
               && Wfp.FlushLog(t.log', want, t.second.applied, t.second.stale) && last == AfterLog(t.second, t.log')
             else
               last == AfterLog(t.first, t.log)
    requires k in last.applied
    ensures Verdict(t.listed || t.resynced, t.first.filters, last, k)
  {
    if Wfp.FreeOrEnforced(t.first.filters, k) {
      Wfp.FreeOrEnforcedStays(t.first.filters, t.log, k);
      if t.resynced { Wfp.FreeOrEnforcedStays(t.second.filters, t.log', k); }
    }
    if t.resynced {
      Wfp.FreshFlushTells(t.second, want, t.log', last);
    } else if t.listed {
      Wfp.FreshFlushTells(t.first, want, t.log, last);
    } else {
      Wfp.FlushFate(t.first, want, t.log, last, k);
    }
  }

  /** Books and engine agree on exactly the desired set. */
  ghost predicate Synced(b: Wfp.Books, want: set<Prefix>) {
    b.stale == {} && b.applied.Keys == want && Filters.Exactly(b.filters, want)
  }

  /** openWFPFirewall, and the flush of the set to move. */
  method OpenAndFlush(engine: Wfp.WfpEngine, want: set<Prefix>)
    returns (nw: Wfp.WFPFirewall, listed: bool, ghost first: Wfp.Books, ghost log: seq<Wfp.Op>,
             ghost inForce: seq<Wfp.Op>)
    modifies engine`filters, engine`staged, engine`inTxn, engine`aborts, engine`refusals, engine.obs
    ensures fresh(nw) && nw.engine == engine && !nw.closed && nw.Valid()
    ensures engine.Observed() && engine.aborts >= old(engine.aborts)
    ensures engine.inTxn <==> engine.aborts > old(engine.aborts)
    ensures nw.desired <= want && (|want| <= Wfp.WFP_MAX_FILTERS ==> nw.desired == want)
    ensures first.filters == old(engine.filters) && engine.filters == Wfp.EffectAll(first.filters, inForce)
    ensures if listed then Wfp.Fresh(first) else first.applied == map[] && first.stale == {}
    ensures Wfp.FlushLog(log, nw.desired, first.applied, first.stale)
    ensures nw.applied == Wfp.AppliedAll(first.applied, log) && Elems(nw.stale) == Wfp.LeftAll(first.stale, log)
    ensures inForce <= log && (!engine.inTxn ==> inForce == log)
    ensures engine.refusals - old(engine.refusals) >= engine.aborts - old(engine.aborts)
  {
    engine.NewSession();
    nw := new Wfp.WFPFirewall(engine);
    var cur, left;
    cur, left, listed := nw.Enumerate();
    if listed { nw.applied, nw.stale := cur, left; }
    LoadDesired(nw, want);
    first := nw.BooksNow();
    var flushed;
    ghost var complete;
    flushed, log, inForce, complete := nw.Flush(true);
  }

  /** The building phase of migrateToWFP: filters for the whole set, read back. */
  method BuildWfp(engine: Wfp.WfpEngine, want: set<Prefix>)
    returns (nw: Wfp.WFPFirewall, ok: bool, ghost t: Build)
    modifies engine`filters, engine`staged, engine`inTxn, engine`aborts, engine`refusals, engine.obs
    ensures fresh(nw) && nw.engine == engine && !nw.closed && nw.Valid()
    ensures engine.Observed() && engine.aborts >= old(engine.aborts)
    ensures engine.inTxn <==> engine.aborts > old(engine.aborts)
    ensures ok <==> want <= nw.applied.Keys
    ensures nw.desired <= want && (|want| <= Wfp.WFP_MAX_FILTERS ==> nw.desired == want)
    ensures Builds(t, old(engine.filters), nw.desired)
    ensures engine.filters == Wfp.EffectAll(old(engine.filters), t.inForce)
    ensures t.inForce <= t.log + t.log' && (!engine.inTxn ==> t.inForce == t.log + t.log')
    ensures t.last == nw.BooksNow() && (ok && !engine.inTxn ==> Verdicts(t, old(engine.filters), want))
    ensures engine.refusals - old(engine.refusals) >= engine.aborts - old(engine.aborts)
    ensures engine.refusals == old(engine.refusals) ==>
              !engine.inTxn && Synced(t.last, nw.desired)
  {
    var listed, resynced;
    ghost var first, log, inForce, second, log', inForce', complete;
    nw, listed, first, log, inForce := OpenAndFlush(engine, want);
    resynced, second, log', inForce', complete := nw.Resync(true);
    t := Build(listed, first, log, resynced, second, log', inForce + inForce', nw.BooksNow());
    // switchMissing
    ok := want <= nw.applied.Keys;
    if ok && !engine.inTxn {
      forall k | k in want ensures Verdict(listed || resynced, first.filters, nw.BooksNow(), k) {
        BuildVerdict(t, nw.desired, nw.BooksNow(), k);
      }
    }
    Wfp.EffectConcat(first.filters, inForce, inForce');
  }

  /** What the ops in force leave enforced, of a set. */
  ghost function EnforcedOf(before: Wfp.Filters, inForce: seq<Wfp.Op>, want: set<Prefix>): set<Prefix> {
    set k | k in want && Wfp.EnforcedBy(before, inForce, k)
  }

  lemma InForceEnforces(before: Wfp.Filters, inForce: seq<Wfp.Op>, want: set<Prefix>)
    ensures Filters.EnforcedIn(Wfp.EffectAll(before, inForce), want) == EnforcedOf(before, inForce, want)
  {
    forall k | k in want
      ensures Filters.Enforced(Wfp.EffectAll(before, inForce), k) <==> Wfp.EnforcedBy(before, inForce, k)
    {
      Wfp.EnforcedAfter(before, inForce, k);
    }
  }

  /** What the cleanup leaves when nothing is refused: numbered rules behind a gap of eight numbers, or
      beyond its limit. */
  ghost predicate Cleared(before: set<Netsh.NetRule>, now: set<Netsh.NetRule>) {
    Netsh.Walked(Numbered(before), now, 1, 100001)
  }

  ghost function Numbered(rules: set<Netsh.NetRule>): set<Netsh.NetRule> {
    set r | r in rules && r.name.Numbered?
  }

  lemma ClearedBoth(before: set<Netsh.NetRule>, mid: set<Netsh.NetRule>, now: set<Netsh.NetRule>)
    requires Netsh.Walked(Netsh.NoBase(before), mid, 1, 100001) && now == Numbered(mid)
    ensures Cleared(before, now)
  {
    if Netsh.Walking(Netsh.NoBase(before), mid, 1, 100001, 0) {
      assert Netsh.Walking(Numbered(before), now, 1, 100001, 0);
    } else {
      var i: nat :| 8 <= i <= 100001 && Netsh.Walking(Netsh.NoBase(before), mid, 1, i, 8);
      assert Netsh.Walking(Numbered(before), now, 1, i, 8);
    }
  }

  method ClearNetsh(host: Netsh.NetshHost)
    modifies host`rules, host`refusals, host.obs
    ensures host.Observed() && host.refusals >= old(host.refusals)
    ensures host.refusals == old(host.refusals) ==> Cleared(old(host.rules), host.rules)
  {
    DeleteGroupedRules(host);
    ghost var mid := host.rules;
    CleanupLegacyRules(host);
    if host.refusals == old(host.refusals) {
      NoBaseLeft(old(host.rules), mid, 100001);
      assert host.rules == Numbered(mid);
      ClearedBoth(old(host.rules), mid, host.rules);
    }
  }

  lemma NoBaseLeft(before: set<Netsh.NetRule>, mid: set<Netsh.NetRule>, limit: nat)
    requires Netsh.Walked(Netsh.NoBase(before), mid, 1, limit)
    ensures forall r :: r in mid ==> !r.name.Base?
  {
    forall r: Netsh.NetRule | r in mid ensures r in Netsh.NoBase(before) {
      if !Netsh.Walking(Netsh.NoBase(before), mid, 1, limit, 0) {
        var i: nat :| 8 <= i <= limit && Netsh.Walking(Netsh.NoBase(before), mid, 1, i, 8);
      }
    }
  }

  /** The rules are those of a list, group by group. */
  ghost predicate Orderly(f: Netsh.WindowsFirewall)
    reads f, f.host
  {
    f.Valid() && f.Exact() && exists groups: nat :: groups <= 100000 && f.Grouped(groups)
  }

  /** And if there is nothing to flush, of the banned set. */
  ghost predicate TidyNetsh(f: Netsh.WindowsFirewall)
    reads f, f.host
  {
    && f.Valid() && f.Clean()
    && (if f.dirty then f.Exact() || !f.legacyCleaned else Orderly(f) && ListsExactly(f.host, f.cache))
  }

  ghost predicate ListsExactly(host: Netsh.NetshHost, want: set<Prefix>)
    reads host
  {
    forall p, d :: Netsh.Listed(host.rules, d, p) <==> p in want
  }

  /** Orderly rules are all within the reach of the cleanup. */
  lemma ClearedAll(f: Netsh.WindowsFirewall)
    requires Orderly(f)
    ensures forall now :: Cleared(f.host.rules, now) ==> now == {}
  {
    var groups: nat :| groups <= 100000 && f.Grouped(groups);
    var numbered := Numbered(f.host.rules);
    forall r: Netsh.NetRule | r in numbered ensures Netsh.IsWanted(r.name, groups) { assert f.IsTracked(r.name); }
    forall n: Netsh.Name | Netsh.IsWanted(n, groups) && n.Numbered? ensures exists r :: r in numbered && r.name == n {
      assert f.IsTracked(n);
      assert Netsh.NetRule(n, n.dir, f.appliedRules.value[n]) in numbered;
    }
    forall now | Cleared(f.host.rules, now) ensures now == {} {
      Netsh.WalkClears(numbered, now, groups, 100001);
    }
  }

  /** migrateToWFP, of any entries that are watched while netsh enforces them: no command of it, on any
      path, leaves one enforced by neither backend, unless it succeeds although WFP does not enforce
      one. What a success leaves enforced is decided, entry by entry, by the filters before and the ops
      in force, which are all the ops taken for done unless an abort failed; failure leaves every netsh
      rule as it was. */
  method MigrateToWfp(old_: Netsh.WindowsFirewall, engine: Wfp.WfpEngine)
    returns (nw: Wfp.WFPFirewall, ok: bool, ghost t: Build)
    requires old_.Valid() && engine.obs == old_.host.obs && engine.Seen() && old_.host.Seen()
    requires engine.obs.watched <= engine.obs.byNetsh
    modifies engine, engine.obs, old_.host
    ensures fresh(nw) && nw.engine == engine && nw.Valid() && engine.Seen() && old_.host.Seen()
    ensures engine.obs.watched == old(engine.obs.watched) && engine.obs.watches == old(engine.obs.watches)
    ensures old(engine.obs.gap) ==> engine.obs.gap
    ensures engine.obs.gap && !old(engine.obs.gap) ==>
              ok && !(engine.obs.watched <= ByWfp(engine, engine.obs.watched))
    ensures nw.desired <= old_.cache && (|old_.cache| <= Wfp.WFP_MAX_FILTERS ==> nw.desired == old_.cache)
    ensures engine.aborts >= old(engine.aborts) && Steady(old(engine.filters), engine.filters)
    ensures !ok ==> nw.closed && old_.host.rules == old(old_.host.rules)
    ensures ok ==> !nw.closed && old_.cache <= nw.applied.Keys && (engine.inTxn <==> engine.aborts > old(engine.aborts))
    ensures ok ==> Builds(t, old(engine.filters), nw.desired) && t.inForce <= t.log + t.log'
    ensures ok && !engine.inTxn ==> t.inForce == t.log + t.log'
    ensures ok ==> ByWfp(engine, old_.cache) == EnforcedOf(old(engine.filters), t.inForce, old_.cache)
    ensures ok ==> t.last == nw.BooksNow() && (!engine.inTxn ==> Verdicts(t, old(engine.filters), old_.cache))
    ensures engine.refusals >= old(engine.refusals) && old_.host.refusals >= old(old_.host.refusals)
    ensures engine.refusals == old(engine.refusals) && |old_.cache| <= Wfp.WFP_MAX_FILTERS ==>
              ok && !engine.inTxn && Synced(t.last, old_.cache)
    ensures ok && old_.host.refusals == old(old_.host.refusals) ==> Cleared(old(old_.host.rules), old_.host.rules)
    ensures !ok ==> old_.host.refusals == old(old_.host.refusals)
    ensures !ok && engine.refusals == old(engine.refusals) ==> engine.filters == map[]
  {
    nw, ok, t := BuildWfp(engine, old_.cache);
    LogIsSteady(old(engine.filters), t.inForce);
    InForceEnforces(old(engine.filters), t.inForce, old_.cache);
    if ok { ClearNetsh(old_.host); } else { Retire(nw); }
  }

  /** A switch from netsh to WFP: the flush of the old backend, then the migration, watched for every
      entry that netsh enforces by then. */
  method SwitchToWfp(old_: Netsh.WindowsFirewall, engine: Wfp.WfpEngine)
    returns (nw: Wfp.WFPFirewall, ok: bool, ghost t: Build)
    requires old_.Valid() && engine.obs == old_.host.obs && engine.obs.watched == {}
    modifies engine, engine.obs, old_`dirty, old_`legacyCleaned, old_`appliedRules, old_`unapplied, old_.host
    ensures fresh(nw) && nw.engine == engine && nw.Valid() && old_.cache == old(old_.cache)
    ensures nw.desired <= old_.cache && (|old_.cache| <= Wfp.WFP_MAX_FILTERS ==> nw.desired == old_.cache)
    ensures engine.Seen() && old_.host.Seen() && WatchedOfNetsh(old_, engine.obs.watched)
    ensures engine.obs.watches == old(engine.obs.watches) + [engine.obs.watched]
    ensures engine.obs.gap && !old(engine.obs.gap) ==>
              ok && !(engine.obs.watched <= ByWfp(engine, engine.obs.watched))
    ensures old(engine.obs.gap) ==> engine.obs.gap
    ensures engine.aborts >= old(engine.aborts) && Steady(old(engine.filters), engine.filters)
    ensures !ok ==> nw.closed && old_.Valid() && engine.obs.watched == ByNetsh(old_.host, old_.cache)
    ensures ok ==> !nw.closed && old_.cache <= nw.applied.Keys && (engine.inTxn <==> engine.aborts > old(engine.aborts))
    ensures ok ==> Builds(t, old(engine.filters), nw.desired) && t.inForce <= t.log + t.log'
    ensures ok && !engine.inTxn ==> t.inForce == t.log + t.log'
    ensures ok ==> ByWfp(engine, old_.cache) == EnforcedOf(old(engine.filters), t.inForce, old_.cache)
    ensures ok ==> t.last == nw.BooksNow() && (!engine.inTxn ==> Verdicts(t, old(engine.filters), old_.cache))
    ensures ok && !engine.inTxn && (forall k :: k in old_.cache ==> Wfp.FreeOrEnforced(old(engine.filters), k))
            ==> old_.cache == ByWfp(engine, old_.cache) && engine.obs.gap == old(engine.obs.gap)
    ensures engine.refusals >= old(engine.refusals) && old_.host.refusals >= old(old_.host.refusals)
    ensures engine.refusals == old(engine.refusals) && |old_.cache| <= Wfp.WFP_MAX_FILTERS ==>
              ok && !engine.inTxn && Synced(t.last, old_.cache)
    ensures ok && old_.host.refusals == old(old_.host.refusals) && old(TidyNetsh(old_)) && |old_.cache| <= 100000 ==>
              old_.host.rules == {}
  {
    FlushNetsh(old_);
    ghost var kept := ByNetsh(old_.host, old_.cache);
    engine.obs.Watch(kept, ByWfp(engine, kept), kept);
    assert ByNetsh(old_.host, kept) == kept;
    if Orderly(old_) { ClearedAll(old_); }
    nw, ok, t := MigrateToWfp(old_, engine);
  }

  /** The flush of the netsh backend; with nothing refused it leaves exactly the rules of the banned set. */
  method FlushNetsh(f: Netsh.WindowsFirewall)
    requires f.Valid()
    modifies f`dirty, f`legacyCleaned, f`appliedRules, f`unapplied, f.host`rules, f.host`refusals, f.host.obs
    ensures f.Valid() && f.host.Observed() && f.host.refusals >= old(f.host.refusals)
    ensures if old(f.dirty) then f.cache - f.unapplied <= ByNetsh(f.host, f.cache)
            else f.host.rules == old(f.host.rules)
    ensures f.host.refusals == old(f.host.refusals) && old(TidyNetsh(f)) && |f.cache| <= 100000 ==>
              !f.dirty && Orderly(f) && ListsExactly(f.host, f.cache)
  {
    var flushed := f.Flush();
    if old(f.dirty) {
      forall p | p in f.cache - f.unapplied ensures Netsh.ListedBoth(f.host.rules, p) {
        assert Netsh.Listed(f.host.rules, Netsh.In, p) && Netsh.Listed(f.host.rules, Netsh.Out, p);
      }
    }
  }

  /** The watched entries are those banned by the netsh backend that are in force after its flush: at
      least all it reports, and what was in force when there was nothing to flush. */
  twostate predicate WatchedOfNetsh(f: Netsh.WindowsFirewall, watched: set<Prefix>)
    reads f, f.host
  {
    && watched <= f.cache
    && (if old(f.dirty) then f.cache - f.unapplied <= watched else watched == old(ByNetsh(f.host, f.cache)))
  }

  // ----- WFP to netsh -----

  /** The building phase of migrateToNetsh: grouped rules for the whole set. The background reconcile of
      the WFP backend runs in between, held off by the handover flag. */
  method BuildNetsh(oldWfp: Wfp.WFPFirewall, host: Netsh.NetshHost, want: set<Prefix>)
    returns (nf: Netsh.WindowsFirewall, ok: bool)
    modifies host`rules, host`refusals, host.obs
    ensures fresh(nf) && nf.host == host && nf.cache == want && nf.Valid()
    ensures host.Observed()
    ensures ok ==> want == ByNetsh(host, want) && nf.unapplied == {}
    ensures host.refusals >= old(host.refusals)
    ensures host.refusals == old(host.refusals) ==>
              ok && !nf.dirty && ListsExactly(host, want) && (|want| <= 100000 ==> Orderly(nf))
  {
    var handover := true;
    Reconcile(oldWfp, handover, host);
    nf := new Netsh.WindowsFirewall(host, want);
    nf.dirty := true;
    ok := nf.Flush();
    Reconcile(oldWfp, handover, host);
    // switchMissing
    ok := ok && want * nf.unapplied == {};
  }

  /** migrateToNetsh, of any desired entries that are watched while WFP enforces them: no command of it, on
      any path, leaves one enforced by neither backend. Success: the whole set is listed in both
      directions. Failure: the WFP backend is as it was. */
  method MigrateToNetsh(oldWfp: Wfp.WFPFirewall, host: Netsh.NetshHost)
    returns (nf: Netsh.WindowsFirewall, ok: bool)
    requires oldWfp.engine.obs == host.obs && oldWfp.engine.Seen() && host.Seen()
    requires host.obs.watched <= host.obs.byWfp && host.obs.watched <= oldWfp.desired
    modifies host, host.obs, oldWfp`closed, oldWfp.engine
    ensures fresh(nf) && nf.host == host && nf.cache == oldWfp.desired && oldWfp.engine.Seen() && host.Seen()
    ensures host.obs.watched == old(host.obs.watched) && host.obs.watches == old(host.obs.watches)
    ensures host.obs.gap == old(host.obs.gap)
    ensures Steady(old(oldWfp.engine.filters), oldWfp.engine.filters)
    ensures oldWfp.engine.aborts == old(oldWfp.engine.aborts)
    ensures ok ==> nf.Valid() && oldWfp.desired == ByNetsh(host, oldWfp.desired) && oldWfp.closed
    ensures !ok ==> oldWfp.closed == old(oldWfp.closed) && oldWfp.engine.filters == old(oldWfp.engine.filters)
    ensures ok ==> !oldWfp.engine.inTxn
    ensures host.refusals >= old(host.refusals) && oldWfp.engine.refusals >= old(oldWfp.engine.refusals)
    ensures host.refusals == old(host.refusals) ==>
              ok && !nf.dirty && ListsExactly(host, nf.cache) && (|nf.cache| <= 100000 ==> Orderly(nf))
    ensures ok && oldWfp.engine.refusals == old(oldWfp.engine.refusals) ==> oldWfp.engine.filters == map[]
  {
    nf, ok := BuildNetsh(oldWfp, host, oldWfp.desired);
    if !ok {
      DeleteGroupedRules(host);
      Reconcile(oldWfp, false, host);
      return;
    }
    assert forall k :: k in host.obs.watched ==> k in ByNetsh(host, oldWfp.desired);
    // The closed backend leaves the rules alone.
    Retire(oldWfp);
    Reconcile(oldWfp, true, host);
  }

  /** A switch from WFP to netsh: the flush of the old backend, then the migration, watched for every
      desired entry that WFP enforces by then. */
  method SwitchToNetsh(oldWfp: Wfp.WFPFirewall, host: Netsh.NetshHost)
    returns (nf: Netsh.WindowsFirewall, ok: bool)
    requires oldWfp.Valid() && oldWfp.engine.obs == host.obs && host.obs.watched == {}
    modifies host, host.obs, oldWfp, oldWfp.engine
    ensures fresh(nf) && nf.host == host && nf.cache == oldWfp.desired == old(oldWfp.desired)
    ensures oldWfp.engine.Seen() && host.Seen() && WatchedOfWfp(oldWfp, host.obs.watched)
    ensures host.obs.watches == old(host.obs.watches) + [host.obs.watched]
    ensures host.obs.gap == old(host.obs.gap) && (if ok then nf.Valid() else oldWfp.Valid())
    ensures Steady(old(oldWfp.engine.filters), oldWfp.engine.filters)
    ensures oldWfp.engine.aborts >= old(oldWfp.engine.aborts)
    ensures ok ==> oldWfp.desired == ByNetsh(host, oldWfp.desired) && oldWfp.closed
    ensures !ok ==> oldWfp.closed == old(oldWfp.closed)
    ensures !ok ==> host.obs.watched == ByWfp(oldWfp.engine, oldWfp.desired)
    ensures ok ==> !oldWfp.engine.inTxn
    ensures host.refusals >= old(host.refusals) && oldWfp.engine.refusals >= old(oldWfp.engine.refusals)
    ensures host.refusals == old(host.refusals) ==>
              ok && !nf.dirty && ListsExactly(host, nf.cache) && (|nf.cache| <= 100000 ==> Orderly(nf))
    ensures ok && oldWfp.engine.refusals == old(oldWfp.engine.refusals) ==> oldWfp.engine.filters == map[]
  {
    var flushed;
    ghost var log, inForce, complete;
    flushed, log, inForce, complete := oldWfp.Flush(true);
    ghost var kept := ByWfp(oldWfp.engine, oldWfp.desired);
    LogIsSteady(old(oldWfp.engine.filters), inForce);
    FlushSpares(old(oldWfp.BooksNow()), oldWfp.desired, log, inForce);
    host.obs.Watch(kept, kept, ByNetsh(host, kept));
    assert ByWfp(oldWfp.engine, kept) == kept;
    nf, ok := MigrateToNetsh(oldWfp, host);
  }

  /** The watched entries are those desired by the WFP backend that are in force after its flush: at least
      all that were in force before it, unless their ids were stale. */
  twostate predicate WatchedOfWfp(f: Wfp.WFPFirewall, watched: set<Prefix>)
    reads f, f.engine
  {
    watched <= f.desired && Spared(old(f.BooksNow()), f.desired) <= watched
  }

  ghost function Spared(b: Wfp.Books, want: set<Prefix>): set<Prefix> {
    set k | k in want && Filters.Enforced(b.filters, k) && Filters.KeyId(k) !in b.stale
  }

  /** A flush never takes the filter of a desired entry that is not stale, whatever part of it is in
      force. */
  lemma FlushSpares(b: Wfp.Books, want: set<Prefix>, log: seq<Wfp.Op>, inForce: seq<Wfp.Op>)
    requires Wfp.FlushLog(log, want, b.applied, b.stale) && inForce <= log
    ensures Spared(b, want) <= Filters.EnforcedIn(Wfp.EffectAll(b.filters, inForce), want)
  {
    forall k | k in Spared(b, want) ensures Filters.Enforced(Wfp.EffectAll(b.filters, inForce), k) {
      Wfp.EnforcedAfter(b.filters, inForce, k);
      forall o | o in inForce ensures !Wfp.Takes(o, k) {
        assert o in log;
      }
    }
  }

  // ----- Any number of switches -----

  /** The backend in use. */
  datatype Backend = OnWfp(wfp: Wfp.WFPFirewall) | OnNetsh(netsh: Netsh.WindowsFirewall)

  function KindOf(b: Backend): Switch.Kind {
    if b.OnWfp? then Switch.Wfp else Switch.Netsh
  }

  function Object(b: Backend): object {
    match b case OnWfp(f) => f case OnNetsh(f) => f
  }

  ghost predicate Fits(b: Backend, engine: Wfp.WfpEngine, host: Netsh.NetshHost)
    reads Object(b), host
  {
    match b
    case OnWfp(f) => f.engine == engine && f.Valid()
    case OnNetsh(f) => f.host == host && f.Valid()
  }

  /** The set the backend is asked to enforce. */
  function Banned(b: Backend): set<Prefix>
    reads Object(b)
  {
    match b case OnWfp(f) => f.desired case OnNetsh(f) => f.cache
  }

  function Parts(b: Backend): set<object> {
    match b case OnWfp(f) => {f, f.engine} case OnNetsh(f) => {f, f.host}
  }

  /** The watched entries of a switch away from a backend. */
  twostate predicate WatchedOf(b: Backend, watched: set<Prefix>)
    reads Parts(b)
  {
    match b
    case OnWfp(f) => WatchedOfWfp(f, watched)
    case OnNetsh(f) => WatchedOfNetsh(f, watched)
  }

  /** The books of the WFP backend are right. */
  ghost predicate RightBooks(f: Wfp.WFPFirewall)
    reads f, f.engine
  {
    && f.Valid() && !f.closed && !f.engine.inTxn
    && Filters.Mirror(f.engine.filters, f.applied, Elems(f.stale)) && Filters.NoClash(f.applied, Elems(f.stale))
  }

  /** What the backend in use keeps in step with, and the other one holds nothing. */
  ghost predicate Tidy(b: Backend, engine: Wfp.WfpEngine, host: Netsh.NetshHost)
    reads Parts(b), engine, host
  {
    match b
    case OnWfp(f) => RightBooks(f) && host.rules == {}
    case OnNetsh(f) => TidyNetsh(f) && engine.filters == map[] && !engine.inTxn
  }

  /** Exactly these entries are in force, all by one backend. */
  ghost predicate InForce(filters: Wfp.Filters, rules: set<Netsh.NetRule>, banned: set<Prefix>) {
    || (Filters.Exactly(filters, banned) && rules == {})
    || (filters == map[] && forall p, d :: Netsh.Listed(rules, d, p) <==> p in banned)
  }

  /** So no backend enforces another entry, nor lists it in any direction. */
  lemma InForceMeans(filters: Wfp.Filters, rules: set<Netsh.NetRule>, banned: set<Prefix>, p: Prefix)
    requires InForce(filters, rules, banned)
    ensures p in banned <==> Filters.Enforced(filters, p) || Netsh.ListedBoth(rules, p)
    ensures p !in banned ==> Filters.KeyId(p) !in filters
    ensures p !in banned ==> !Netsh.Listed(rules, Netsh.In, p) && !Netsh.Listed(rules, Netsh.Out, p)
  {
    assert Netsh.Listed(rules, Netsh.In, p) || !Netsh.Listed(rules, Netsh.In, p);
  }

  lemma SyncedIsRight(f: Wfp.WFPFirewall)
    requires f.Valid() && Synced(f.BooksNow(), f.desired) && !f.closed && !f.engine.inTxn
    ensures RightBooks(f)
  {
    NoElems(f.stale);
  }

  /** Some id is occupied by an outdated filter of an entry of the set. */
  ghost predicate Occupied(filters: Wfp.Filters, banned: set<Prefix>) {
    exists k :: k in banned && !Wfp.FreeOrEnforced(filters, k)
  }

  /** applyPreference with its migration: the outcome is that of the switch. A gap takes a successful switch
      to WFP, and an occupied id or a failed abort. */
  method ApplyPreference(cur: Backend, pref: Switch.Pref, engine: Wfp.WfpEngine, host: Netsh.NetshHost)
    returns (now: Backend, ok: bool)
    requires Fits(cur, engine, host) && engine.obs == host.obs && host.obs.watched == {}
    modifies engine, host, host.obs, Object(cur)
    ensures Fits(now, engine, host) && (now == cur || fresh(Object(now)))
    ensures KindOf(now) == Switch.Switched(KindOf(cur), pref, ok)
    ensures Banned(now) <= old(Banned(cur))
    ensures |old(Banned(cur))| <= Wfp.WFP_MAX_FILTERS ==> Banned(now) == old(Banned(cur))
    ensures if KindOf(cur) == Switch.FirewallKindFor(pref) then
              host.obs.watched == {} && host.obs.watches == old(host.obs.watches)
            else
              && engine.Seen() && host.Seen() && WatchedOf(cur, host.obs.watched)
              && host.obs.watches == old(host.obs.watches) + [host.obs.watched]
    ensures old(host.obs.gap) ==> host.obs.gap
    ensures host.obs.gap && !old(host.obs.gap) ==>
              && ok && KindOf(cur) == Switch.Netsh && now.OnWfp?
              && !(host.obs.watched <= ByWfp(engine, host.obs.watched))
              && (engine.aborts > old(engine.aborts) || Occupied(old(engine.filters), old(Banned(cur))))
    ensures engine.aborts >= old(engine.aborts) && Steady(old(engine.filters), engine.filters)
    ensures now.OnNetsh? && cur.OnWfp? ==> Banned(now) == ByNetsh(host, Banned(now))
    ensures engine.refusals >= old(engine.refusals) && host.refusals >= old(host.refusals)
    ensures engine.refusals == old(engine.refusals) && host.refusals == old(host.refusals)
            && old(Tidy(cur, engine, host)) && |old(Banned(cur))| <= Wfp.WFP_MAX_FILTERS ==>
              && ok && Tidy(now, engine, host)
              && (KindOf(cur) != Switch.FirewallKindFor(pref) ==> InForce(engine.filters, host.rules, Banned(now)))
  {
    var to := Switch.FirewallKindFor(pref);
    if KindOf(cur) == to { return cur, true; }
    match cur {
      case OnNetsh(f) =>
        var nw;
        ghost var t;
        nw, ok, t := SwitchToWfp(f, engine);
        if ok && !engine.inTxn && Synced(t.last, f.cache) && f.cache == nw.desired { SyncedIsRight(nw); }
        now := if ok then OnWfp(nw) else cur;
      case OnWfp(f) =>
        var nf;
        nf, ok := SwitchToNetsh(f, host);
        now := if ok then OnNetsh(nf) else cur;
    }
  }

  /** What reaches the switchable backend: preferences to apply, deltas and flushes. */
  datatype Call = Prefer(pref: Switch.Pref) | BanCall(key: Prefix) | UnbanCall(key: Prefix) | FlushCall

  predicate ToWfp(c: Call) {
    c.Prefer? && Switch.FirewallKindFor(c.pref) == Switch.Wfp
  }

  function Changed(banned: set<Prefix>, c: Call): set<Prefix> {
    match c case BanCall(k) => banned + {k} case UnbanCall(k) => banned - {k} case _ => banned
  }

  function BannedAfter(banned: set<Prefix>, calls: seq<Call>): set<Prefix> {
    if calls == [] then banned else Changed(BannedAfter(banned, calls[..|calls| - 1]), calls[|calls| - 1])
  }

  lemma NextCall(banned: set<Prefix>, calls: seq<Call>, i: nat)
    requires i < |calls|
    ensures BannedAfter(banned, calls[..i + 1]) == Changed(BannedAfter(banned, calls[..i]), calls[i])
  {
    assert calls[..i + 1][..i] == calls[..i];
  }

  /** The condition of a gap: the call is a switch to WFP, and an abort failed or some id is occupied. */
  ghost predicate GapNeeds(c: Call, before: Wfp.Filters, banned: set<Prefix>, aborts: nat, aborts': nat) {
    ToWfp(c) && (aborts' > aborts || Occupied(before, banned))
  }

  /** A ban, an unban or a flush on the WFP backend. */
  method DirectWfp(f: Wfp.WFPFirewall, c: Call)
    requires f.Valid() && f.engine.obs.watched == {} && !c.Prefer? && |f.desired| <= Wfp.WFP_MAX_FILTERS
    modifies f, f.engine, f.engine.obs
    ensures f.Valid() && f.engine.obs.watched == {} && f.engine.obs.gap == old(f.engine.obs.gap)
    ensures f.engine.obs.watches == old(f.engine.obs.watches)
    ensures |Changed(old(f.desired), c)| <= Wfp.WFP_MAX_FILTERS ==> f.desired == Changed(old(f.desired), c)
    ensures f.engine.aborts >= old(f.engine.aborts) && Steady(old(f.engine.filters), f.engine.filters)
    ensures f.engine.refusals >= old(f.engine.refusals)
    ensures f.engine.refusals == old(f.engine.refusals) && old(RightBooks(f)) ==>
              RightBooks(f) && (c.FlushCall? ==> Filters.Exactly(f.engine.filters, f.desired))
  {
    match c {
      case BanCall(k) => var _ := f.BanIP(Some(k));
      case UnbanCall(k) => var _ := f.UnbanIP(Some(k));
      case FlushCall =>
        FlushWfp(f);
    }
  }

  /** The flush of the WFP backend; with nothing refused and right books it leaves exactly the filters of
      the desired set. */
  method FlushWfp(f: Wfp.WFPFirewall)
    requires f.Valid()
    modifies f`applied, f`stale, f.engine, f.engine.obs
    ensures f.Valid() && f.engine.Observed() && f.engine.Counted() && Steady(old(f.engine.filters), f.engine.filters)
    ensures f.engine.refusals == old(f.engine.refusals) && old(RightBooks(f)) ==>
              RightBooks(f) && Filters.Exactly(f.engine.filters, f.desired)
  {
    var ok;
    ghost var log, inForce, complete;
    ok, log, inForce, complete := f.Flush(true);
    LogIsSteady(old(f.engine.filters), inForce);
    if complete && Filters.Exactly(f.engine.filters, f.desired) && !f.closed && !f.engine.inTxn {
      NoElems(f.stale);
      SyncedIsRight(f);
    }
  }

  /** A change of the banned set that asks for a flush leaves the rules as they were. */
  twostate lemma DirtyIsTidy(f: Netsh.WindowsFirewall)
    requires old(TidyNetsh(f)) && f.appliedRules == old(f.appliedRules) && f.legacyCleaned == old(f.legacyCleaned)
    requires f.host.rules == old(f.host.rules) && (f.dirty || (f.cache == old(f.cache) && !old(f.dirty)))
    ensures TidyNetsh(f)
  {
    forall n ensures f.IsTracked(n) == old(f.IsTracked(n)) { }
    if old(f.Exact()) { assert f.Exact(); }
    if old(Orderly(f)) {
      var groups: nat :| groups <= 100000 && old(f.Grouped(groups));
      assert f.Grouped(groups);
    }
  }

  method DirectNetsh(f: Netsh.WindowsFirewall, c: Call)
    requires f.Valid() && f.host.obs.watched == {} && !c.Prefer?
    modifies f, f.host, f.host.obs
    ensures f.Valid() && f.host.obs.watched == {} && f.host.obs.gap == old(f.host.obs.gap)
    ensures f.host.obs.watches == old(f.host.obs.watches)
    ensures f.cache == Changed(old(f.cache), c)
    ensures f.host.refusals >= old(f.host.refusals)
    ensures f.host.refusals == old(f.host.refusals) && old(TidyNetsh(f)) && |f.cache| <= 100000 ==>
              TidyNetsh(f) && (c.FlushCall? ==> ListsExactly(f.host, f.cache))
  {
    match c {
      case BanCall(k) =>
        var _ := f.BanIP(Some(k));
        if old(TidyNetsh(f)) { DirtyIsTidy(f); }
      case UnbanCall(k) =>
        f.UnbanIP(k);
        if old(TidyNetsh(f)) { DirtyIsTidy(f); }
      case FlushCall => FlushNetsh(f);
    }
  }

  /** The call asks for the other backend. */
  predicate Attempts(kind: Switch.Kind, c: Call) {
    c.Prefer? && kind != Switch.FirewallKindFor(c.pref)
  }

  function KindAfterCall(kind: Switch.Kind, c: Call, ok: bool): Switch.Kind {
    if c.Prefer? then Switch.Switched(kind, c.pref, ok) else kind
  }

  /** The backend in use after a run, by the outcomes of its migrations. */
  function KindAfter(kind: Switch.Kind, calls: seq<Call>, oks: seq<bool>): Switch.Kind
    requires |calls| == |oks|
  {
    if calls == [] then kind
    else KindAfterCall(KindAfter(kind, calls[..|calls| - 1], oks[..|calls| - 1]), calls[|calls| - 1], oks[|calls| - 1])
  }

  /** The switches attempted in a run. */
  function Attempted(kind: Switch.Kind, calls: seq<Call>, oks: seq<bool>): nat
    requires |calls| == |oks|
  {
    if calls == [] then 0
    else
      var front, before := calls[..|calls| - 1], oks[..|calls| - 1];
      Attempted(kind, front, before) + if Attempts(KindAfter(kind, front, before), calls[|calls| - 1]) then 1 else 0
  }

  lemma NextOutcome(kind: Switch.Kind, calls: seq<Call>, i: nat, oks: seq<bool>, ok: bool)
    requires i < |calls| && |oks| == i
    ensures var k := KindAfter(kind, calls[..i], oks);
            && KindAfter(kind, calls[..i + 1], oks + [ok]) == KindAfterCall(k, calls[i], ok)
            && Attempted(kind, calls[..i + 1], oks + [ok])
               == Attempted(kind, calls[..i], oks) + if Attempts(k, calls[i]) then 1 else 0
  {
    assert calls[..i + 1][..i] == calls[..i] && (oks + [ok])[..i] == oks;
  }

  /** One call on the backend in use; between calls nothing is watched. */
  method Deliver(cur: Backend, c: Call, engine: Wfp.WfpEngine, host: Netsh.NetshHost)
    returns (now: Backend, ok: bool)
    requires Fits(cur, engine, host) && engine.obs == host.obs && host.obs.watched == {}
    requires |Banned(cur)| <= Wfp.WFP_MAX_FILTERS
    modifies engine, host, host.obs, Object(cur)
    ensures Fits(now, engine, host) && (now == cur || fresh(Object(now))) && host.obs.watched == {}
    ensures KindOf(now) == KindAfterCall(KindOf(cur), c, ok)
    ensures if Attempts(KindOf(cur), c) then
              exists w :: host.obs.watches == old(host.obs.watches) + [w] && WatchedOf(cur, w)
            else
              host.obs.watches == old(host.obs.watches)
    ensures |Changed(old(Banned(cur)), c)| <= Wfp.WFP_MAX_FILTERS ==> Banned(now) == Changed(old(Banned(cur)), c)
    ensures old(host.obs.gap) ==> host.obs.gap
    ensures host.obs.gap && !old(host.obs.gap) ==>
              KindOf(cur) == Switch.Netsh
              && GapNeeds(c, old(engine.filters), old(Banned(cur)), old(engine.aborts), engine.aborts)
    ensures engine.aborts >= old(engine.aborts) && Steady(old(engine.filters), engine.filters)
    ensures engine.refusals >= old(engine.refusals) && host.refusals >= old(host.refusals)
    ensures engine.refusals == old(engine.refusals) && host.refusals == old(host.refusals)
            && old(Tidy(cur, engine, host)) && |Changed(old(Banned(cur)), c)| <= Wfp.WFP_MAX_FILTERS ==>
              && ok && Tidy(now, engine, host)
              && (c.FlushCall? || Attempts(KindOf(cur), c) ==> InForce(engine.filters, host.rules, Banned(now)))
  {
    now, ok := cur, true;
    if c.Prefer? {
      now, ok := ApplyPreference(cur, c.pref, engine, host);
      host.obs.Rest();
    } else {
      match cur { case OnWfp(f) => DirectWfp(f, c); case OnNetsh(f) => DirectNetsh(f, c); }
    }
  }

  /** Call i of a run had what a gap needs, judged by the filters at the start of the run. */
  ghost predicate Risky(calls: seq<Call>, i: nat, before: Wfp.Filters, banned: set<Prefix>, aborts: nat, aborts': nat)
    requires i < |calls|
  {
    GapNeeds(calls[i], before, BannedAfter(banned, calls[..i]), aborts, aborts')
  }

  ghost predicate SomeRisk(calls: seq<Call>, upto: nat, before: Wfp.Filters, banned: set<Prefix>, aborts: nat,
                           aborts': nat)
    requires upto <= |calls|
  {
    exists i: nat :: i < upto && Risky(calls, i, before, banned, aborts, aborts')
  }

  lemma RiskGrows(calls: seq<Call>, i: nat, before: Wfp.Filters, filters: Wfp.Filters, banned: set<Prefix>,
                  first: nat, aborts: nat, aborts': nat)
    requires i < |calls| && first <= aborts <= aborts' && Steady(before, filters)
    ensures SomeRisk(calls, i, before, banned, first, aborts) ==> SomeRisk(calls, i + 1, before, banned, first, aborts')
    ensures GapNeeds(calls[i], filters, BannedAfter(banned, calls[..i]), aborts, aborts') ==>
              SomeRisk(calls, i + 1, before, banned, first, aborts')
  {
    if SomeRisk(calls, i, before, banned, first, aborts) {
      var j: nat :| j < i && Risky(calls, j, before, banned, first, aborts);
      assert Risky(calls, j, before, banned, first, aborts');
    }
    if GapNeeds(calls[i], filters, BannedAfter(banned, calls[..i]), aborts, aborts') {
      assert Risky(calls, i, before, banned, first, aborts');
    }
  }

  ghost predicate WithinLimit(banned: set<Prefix>, calls: seq<Call>) {
    forall i :: 0 <= i <= |calls| ==> |BannedAfter(banned, calls[..i])| <= Wfp.WFP_MAX_FILTERS
  }

  lemma LimitAt(banned: set<Prefix>, calls: seq<Call>, i: nat)
    requires WithinLimit(banned, calls) && i < |calls|
    ensures |BannedAfter(banned, calls[..i])| <= Wfp.WFP_MAX_FILTERS
    ensures |BannedAfter(banned, calls[..i + 1])| <= Wfp.WFP_MAX_FILTERS
  {
  }

  /** Over any sequence of preferences, deltas and flushes within the filter limit, and whatever fails, the
      outcomes of the migrations decide the backend in use; no ban and no unban is lost by a switch;
      every attempted switch is watched (see Deliver); and no command of any switch leaves an entry unprotected that
      was protected when its migration began, unless some call was a switch to WFP while an abort had
      failed, or with an id of an entry banned by then occupied since the start of the run. So without
      either no switch of the run leaves a gap. */
  method Serve(start: Backend, calls: seq<Call>, engine: Wfp.WfpEngine, host: Netsh.NetshHost)
    returns (now: Backend, oks: seq<bool>)
    requires Fits(start, engine, host) && engine.obs == host.obs && host.obs.watched == {}
    requires WithinLimit(Banned(start), calls)
    modifies engine, host, host.obs, Object(start)
    ensures Fits(now, engine, host) && Banned(now) == BannedAfter(old(Banned(start)), calls)
    ensures |oks| == |calls| && KindOf(now) == KindAfter(KindOf(start), calls, oks)
    ensures |host.obs.watches| == |old(host.obs.watches)| + Attempted(KindOf(start), calls, oks)
    ensures host.obs.gap && !old(host.obs.gap) ==>
              SomeRisk(calls, |calls|, old(engine.filters), old(Banned(start)), old(engine.aborts), engine.aborts)
    ensures (forall k :: Wfp.FreeOrEnforced(old(engine.filters), k)) && engine.aborts == old(engine.aborts) ==>
              host.obs.gap == old(host.obs.gap)
    ensures engine.refusals == old(engine.refusals) && host.refusals == old(host.refusals)
            && old(Tidy(start, engine, host)) ==>
              && (forall i :: 0 <= i < |oks| ==> oks[i])
              && (calls != [] && calls[|calls| - 1].FlushCall? ==>
                    InForce(engine.filters, host.rules, BannedAfter(old(Banned(start)), calls)))
  {
    ghost var tidy := Tidy(start, engine, host);
    now, oks := start, [];
    ghost var banned, before, aborts := Banned(start), engine.filters, engine.aborts;
    for i := 0 to |calls|
      invariant Fits(now, engine, host) && (now == start || fresh(Object(now))) && host.obs.watched == {}
      invariant Banned(now) == BannedAfter(banned, calls[..i])
      invariant |oks| == i && KindOf(now) == KindAfter(KindOf(start), calls[..i], oks)
      invariant |host.obs.watches| == |old(host.obs.watches)| + Attempted(KindOf(start), calls[..i], oks)
      invariant engine.aborts >= aborts && Steady(before, engine.filters)
      invariant engine.refusals >= old(engine.refusals) && host.refusals >= old(host.refusals)
      invariant engine.refusals == old(engine.refusals) && host.refusals == old(host.refusals) && tidy ==>
                  && (forall j :: 0 <= j < |oks| ==> oks[j]) && Tidy(now, engine, host)
                  && (i > 0 && calls[i - 1].FlushCall? ==> InForce(engine.filters, host.rules, Banned(now)))
      invariant old(host.obs.gap) ==> host.obs.gap
      invariant host.obs.gap && !old(host.obs.gap) ==> SomeRisk(calls, i, before, banned, aborts, engine.aborts)
    {
      NextCall(banned, calls, i);
      LimitAt(banned, calls, i);
      ghost var filters, soFar := engine.filters, engine.aborts;
      var ok;
      now, ok := Deliver(now, calls[i], engine, host);
      NextOutcome(KindOf(start), calls, i, oks, ok);
      oks := oks + [ok];
      RiskGrows(calls, i, before, filters, banned, aborts, soFar, engine.aborts);
    }
    assert calls[..|calls|] == calls;
  }
}
