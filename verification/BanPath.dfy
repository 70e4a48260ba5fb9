/** The ban path as code: config frames, the worker's rounds, firewall resync and the start-up purge,
    next to the nftables backend. Every method takes the state machine from one state to the next. */
module BanPath {
  import opened Prefixes
  import opened IntervalSet
  import opened BanSafety
  import opened BanDelta
  import opened BanSystem
  import Nftables

  /** The prefix is what its own key parses to: true of every accepted entry. */
  predicate Named(p: Prefix) {
    CanonicalBanEntry(BanEntryKey(p)) == Some(p)
  }

  ghost predicate AllNamed(s: set<Prefix>) {
    forall p :: p in s ==> Named(p)
  }

  function Keys(ps: seq<Prefix>): (ts: seq<Token>)
    ensures |ts| == |ps| && forall i :: 0 <= i < |ps| ==> ts[i] == BanEntryKey(ps[i])
  {
    seq(|ps|, i requires 0 <= i < |ps| => BanEntryKey(ps[i]))
  }

  lemma CanonicalIsNamed(ts: seq<Token>)
    ensures AllNamed(Canonical(ts))
  {
    forall p | p in Canonical(ts) ensures Named(p) {
      var t :| t in ts && CanonicalBanEntry(t) == Some(p);
      KeyRoundTrip(t);
    }
  }

  lemma KeyAt(ps: seq<Prefix>, p: Prefix)
    requires AllNamed(Elems(ps))
    ensures p in Canonical(Keys(ps)) <==> p in ps
  {
    assert forall i :: 0 <= i < |ps| ==> ps[i] in Elems(ps) && Named(ps[i]);
    if p in ps {
      var i :| 0 <= i < |ps| && ps[i] == p;
      assert Keys(ps)[i] in Keys(ps);
    }
    if p in Canonical(Keys(ps)) {
      var t :| t in Keys(ps) && CanonicalBanEntry(t) == Some(p);
      var i :| 0 <= i < |ps| && Keys(ps)[i] == t;
      assert ps[i] == p;
    }
  }

  lemma {:induction false} CountKeys(ps: seq<Prefix>, p: Prefix)
    requires AllNamed(Elems(ps)) && NoDup(ps)
    ensures Count(p, Keys(ps)) <= 1
  {
    if ps != [] {
      var front, last := ps[..|ps| - 1], ps[|ps| - 1];
      assert Keys(ps)[..|ps| - 1] == Keys(front);
      forall q | q in Elems(front) ensures q in Elems(ps) {}
      CountKeys(front, p);
      assert last in Elems(ps) && Named(last);
      if p == last {
        KeyAt(front, p);
        CountIsMembership(p, Keys(front));
      }
    }
  }

  /** A list of keys names its prefixes, and distinct ones once each. */
  lemma KeysName(ps: seq<Prefix>)
    requires AllNamed(Elems(ps))
    ensures Canonical(Keys(ps)) == Elems(ps)
    ensures NoDup(ps) ==> forall p :: Count(p, Keys(ps)) <= 1
  {
    forall p: Prefix ensures p in Canonical(Keys(ps)) <==> p in Elems(ps) { KeyAt(ps, p); }
    if NoDup(ps) {
      forall p ensures Count(p, Keys(ps)) <= 1 { CountKeys(ps, p); }
    }
  }

  ghost predicate AreJunk(ts: seq<Token>) {
    forall t :: t in ts ==> CanonicalBanEntry(t).None?
  }

  /** Entries that do not parse name nothing. */
  lemma {:induction false} JunkNamesNothing(ts: seq<Token>, junk: seq<Token>)
    requires AreJunk(junk)
    ensures Canonical(ts + junk) == Canonical(ts) && forall p :: Count(p, ts + junk) == Count(p, ts)
    decreases |junk|
  {
    if junk == [] {
      assert ts + junk == ts;
    } else {
      var front, last := junk[..|junk| - 1], junk[|junk| - 1];
      assert last in junk && forall t :: t in front ==> t in junk;
      JunkNamesNothing(ts, front);
      assert ts + junk == (ts + front) + [last];
      CanonicalAppend(ts + front, last);
      assert (ts + junk)[..|ts + junk| - 1] == ts + front;
    }
  }

  lemma HostsAreNamed(s: set<Prefix>)
    requires Hosts4(s)
    ensures AllNamed(s)
  {
    forall p | p in s ensures Named(p) {
      assert CanonicalBanEntry(BanEntryKey(p)) == Some(Masked(V4, p.addr, 32)) && Mask(p.addr, 0) == p.addr;
    }
  }

  class BanPath {
    const g: Guard
    const fw: Nftables.NftablesFirewall
    const box: BanMailbox

    constructor (g: Guard, fw: Nftables.NftablesFirewall, box: BanMailbox)
      ensures this.g == g && this.fw == fw && this.box == box
    {
      this.g, this.fw, this.box := g, fw, box;
    }

    /** The first backend call was made. */
    ghost predicate Started()
      reads fw, box
    {
      && fw.Valid() && fw.initialized
      && AllNamed(fw.elements) && AllNamed(fw.covered) && AllNamed(box.ops.Keys) && AreTexts(box.texts)
    }

    /** Between two operations under the apply lock nothing is buffered in the backend. */
    ghost predicate Ready()
      reads fw, box
    {
      Started() && fw.pendingAdd == [] && fw.pendingDel == []
    }

    ghost predicate AreTexts(ts: set<Token>) {
      forall t :: t in ts ==> CanonicalBanEntry(t).None?
    }

    /** The part of the state machine's state kept in these objects. */
    ghost predicate Shows(s: System)
      reads fw, box
    {
      && s.kernel == fw.elements && s.covered == fw.covered
      && s.legacy == (if fw.legacy then fw.legacyElements else {})
      && s.ops == box.ops && s.texts == box.texts && s.signal == box.signal && s.started == fw.initialized
    }

    /** The first backend call of a process, with whatever is buffered (UnbanIP buffers without one): the
        migration of the pre-interval set is the Migrate step, and the buffers stay. */
    method FirstCall(ghost s: System) returns (ghost m: Copying)
      requires fw.Valid() && !fw.initialized && fw.covered == {} && fw.legacyMatched == fw.legacy
      requires AllNamed(fw.elements) && AllNamed(box.ops.Keys) && AreTexts(box.texts) && Shows(s)
      modifies fw
      ensures Started() && fw.pendingAdd == old(fw.pendingAdd) && fw.pendingDel == old(fw.pendingDel)
      ensures Enabled(g, s, Migrate(m)) && Shows(Do(g, s, Migrate(m)))
      ensures old(fw.legacy) && fw.refusals == old(fw.refusals) ==> m.Copied? && m.switched && !fw.legacy
      ensures fw.refusals >= old(fw.refusals)
    {
      HostsAreNamed(fw.legacyElements);
      ghost var planned := fw.EnsureTable();
      m := if planned then Copied(fw.elements, !fw.legacy) else Skipped;
    }

    /** The buffered operations of a round. */
    ghost predicate Buffered(add: seq<Prefix>, dels: seq<Token>, s: System)
      reads fw, box
    {
      && fw.Valid() && fw.initialized && AllNamed(fw.elements) && AllNamed(fw.covered) && Shows(s)
      && fw.pendingAdd == Keys(add) && fw.pendingDel == dels
    }

    /** The two buffering loops. */
    method Buffer(add: seq<Prefix>, dels: seq<Token>, ghost s: System)
      requires Ready() && Shows(s)
      modifies fw`pendingAdd, fw`pendingDel
      ensures Buffered(add, dels, s)
    {
      for i := 0 to |add|
        invariant Buffered(add[..i], [], s)
      {
        assert Keys(add[..i + 1]) == Keys(add[..i]) + [BanEntryKey(add[i])];
        fw.BanIP(BanEntryKey(add[i]));
      }
      assert add[..|add|] == add;
      for i := 0 to |dels|
        invariant Buffered(add, dels[..i], s)
      {
        assert dels[..i + 1] == dels[..i] + [dels[i]];
        fw.UnbanIP(dels[i]);
      }
      assert dels[..|dels|] == dels;
    }

    /** applyBanDeltaLocked: one backend round. `refused` counts the elements the kernel did not take,
        `clean` says that the pre-interval set refused nothing either. */
    method ApplyBanDeltaLocked(add: seq<Prefix>, remove: seq<Prefix>, junk: seq<Token>, ghost s: System)
      returns (errors: nat, refused: nat, ghost clean: bool, ghost o: Outcome)
      requires Ready() && Shows(s) && AreJunk(junk)
      requires AllNamed(Elems(add)) && AllNamed(Elems(remove)) && NoDup(remove)
      modifies fw
      ensures Ready() && Shows(Flushed(s, Elems(add), Elems(remove), Elems(junk), o))
      ensures Possible(s, Elems(add), Elems(remove), o)
      ensures errors == 0 <==> o.Listed?
      ensures errors == 0 && refused == 0 && clean ==> Full(s, Elems(add), Elems(remove), Elems(junk), o)
      ensures fw.refusals >= old(fw.refusals)
      ensures fw.refusals == old(fw.refusals) ==> errors == 0 && refused == 0 && clean
    {
      Buffer(add, Keys(remove) + junk, s);
      KeysName(add);
      KeysName(remove);
      JunkNamesNothing(Keys(remove), junk);
      DeltaIsRequested(s.kernel, s.covered, Keys(add), Keys(remove) + junk);
      ghost var all := AfterDelta(s.kernel, s.covered, Elems(add), Elems(remove));
      assert AllNamed(all) && AllNamed(s.kernel);
      Something(add, remove, junk);
      var ok;
      ok, refused, clean := fw.Flush();
      o := if ok then Listed(fw.elements, if fw.legacy then fw.legacyElements else {}) else NotListed;
      errors := if ok then 0 else 1;
    }

    /** banWorker between a wake-up and the apply lock. */
    method TakeBatch(ghost s: System) returns (add: seq<Prefix>, remove: seq<Prefix>, junk: seq<Token>)
      requires Ready() && Shows(s) && s.worker.Woken?
      modifies box`ops, box`texts
      ensures Ready() && AllNamed(Elems(add)) && AllNamed(Elems(remove)) && AreJunk(junk)
      ensures Shows(Do(g, s, Take)) && NoDup(add) && NoDup(remove)
      ensures Do(g, s, Take).worker
              == if add == [] && remove == [] && junk == [] then Idle
                 else Holding(Elems(add), Elems(remove), Elems(junk))
    {
      add, remove, junk := box.TakeBanDelta();
      NoOps(s.ops, add, remove);
      if junk != [] { assert junk[0] in Elems(junk); }
      forall t | t in junk ensures CanonicalBanEntry(t).None? { assert t in Elems(junk); }
    }

    /** applyBanDelta: the worker's batch lands. */
    method ApplyBanDelta(add: seq<Prefix>, remove: seq<Prefix>, junk: seq<Token>, ghost s: System)
      returns (ghost o: Outcome)
      requires Ready() && Shows(s) && AllNamed(Elems(add)) && AllNamed(Elems(remove)) && NoDup(remove)
      requires AreJunk(junk) && s.worker == Holding(Elems(add), Elems(remove), Elems(junk)) && s.resync.None?
      modifies fw
      ensures Ready() && Enabled(g, s, Apply(o)) && Shows(Do(g, s, Apply(o)))
      ensures fw.refusals == old(fw.refusals) ==> Succeeds(g, s, Apply(o))
    {
      var errors, refused;
      ghost var clean;
      errors, refused, clean, o := ApplyBanDeltaLocked(add, remove, junk, s);
    }

    /** canonicalBanList: the entries that parse, each once, and the texts that do not. */
    method CanonicalList(entries: seq<Token>) returns (out: seq<Prefix>, junk: seq<Token>)
      ensures NoDup(out) && Elems(out) == Canonical(entries)
      ensures NoDup(junk) && Elems(junk) == Texts(entries)
    {
      out, junk := [], [];
      for i := 0 to |entries|
        invariant NoDup(out) && Elems(out) == Canonical(entries[..i])
        invariant NoDup(junk) && Elems(junk) == Texts(entries[..i])
      {
        assert entries[..i + 1] == entries[..i] + [entries[i]];
        CanonicalAppend(entries[..i], entries[i]);
        TextsAppend(entries[..i], entries[i]);
        out, junk := Classify(entries[i], out, junk);
      }
      assert entries[..|entries|] == entries;
    }

    /** One entry of the loop. */
    method Classify(t: Token, out: seq<Prefix>, junk: seq<Token>) returns (out': seq<Prefix>, junk': seq<Token>)
      requires NoDup(out) && NoDup(junk)
      ensures NoDup(out') && NoDup(junk')
      ensures Elems(out') == Elems(out) + match CanonicalBanEntry(t) { case None => {} case Some(p) => {p} }
      ensures Elems(junk') == Elems(junk) + if CanonicalBanEntry(t).None? && t != Junk("") then {t} else {}
    {
      out', junk' := out, junk;
      var e := CanonicalBanEntry(t);
      if e.Some? {
        if e.value !in out {
          AppendElems(out, [e.value]);
          out' := out + [e.value];
        }
      } else if t != Junk("") && t !in junk {
        AppendElems(junk, [t]);
        junk' := junk + [t];
      }
    }

    /** The ban list of a config frame: guarded adds and canonical removals go to the mailbox, and the
        worker is woken. */
    method ConfigFrame(adds: seq<Token>, removes: seq<Token>, ghost s: System)
      requires Ready() && Shows(s)
      modifies box
      ensures Ready()
      ensures var t := Do(g, s, Frame(adds, removes));
              if t.queuers == s.queuers then t == s && Shows(s) else Enabled(g, t, Signal) && Shows(Do(g, t, Signal))
    {
      var add, _ := Filter(g, adds);
      var remove, junk := CanonicalList(removes);
      CanonicalIsNamed(adds);
      CanonicalIsNamed(removes);
      Something(add, remove, junk);
      if |add| == 0 && |remove| == 0 && |junk| == 0 { return; }
      box.QueueBanDelta(add, remove, junk);
      MergesInto(s.ops, box.ops, Elems(add), Elems(remove));
      box.Signal();
    }

    /** The sent entries that are not enforced yet. */
    method Missing(want: seq<Prefix>, have: set<Prefix>) returns (add: seq<Prefix>)
      ensures Elems(add) == Elems(want) - have
    {
      add := [];
      for i := 0 to |want|
        invariant Elems(add) == Elems(want[..i]) - have
      {
        assert want[..i + 1] == want[..i] + [want[i]];
        AppendElems(want[..i], [want[i]]);
        assert Elems([want[i]]) == {want[i]};
        if want[i] !in have {
          AppendElems(add, [want[i]]);
          add := add + [want[i]];
        }
      }
      assert want[..|want|] == want;
    }

    /** The enforced entries that were not sent, in some order. */
    method Extra(have: set<Prefix>, want: seq<Prefix>) returns (remove: seq<Prefix>)
      ensures NoDup(remove) && Elems(remove) == have - Elems(want)
    {
      remove := [];
      var todo := have;
      while todo != {}
        invariant todo <= have && NoDup(remove) && Elems(remove) == have - todo - Elems(want)
        decreases |todo|
      {
        var k :| k in todo;
        todo := todo - {k};
        if k !in want {
          AppendElems(remove, [k]);
          assert k !in Elems(remove);
          remove := remove + [k];
        }
      }
    }

    /** The report of the backend, and how much of it could be read. */
    method ReadReport(ghost s: System) returns (current: set<Prefix>, ghost read: Read)
      requires Ready() && Shows(s)
      modifies fw`refusals
      ensures Ready() && Shows(s) && current == Report(s, read) && AllNamed(current)
      ensures read.All? || s.legacy != {} || read.Nothing?
      ensures fw.refusals >= old(fw.refusals) && (fw.refusals == old(fw.refusals) ==> read.All?)
    {
      var ok;
      ghost var all;
      current, ok, all := fw.GetBannedIPs();
      read := if !ok then Nothing else if all || !fw.legacy || fw.legacyElements == {} then All else Sets;
      HostsAreNamed(fw.legacyElements);
    }

    /** resyncFirewall. */
    method ResyncFirewall(bans: seq<Token>, ghost s: System)
      returns (errors: nat, refused: nat, ghost clean: bool, ghost read: Read, ghost o: Outcome)
      requires Ready() && Shows(s) && s.resync.None?
      modifies fw, box
      ensures Ready()
      ensures var s1 := Do(g, s, ResyncStart(bans));
              && Enabled(g, s1, ResyncApply(read, o)) && Shows(Do(g, s1, ResyncApply(read, o)))
              && (read.All? && errors == 0 && refused == 0 && clean ==> Succeeds(g, s1, ResyncApply(read, o)))
              && (fw.refusals == old(fw.refusals) ==> Succeeds(g, s1, ResyncApply(read, o)))
    {
      var want, _ := Filter(g, bans);
      CanonicalIsNamed(bans);
      var _, _, _ := box.TakeBanDelta();
      ghost var s1 := Do(g, s, ResyncStart(bans));
      var current;
      current, read := ReadReport(s1);
      var add := Missing(want, current);
      var remove := Extra(current, want);
      assert Elems(add) == ResyncAdd(s1, s1.resync.value, read);
      assert Elems(remove) == ResyncRemove(s1, s1.resync.value, read);
      assert Elems<Token>([]) == {};
      errors, refused, clean, o := ApplyBanDeltaLocked(add, remove, [], s1);
    }

    /** The reported entries the guard refuses. */
    method FindUnsafe(current: set<Prefix>) returns (unsafe: seq<Prefix>)
      requires AllNamed(current)
      ensures NoDup(unsafe) && Elems(unsafe) == current - SafeOf(g, current)
    {
      var list := Extra(current, []);
      assert Elems<Prefix>([]) == {};
      KeysName(list);
      ghost var at;
      unsafe, at := Unsafe(g, Keys(list));
      DistinctRefusals(g, list, unsafe, at);
    }

    /** purgeUnsafeBans: it has gone through once everything was read, the flush succeeded and nothing
        was refused. */
    method PurgeUnsafeBans(ghost s: System)
      returns (errors: nat, refused: nat, ghost clean: bool, ghost read: Read, ghost o: Outcome)
      requires Ready() && Shows(s) && s.resync.None?
      modifies fw
      ensures Ready() && Enabled(g, s, Purge(read, o)) && Shows(Do(g, s, Purge(read, o)))
      ensures read.All? && errors == 0 && refused == 0 && clean ==> Do(g, s, Purge(read, o)).purged
      ensures fw.refusals == old(fw.refusals) ==> Do(g, s, Purge(read, o)).purged
    {
      var current;
      errors, refused, clean, o := 0, 0, true, NotListed;
      current, read := ReadReport(s);
      if |current| == 0 { return; }
      var unsafe := FindUnsafe(current);
      assert Elems<Prefix>([]) == {} && Elems<Token>([]) == {};
      if |unsafe| == 0 { return; }
      errors, refused, clean, o := ApplyBanDeltaLocked([], unsafe, [], s);
    }
  }

  lemma TextsAppend(ts: seq<Token>, t: Token)
    ensures Texts(ts + [t]) == Texts(ts) + if CanonicalBanEntry(t).None? && t != Junk("") then {t} else {}
  {
  }

  lemma MergesInto(ops: Ops, merged: Ops, add: set<Prefix>, remove: set<Prefix>)
    requires Merges(ops, merged, add, remove)
    ensures merged == MergedOps(ops, add, remove)
  {
  }

  /** Distinct keys give distinct refusals. */
  lemma DistinctRefusals(g: Guard, ps: seq<Prefix>, out: seq<Prefix>, at: seq<nat>)
    requires AllNamed(Elems(ps)) && NoDup(ps) && Refused(g, Keys(ps), |ps|, out, at)
    ensures NoDup(out) && Elems(out) == Elems(ps) - SafeOf(g, Elems(ps))
  {
    KeysName(ps);
    assert Keys(ps)[..|ps|] == Keys(ps);
    forall i | 0 <= i < |out| ensures out[i] == ps[at[i]] {
      assert ps[at[i]] in Elems(ps) && Named(ps[at[i]]);
    }
  }

  lemma NoOps(ops: Ops, add: seq<Prefix>, remove: seq<Prefix>)
    requires Elems(add) == Bans(ops) && Elems(remove) == Lifts(ops)
    ensures add == [] && remove == [] <==> ops == map[]
  {
    if ops != map[] { var k :| k in ops; assert k in Elems(add) + Elems(remove); }
    if add != [] { assert add[0] in Elems(add); }
    if remove != [] { assert remove[0] in Elems(remove); }
  }

  lemma Something(add: seq<Prefix>, remove: seq<Prefix>, junk: seq<Token>)
    ensures Idles(Elems(add), Elems(remove), Elems(junk)) <==> add == [] && remove == [] && junk == []
  {
    if add != [] { assert add[0] in Elems(add); }
    if remove != [] { assert remove[0] in Elems(remove); }
    if junk != [] { assert junk[0] in Elems(junk); }
  }
}
