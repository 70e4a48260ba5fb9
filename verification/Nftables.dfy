/** The nftables backend: buffered deltas, the planner, and a kernel that may refuse commands. */
module Nftables {
  import opened Prefixes
  import opened IntervalSet
  import opened Chunks

  // ----- The kernel sets -----

  datatype Verb = Delete | Add

  /** One `add element` / `delete element` statement on the set of one family. */
  datatype Stmt = Stmt(verb: Verb, family: Family, elems: seq<Prefix>)

  /** What the kernel does with one statement: a delete names present elements, each once; an add
      must leave no two elements overlapping. None is a refusal. */
  function Exec(kernel: set<Prefix>, s: Stmt): Option<set<Prefix>> {
    if exists p :: p in s.elems && p.family != s.family then None
    else if s.verb.Delete? then
      if NoDup(s.elems) && Elems(s.elems) <= kernel then Some(kernel - Elems(s.elems)) else None
    else
      if Antichain(kernel + Elems(s.elems)) then Some(kernel + Elems(s.elems)) else None
  }

  function ExecAll(kernel: set<Prefix>, script: seq<Stmt>): Option<set<Prefix>> {
    if script == [] then Some(kernel)
    else match ExecAll(kernel, script[..|script| - 1])
      case None => None
      case Some(k) => Exec(k, script[|script| - 1])
  }

  lemma ExecAllAppend(kernel: set<Prefix>, script: seq<Stmt>, s: Stmt)
    requires ExecAll(kernel, script).Some?
    ensures ExecAll(kernel, script + [s]) == Exec(ExecAll(kernel, script).value, s)
  {
    assert (script + [s])[..|script|] == script;
  }

  ghost function OfFamily(s: set<Prefix>, f: Family): set<Prefix> {
    set p | p in s && p.family == f
  }

  const NFT_ELEMS_PER_STMT: nat := 2000

  /** The keys of one family, in order. */
  method SelectFamily(keys: seq<Prefix>, f: Family) returns (out: seq<Prefix>)
    requires NoDup(keys)
    ensures NoDup(out) && Elems(out) == OfFamily(Elems(keys), f)
  {
    out := [];
    for i := 0 to |keys|
      invariant NoDup(out) && Elems(out) == OfFamily(Elems(keys[..i]), f)
    {
      assert keys[..i + 1] == keys[..i] + [keys[i]];
      AppendElems(keys[..i], [keys[i]]);
      if keys[i].family == f {
        assert keys[i] !in keys[..i];
        AppendElems(out, [keys[i]]);
        out := out + [keys[i]];
      }
    }
    assert keys[..|keys|] == keys;
  }

  ghost function Target(verb: Verb, kernel: set<Prefix>, elems: set<Prefix>): set<Prefix> {
    if verb.Delete? then kernel - elems else kernel + elems
  }

  /** The statements of one verb for one family, chunked: the kernel takes every one of them, and no
      state in between shows it two overlapping elements (Exec refuses such a state). */
  method EmitFamily(verb: Verb, keys: seq<Prefix>, f: Family, ghost kernel: set<Prefix>)
    returns (script: seq<Stmt>)
    requires NoDup(keys)
    requires verb.Delete? ==> OfFamily(Elems(keys), f) <= kernel
    requires verb.Add? ==> Antichain(kernel + Elems(keys))
    ensures ExecAll(kernel, script) == Some(Target(verb, kernel, OfFamily(Elems(keys), f)))
    ensures forall i :: 0 <= i < |script| ==> |script[i].elems| <= NFT_ELEMS_PER_STMT
  {
    var mine := SelectFamily(keys, f);
    var chunks := ChunkStrings(mine, NFT_ELEMS_PER_STMT);
    script := [];
    EmitReady(verb, kernel, keys, f, mine);
    assert mine[..0] == [];
    for i := 0 to |chunks|
      invariant Sent(verb, kernel, script, mine[..Cut(i, NFT_ELEMS_PER_STMT, |mine|)])
      invariant forall j :: 0 <= j < |script| ==> |script[j].elems| <= NFT_ELEMS_PER_STMT
    {
      var s := Stmt(verb, f, chunks[i]);
      EmitStep(verb, kernel, mine, i, script, s);
      script := script + [s];
    }
    assert mine[..|mine|] == mine;
  }

  ghost predicate Sent(verb: Verb, kernel: set<Prefix>, script: seq<Stmt>, elems: seq<Prefix>) {
    ExecAll(kernel, script) == Some(Target(verb, kernel, Elems(elems)))
  }

  ghost predicate Sendable(verb: Verb, kernel: set<Prefix>, f: Family, mine: seq<Prefix>) {
    && NoDup(mine) && (forall p: Prefix :: p in mine ==> p.family == f)
    && (verb.Delete? ==> Elems(mine) <= kernel)
    && (verb.Add? ==> Antichain(kernel + Elems(mine)))
  }

  lemma EmitReady(verb: Verb, kernel: set<Prefix>, keys: seq<Prefix>, f: Family, mine: seq<Prefix>)
    requires NoDup(mine) && Elems(mine) == OfFamily(Elems(keys), f)
    requires verb.Delete? ==> OfFamily(Elems(keys), f) <= kernel
    requires verb.Add? ==> Antichain(kernel + Elems(keys))
    ensures Sendable(verb, kernel, f, mine) && Sent(verb, kernel, [], [])
  {
    assert forall p: Prefix :: p in mine ==> p in Elems(mine);
    assert Target(verb, kernel, Elems([])) == kernel;
  }

  lemma EmitStep(verb: Verb, kernel: set<Prefix>, mine: seq<Prefix>, i: nat, script: seq<Stmt>, s: Stmt)
    requires s.verb == verb && Sendable(verb, kernel, s.family, mine)
    requires s.elems == Piece(mine, NFT_ELEMS_PER_STMT, i)
    requires Sent(verb, kernel, script, mine[..Cut(i, NFT_ELEMS_PER_STMT, |mine|)])
    ensures Sent(verb, kernel, script + [s], mine[..Cut(i + 1, NFT_ELEMS_PER_STMT, |mine|)])
  {
    var sent := mine[..Cut(i, NFT_ELEMS_PER_STMT, |mine|)];
    CutMonotone(i, NFT_ELEMS_PER_STMT, |mine|);
    assert sent + s.elems == mine[..Cut(i + 1, NFT_ELEMS_PER_STMT, |mine|)];
    StatementRuns(verb, kernel, mine, sent, s);
    ExecAllAppend(kernel, script, s);
  }

  lemma StatementRuns(verb: Verb, kernel: set<Prefix>, mine: seq<Prefix>, sent: seq<Prefix>, s: Stmt)
    requires Sendable(verb, kernel, s.family, mine) && sent + s.elems <= mine && s.verb == verb
    ensures Exec(Target(verb, kernel, Elems(sent)), s) == Some(Target(verb, kernel, Elems(sent + s.elems)))
  {
    AppendElems(sent, s.elems);
    var both := sent + s.elems;
    forall i, j | 0 <= i < j < |both| ensures both[i] != both[j] {
      assert both[i] == mine[i] && both[j] == mine[j];
    }
    forall i | 0 <= i < |s.elems| ensures s.elems[i] in mine && s.elems[i] !in sent {
      assert both[|sent| + i] == s.elems[i];
      forall j | 0 <= j < |sent| ensures sent[j] != s.elems[i] { assert both[j] == sent[j]; }
    }
    forall i, j | 0 <= i < j < |s.elems| ensures s.elems[i] != s.elems[j] {
      assert both[|sent| + i] == s.elems[i] && both[|sent| + j] == s.elems[j];
    }
    assert forall p: Prefix :: p in both ==> p in mine;
    assert Elems(both) <= Elems(mine) && Elems(s.elems) !! Elems(sent);
    assert Target(verb, Target(verb, kernel, Elems(sent)), Elems(s.elems)) == Target(verb, kernel, Elems(both));
  }

  lemma {:induction false} ExecAllConcat(kernel: set<Prefix>, a: seq<Stmt>, b: seq<Stmt>)
    requires ExecAll(kernel, a).Some?
    ensures ExecAll(kernel, a + b) == ExecAll(ExecAll(kernel, a).value, b)
    decreases |b|
  {
    if b == [] {
      assert a + b == a;
    } else {
      var front := b[..|b| - 1];
      ExecAllConcat(kernel, a, front);
      assert (a + b)[..|a + b| - 1] == a + front;
    }
  }

  /** The kernel never holds two overlapping elements, whatever script it accepts. */
  lemma {:induction false} ExecAllKeepsAntichain(kernel: set<Prefix>, script: seq<Stmt>)
    requires Antichain(kernel) && ExecAll(kernel, script).Some?
    ensures Antichain(ExecAll(kernel, script).value)
    ensures forall p, q :: p in ExecAll(kernel, script).value && q in ExecAll(kernel, script).value && p != q ==>
                             !Overlap(p, q)
  {
    if script != [] { ExecAllKeepsAntichain(kernel, script[..|script| - 1]); }
    var after := ExecAll(kernel, script).value;
    forall p, q | p in after && q in after && p != q ensures !Overlap(p, q) { AntichainIsDisjoint(after, p, q); }
  }

  lemma BothFamilies(verb: Verb, kernel: set<Prefix>, elems: set<Prefix>)
    ensures Target(verb, Target(verb, kernel, OfFamily(elems, V4)), OfFamily(elems, V6)) == Target(verb, kernel, elems)
  {
    assert OfFamily(elems, V4) + OfFamily(elems, V6) == elems;
  }

  /** The statements of one verb for both sets. */
  method Emit(verb: Verb, keys: seq<Prefix>, ghost kernel: set<Prefix>) returns (script: seq<Stmt>)
    requires NoDup(keys)
    requires verb.Delete? ==> Elems(keys) <= kernel
    requires verb.Add? ==> Antichain(kernel + Elems(keys))
    ensures ExecAll(kernel, script) == Some(Target(verb, kernel, Elems(keys)))
    ensures forall i :: 0 <= i < |script| ==> |script[i].elems| <= NFT_ELEMS_PER_STMT
  {
    var v4 := EmitFamily(verb, keys, V4, kernel);
    ghost var mid := Target(verb, kernel, OfFamily(Elems(keys), V4));
    BothFamilies(verb, kernel, Elems(keys));
    if verb.Add? { assert mid + Elems(keys) == kernel + Elems(keys); }
    var v6 := EmitFamily(verb, keys, V6, mid);
    script := v4 + v6;
    ExecAllConcat(kernel, v4, v6);
  }

  /** nftElementScript: deletions first, then additions, grouped per set and chunked. The kernel accepts
      the whole script and ends on the planned elements. */
  method NftElementScript(toDel: seq<Prefix>, toAdd: seq<Prefix>, ghost kernel: set<Prefix>)
    returns (script: seq<Stmt>)
    requires NoDup(toDel) && Elems(toDel) <= kernel && NoDup(toAdd)
    requires Antichain(kernel - Elems(toDel) + Elems(toAdd))
    ensures ExecAll(kernel, script) == Some(kernel - Elems(toDel) + Elems(toAdd))
    ensures forall i :: 0 <= i < |script| ==> |script[i].elems| <= NFT_ELEMS_PER_STMT
  {
    var dels := Emit(Delete, toDel, kernel);
    var adds := Emit(Add, toAdd, kernel - Elems(toDel));
    script := dels + adds;
    ExecAllConcat(kernel, dels, adds);
  }

  // ----- The backend -----

  /** Every address blocked before is blocked later. */
  ghost predicate NoGap(before: set<Prefix>, later: set<Prefix>) {
    forall f: Family, a: nat :: Blocks(before, f, a) ==> Blocks(later, f, a)
  }

  lemma KeepingIsNoGap(before: set<Prefix>, later: set<Prefix>)
    requires before <= later
    ensures NoGap(before, later)
  {
  }

  lemma MaximalIsNoGap(before: set<Prefix>, all: set<Prefix>)
    requires before <= all
    ensures NoGap(before, Maximal(all))
  {
    forall f: Family, a: nat | Blocks(before, f, a) ensures Blocks(Maximal(all), f, a) {
      MaximalBlocksAll(all, f, a);
    }
  }

  /** Planning host entries into a kernel with nothing covered deletes nothing. */
  lemma HostsRetireNothing(present: set<Prefix>, hosts: set<Prefix>, toDel: set<Prefix>, toAdd: set<Prefix>)
    requires Antichain(present) && Hosts4(hosts) && toDel <= present && toDel * toAdd == {}
    requires present - toDel + toAdd == Maximal(present + hosts)
    ensures toDel == {}
  {
    forall p | p in present ensures p in Maximal(present + hosts) {
      forall n | n in present + hosts ensures !StrictlyCovers(n, p) {
        if n in hosts { HostCoversNothing(n, p); }
      }
    }
  }

  lemma MoreIsNoGap(before: set<Prefix>, mid: set<Prefix>, later: set<Prefix>)
    requires NoGap(before, mid) && mid <= later
    ensures NoGap(before, later)
  {
    forall f: Family, a: nat | Blocks(before, f, a) ensures Blocks(later, f, a) {
      var p :| p in mid && Has(p, f, a);
    }
  }

  /** NftablesFirewall next to the kernel objects it drives. A command either takes effect or is
      refused without effect; which of the two happens is not determined here. */
  class NftablesFirewall {
    /** Kernel: the elements of both interval sets, always matched by the base rules. */
    var elements: set<Prefix>
    /** Kernel: the pre-interval set (single IPv4 addresses), and whether rules match it. */
    var legacyElements: set<Prefix>
    var legacyMatched: bool

    var pendingAdd: seq<Token>
    var pendingDel: seq<Token>
    var covered: set<Prefix>
    var legacy: bool
    /** The first backend call was made. */
    var initialized: bool

    /** An observer: `missed` turns true, for good, once a command leaves an address of `watched`
        unblocked. */
    ghost var watched: set<Prefix>
    ghost var missed: bool

    /** The commands that were refused although they could have been carried out, and the reads that
        failed. */
    ghost var refusals: nat

    ghost predicate Valid()
      reads this
    {
      Antichain(elements) && Hosts4(legacyElements) && (legacy ==> legacyMatched)
    }

    function Enforced(): set<Prefix>
      reads this
    {
      elements + if legacyMatched then legacyElements else {}
    }

    /** A process starts with whatever an earlier one left in the kernel. */
    constructor (elements: set<Prefix>, legacyElements: set<Prefix>, legacy: bool)
      requires Antichain(elements) && Hosts4(legacyElements)
      ensures Valid() && covered == {} && pendingAdd == [] && pendingDel == []
      ensures this.elements == elements && this.legacyElements == legacyElements && this.legacy == legacy
      ensures watched == {} && !missed && !initialized && refusals == 0
    {
      this.elements, this.legacyElements := elements, legacyElements;
      this.legacy, this.legacyMatched := legacy, legacy;
      pendingAdd, pendingDel, covered, initialized := [], [], {}, false;
      watched, missed, refusals := {}, false, 0;
    }

    /** One `nft -f -` transaction on the interval sets. */
    method RunScript(script: seq<Stmt>) returns (ok: bool)
      requires Valid()
      modifies `elements, `missed, `refusals
      ensures Valid() && missed == (old(missed) || !NoGap(watched, Enforced()))
      ensures ok ==> ExecAll(old(elements), script) == Some(elements)
      ensures !ok ==> elements == old(elements)
      ensures refusals == old(refusals) + if !ok && ExecAll(old(elements), script).Some? then 1 else 0
    {
      var outcome := ExecAll(elements, script);
      ok := *;
      ok := ok && outcome.Some?;
      if ok {
        ExecAllKeepsAntichain(elements, script);
        elements := outcome.value;
      } else if outcome.Some? {
        refusals := refusals + 1;
      }
      missed := missed || !NoGap(watched, Enforced());
    }

    /** One element alone. */
    method RunOne(verb: Verb, p: Prefix) returns (ok: bool)
      requires Valid()
      modifies `elements, `missed, `refusals
      ensures Valid() && missed == (old(missed) || !NoGap(watched, Enforced()))
      ensures elements == if ok then Target(verb, old(elements), {p}) else old(elements)
      ensures refusals >= old(refusals) && (!ok && Takes(verb, old(elements), {p}) ==> refusals > old(refusals))
    {
      var s := Stmt(verb, p.family, [p]);
      assert [s][..0] == [];
      assert ExecAll(elements, [s]) == Exec(elements, s) && Elems(s.elems) == {p};
      ok := RunScript([s]);
    }

    /** The kernel can carry out the verb for all of these. */
    ghost predicate Takes(verb: Verb, kernel: set<Prefix>, elems: set<Prefix>) {
      if verb.Delete? then elems <= kernel else Antichain(kernel + elems)
    }

    /** The per-element retry of one verb. */
    method RunEach(verb: Verb, keys: seq<Prefix>) returns (failed: nat)
      requires Valid()
      modifies `elements, `missed, `refusals
      ensures Valid()
      ensures if verb.Delete? then old(elements) - Elems(keys) <= elements <= old(elements)
              else old(elements) <= elements <= old(elements) + Elems(keys)
      ensures failed == 0 ==> elements == Target(verb, old(elements), Elems(keys))
      ensures (verb.Add? || keys == []) && NoGap(watched, old(Enforced())) ==> missed == old(missed)
      ensures refusals >= old(refusals)
      ensures NoDup(keys) && Takes(verb, old(elements), Elems(keys)) && refusals == old(refusals) ==> failed == 0
    {
      failed := 0;
      ghost var start := elements;
      for i := 0 to |keys|
        invariant Valid() && refusals >= old(refusals)
        invariant Moved(verb, start, elements, keys, i, failed)
        invariant (verb.Add? || keys == []) && NoGap(watched, old(Enforced())) ==> missed == old(missed)
        invariant NoDup(keys) && Takes(verb, old(elements), Elems(keys)) && refusals == old(refusals) ==> failed == 0
      {
        MovedNext(verb, start, elements, keys, i, failed);
        if failed == 0 && NoDup(keys) && Takes(verb, start, Elems(keys)) { TakesNext(verb, start, keys, i); }
        var done := RunOne(verb, keys[i]);
        if verb.Add? && NoGap(watched, old(Enforced())) { MoreIsNoGap(watched, old(Enforced()), Enforced()); }
        if !done { failed := failed + 1; }
      }
      assert keys[..|keys|] == keys;
    }

    /** How far the retry is: only its elements moved, and all of them so far when none failed. */
    ghost predicate Moved(verb: Verb, start: set<Prefix>, now: set<Prefix>, keys: seq<Prefix>, i: nat, failed: nat)
      requires i <= |keys|
    {
      && (if verb.Delete? then start - Elems(keys) <= now <= start else start <= now <= start + Elems(keys))
      && (failed == 0 ==> now == Target(verb, start, Elems(keys[..i])))
    }

    lemma MovedNext(verb: Verb, start: set<Prefix>, now: set<Prefix>, keys: seq<Prefix>, i: nat, failed: nat)
      requires i < |keys| && Moved(verb, start, now, keys, i, failed)
      ensures Moved(verb, start, Target(verb, now, {keys[i]}), keys, i + 1, failed)
      ensures Moved(verb, start, now, keys, i + 1, failed + 1)
    {
      assert keys[..i + 1] == keys[..i] + [keys[i]];
      AppendElems(keys[..i], [keys[i]]);
      assert keys[i] in Elems(keys) && Elems([keys[i]]) == {keys[i]};
    }

    lemma TakesNext(verb: Verb, kernel: set<Prefix>, keys: seq<Prefix>, i: nat)
      requires i < |keys| && NoDup(keys) && Takes(verb, kernel, Elems(keys))
      ensures Takes(verb, Target(verb, kernel, Elems(keys[..i])), {keys[i]})
    {
      assert keys[i] in Elems(keys) && keys[i] !in keys[..i];
      assert Elems(keys[..i]) <= Elems(keys);
    }

    /** listPresent. */
    method ListPresent() returns (present: Option<set<Prefix>>)
      modifies `refusals
      ensures present.Some? ==> present.value == elements
      ensures refusals == old(refusals) + if present.None? then 1 else 0
    {
      var ok := Accepted();
      present := if ok then Some(elements) else None;
    }

    /** Whether a command or a read goes through. */
    method Accepted() returns (ok: bool)
      modifies `refusals
      ensures refusals == old(refusals) + if ok then 0 else 1
    {
      ok := *;
      if !ok { refusals := refusals + 1; }
    }

    /** apply: one atomic script; when it is refused, each element alone. Whatever fails, only planned
        elements come and go; when nothing fails the plan is carried out, so also when the script is all
        that is refused. */
    method Apply(toDel: seq<Prefix>, toAdd: seq<Prefix>) returns (failed: nat)
      requires Valid() && NoDup(toDel) && Elems(toDel) <= elements && NoDup(toAdd)
      requires Antichain(elements - Elems(toDel) + Elems(toAdd))
      modifies `elements, `missed, `refusals
      ensures Valid()
      ensures old(elements) - Elems(toDel) <= elements <= old(elements) + Elems(toAdd)
      ensures failed == 0 ==> elements == old(elements) - Elems(toDel) + Elems(toAdd)
      ensures toDel == [] && NoGap(watched, old(Enforced())) ==> missed == old(missed)
      ensures refusals >= old(refusals) && (refusals <= old(refusals) + 1 ==> failed == 0)
    {
      if toDel == [] && toAdd == [] { return 0; }
      var script := NftElementScript(toDel, toAdd, elements);
      var ok := RunScript(script);
      if toDel == [] && NoGap(watched, old(Enforced())) { MoreIsNoGap(watched, old(Enforced()), Enforced()); }
      if ok { return 0; }
      var failedDel := RunEach(Delete, toDel);
      assert toDel == [] ==> Enforced() == old(Enforced());
      var failedAdd := RunEach(Add, toAdd);
      failed := failedDel + failedAdd;
    }

    method BanIP(ip: Token)
      modifies `pendingAdd
      ensures pendingAdd == old(pendingAdd) + [ip]
    {
      pendingAdd := pendingAdd + [ip];
    }

    method UnbanIP(ip: Token)
      modifies `pendingDel
      ensures pendingDel == old(pendingDel) + [ip]
    {
      pendingDel := pendingDel + [ip];
    }

    /** The removals of a delta also leave the pre-interval set while it exists; each may be refused (one of
        an absent element has nothing to do). */
    method RemoveLegacy(dels: seq<Token>) returns (ghost clean: bool)
      requires Valid()
      modifies `legacyElements, `refusals
      ensures Valid() && old(legacyElements) - Canonical(dels) <= legacyElements <= old(legacyElements)
      ensures clean ==> legacyElements == old(legacyElements) - Canonical(dels)
      ensures refusals >= old(refusals) && (refusals == old(refusals) <==> clean)
    {
      clean := true;
      for i := 0 to |dels|
        invariant refusals >= old(refusals) && (refusals == old(refusals) <==> clean)
        invariant Valid() && old(legacyElements) - Canonical(dels) <= legacyElements <= old(legacyElements)
        invariant clean ==> legacyElements == old(legacyElements) - Canonical(dels[..i])
      {
        var e := CanonicalBanEntry(dels[i]);
        assert dels[..i + 1] == dels[..i] + [dels[i]] && dels[i] in dels;
        CanonicalAppend(dels[..i], dels[i]);
        assert e.Some? ==> e.value in Canonical(dels);
        if e.Some? && e.value in legacyElements {
          var done := Accepted();
          if done { legacyElements := legacyElements - {e.value}; } else { clean := false; }
        }
      }
      assert dels[..|dels|] == dels;
    }

    /** Flush. The buffers are emptied in every case, so a flush that cannot list the sets loses its
        delta and changes nothing. Otherwise the covered entries are the hidden part of the requested
        set, and the kernel holds its maximal part when no element failed. A failed element never
        removes an entry the plan keeps, nor adds one it does not want. */
    method Flush() returns (ok: bool, failed: nat, ghost clean: bool)
      requires Valid()
      modifies `elements, `legacyElements, `missed, `refusals, `covered, `pendingAdd, `pendingDel
      ensures Valid() && pendingAdd == [] && pendingDel == []
      ensures old(legacyElements) - Canonical(old(pendingDel)) <= legacyElements <= old(legacyElements)
      ensures !ok || old(pendingAdd) + old(pendingDel) == [] ==>
                elements == old(elements) && covered == old(covered) && legacyElements == old(legacyElements)
      ensures !legacy ==> legacyElements == old(legacyElements)
      ensures legacy && ok && clean ==> legacyElements == old(legacyElements) - Canonical(old(pendingDel))
      ensures ok && old(pendingAdd) + old(pendingDel) != [] ==>
                var all := Requested(old(elements), old(covered), old(pendingAdd), old(pendingDel));
                && covered == all - Maximal(all)
                && elements <= old(elements) + Maximal(all)
                && old(elements) * Maximal(all) - Canonical(old(pendingDel)) <= elements
                && (failed == 0 ==> elements == Maximal(all))
      ensures refusals >= old(refusals) && (refusals == old(refusals) ==> ok && failed == 0 && clean)
      ensures ok && clean && refusals <= old(refusals) + 1 ==> failed == 0
    {
      ok, failed, clean := true, 0, true;
      if pendingAdd == [] && pendingDel == [] {
        assert Canonical([]) == {};
        return;
      }
      var adds, dels := pendingAdd, pendingDel;
      pendingAdd, pendingDel := [], [];
      var present := ListPresent();
      if present.None? { return false, 0, true; }
      var toDel, toAdd;
      toDel, toAdd, covered := PlanIntervalSet(present.value, covered, adds, dels);
      ghost var all := Requested(old(elements), old(covered), adds, dels);
      MaximalIsAntichain(all);
      if legacy { clean := RemoveLegacy(dels); }
      failed := Apply(toDel, toAdd);
      Kept(old(elements), Elems(toDel), Elems(toAdd), Maximal(all), Canonical(dels), elements);
    }

    /** GetBannedIPs. A failed read of the interval sets reports nothing, one of the pre-interval set only
        them (`all` is false). */
    method GetBannedIPs() returns (out: set<Prefix>, ok: bool, ghost all: bool)
      modifies `refusals
      ensures refusals >= old(refusals) && (refusals == old(refusals) ==> ok && (legacy ==> all))
      ensures !ok ==> out == {}
      ensures ok ==> out == Reported(elements, covered)
                     || (legacy && out == Reported(elements, covered) + legacyElements)
      ensures ok ==> out == Reported(elements, covered) + if legacy && all then legacyElements else {}
    {
      var present := ListPresent();
      if present.None? { return {}, false, false; }
      out := ReportWithCovered(present.value, covered);
      ok, all := true, false;
      if legacy {
        var listed := Accepted();
        all := listed;
        if listed { out := out + legacyElements; }
      }
    }

    // ----- Migration of the pre-interval set -----

    /** The listed elements of the pre-interval set, as reported texts. */
    method ListLegacy() returns (entries: seq<Token>, ok: bool)
      requires Valid()
      modifies `refusals
      ensures ok ==> Canonical(entries) == legacyElements
      ensures refusals == old(refusals) + if ok then 0 else 1
    {
      entries := [];
      var todo := legacyElements;
      while todo != {}
        invariant todo <= legacyElements && Canonical(entries) == legacyElements - todo
        invariant refusals == old(refusals)
        decreases |todo|
      {
        var p :| p in todo;
        todo := todo - {p};
        AppendHost(entries, p);
        entries := entries + [BanEntryKey(p)];
      }
      ok := Accepted();
    }

    /** The first part of migrateLegacy: copy the old elements into the interval sets. */
    method CopyLegacy(entries: seq<Token>) returns (done: bool, ghost planned: bool)
      requires Valid() && legacy && covered == {} && Canonical(entries) == legacyElements
      requires watched == Enforced() && !missed
      modifies `elements, `missed, `refusals, `covered
      ensures Valid() && !missed && watched <= Enforced()
      ensures done ==> planned && NoGap(watched, elements) && elements == Maximal(old(elements) + legacyElements)
      ensures !planned ==> elements == old(elements) && covered == {}
      ensures var all := old(elements) + legacyElements;
              planned ==> old(elements) <= elements <= Maximal(all) && covered == all - Maximal(all)
      ensures refusals >= old(refusals) && (refusals == old(refusals) ==> done)
    {
      if |entries| == 0 {
        assert Canonical([]) == {} && elements + legacyElements == elements;
        KeepingIsNoGap(watched, elements);
        CleanIsCanonical(elements, {});
        return true, true;
      }
      var present := ListPresent();
      if present.None? { return false, false; }
      planned := true;
      var toDel, toAdd;
      toDel, toAdd, covered := PlanIntervalSet(present.value, covered, entries, []);
      ghost var all := elements + legacyElements;
      assert Requested(elements, {}, entries, []) == all;
      MaximalIsAntichain(all);
      HostsRetireNothing(elements, legacyElements, Elems(toDel), Elems(toAdd));
      NoElems(toDel);
      KeepingIsNoGap(watched, Enforced());
      var failed := Apply(toDel, toAdd);
      MaximalIsNoGap(watched, all);
      done := failed == 0;
    }

    /** migrateLegacy, as the first command sequence of a process: copy, switch the rules, delete the
        old set. On every path, no address enforced before is ever left unblocked. */
    method MigrateLegacy() returns (ghost planned: bool)
      requires Valid() && legacy && covered == {}
      requires watched == Enforced() && !missed
      modifies `elements, `missed, `refusals, `covered, `legacy, `legacyMatched, `legacyElements
      ensures Valid() && !missed && NoGap(watched, Enforced())
      ensures !legacy ==> planned && NoGap(watched, elements) && elements == Maximal(old(elements + legacyElements))
      ensures legacy ==> legacyElements == old(legacyElements)
      ensures !planned ==> elements == old(elements) && covered == {}
      ensures var all := old(elements + legacyElements);
              planned ==> old(elements) <= elements <= Maximal(all) && covered == all - Maximal(all)
      ensures refusals >= old(refusals) && (refusals == old(refusals) ==> !legacy && legacyElements == {})
    {
      planned := false;
      KeepingIsNoGap(watched, Enforced());
      var entries, listed := ListLegacy();
      if !listed { return; }
      var copied;
      copied, planned := CopyLegacy(entries);
      KeepingIsNoGap(watched, Enforced());
      if !copied { return; }
      // The chain switch is one transaction.
      var switched := Accepted();
      if !switched { return; }
      legacyMatched := false;
      missed := missed || !NoGap(watched, Enforced());
      assert Enforced() == elements;
      var deleted := Accepted();
      if deleted { legacyElements := {}; }
      legacy := false;
    }

    /** ensureTable, once the table is there: the first call of a process migrates the pre-interval set. */
    method EnsureTable() returns (ghost planned: bool)
      requires Valid() && (!initialized ==> covered == {} && legacyMatched == legacy)
      modifies this
      ensures Valid() && initialized && pendingAdd == old(pendingAdd) && pendingDel == old(pendingDel)
      ensures old(initialized) || !old(legacy) ==>
                !planned && elements == old(elements) && covered == old(covered) && legacy == old(legacy)
                && legacyElements == old(legacyElements)
      ensures !old(initialized) ==> watched == old(Enforced()) && !missed && NoGap(watched, Enforced())
      ensures !planned ==> elements == old(elements) && covered == old(covered) && legacy == old(legacy)
      ensures legacy ==> legacyElements == old(legacyElements)
      ensures var all := old(elements + legacyElements);
              planned ==> old(elements) <= elements <= Maximal(all) && covered == all - Maximal(all)
      ensures !legacy && planned ==> elements == Maximal(old(elements + legacyElements))
      ensures refusals >= old(refusals) && (planned && refusals == old(refusals) ==> !legacy)
      ensures !old(initialized) && old(legacy) && refusals == old(refusals) ==> planned && legacyElements == {}
    {
      planned := false;
      if initialized { return; }
      initialized := true;
      watched, missed := Enforced(), false;
      KeepingIsNoGap(watched, Enforced());
      if legacy { planned := MigrateLegacy(); }
    }
  }

  lemma Kept<T>(before: set<T>, gone: set<T>, added: set<T>, planned: set<T>, dels: set<T>, now: set<T>)
    requires planned == before - gone + added && gone * added <= dels && before - gone <= now
    ensures before * planned - dels <= now
  {
    forall x | x in before * planned - dels ensures x in now {
      assert x in gone ==> x in gone * added;
    }
  }

  lemma AppendHost(entries: seq<Token>, p: Prefix)
    requires p.family.V4? && IsHost(p)
    ensures Canonical(entries + [BanEntryKey(p)]) == Canonical(entries) + {p}
  {
    var k := BanEntryKey(p);
    assert CanonicalBanEntry(k) == Some(p) && k in entries + [k];
    forall t | t in entries ensures t in entries + [k] {}
  }
}
