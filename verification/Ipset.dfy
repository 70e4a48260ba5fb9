/** The ipset backend of iptables: the in-place migration of the ban set to hash:net, and the chain
    set-up around it, over a kernel of named sets and rules that hold sets by index. */
module Ipset {
  import opened Prefixes

  datatype SetName = Main | Mig
  datatype SetType = HashIp | HashNet
  datatype IpSet = IpSet(kind: SetType, members: set<Prefix>)

  /** Set names, set contents by index, and the sets the rules of the two chains match (a rule may be
      there several times). `pinned` are sets a rule we do not own still uses. */
  datatype Kernel = Kernel(names: map<SetName, nat>, sets: map<nat, IpSet>, next: nat,
                           inRules: multiset<nat>, outRules: multiset<nat>, pinned: set<nat>)
  {
    ghost predicate Valid() {
      && (forall n :: n in names ==> names[n] in sets)
      && (forall m, n :: m in names && n in names && names[m] == names[n] ==> m == n)
      && (forall i :: i in sets ==> i < next)
    }

    /** Some rule of each chain matches a set holding every entry of s. */
    ghost predicate Enforces(s: set<Prefix>) {
      && (exists i :: i in inRules && i in sets && s <= sets[i].members)
      && (exists i :: i in outRules && i in sets && s <= sets[i].members)
    }

    /** The named set is matched in both directions and holds every entry of s. */
    ghost predicate BoundTo(n: SetName, s: set<Prefix>) {
      n in names && names[n] in sets && s <= sets[names[n]].members && names[n] in inRules && names[n] in outRules
    }

    /** What a migration of a set holding s goes through, and so what an interrupted one leaves: s is
        enforced all the time; while the named set is still the old one it holds s and is matched in both
        directions, or the temporary set is in use; and afterwards it may be missing, or already new and
        not yet filled. */
    ghost predicate Migrating(s: set<Prefix>) {
      && Valid() && Enforces(s)
      && (Is(Main, HashIp) ==> IsOld(s) && (BoundTo(Main, s) || (Mig in names && Busy(Mig))))
    }

    /** The set a name stands for. */
    function SetOf(n: SetName): Option<IpSet> {
      if n in names && names[n] in sets then Some(sets[names[n]]) else None
    }

    predicate Is(n: SetName, kind: SetType) {
      SetOf(n).Some? && SetOf(n).value.kind == kind
    }

    /** The named set is the one an earlier agent made, holding s. */
    predicate IsOld(s: set<Prefix>) {
      SetOf(Main) == Some(IpSet(HashIp, s))
    }

    /** The set a name stands for holds every entry of s. */
    ghost predicate Holds(n: SetName, s: set<Prefix>) {
      SetOf(n).Some? && s <= SetOf(n).value.members
    }

    predicate Busy(n: SetName)
      requires n in names
    {
      names[n] in inRules || names[n] in outRules || names[n] in pinned
    }

    /** The migration can be carried out: no rule uses the temporary set, and the named one is used by at
        most one rule of each chain and by none we do not own. */
    predicate Movable() {
      && (Mig in names ==> !Busy(Mig))
      && (Main in names ==>
            inRules[names[Main]] <= 1 && outRules[names[Main]] <= 1 && names[Main] !in pinned)
    }

    /** ensureChain's rebuild: both chains emptied, then one rule each on the named set, when there is
        one. */
    function Rebuilt(): Kernel {
      var rules := if Main in names then multiset{names[Main]} else multiset{};
      this.(inRules := rules, outRules := rules)
    }

    function Destroyed(n: SetName): Kernel
      requires n in names
    {
      this.(names := names - {n}, sets := sets - {names[n]})
    }

    function Created(n: SetName): Kernel {
      this.(names := names[n := next], sets := sets[next := IpSet(HashNet, {})], next := next + 1)
    }

    function Renamed(from: SetName, to: SetName): Kernel
      requires from in names
    {
      this.(names := (names - {from})[to := names[from]])
    }

    function Added(n: SetName, entries: set<Prefix>): Kernel
      requires n in names && names[n] in sets
    {
      this.(sets := sets[names[n] := IpSet(sets[names[n]].kind, sets[names[n]].members + entries)])
    }
  }

  lemma BoundEnforces(k: Kernel, n: SetName, s: set<Prefix>)
    requires k.BoundTo(n, s)
    ensures k.Enforces(s)
  {
  }

  /** Edits of the rules keep a migration going as long as one of its two sets is bound. */
  lemma BoundKeeps(k: Kernel, k': Kernel, n: SetName, s: set<Prefix>)
    requires k.Migrating(s) && k' == k.(inRules := k'.inRules, outRules := k'.outRules) && k'.BoundTo(n, s)
    ensures k'.Migrating(s)
  {
  }

  /** Keeping the rules, and at least the contents of the sets they match, keeps what is enforced. */
  lemma EnforcesKept(k: Kernel, k': Kernel, s: set<Prefix>)
    requires k.Enforces(s) && k'.inRules == k.inRules && k'.outRules == k.outRules
    requires forall i :: i in k.sets && (i in k.inRules || i in k.outRules) ==>
                           i in k'.sets && k.sets[i].members <= k'.sets[i].members
    ensures k'.Enforces(s)
  {
    var i :| i in k.inRules && i in k.sets && s <= k.sets[i].members;
    var o :| o in k.outRules && o in k.sets && s <= k.sets[o].members;
    assert i in k'.sets && s <= k'.sets[i].members && o in k'.sets && s <= k'.sets[o].members;
  }

  /** A set without rules can go: whatever enforces s is another set. */
  lemma DestroyKeeps(k: Kernel, n: SetName, s: set<Prefix>)
    requires k.Migrating(s) && n in k.names && !k.Busy(n)
    ensures k.Destroyed(n).Migrating(s)
  {
    EnforcesKept(k, k.Destroyed(n), s);
    DestroyOthers(k, n, Main, s);
    DestroyOthers(k, n, Mig, s);
  }

  lemma DestroyOthers(k: Kernel, n: SetName, m: SetName, s: set<Prefix>)
    requires k.Valid() && n in k.names
    ensures k.Destroyed(n).Valid()
    ensures m != n ==> k.Destroyed(n).SetOf(m) == k.SetOf(m)
    ensures m != n && k.BoundTo(m, s) ==> k.Destroyed(n).BoundTo(m, s)
  {
  }

  lemma FreeMigIsBound(k: Kernel, s: set<Prefix>)
    requires k.Migrating(s) && k.Is(Main, HashIp) && Mig !in k.names
    ensures k.BoundTo(Main, s)
  {
  }

  lemma CreateOthers(k: Kernel, n: SetName, m: SetName, s: set<Prefix>)
    requires k.Valid() && n !in k.names
    ensures k.Created(n).Valid() && k.Created(n).SetOf(n) == Some(IpSet(HashNet, {}))
    ensures m != n ==> k.Created(n).SetOf(m) == k.SetOf(m)
    ensures m != n && k.BoundTo(m, s) ==> k.Created(n).BoundTo(m, s)
  {
    assert k.next !in k.sets;
  }

  lemma CreateKeeps(k: Kernel, n: SetName, s: set<Prefix>)
    requires k.Migrating(s) && n !in k.names
    ensures k.Created(n).Migrating(s)
  {
    assert k.next !in k.sets;
    EnforcesKept(k, k.Created(n), s);
    CreateOthers(k, n, Main, s);
    if k.Created(n).Is(Main, HashIp) {
      if Mig !in k.names { FreeMigIsBound(k, s); }
    }
  }

  lemma AddOthers(k: Kernel, n: SetName, entries: set<Prefix>, m: SetName, s: set<Prefix>)
    requires k.Valid() && k.Is(n, HashNet)
    ensures var k' := k.Added(n, entries);
            && k'.Valid() && k'.SetOf(n) == Some(IpSet(HashNet, k.SetOf(n).value.members + entries))
            && (m != n ==> k'.SetOf(m) == k.SetOf(m)) && (k.BoundTo(m, s) ==> k'.BoundTo(m, s))
  {
  }

  lemma AddKeeps(k: Kernel, n: SetName, entries: set<Prefix>, s: set<Prefix>)
    requires k.Migrating(s) && k.Is(n, HashNet)
    ensures k.Added(n, entries).Migrating(s)
  {
    EnforcesKept(k, k.Added(n, entries), s);
    AddOthers(k, n, entries, Main, s);
  }

  /** iptRebind's four commands: the rules added in both chains, then removed in both. */
  ghost function Rebinding(k: Kernel, f: nat, t: nat, step: nat): Kernel {
    match step
    case 0 => k
    case 1 => k.(inRules := k.inRules + multiset{t})
    case 2 => k.(inRules := k.inRules + multiset{t}, outRules := k.outRules + multiset{t})
    case 3 => k.(inRules := k.inRules + multiset{t} - multiset{f}, outRules := k.outRules + multiset{t})
    case _ => k.(inRules := k.inRules + multiset{t} - multiset{f}, outRules := k.outRules + multiset{t} - multiset{f})
  }

  lemma RebindKeeps(k: Kernel, from: SetName, to: SetName, step: nat, s: set<Prefix>)
    requires k.Migrating(s) && k.BoundTo(from, s) && k.Holds(to, s) && from != to
    ensures var r := Rebinding(k, k.names[from], k.names[to], step);
            r.Migrating(s) && (step >= 3 ==> r.BoundTo(to, s))
  {
    var f, t := k.names[from], k.names[to];
    var r := Rebinding(k, f, t, step);
    assert f != t;
    if step <= 2 {
      assert f in r.inRules && f in r.outRules;
      BoundKeeps(k, r, from, s);
    } else {
      assert t in r.inRules && t in r.outRules;
      BoundKeeps(k, r, to, s);
    }
  }

  lemma RebindKeepsAll(k: Kernel, from: SetName, to: SetName, s: set<Prefix>)
    requires k.Migrating(s) && k.BoundTo(from, s) && k.Holds(to, s) && from != to
    ensures var f, t := k.names[from], k.names[to];
            && Rebinding(k, f, t, 1).Migrating(s) && Rebinding(k, f, t, 2).Migrating(s)
            && Rebinding(k, f, t, 3).Migrating(s) && Rebinding(k, f, t, 4).Migrating(s)
            && Rebinding(k, f, t, 4).BoundTo(to, s)
  {
    RebindKeeps(k, from, to, 1, s);
    RebindKeeps(k, from, to, 2, s);
    RebindKeeps(k, from, to, 3, s);
    RebindKeeps(k, from, to, 4, s);
  }

  lemma RebindSame(k: Kernel, f: nat, t: nat)
    ensures var r := Rebinding(k, f, t, 4);
            r == k.(inRules := r.inRules, outRules := r.outRules) && (k.Valid() ==> r.Valid())
            && forall n :: r.SetOf(n) == k.SetOf(n)
  {
  }

  /** What the rebuild enforces is exactly what the named set holds by then. */
  lemma RebuiltEnforces(k: Kernel, s: set<Prefix>)
    ensures k.Rebuilt().Enforces(s) <==> k.Holds(Main, s)
  {
    var r := k.Rebuilt();
    if k.Holds(Main, s) { assert k.names[Main] in r.inRules && k.names[Main] in r.outRules; }
  }

  /** The kernels of a migration of s, alone on the host: before it, with the members copied, with the
      rules on the copy, without the old set, and with the new set created. */
  function Stage(n: nat, s: set<Prefix>): Kernel {
    var old_, copy := IpSet(HashIp, s), IpSet(HashNet, s);
    match n
    case 0 => Kernel(map[Main := 0], map[0 := old_], 1, multiset{0}, multiset{0}, {})
    case 1 => Kernel(map[Main := 0, Mig := 1], map[0 := old_, 1 := copy], 2, multiset{0}, multiset{0}, {})
    case 2 => Kernel(map[Main := 0, Mig := 1], map[0 := old_, 1 := copy], 2, multiset{1}, multiset{1}, {})
    case 3 => Kernel(map[Mig := 1], map[1 := copy], 2, multiset{1}, multiset{1}, {})
    case _ => Kernel(map[Main := 2, Mig := 1], map[1 := copy, 2 := IpSet(HashNet, {})], 3, multiset{1}, multiset{1}, {})
  }

  lemma BoundMigrates(k: Kernel, n: SetName, s: set<Prefix>)
    requires k.Valid() && k.BoundTo(n, s) && (k.Is(Main, HashIp) ==> k.IsOld(s))
    ensures k.Migrating(s)
  {
    BoundEnforces(k, n, s);
  }

  lemma StagesMigrate(n: nat, s: set<Prefix>)
    ensures Stage(n, s).Migrating(s)
  {
    BoundMigrates(Stage(n, s), if n <= 1 then Main else Mig, s);
  }

  lemma StagesFollow(s: set<Prefix>)
    ensures Stage(1, s) == Stage(0, s).Created(Mig).Added(Mig, s)
    ensures Stage(2, s) == Stage(1, s).(inRules := multiset{1}, outRules := multiset{1})
    ensures !Stage(2, s).Busy(Main) && Stage(3, s) == Stage(2, s).Destroyed(Main)
    ensures Stage(4, s) == Stage(3, s).Created(Main)
  {
    CopyStage(s);
    ThirdStage(s);
    LastStage(s);
  }

  lemma CopyStage(s: set<Prefix>)
    ensures Stage(1, s) == Stage(0, s).Created(Mig).Added(Mig, s)
  {
    assert {} + s == s;
  }

  lemma ThirdStage(s: set<Prefix>)
    ensures !Stage(2, s).Busy(Main) && Stage(3, s) == Stage(2, s).Destroyed(Main)
  {
    var k, copy := Stage(2, s), IpSet(HashNet, s);
    assert k.names - {Main} == map[Mig := 1];
    assert k.sets - {0} == map[1 := copy];
  }

  lemma LastStage(s: set<Prefix>)
    ensures Stage(4, s) == Stage(3, s).Created(Main)
  {
  }

  /** An interruption right after the named set was re-created: a stage like the others (StagesMigrate)
      and reached through them (StagesFollow), from which the rebuild of the next start, which finds a set
      of the right type, loses every entry of s. */
  lemma InterruptedRefill(s: set<Prefix>)
    requires s != {}
    ensures Stage(0, s).IsOld(s) && Stage(4, s).Is(Main, HashNet) && !Stage(4, s).Rebuilt().Enforces(s)
  {
    var k := Stage(4, s);
    assert k.names[Main] == 2 && k.sets[2].members == {};
    RebuiltEnforces(k, s);
  }

  /** The rules moved from the named set to the temporary one. */
  ghost predicate BoundToMig(before: Kernel, now: Kernel) {
    && Main in before.names && Main in now.names && Mig in now.names && now.names[Main] == before.names[Main]
    && now.names[Mig] != now.names[Main] && now.pinned == before.pinned
    && now.inRules == before.inRules + multiset{now.names[Mig]} - multiset{now.names[Main]}
    && now.outRules == before.outRules + multiset{now.names[Mig]} - multiset{now.names[Main]}
  }

  /** The rules, and what the name of the set stands for, are as they were. */
  ghost predicate SameUse(before: Kernel, now: Kernel) {
    && Main in before.names && Main in now.names && now.names[Main] == before.names[Main]
    && now.inRules == before.inRules && now.outRules == before.outRules && now.pinned == before.pinned
  }

  lemma BoundSince(before: Kernel, mid: Kernel, now: Kernel)
    requires SameUse(before, mid) && BoundToMig(mid, now)
    ensures BoundToMig(before, now)
  {
  }

  lemma BoundIsFree(before: Kernel, now: Kernel)
    requires BoundToMig(before, now)
    ensures !now.Busy(Main) <==> before.inRules[before.names[Main]] <= 1 && before.outRules[before.names[Main]] <= 1
                                 && before.names[Main] !in before.pinned
  {
    var m := before.names[Main];
    assert now.inRules[m] == if before.inRules[m] == 0 then 0 else before.inRules[m] - 1;
    assert now.outRules[m] == if before.outRules[m] == 0 then 0 else before.outRules[m] - 1;
  }

  lemma MovableIs(before: Kernel, now: Kernel)
    requires BoundToMig(before, now)
    ensures before.Movable() <==> (Mig in before.names ==> !before.Busy(Mig)) && !now.Busy(Main)
  {
    BoundIsFree(before, now);
  }

  /** The host the backend drives. Listing, creating, destroying and renaming sets may fail; entry
      copies and edits of our own chains are taken to succeed. */
  class Host {
    var k: Kernel

    /** An observer: `gap` turns true, for good, once a command leaves a kernel that is not one of a
        migration of `watched`, so in particular once some direction has no rule matching a set that
        holds all of it. */
    ghost var watched: set<Prefix>
    ghost var gap: bool

    /** The commands that were refused although they could have been carried out, and the lists that could
        not be read. */
    ghost var refusals: nat

    /** A host with any set to watch. */
    constructor (k: Kernel, watched: set<Prefix>)
      ensures this.k == k && this.watched == watched && !gap && refusals == 0
    {
      this.k, this.watched, gap, refusals := k, watched, false, 0;
    }

    /** Whether a command that can be carried out is. */
    method Accepted(possible: bool) returns (ok: bool)
      modifies `refusals
      ensures ok ==> possible
      ensures refusals == old(refusals) + if possible && !ok then 1 else 0
    {
      ok := *;
      ok := ok && possible;
      if possible && !ok { refusals := refusals + 1; }
    }

    method Command(k': Kernel)
      modifies `k, `gap
      ensures k == k' && gap == (old(gap) || !k'.Migrating(watched))
    {
      k := k';
      gap := gap || !k.Migrating(watched);
    }

    method Destroy(n: SetName) returns (ok: bool)
      requires k.Valid()
      modifies `k, `gap, `refusals
      ensures k.Valid() && (old(k).Migrating(watched) ==> k.Migrating(watched) && gap == old(gap))
      ensures if ok then n in old(k).names && !old(k).Busy(n) && k == old(k).Destroyed(n) else k == old(k)
      ensures refusals == old(refusals) + if !ok && n in old(k).names && !old(k).Busy(n) then 1 else 0
      ensures forall m :: m != n ==> k.SetOf(m) == old(k).SetOf(m)
      ensures forall m :: m != n && old(k).BoundTo(m, watched) ==> k.BoundTo(m, watched)
    {
      ok := Accepted(n in k.names && !k.Busy(n));
      if ok {
        if k.Migrating(watched) { DestroyKeeps(k, n, watched); }
        DestroyOthers(k, n, Main, watched);
        DestroyOthers(k, n, Mig, watched);
        Command(k.Destroyed(n));
      }
    }

    method Create(n: SetName) returns (ok: bool)
      requires k.Valid()
      modifies `k, `gap, `refusals
      ensures k.Valid() && (old(k).Migrating(watched) ==> k.Migrating(watched) && gap == old(gap))
      ensures if ok then n !in old(k).names && k == old(k).Created(n) else k == old(k)
      ensures ok ==> k.SetOf(n) == Some(IpSet(HashNet, {}))
      ensures refusals == old(refusals) + if !ok && n !in old(k).names then 1 else 0
      ensures forall m :: m != n ==> k.SetOf(m) == old(k).SetOf(m)
      ensures forall m :: m != n && old(k).BoundTo(m, watched) ==> k.BoundTo(m, watched)
    {
      ok := Accepted(n !in k.names);
      if ok {
        if k.Migrating(watched) { CreateKeeps(k, n, watched); }
        CreateOthers(k, n, Main, watched);
        CreateOthers(k, n, Mig, watched);
        Command(k.Created(n));
      }
    }

    /** ipset rename: the rules keep the index. */
    method Rename(from: SetName, to: SetName) returns (ok: bool)
      requires k.Valid() && k.Is(from, HashNet) && to == Main
      modifies `k, `gap, `refusals
      ensures k.Valid() && (old(k).Migrating(watched) ==> k.Migrating(watched) && gap == old(gap))
      ensures refusals == old(refusals) + if !ok && to !in old(k).names then 1 else 0
      ensures if ok then to !in old(k).names && k.SetOf(to) == old(k).SetOf(from) else k == old(k)
      ensures ok && old(k).BoundTo(from, watched) ==> k.BoundTo(to, watched)
    {
      ok := Accepted(from in k.names && to !in k.names);
      if ok { Command(k.Renamed(from, to)); }
    }

    /** ipsetApply with additions only. */
    method AddEntries(n: SetName, entries: set<Prefix>)
      requires k.Valid() && k.Is(n, HashNet)
      modifies `k, `gap
      ensures k.Valid() && (old(k).Migrating(watched) ==> k.Migrating(watched) && gap == old(gap))
      ensures k == old(k).Added(n, entries)
      ensures k.names == old(k).names && k.SetOf(n) == Some(IpSet(HashNet, old(k).SetOf(n).value.members + entries))
      ensures forall m :: m != n ==> k.SetOf(m) == old(k).SetOf(m)
      ensures forall m :: old(k).BoundTo(m, watched) ==> k.BoundTo(m, watched)
    {
      if k.Migrating(watched) { AddKeeps(k, n, entries, watched); }
      AddOthers(k, n, entries, Main, watched);
      AddOthers(k, n, entries, Mig, watched);
      Command(k.Added(n, entries));
    }

    /** ipset list. */
    method Members(n: SetName) returns (members: Option<set<Prefix>>)
      requires k.Valid()
      modifies `refusals
      ensures members.Some? ==> k.SetOf(n).Some? && members.value == k.SetOf(n).value.members
      ensures refusals == old(refusals) + if members.None? && n in k.names then 1 else 0
    {
      var ok := Accepted(n in k.names);
      members := if ok then Some(k.sets[k.names[n]].members) else None;
    }

    /** iptRebind: the rules on `to` are added in both chains before those on `from` are removed. */
    method Rebind(from: SetName, to: SetName)
      requires k.Valid() && from in k.names && to in k.names && from != to
      modifies `k, `gap
      ensures k.Valid() && k.names == old(k).names && forall n :: k.SetOf(n) == old(k).SetOf(n)
      ensures k == old(k).(inRules := old(k).inRules + multiset{old(k).names[to]} - multiset{old(k).names[from]},
                           outRules := old(k).outRules + multiset{old(k).names[to]} - multiset{old(k).names[from]})
      ensures old(k).Migrating(watched) && old(k).BoundTo(from, watched) && old(k).Holds(to, watched) ==>
                k.Migrating(watched) && k.BoundTo(to, watched) && gap == old(gap)
    {
      ghost var k0 := k;
      var f, t := k.names[from], k.names[to];
      RebindSame(k0, f, t);
      if k0.Migrating(watched) && k0.BoundTo(from, watched) && k0.Holds(to, watched) {
        RebindKeepsAll(k0, from, to, watched);
      }
      RebindCommands(f, t);
    }

    method RebindCommands(f: nat, t: nat)
      modifies `k, `gap
      ensures k == Rebinding(old(k), f, t, 4)
      ensures gap <==> old(gap) || !Rebinding(old(k), f, t, 1).Migrating(watched)
                       || !Rebinding(old(k), f, t, 2).Migrating(watched)
                       || !Rebinding(old(k), f, t, 3).Migrating(watched)
                       || !Rebinding(old(k), f, t, 4).Migrating(watched)
    {
      ghost var k0 := k;
      RebindCommand(k0, f, t, 1, k.(inRules := k.inRules + multiset{t}));
      RebindCommand(k0, f, t, 2, k.(outRules := k.outRules + multiset{t}));
      RebindCommand(k0, f, t, 3, k.(inRules := k.inRules - multiset{f}));
      RebindCommand(k0, f, t, 4, k.(outRules := k.outRules - multiset{f}));
    }

    /** One command, tracked as a step of the whole. */
    method RebindCommand(ghost k0: Kernel, ghost f: nat, ghost t: nat, ghost step: nat, k': Kernel)
      requires k' == Rebinding(k0, f, t, step)
      modifies `k, `gap
      ensures k == Rebinding(k0, f, t, step) && gap == (old(gap) || !Rebinding(k0, f, t, step).Migrating(watched))
    {
      Command(k');
    }

    /** Steps 1 and 2 of the migration: the members copied to the temporary set, the rules bound to it.
        A temporary set in use stops it. */
    method MoveToTemporary(members: set<Prefix>) returns (ok: bool)
      requires k.Valid() && k.IsOld(members)
      modifies `k, `gap, `refusals
      ensures refusals >= old(refusals)
      ensures refusals == old(refusals) ==> (ok <==> (Mig in old(k).names ==> !old(k).Busy(Mig)))
      ensures ok ==> BoundToMig(old(k), k)
      ensures k.Valid() && k.IsOld(members) && (ok ==> k.SetOf(Mig) == Some(IpSet(HashNet, members)))
      ensures old(k).Migrating(watched) ==> k.Migrating(watched) && gap == old(gap)
      ensures old(k).Migrating(watched) && ok ==> k.BoundTo(Mig, watched)
      ensures !ok && old(k).BoundTo(Main, watched) ==> k.BoundTo(Main, watched)
    {
      ok := ClearTemporary(members);
      if ok {
        ghost var mid := k;
        FillAndMove(members);
        BoundSince(old(k), mid, k);
      }
    }

    /** The temporary set, new and empty. */
    method ClearTemporary(members: set<Prefix>) returns (ok: bool)
      requires k.Valid() && k.IsOld(members)
      modifies `k, `gap, `refusals
      ensures refusals >= old(refusals)
      ensures refusals == old(refusals) ==> (ok <==> (Mig in old(k).names ==> !old(k).Busy(Mig)))
      ensures k.Valid() && k.IsOld(members) && (ok ==> k.SetOf(Mig) == Some(IpSet(HashNet, {})))
      ensures SameUse(old(k), k)
      ensures old(k).Migrating(watched) ==> k.Migrating(watched) && gap == old(gap)
      ensures old(k).Migrating(watched) && ok ==> k.BoundTo(Main, watched)
      ensures old(k).BoundTo(Main, watched) ==> k.BoundTo(Main, watched)
    {
      var leftover := Destroy(Mig);
      if Mig !in k.names && k.Migrating(watched) { FreeMigIsBound(k, watched); }
      ok := Create(Mig);
    }

    method FillAndMove(members: set<Prefix>)
      requires k.Valid() && k.IsOld(members) && k.SetOf(Mig) == Some(IpSet(HashNet, {}))
      modifies `k, `gap
      ensures BoundToMig(old(k), k)
      ensures k.Valid() && k.IsOld(members) && k.SetOf(Mig) == Some(IpSet(HashNet, members))
      ensures old(k).Migrating(watched) && old(k).BoundTo(Main, watched) ==>
                k.Migrating(watched) && gap == old(gap) && k.BoundTo(Mig, watched)
    {
      AddEntries(Mig, members);
      assert {} + members == members;
      Rebind(Main, Mig);
    }

    /** The rollback: the old set is still used by a rule we do not own. */
    method RollBack()
      requires k.Valid() && Mig in k.names && Main in k.names
      modifies `k, `gap, `refusals
      ensures refusals >= old(refusals)
      ensures k.Valid() && k.SetOf(Main) == old(k).SetOf(Main)
      ensures old(k).Migrating(watched) && old(k).BoundTo(Mig, watched) && old(k).Holds(Main, watched) ==>
                k.Migrating(watched) && gap == old(gap) && k.BoundTo(Main, watched)
    {
      Rebind(Mig, Main);
      var _ := Destroy(Mig);
    }

    /** Steps 3 and 4: the set re-created as hash:net, filled and bound again, or replaced by renaming. */
    method MoveBack(members: set<Prefix>) returns (ok: bool)
      requires k.Valid() && Main !in k.names && k.SetOf(Mig) == Some(IpSet(HashNet, members))
      modifies `k, `gap, `refusals
      ensures refusals >= old(refusals) && (refusals <= old(refusals) + 1 ==> ok)
      ensures k.Valid()
      ensures if ok then k.SetOf(Main) == Some(IpSet(HashNet, members)) else k == old(k)
      ensures old(k).Migrating(watched) && old(k).BoundTo(Mig, watched) && watched <= members ==>
                k.Migrating(watched) && gap == old(gap) && k.BoundTo(if ok then Main else Mig, watched)
    {
      var recreated := Create(Main);
      if !recreated {
        ok := Rename(Mig, Main);
        return;
      }
      Refill(members);
      return true;
    }

    method RefillAndBind(members: set<Prefix>)
      requires k.Valid() && k.SetOf(Main) == Some(IpSet(HashNet, {})) && Mig in k.names
      modifies `k, `gap
      ensures k.Valid() && k.SetOf(Main) == Some(IpSet(HashNet, members))
      ensures old(k).Migrating(watched) && old(k).BoundTo(Mig, watched) && watched <= members ==>
                k.Migrating(watched) && gap == old(gap) && k.BoundTo(Main, watched)
    {
      AddEntries(Main, members);
      assert {} + members == members;
      Rebind(Mig, Main);
    }

    method Refill(members: set<Prefix>)
      requires k.Valid() && k.SetOf(Main) == Some(IpSet(HashNet, {})) && Mig in k.names
      modifies `k, `gap, `refusals
      ensures refusals >= old(refusals)
      ensures k.Valid() && k.SetOf(Main) == Some(IpSet(HashNet, members))
      ensures old(k).Migrating(watched) && old(k).BoundTo(Mig, watched) && watched <= members ==>
                k.Migrating(watched) && gap == old(gap) && k.BoundTo(Main, watched)
    {
      RefillAndBind(members);
      var _ := Destroy(Mig);
    }

    /** migrateIpsetToNet, whatever the rules match. It ends with the members in a set of the new type under
        the name, or with the old set still there, or, when the set could be neither re-created nor
        replaced by renaming, with no set under the name. From any kernel that an earlier process may
        have begun to migrate, every state it goes through, on every path, enforces all members in both
        directions, and without a set under the name the temporary one is bound. */
    method MigrateIpsetToNet() returns (ok: bool)
      requires k.Valid() && k.Is(Main, HashIp)
      modifies `k, `gap, `refusals
      ensures refusals >= old(refusals) && (refusals == old(refusals) ==> (ok <==> old(k).Movable()))
      ensures refusals <= old(refusals) + 1 ==> Main in k.names
      ensures k.Valid()
      ensures var x := old(k).SetOf(Main).value;
              if ok then k.SetOf(Main) == Some(IpSet(HashNet, x.members))
              else k.SetOf(Main) == Some(x) || Main !in k.names
      ensures old(k).Migrating(watched) ==> k.Migrating(watched) && gap == old(gap)
      ensures old(k).Migrating(watched) && ok ==> k.BoundTo(Main, watched)
      ensures old(k).Migrating(watched) && Main !in k.names ==> k.BoundTo(Mig, watched)
      ensures old(k).Migrating(watched) && old(k).BoundTo(Main, watched) && Main in k.names ==> k.BoundTo(Main, watched)
    {
      ghost var start := k;
      var members := Members(Main);
      if members.None? { return false; }
      ok := MoveToTemporary(members.value);
      if !ok { return; }
      MovableIs(start, k);
      ok := Replace(members.value);
    }

    /** The named set replaced, or, when something else still uses it, the rules moved back. */
    method Replace(members: set<Prefix>) returns (ok: bool)
      requires k.Valid() && k.IsOld(members) && k.SetOf(Mig) == Some(IpSet(HashNet, members))
      modifies `k, `gap, `refusals
      ensures refusals >= old(refusals) && (refusals == old(refusals) ==> (ok <==> !old(k).Busy(Main)))
      ensures refusals <= old(refusals) + 1 ==> Main in k.names
      ensures k.Valid()
      ensures if ok then k.SetOf(Main) == Some(IpSet(HashNet, members)) else k.IsOld(members) || Main !in k.names
      ensures old(k).Migrating(watched) && old(k).BoundTo(Mig, watched) && watched <= members ==>
                k.Migrating(watched) && gap == old(gap) && k.BoundTo(if Main in k.names then Main else Mig, watched)
    {
      var destroyed := Destroy(Main);
      if destroyed {
        ok := MoveBack(members);
      } else {
        RollBack();
        ok := false;
      }
    }

    /** ensureIpsetNet. */
    method EnsureIpsetNet() returns (ok: bool)
      requires k.Valid()
      modifies `k, `gap, `refusals
      ensures refusals >= old(refusals)
      ensures refusals == old(refusals) ==>
                Main in k.names && (ok <==> (old(k).Is(Main, HashIp) ==> old(k).Movable()))
      ensures k.Valid() && (old(k).Migrating(watched) ==> k.Migrating(watched) && gap == old(gap))
      ensures ok ==> k.Is(Main, HashNet)
      ensures k.SetOf(Main).Some? ==>
                k.SetOf(Main).value.members == if Main in old(k).names then old(k).SetOf(Main).value.members else {}
      ensures old(k).Is(Main, HashNet) ==> k == old(k)
    {
      if Main !in k.names {
        ok := Create(Main);
      } else if k.sets[k.names[Main]].kind.HashNet? {
        ok := true;
      } else {
        ok := MigrateIpsetToNet();
      }
    }

    /** ensureIpsetNet and the chain rebuild of ensureChain that follows it, from any kernel, whether or not
        it still enforces anything. The rebuild empties both chains before it binds the named set, so
        unlike the migration it leaves a gap. It ends with everything enforced exactly when a set of that
        name exists by then and held everything at the start (a missing one held nothing): so not after
        an earlier process stopped before it filled the new set, and not when a set of the old type
        could be neither re-created nor replaced by renaming. */
    method EnsureChain() returns (cidrOK: bool)
      requires k.Valid()
      modifies `k, `gap, `refusals
      ensures refusals >= old(refusals)
      ensures refusals == old(refusals) ==> (cidrOK <==> (old(k).Is(Main, HashIp) ==> old(k).Movable()))
      ensures refusals == old(refusals) ==>
                && Main in k.names
                && (k.Enforces(watched)
                    <==> if Main in old(k).names then old(k).Holds(Main, watched) else watched == {})
      ensures cidrOK ==> k.Is(Main, HashNet)
      ensures watched != {} ==> gap
      ensures k.Enforces(watched)
              <==> Main in k.names && (if Main in old(k).names then old(k).Holds(Main, watched) else watched == {})
      ensures old(k).Is(Main, HashNet) ==> Main in k.names
    {
      cidrOK := EnsureIpsetNet();
      ghost var ready := k;
      Command(k.(inRules := multiset{}));
      Command(k.(outRules := multiset{}));
      if Main in k.names {
        Command(k.(inRules := multiset{k.names[Main]}));
        Command(k.(outRules := multiset{k.names[Main]}));
      }
      assert k == ready.Rebuilt();
      RebuiltEnforces(ready, watched);
    }
  }
}
