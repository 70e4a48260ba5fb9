/** The netsh backend: the ban list cut into grouped rules, one inbound and one outbound rule per
    group, with every netsh command free to fail. */
module Netsh {
  import Observer
  import opened Prefixes
  import opened IntervalSet
  import opened Chunks

  datatype Dir = In | Out

  /** Rule names; formatting a name is injective. `Foreign` is any other Obliguard-Block-* name (the
      legacy per-address rules). */
  datatype Name = Base(dir: Dir) | Numbered(dir: Dir, n: nat) | Foreign(text: string)

  datatype NetRule = NetRule(name: Name, dir: Dir, entries: seq<Prefix>)

  const MAX_IPS_PER_RULE: nat := 500

  /** The name of group i when there are `groups` groups. */
  function GroupName(d: Dir, groups: nat, i: nat): Name {
    if groups > 1 then Numbered(d, i + 1) else Base(d)
  }

  /** The names wanted for a group count. */
  ghost predicate IsWanted(name: Name, groups: nat) {
    exists i: nat :: i < groups && (name == GroupName(In, groups, i) || name == GroupName(Out, groups, i))
  }

  /** groups pieces cover the list, and fewer do not. */
  ghost predicate Covers(groups: nat, ips: seq<Prefix>) {
    && Cut(groups, MAX_IPS_PER_RULE, |ips|) == |ips|
    && (groups > 0 ==> Cut(groups - 1, MAX_IPS_PER_RULE, |ips|) < |ips|)
  }

  /** The rule of group i in one direction. */
  function GroupRule(ips: seq<Prefix>, groups: nat, d: Dir, i: nat): NetRule {
    NetRule(GroupName(d, groups, i), d, Piece(ips, MAX_IPS_PER_RULE, i))
  }

  ghost predicate IsGroupRule(r: NetRule, ips: seq<Prefix>, groups: nat, upto: nat) {
    exists i: nat :: i < upto && (r == GroupRule(ips, groups, In, i) || r == GroupRule(ips, groups, Out, i))
  }

  ghost predicate DistinctNames(rules: seq<NetRule>) {
    forall j, k :: 0 <= j < k < |rules| ==> rules[j].name != rules[k].name
  }

  /** desiredGroupedRules: one inbound and one outbound rule per group, under distinct names. */
  method DesiredGroupedRules(ips: seq<Prefix>) returns (rules: seq<NetRule>, ghost groups: nat)
    ensures Covers(groups, ips) && DistinctNames(rules) && |rules| == 2 * groups
    ensures forall r :: r in rules <==> IsGroupRule(r, ips, groups, groups)
    ensures forall r :: r in rules ==> 0 < |r.entries| <= MAX_IPS_PER_RULE
  {
    var chunks := ChunkStrings(ips, MAX_IPS_PER_RULE);
    groups := |chunks|;
    assert groups > 0 ==> 0 < |chunks[groups - 1]|;
    rules := [];
    for i := 0 to |chunks|
      invariant |rules| == 2 * i && DistinctNames(rules)
      invariant forall r :: r in rules <==> IsGroupRule(r, ips, groups, i)
      invariant forall r :: r in rules ==> 0 < |r.entries| <= MAX_IPS_PER_RULE
    {
      var inbound := NetRule(if |chunks| > 1 then Numbered(In, i + 1) else Base(In), In, chunks[i]);
      var outbound := NetRule(if |chunks| > 1 then Numbered(Out, i + 1) else Base(Out), Out, chunks[i]);
      AddGroup(rules, inbound, outbound, ips, groups, i);
      rules := rules + [inbound, outbound];
    }
  }

  lemma AddGroup(rules: seq<NetRule>, inbound: NetRule, outbound: NetRule, ips: seq<Prefix>, groups: nat, i: nat)
    requires i < groups && DistinctNames(rules)
    requires forall r :: r in rules <==> IsGroupRule(r, ips, groups, i)
    requires inbound == GroupRule(ips, groups, In, i) && outbound == GroupRule(ips, groups, Out, i)
    ensures DistinctNames(rules + [inbound, outbound])
    ensures forall r :: r in rules + [inbound, outbound] <==> IsGroupRule(r, ips, groups, i + 1)
    ensures forall r :: r in rules + [inbound, outbound] <==> r in rules || r == inbound || r == outbound
  {
    var all := rules + [inbound, outbound];
    forall r ensures r in all <==> r in rules || r == inbound || r == outbound {
      assert all[|rules|] == inbound && all[|rules| + 1] == outbound;
    }
    forall j | 0 <= j < |rules| ensures rules[j].name !in {inbound.name, outbound.name} {
      assert rules[j] in rules;
    }
  }

  /** Every entry is in one group, and in no other when the list repeats none. */
  lemma OneGroup(ips: seq<Prefix>, groups: nat, p: Prefix) returns (i: nat)
    requires Covers(groups, ips) && p in ips && NoDup(ips)
    ensures i < groups && p in Piece(ips, MAX_IPS_PER_RULE, i)
    ensures forall k: nat :: p in Piece(ips, MAX_IPS_PER_RULE, k) ==> k == i
  {
    var j: nat :| j < |ips| && ips[j] == p;
    i := PieceOf(ips, MAX_IPS_PER_RULE, j);
    forall k: nat | p in Piece(ips, MAX_IPS_PER_RULE, k) ensures k == i {
      var piece := Piece(ips, MAX_IPS_PER_RULE, k);
      var o: nat :| o < |piece| && piece[o] == p;
      assert ips[k * MAX_IPS_PER_RULE + o] == p;
      CutMonotone(k, MAX_IPS_PER_RULE, |ips|);
    }
  }

  // ----- The rule store -----

  /** Windows Firewall: commands that fail change nothing. `delete rule` takes every rule of a name. */
  class NetshHost {
    var rules: set<NetRule>

    ghost const obs: Observer.Observer

    /** The commands that were refused although they could have been carried out, and the lists that could
        not be read. */
    ghost var refusals: nat

    constructor (rules: set<NetRule>, obs: Observer.Observer)
      ensures this.rules == rules && this.obs == obs && refusals == 0
    {
      this.rules, this.obs, refusals := rules, obs, 0;
    }

    /** Whether a command or a read goes through. */
    method Accepted() returns (ok: bool)
      modifies `refusals
      ensures refusals == old(refusals) + if ok then 0 else 1
    {
      ok := *;
      if !ok { refusals := refusals + 1; }
    }

    function HasName(name: Name): bool
      reads this
    {
      exists q :: q in rules && q.name == name
    }

    /** The observer knows which of its entries the rules enforce. */
    ghost predicate Seen()
      reads this, obs
    {
      obs.byNetsh == ListedIn(rules, obs.watched)
    }

    /** The observer has seen everything; entries the other backend enforces leave no gap. */
    twostate predicate Observed()
      reads this, obs
    {
      && obs.watched == old(obs.watched) && obs.watches == old(obs.watches) && obs.byWfp == old(obs.byWfp)
      && (old(Seen()) ==> Seen()) && (old(obs.gap) ==> obs.gap)
      && (obs.watched <= obs.byWfp ==> obs.gap == old(obs.gap))
    }

    /** A command changed the rules. */
    method Store(rules': set<NetRule>)
      modifies `rules, obs
      ensures rules == rules' && Observed()
    {
      rules := rules';
      obs.SeeNetsh(ListedIn(rules, obs.watched));
    }

    /** It succeeds when it took a rule away. */
    method DeleteRule(name: Name) returns (ok: bool)
      modifies `rules, `refusals, obs
      ensures Observed() && (ok ==> old(HasName(name)))
      ensures rules == if ok then (set r | r in old(rules) && r.name != name) else old(rules)
      ensures refusals == old(refusals) + if !ok && old(HasName(name)) then 1 else 0
    {
      ok := HasName(name);
      if ok { ok := Accepted(); }
      if ok { Store(set r | r in rules && r.name != name); }
    }

    method SetRule(r: NetRule) returns (ok: bool)
      modifies `rules, `refusals, obs
      ensures Observed() && refusals >= old(refusals)
      ensures rules == if ok then (set q | q in old(rules) && !(q.name == r.name && q.dir == r.dir)) + {r}
                       else old(rules)
    {
      ok := exists q :: q in rules && q.name == r.name && q.dir == r.dir;
      if ok { ok := Accepted(); }
      if ok { Store((set q | q in rules && !(q.name == r.name && q.dir == r.dir)) + {r}); }
    }

    method AddRule(r: NetRule) returns (ok: bool)
      modifies `rules, `refusals, obs
      ensures Observed() && refusals == old(refusals) + if ok then 0 else 1
      ensures rules == if ok then old(rules) + {r} else old(rules)
    {
      ok := Accepted();
      if ok { Store(rules + {r}); }
    }

    /** applyGroupedRule: in place, or delete and add with two retries. Only rules of this name change; it
        takes three refusals to fail; and with nothing refused no other rule of its name and direction is left. */
    method ApplyGroupedRule(r: NetRule, exists_: bool) returns (ok: bool)
      modifies `rules, `refusals, obs
      ensures Observed() && refusals >= old(refusals)
      ensures ok ==> r in rules
      ensures forall q: NetRule :: q.name != r.name ==> (q in rules <==> q in old(rules))
      ensures !ok ==> refusals >= old(refusals) + 3
      ensures refusals == old(refusals) ==>
                forall q :: q in rules && q.name == r.name && q != r ==> exists_ && q in old(rules) && q.dir != r.dir
    {
      if exists_ {
        ok := SetRule(r);
        if ok { return; }
      }
      var _ := DeleteRule(r.name);
      ok := AddRule(r);
      for retry := 0 to 2
        invariant (ok ==> r in rules) && Observed()
        invariant refusals >= old(refusals) && (!ok ==> refusals >= old(refusals) + 1 + retry)
        invariant refusals == old(refusals) ==> forall q :: q in rules && q.name == r.name ==> q == r
        invariant forall q: NetRule :: q.name != r.name ==> (q in rules <==> q in old(rules))
      {
        if !ok { ok := AddRule(r); }
      }
    }
  }

  /** An entry is blocked in a direction when some rule of that direction lists it. */
  ghost predicate Listed(rules: set<NetRule>, d: Dir, p: Prefix) {
    exists r :: r in rules && r.dir == d && p in r.entries
  }

  /** An entry the backend enforces: listed for both directions. */
  ghost predicate ListedBoth(rules: set<NetRule>, p: Prefix) {
    Listed(rules, In, p) && Listed(rules, Out, p)
  }

  /** The entries of a set that are enforced. */
  ghost function ListedIn(rules: set<NetRule>, want: set<Prefix>): set<Prefix> {
    set k | k in want && ListedBoth(rules, k)
  }

  /** Every tracked name has its rule, with the tracked list, in the direction of the name. */
  ghost predicate Tracked(rules: set<NetRule>, applied: map<Name, seq<Prefix>>) {
    forall n :: n in applied ==> !n.Foreign? && NetRule(n, n.dir, applied[n]) in rules
  }

  /** No other rule has a tracked name. */
  ghost predicate Sole(rules: set<NetRule>, applied: map<Name, seq<Prefix>>) {
    forall q: NetRule :: q in rules && q.name in applied ==>
                           !q.name.Foreign? && q == NetRule(q.name, q.name.dir, applied[q.name])
  }

  /** The rules of one name changed. */
  ghost predicate OnlyName(before: set<NetRule>, after: set<NetRule>, name: Name) {
    forall q: NetRule :: q.name != name ==> (q in after <==> q in before)
  }

  /** A desired rule is in force, or its entries are held back from the report. */
  ghost predicate Settled(r: NetRule, applied: map<Name, seq<Prefix>>, unapplied: set<Prefix>) {
    (r.name in applied && applied[r.name] == r.entries) || Elems(r.entries) <= unapplied
  }

  /** Dropping the rules of other names settles nothing anew. */
  lemma SettledAfterDrop(desired: seq<NetRule>, before: map<Name, seq<Prefix>>, applied: map<Name, seq<Prefix>>,
                         held: set<Prefix>)
    requires forall j: nat :: j < |desired| ==> Settled(desired[j], before, held)
    requires applied.Keys == before.Keys * set r | r in desired :: r.name
    requires forall n :: n in applied ==> applied[n] == before[n]
    ensures forall r :: r in desired ==> Settled(r, applied, held)
  {
    forall r | r in desired ensures Settled(r, applied, held) {
      var j: nat :| j < |desired| && desired[j] == r;
      assert Settled(desired[j], before, held);
    }
  }

  lemma SoleShrinks(rules: set<NetRule>, applied: map<Name, seq<Prefix>>, rules': set<NetRule>,
                    applied': map<Name, seq<Prefix>>)
    requires Sole(rules, applied) && rules' <= rules && applied'.Keys <= applied.Keys
    requires forall n :: n in applied' ==> applied'[n] == applied[n]
    ensures Sole(rules', applied')
  {
  }

  lemma DesiredTracked(desired: seq<NetRule>, applied: map<Name, seq<Prefix>>)
    requires forall j: nat :: j < |desired| ==> Settled(desired[j], applied, {})
    requires forall r :: r in desired ==> 0 < |r.entries|
    ensures forall r :: r in desired ==> r.name in applied
  {
    forall r | r in desired ensures r.name in applied {
      var j: nat :| j < |desired| && desired[j] == r;
      NoElems(r.entries);
      assert Settled(desired[j], applied, {});
    }
  }

  class WindowsFirewall {
    const host: NetshHost
    var cache: set<Prefix>
    var dirty: bool
    var legacyCleaned: bool
    /** None until the first sync of the process: the state of the rules is unknown. */
    var appliedRules: Option<map<Name, seq<Prefix>>>
    var unapplied: set<Prefix>

    ghost predicate Valid()
      reads this, host
    {
      appliedRules.Some? ==> Tracked(host.rules, appliedRules.value)
    }

    constructor (host: NetshHost, banlist: set<Prefix>)
      ensures Valid() && this.host == host && cache == banlist && unapplied == {} && appliedRules.None?
      ensures !legacyCleaned
    {
      this.host, cache, dirty := host, banlist, banlist != {};
      legacyCleaned, appliedRules, unapplied := false, None, {};
    }

    method BanIP(entry: Option<Prefix>) returns (ok: bool)
      modifies `cache, `dirty
      ensures ok == entry.Some? && cache == if ok then old(cache) + {entry.value} else old(cache)
      ensures ok && (entry.value !in old(cache) || entry.value in unapplied) ==> dirty
      ensures old(dirty) ==> dirty
    {
      if entry.None? { return false; }
      if entry.value in cache {
        if entry.value in unapplied { dirty := true; }
        return true;
      }
      cache, dirty := cache + {entry.value}, true;
      return true;
    }

    method UnbanIP(entry: Prefix)
      modifies `cache, `dirty
      ensures cache == old(cache) - {entry}
      ensures entry in old(cache) || old(dirty) ==> dirty
    {
      if entry !in cache { return; }
      cache, dirty := cache - {entry}, true;
    }

    /** GetBannedIPs: the banned entries minus those whose group could not be written. */
    method GetBannedIPs() returns (out: set<Prefix>)
      ensures out == cache - unapplied
    {
      out := cache - unapplied;
    }

    ghost predicate IsTracked(name: Name)
      reads this
    {
      appliedRules.Some? && name in appliedRules.value
    }

    /** No rule under a tracked name is other than the tracked one. */
    ghost predicate Clean()
      reads this, host
    {
      appliedRules.Some? ==> Sole(host.rules, appliedRules.value)
    }

    /** And no rule is there but the tracked ones. */
    ghost predicate Exact()
      reads this, host
    {
      appliedRules.Some? && Clean() && forall q :: q in host.rules ==> IsTracked(q.name)
    }

    /** The tracked names are those of this many groups. */
    ghost predicate Grouped(groups: nat)
      reads this
    {
      forall n :: IsTracked(n) <==> IsWanted(n, groups)
    }

    /** The rules of ips are all settled. */
    ghost predicate AllSettled(ips: seq<Prefix>, groups: nat)
      reads this
    {
      appliedRules.Some? &&
      forall r :: IsGroupRule(r, ips, groups, groups) ==> Settled(r, appliedRules.value, unapplied)
    }

    /** One desired rule. */
    method SyncOne(r: NetRule, applied: map<Name, seq<Prefix>>, held: set<Prefix>)
      returns (applied': map<Name, seq<Prefix>>, held': set<Prefix>, ok: bool)
      requires Tracked(host.rules, applied) && !r.name.Foreign? && r.name.dir == r.dir
      modifies host`rules, host`refusals, host.obs
      ensures host.Observed()
      ensures Tracked(host.rules, applied') && Settled(r, applied', held')
      ensures held <= held' && (ok ==> held' == held && r.name in applied' && applied'[r.name] == r.entries)
      ensures forall n :: n != r.name ==> (n in applied' <==> n in applied)
      ensures forall n :: n != r.name && n in applied ==> applied'[n] == applied[n]
      ensures host.refusals >= old(host.refusals) && OnlyName(old(host.rules), host.rules, r.name)
      ensures host.refusals == old(host.refusals) ==> ok
      ensures host.refusals == old(host.refusals) && old(Sole(host.rules, applied)) ==> Sole(host.rules, applied')
    {
      var known := r.name in applied;
      if known && applied[r.name] == r.entries { return applied, held, true; }
      ok := host.ApplyGroupedRule(r, known);
      if ok {
        applied', held' := applied[r.name := r.entries], held;
        assert NetRule(r.name, r.name.dir, r.entries) == r;
      } else {
        applied', held' := applied - {r.name}, held + set p | p in r.entries;
      }
    }

    /** syncRules. Afterwards every desired rule is in force or its entries are held back; a nil result
        means all are in force. */
    method SyncRules(ips: seq<Prefix>) returns (ok: bool, ghost groups: nat)
      requires Valid()
      modifies `appliedRules, `unapplied, host`rules, host`refusals, host.obs
      ensures host.Observed()
      ensures Valid() && Covers(groups, ips) && AllSettled(ips, groups)
      ensures forall n :: n in appliedRules.value ==> IsWanted(n, groups)
      ensures ok ==> unapplied == {}
      ensures host.refusals >= old(host.refusals) && (host.refusals == old(host.refusals) ==> ok)
      ensures host.refusals == old(host.refusals) && old(Clean()) ==>
                && Sole(host.rules, appliedRules.value)
                && forall q: NetRule :: q in host.rules && old(IsTracked(q.name)) ==> IsTracked(q.name)
      ensures ok ==> forall q :: q in host.rules ==> q in old(host.rules) || IsTracked(q.name)
    {
      var first := appliedRules.None?;
      var applied: map<Name, seq<Prefix>> := if first then map[] else appliedRules.value;
      var held;
      applied, held, ok, groups := SyncGroups(ips, applied, first);
      appliedRules, unapplied := Some(applied), held;
    }

    method SyncGroups(ips: seq<Prefix>, before: map<Name, seq<Prefix>>, first: bool)
      returns (applied: map<Name, seq<Prefix>>, held: set<Prefix>, ok: bool, ghost groups: nat)
      requires Tracked(host.rules, before)
      modifies host`rules, host`refusals, host.obs
      ensures host.Observed() && Tracked(host.rules, applied) && Covers(groups, ips) && (ok ==> held == {})
      ensures forall r :: IsGroupRule(r, ips, groups, groups) ==> Settled(r, applied, held)
      ensures forall n :: n in applied ==> IsWanted(n, groups)
      ensures host.refusals >= old(host.refusals) && (host.refusals == old(host.refusals) ==> ok)
      ensures host.refusals == old(host.refusals) && old(Sole(host.rules, before)) ==> Sole(host.rules, applied)
      ensures host.refusals == old(host.refusals) ==>
                forall q :: q in host.rules && q.name in before ==> q.name in applied
      ensures host.refusals == old(host.refusals) && first && groups > 1 ==>
                forall q :: q in host.rules ==> !q.name.Base?
      ensures ok ==> forall q :: q in host.rules ==> q in old(host.rules) || q.name in applied
    {
      var desired;
      desired, groups := DesiredGroupedRules(ips);
      applied, held, ok := SyncEach(desired, before);
      var want := set r | r in desired :: r.name;
      forall n ensures n in want <==> IsWanted(n, groups) { NamesWanted(desired, ips, groups, n); }
      ghost var settled, rules := applied, host.rules;
      if ok { DesiredTracked(desired, applied); }
      applied := DropOld(applied, want, first && |desired| > 2);
      SettledAfterDrop(desired, settled, applied, held);
      if Sole(rules, settled) { SoleShrinks(rules, settled, host.rules, applied); }
    }

    /** The loop of syncRules over the desired rules. */
    method SyncEach(desired: seq<NetRule>, before: map<Name, seq<Prefix>>)
      returns (applied: map<Name, seq<Prefix>>, held: set<Prefix>, ok: bool)
      requires Tracked(host.rules, before) && DistinctNames(desired)
      requires forall r :: r in desired ==> !r.name.Foreign? && r.name.dir == r.dir
      modifies host`rules, host`refusals, host.obs
      ensures host.Observed()
      ensures Tracked(host.rules, applied) && (ok ==> held == {})
      ensures forall j: nat :: j < |desired| ==> Settled(desired[j], applied, held)
      ensures host.refusals >= old(host.refusals) && (host.refusals == old(host.refusals) ==> ok)
      ensures host.refusals == old(host.refusals) && old(Sole(host.rules, before)) ==> Sole(host.rules, applied)
      ensures ok ==> before.Keys <= applied.Keys
      ensures ok ==> forall q :: q in host.rules ==>
                                   q in old(host.rules) || exists r :: r in desired && r.name == q.name
    {
      applied, held, ok := before, {}, true;
      for i := 0 to |desired|
        invariant host.Observed() && host.refusals >= old(host.refusals)
        invariant host.refusals == old(host.refusals) ==> ok
        invariant host.refusals == old(host.refusals) && old(Sole(host.rules, before)) ==> Sole(host.rules, applied)
        invariant ok ==> before.Keys <= applied.Keys
        invariant forall q :: q in host.rules ==> q in old(host.rules) || exists r :: r in desired && r.name == q.name
        invariant Tracked(host.rules, applied) && (ok ==> held == {})
        invariant forall j: nat :: j < i ==> Settled(desired[j], applied, held)
      {
        var done;
        applied, held, done := SyncOne(desired[i], applied, held);
        if !done { ok := false; }
      }
    }

    /** The tail of syncRules: groups no longer needed. A failed delete leaves the rule, untracked. */
    method DropUnwanted(before: map<Name, seq<Prefix>>, want: set<Name>) returns (applied: map<Name, seq<Prefix>>)
      requires Tracked(host.rules, before)
      modifies host`rules, host`refusals, host.obs
      ensures host.Observed()
      ensures Tracked(host.rules, applied) && applied.Keys == before.Keys * want
      ensures forall n :: n in applied ==> applied[n] == before[n]
      ensures host.refusals >= old(host.refusals) && host.rules <= old(host.rules)
      ensures host.refusals == old(host.refusals) ==>
                forall q :: q in host.rules && q.name in before ==> q.name in want
    {
      applied := before;
      var todo := applied.Keys;
      while todo != {}
        invariant host.Observed() && host.refusals >= old(host.refusals) && host.rules <= old(host.rules)
        invariant host.refusals == old(host.refusals) ==>
                    forall q :: q in host.rules && q.name in before && q.name !in todo ==> q.name in want
        invariant Tracked(host.rules, applied) && todo <= applied.Keys <= before.Keys
        invariant forall n :: n in applied ==> applied[n] == before[n] && (n in todo || n in want)
        invariant before.Keys * want <= applied.Keys
        decreases |todo|
      {
        var n :| n in todo;
        todo := todo - {n};
        if n !in want {
          var _ := host.DeleteRule(n);
          applied := applied - {n};
        }
      }
    }

    /** The base names of a single-group run. */
    method DropBase(applied: map<Name, seq<Prefix>>)
      requires Tracked(host.rules, applied) && forall n :: n in applied ==> !n.Base?
      modifies host`rules, host`refusals, host.obs
      ensures host.Observed() && Tracked(host.rules, applied)
      ensures host.refusals >= old(host.refusals) && host.rules <= old(host.rules)
      ensures forall q :: q in old(host.rules) && !q.name.Base? ==> q in host.rules
      ensures host.refusals == old(host.refusals) ==> host.rules == NoBase(old(host.rules))
    {
      var _ := host.DeleteRule(Base(In));
      var _ := host.DeleteRule(Base(Out));
      BaseNames();
    }

    /** Both. */
    method DropOld(before: map<Name, seq<Prefix>>, want: set<Name>, dropBase: bool)
      returns (applied: map<Name, seq<Prefix>>)
      requires Tracked(host.rules, before) && (dropBase ==> Base(In) !in want && Base(Out) !in want)
      modifies host`rules, host`refusals, host.obs
      ensures host.Observed()
      ensures Tracked(host.rules, applied) && applied.Keys == before.Keys * want
      ensures forall n :: n in applied ==> applied[n] == before[n]
      ensures host.refusals >= old(host.refusals) && host.rules <= old(host.rules)
      ensures host.refusals == old(host.refusals) ==>
                forall q :: q in host.rules && q.name in before ==> q.name in want
      ensures host.refusals == old(host.refusals) && dropBase ==> forall q :: q in host.rules ==> !q.name.Base?
    {
      applied := DropUnwanted(before, want);
      // At the first sync with numbered groups the base names are not tracked.
      if dropBase {
        BaseNames();
        DropBase(applied);
      }
    }

    /** isDesiredGroupName. */
    method IsDesiredGroupName(name: Name, groups: nat) returns (yes: bool)
      ensures yes <==> IsWanted(name, groups)
    {
      if groups == 1 {
        yes := name == Base(In) || name == Base(Out);
        assert yes ==> name == GroupName(name.dir, 1, 0);
        return;
      }
      for i := 1 to groups + 1
        invariant forall k: nat :: k < i - 1 ==> name != GroupName(In, groups, k) && name != GroupName(Out, groups, k)
      {
        if name == Numbered(In, i) || name == Numbered(Out, i) {
          assert name == GroupName(name.dir, groups, i - 1);
          return true;
        }
      }
      return false;
    }

    /** deleteNumberedRulesFrom: until eight numbers in a row are absent, at most a thousand. */
    method DeleteNumberedRulesFrom(start: nat, ghost groups: nat)
      requires forall i: nat, d :: i >= start ==> !IsWanted(Numbered(d, i), groups)
      modifies host`rules, host`refusals, host.obs
      ensures host.Observed()
      ensures KeepsWanted(old(host.rules), host.rules, groups)
      ensures host.refusals >= old(host.refusals) && host.rules <= old(host.rules)
      ensures host.refusals == old(host.refusals) ==> Walked(old(host.rules), host.rules, start, start + 1000)
    {
      var misses, i := 0, start;
      while misses < 8 && i < start + 1000
        invariant 0 <= misses <= 8 && start + misses <= i <= start + 1000
        invariant host.refusals == old(host.refusals) ==> Walking(old(host.rules), host.rules, start, i, misses)
        invariant host.Observed() && host.refusals >= old(host.refusals) && host.rules <= old(host.rules)
        invariant i >= start && KeepsWanted(old(host.rules), host.rules, groups)
        decreases start + 1000 - i
      {
        ghost var now := host.rules;
        var hitIn := host.DeleteRule(Numbered(In, i));
        var hitOut := host.DeleteRule(Numbered(Out, i));
        if host.refusals == old(host.refusals) {
          WalkOn(old(host.rules), now, host.rules, start, i, misses, hitIn || hitOut);
        }
        if hitIn || hitOut { misses := 0; } else { misses := misses + 1; }
        i := i + 1;
      }
    }

    /** cleanupStaleRules: no rule of a wanted group is ever deleted; when the rules can be listed and
        the deletes succeed, only wanted groups and tracked names are left. */
    method CleanupStaleRules(groups: nat) returns (ghost swept: bool, listed: bool)
      requires Valid() && appliedRules.Some? && forall n :: n in appliedRules.value ==> IsWanted(n, groups)
      modifies host`rules, host`refusals, host.obs
      ensures host.Observed()
      ensures Valid() && KeepsWanted(old(host.rules), host.rules, groups)
      ensures swept ==> forall r :: r in host.rules ==> IsWanted(r.name, groups)
      ensures host.refusals >= old(host.refusals) && host.rules <= old(host.rules)
      ensures host.refusals == old(host.refusals) ==> swept
      ensures !listed && host.refusals == old(host.refusals) + 1 ==>
                var start := if groups <= 1 then 1 else groups + 1;
                Walked(if groups == 0 then NoBase(old(host.rules)) else old(host.rules), host.rules,
                       start, start + 1000)
    {
      listed := host.Accepted();
      if !listed {
        swept := false;
        var start := if groups <= 1 then 1 else groups + 1;
        if groups == 0 { DropBase(appliedRules.value); }
        DeleteNumberedRulesFrom(start, groups);
        return;
      }
      swept := Sweep(groups);
    }

    /** The loop of cleanupStaleRules over the listed names. */
    method Sweep(groups: nat) returns (ghost swept: bool)
      requires Valid() && appliedRules.Some? && forall n :: n in appliedRules.value ==> IsWanted(n, groups)
      modifies host`rules, host`refusals, host.obs
      ensures host.Observed() && KeepsWanted(old(host.rules), host.rules, groups)
      ensures swept ==> forall r :: r in host.rules ==> IsWanted(r.name, groups)
      ensures host.refusals >= old(host.refusals) && host.rules <= old(host.rules)
      ensures host.refusals == old(host.refusals) ==> swept
    {
      swept := true;
      var names := set r | r in host.rules :: r.name;
      var todo := names;
      while todo != {}
        invariant host.Observed()
        invariant todo <= names && KeepsWanted(old(host.rules), host.rules, groups)
        invariant host.rules <= old(host.rules) && host.refusals >= old(host.refusals)
        invariant Unswept(old(host.rules), host.rules, todo)
        invariant host.refusals == old(host.refusals) ==> swept
        invariant swept ==> forall r :: r in host.rules && r.name !in todo ==> IsWanted(r.name, groups)
        decreases |todo|
      {
        var name :| name in todo;
        Present(old(host.rules), host.rules, todo, name);
        todo := todo - {name};
        var desired := IsDesiredGroupName(name, groups);
        if name !in appliedRules.value && !desired {
          var done := host.DeleteRule(name);
          if !done { swept := false; }
        }
      }
    }

    /** The list handed to syncRules: the cache, each entry once. */
    method BanList() returns (ips: seq<Prefix>)
      ensures NoDup(ips) && Elems(ips) == cache
    {
      ips := [];
      var todo := cache;
      while todo != {}
        invariant todo <= cache && NoDup(ips) && Elems(ips) == cache - todo
        decreases |todo|
      {
        var p :| p in todo;
        todo := todo - {p};
        AppendElems(ips, [p]);
        assert Elems([p]) == {p};
        ips := ips + [p];
      }
    }

    /** Flush, when there is something to write. Whatever fails, every entry reported afterwards is
        listed in an inbound and in an outbound rule; a nil result means the whole cache is. */
    method Flush() returns (ok: bool)
      requires Valid()
      modifies `dirty, `legacyCleaned, `appliedRules, `unapplied, host`rules, host`refusals, host.obs
      ensures host.Observed()
      ensures Valid() && dirty == !ok
      ensures !old(dirty) ==> ok && host.rules == old(host.rules) && unapplied == old(unapplied)
      ensures !old(dirty) ==> appliedRules == old(appliedRules) && legacyCleaned == old(legacyCleaned)
      ensures old(dirty) ==> forall p, d :: p in cache - unapplied ==> Listed(host.rules, d, p)
      ensures old(dirty) && ok ==> unapplied == {} && appliedRules.Some?
      ensures old(dirty) && ok ==> forall p, d :: p in cache ==> GroupedOnce(appliedRules.value, d, p)
      ensures host.refusals >= old(host.refusals) && (host.refusals == old(host.refusals) ==> ok)
      ensures old(dirty) && host.refusals == old(host.refusals) && old(Clean()) ==>
                && Clean() && forall q: NetRule :: q in host.rules && (old(IsTracked(q.name)) || IsTracked(q.name)) ==>
                                                     IsTracked(q.name) && Elems(q.entries) <= cache
      ensures old(dirty) && host.refusals == old(host.refusals) && old(Clean() && (Exact() || !legacyCleaned)) ==>
                Exact() && forall p, d :: Listed(host.rules, d, p) <==> p in cache
      ensures old(dirty) && ok ==> exists groups: nat :: groups <= |cache| && Grouped(groups)
    {
      if !dirty { return true; }
      dirty := false;
      var ips := BanList();
      ghost var groups;
      ok, groups := SyncRules(ips);
      ghost var synced := host.rules;
      ghost var swept := SweepOnce(ips, groups);
      forall p, d | p in cache - unapplied ensures Listed(host.rules, d, p) {
        ReportedIsListed(ips, groups, p, d, host.rules, appliedRules.value, unapplied);
      }
      if ok {
        forall p, d | p in cache ensures GroupedOnce(appliedRules.value, d, p) {
          EntryIsGroupedOnce(ips, groups, p, d, appliedRules.value);
        }
        WantedIsTracked(ips, groups, appliedRules.value);
        FewGroups(ips, groups);
        assert Grouped(groups);
        if Clean() { SoleLists(ips, groups, host.rules, appliedRules.value); }
      } else {
        dirty := true;
      }
    }

    /** The once-only sweep of the first flush. */
    method SweepOnce(ips: seq<Prefix>, ghost groups: nat) returns (ghost swept: bool)
      requires Valid() && appliedRules.Some? && Covers(groups, ips)
      requires forall n :: n in appliedRules.value ==> IsWanted(n, groups)
      modifies `legacyCleaned, host`rules, host`refusals, host.obs
      ensures host.Observed() && Valid() && legacyCleaned
      ensures host.refusals >= old(host.refusals) && host.rules <= old(host.rules)
      ensures old(legacyCleaned) ==> host.rules == old(host.rules)
      ensures swept ==> forall r :: r in host.rules ==> IsWanted(r.name, groups)
      ensures host.refusals == old(host.refusals) && !old(legacyCleaned) ==> swept
    {
      swept := false;
      if !legacyCleaned {
        legacyCleaned := true;
        var chunks := ChunkStrings(ips, MAX_IPS_PER_RULE);
        assert |chunks| > 0 ==> 0 < |chunks[|chunks| - 1]|;
        OneCover(ips, groups, |chunks|);
        var listed;
        swept, listed := CleanupStaleRules(|chunks|);
      }
    }
  }

  lemma FewGroups(ips: seq<Prefix>, groups: nat)
    requires Covers(groups, ips) && NoDup(ips)
    ensures groups <= |Elems(ips)|
  {
    if groups > 0 { assert (groups - 1) * MAX_IPS_PER_RULE < |ips|; }
    NoDupSize(ips);
  }

  lemma {:induction false} NoDupSize<T>(s: seq<T>)
    requires NoDup(s)
    ensures |Elems(s)| == |s|
  {
    if s != [] {
      var front, x := s[..|s| - 1], s[|s| - 1];
      NoDupSize(front);
      assert Elems(s) == Elems(front) + {x} && x !in front;
    }
  }

  /** A walk from the first number over the groups of a flush leaves none. */
  lemma WalkClears(before: set<NetRule>, now: set<NetRule>, groups: nat, limit: nat)
    requires Walked(before, now, 1, limit) && groups < limit
    requires forall r: NetRule :: r in before ==> r.name.Numbered? && IsWanted(r.name, groups)
    requires forall n: Name :: IsWanted(n, groups) && n.Numbered? ==> exists r :: r in before && r.name == n
    ensures now == {}
  {
    forall r: NetRule | r in now ensures false {
      assert r in before && r.name.n <= groups && groups > 1;
      if !Walking(before, now, 1, limit, 0) {
        var i: nat :| 8 <= i <= limit && Walking(before, now, 1, i, 8);
        var last := Numbered(In, i - 1);
        assert last == GroupName(In, groups, i - 2) && IsWanted(last, groups);
      }
    }
  }

  /** The number of groups of a list is determined. */
  lemma OneCover(ips: seq<Prefix>, m: nat, n: nat)
    requires Covers(m, ips) && Covers(n, ips)
    ensures m == n
  {
    if n > 0 { CutGrows(m, n - 1, MAX_IPS_PER_RULE, |ips|); }
    if m > 0 { CutGrows(n, m - 1, MAX_IPS_PER_RULE, |ips|); }
  }

  lemma {:induction false} CutGrows(i: nat, j: nat, size: nat, n: nat)
    ensures i <= j ==> Cut(i, size, n) <= Cut(j, size, n)
  {
    if i < j {
      CutGrows(i, j - 1, size, n);
      CutMonotone(j - 1, size, n);
    }
  }

  /** With nothing held back every wanted name is tracked. */
  lemma WantedIsTracked(ips: seq<Prefix>, groups: nat, applied: map<Name, seq<Prefix>>)
    requires Covers(groups, ips)
    requires forall r :: IsGroupRule(r, ips, groups, groups) ==> Settled(r, applied, {})
    ensures forall n :: IsWanted(n, groups) ==> n in applied && Elems(applied[n]) <= Elems(ips)
  {
    forall n | IsWanted(n, groups) ensures n in applied && Elems(applied[n]) <= Elems(ips) {
      var i: nat :| i < groups && (n == GroupName(In, groups, i) || n == GroupName(Out, groups, i));
      TrackedPiece(ips, groups, applied, In, i);
      TrackedPiece(ips, groups, applied, Out, i);
    }
  }

  lemma SoleLists(ips: seq<Prefix>, groups: nat, rules: set<NetRule>, applied: map<Name, seq<Prefix>>)
    requires Sole(rules, applied) && forall n :: n in applied ==> IsWanted(n, groups)
    requires forall n :: IsWanted(n, groups) ==> n in applied && Elems(applied[n]) <= Elems(ips)
    ensures forall q: NetRule :: q in rules && q.name in applied ==> Elems(q.entries) <= Elems(ips)
  {
  }

  /** The walk by number, up to i, without a refusal: what it passed is gone, the rest is as it was, and the
      last `misses` numbers had no rule. */
  ghost predicate Walking(before: set<NetRule>, now: set<NetRule>, start: nat, i: nat, misses: nat)
    requires misses <= i
  {
    && (forall r: NetRule :: r in now <==> r in before && !(r.name.Numbered? && start <= r.name.n < i))
    && (forall r: NetRule :: r in before && r.name.Numbered? ==> !(i - misses <= r.name.n < i))
  }

  lemma WalkOn(before: set<NetRule>, now: set<NetRule>, after: set<NetRule>, start: nat, i: nat, misses: nat,
               hit: bool)
    requires start + misses <= i && Walking(before, now, start, i, misses)
    requires forall r: NetRule :: r in after <==> r in now && r.name != Numbered(In, i) && r.name != Numbered(Out, i)
    requires hit <==> exists r :: r in now && (r.name == Numbered(In, i) || r.name == Numbered(Out, i))
    ensures Walking(before, after, start, i + 1, if hit then 0 else misses + 1)
  {
    forall r: NetRule
      ensures r.name.Numbered? && r.name.n == i <==> r.name == Numbered(In, i) || r.name == Numbered(Out, i)
    {
      if r.name.Numbered? { assert r.name.dir == In || r.name.dir == Out; }
    }
  }

  /** It ends at a gap of eight numbers, or at the limit. */
  ghost predicate Walked(before: set<NetRule>, now: set<NetRule>, start: nat, limit: nat) {
    Walking(before, now, start, limit, 0) || exists i: nat :: 8 <= i <= limit && Walking(before, now, start, i, 8)
  }

  ghost function NoBase(rules: set<NetRule>): set<NetRule> {
    set r | r in rules && !r.name.Base?
  }

  lemma BaseNames()
    ensures forall n: Name :: n.Base? ==> n == Base(In) || n == Base(Out)
  {
    forall n: Name | n.Base? ensures n == Base(In) || n == Base(Out) {
      match n.dir case In => case Out =>
    }
  }

  /** The names still to do have all their rules. */
  ghost predicate Unswept(before: set<NetRule>, now: set<NetRule>, todo: set<Name>) {
    forall r: NetRule :: r.name in todo ==> (r in now <==> r in before)
  }

  lemma Present(before: set<NetRule>, now: set<NetRule>, todo: set<Name>, name: Name)
    requires Unswept(before, now, todo) && name in todo && todo <= set r | r in before :: r.name
    ensures exists q :: q in now && q.name == name
  {
    var q :| q in before && q.name == name;
    assert q in now;
  }

  /** The rules of wanted names are the same before and after. */
  ghost predicate KeepsWanted(before: set<NetRule>, after: set<NetRule>, groups: nat) {
    forall r: NetRule :: IsWanted(r.name, groups) ==> (r in before <==> r in after)
  }

  /** Exactly one tracked group of a direction lists the entry, and it is within the size bound. */
  ghost predicate GroupedOnce(applied: map<Name, seq<Prefix>>, d: Dir, p: Prefix) {
    exists n :: n in applied && InGroup(applied, d, p, n) && |applied[n]| <= MAX_IPS_PER_RULE
      && forall m :: m in applied && InGroup(applied, d, p, m) ==> m == n
  }

  ghost predicate InGroup(applied: map<Name, seq<Prefix>>, d: Dir, p: Prefix, n: Name)
    requires n in applied
  {
    !n.Foreign? && n.dir == d && p in applied[n]
  }

  lemma EntryIsGroupedOnce(ips: seq<Prefix>, groups: nat, p: Prefix, d: Dir, applied: map<Name, seq<Prefix>>)
    requires Covers(groups, ips) && NoDup(ips) && p in ips
    requires forall n :: n in applied ==> IsWanted(n, groups)
    requires forall r :: IsGroupRule(r, ips, groups, groups) ==> Settled(r, applied, {})
    ensures GroupedOnce(applied, d, p)
  {
    var i := OneGroup(ips, groups, p);
    var r := GroupRule(ips, groups, d, i);
    TrackedPiece(ips, groups, applied, d, i);
    CutMonotone(i, MAX_IPS_PER_RULE, |ips|);
    assert InGroup(applied, d, p, r.name);
    forall m | m in applied && InGroup(applied, d, p, m) ensures m == r.name {
      var k: nat :| k < groups && (m == GroupName(In, groups, k) || m == GroupName(Out, groups, k));
      TrackedPiece(ips, groups, applied, d, k);
    }
  }

  lemma PieceNotEmpty(ips: seq<Prefix>, groups: nat, i: nat)
    requires Covers(groups, ips) && i < groups
    ensures Piece(ips, MAX_IPS_PER_RULE, i) != []
  {
    CutMonotone(i, MAX_IPS_PER_RULE, |ips|);
  }

  /** With nothing held back every group is tracked with its own piece. */
  lemma TrackedPiece(ips: seq<Prefix>, groups: nat, applied: map<Name, seq<Prefix>>, d: Dir, i: nat)
    requires Covers(groups, ips) && i < groups
    requires forall r :: IsGroupRule(r, ips, groups, groups) ==> Settled(r, applied, {})
    ensures GroupName(d, groups, i) in applied && applied[GroupName(d, groups, i)] == Piece(ips, MAX_IPS_PER_RULE, i)
  {
    var r := GroupRule(ips, groups, d, i);
    assert IsGroupRule(r, ips, groups, groups);
    PieceNotEmpty(ips, groups, i);
    NoElems(r.entries);
  }

  lemma ReportedIsListed(ips: seq<Prefix>, groups: nat, p: Prefix, d: Dir,
                         rules: set<NetRule>, applied: map<Name, seq<Prefix>>, unapplied: set<Prefix>)
    requires Covers(groups, ips) && NoDup(ips) && p in ips && p !in unapplied
    requires Tracked(rules, applied)
    requires forall r :: IsGroupRule(r, ips, groups, groups) ==> Settled(r, applied, unapplied)
    ensures Listed(rules, d, p)
  {
    var i := OneGroup(ips, groups, p);
    var r := GroupRule(ips, groups, d, i);
    assert IsGroupRule(r, ips, groups, groups) && p in Elems(r.entries);
    assert NetRule(r.name, r.name.dir, applied[r.name]) in rules;
  }

  lemma NamesWanted(desired: seq<NetRule>, ips: seq<Prefix>, groups: nat, n: Name)
    requires forall r :: r in desired <==> IsGroupRule(r, ips, groups, groups)
    ensures n in (set r | r in desired :: r.name) <==> IsWanted(n, groups)
  {
    if IsWanted(n, groups) {
      var i: nat :| i < groups && (n == GroupName(In, groups, i) || n == GroupName(Out, groups, i));
      assert GroupRule(ips, groups, In, i) in desired && GroupRule(ips, groups, Out, i) in desired;
    }
  }
}
