/** WFP filters: the condition written for a ban entry, and what a filter read back stands for. */
module WfpFilters {
  import opened Numbers
  import opened Prefixes
  import opened IntervalSet

  datatype MatchOp = Equal | InRange
  datatype MatchValue =
    | PrefixValue(prefix: Prefix)
    | AddrValue(family: Family, addr: nat)
    | RangeValue(family: Family, first: nat, last: nat)
    | OtherValue
  datatype Match = Match(remoteAddress: bool, op: MatchOp, value: MatchValue)

  /** ruleID is an injective name of the entry; other ids are anything else found in the engine. */
  datatype RuleId = KeyId(entry: Prefix) | OtherId(guid: nat)

  /** A filter of the engine: its id, whether it is under our provider or sublayer, its conditions. */
  datatype Rule = Rule(id: RuleId, ours: bool, conditions: seq<Match>)

  function LastAddr(p: Prefix): nat {
    p.addr + Pow2(HostBits(p)) - 1
  }

  /** wfpRemoteMatch: a host as an address, a network as the range of its first and last address. */
  function WfpRemoteMatch(p: Prefix): Match {
    if IsHost(p) then Match(true, Equal, PrefixValue(p))
    else Match(true, InRange, RangeValue(p.family, p.addr, LastAddr(p)))
  }

  predicate SpansRange(p: Prefix, f: Family, first: nat, last: nat) {
    p.family == f && p.addr == first && LastAddr(p) == last
  }

  /** netipx.IPRange.Prefix: the prefix spanning exactly a range, if there is one, tried from the
      broadest length on. */
  function RangePrefix(f: Family, first: nat, last: nat, bits: nat := 0): Option<Prefix>
    requires bits <= Width(f)
    decreases Width(f) - bits
  {
    var p := RawPrefix.Prefix(f, bits, first);
    if p.Valid() && LastAddr(p) == last then Some(p)
    else if bits == Width(f) then None
    else RangePrefix(f, first, last, bits + 1)
  }

  lemma {:induction false} Pow2Increases(j: nat, k: nat)
    requires j < k
    ensures Pow2(j) < Pow2(k)
  {
    if j + 1 < k { Pow2Increases(j, k - 1); }
  }

  /** A range is spanned by at most one prefix. */
  lemma SpanIsUnique(p: Prefix, q: Prefix)
    requires p.family == q.family && p.addr == q.addr && LastAddr(p) == LastAddr(q)
    ensures p == q
  {
    if p.bits < q.bits { Pow2Increases(HostBits(q), HostBits(p)); }
    if q.bits < p.bits { Pow2Increases(HostBits(p), HostBits(q)); }
  }

  lemma {:induction false} RangePrefixFinds(p: Prefix, bits: nat)
    requires bits <= p.bits
    ensures RangePrefix(p.family, p.addr, LastAddr(p), bits) == Some(p)
    decreases Width(p.family) - bits
  {
    var q := RawPrefix.Prefix(p.family, bits, p.addr);
    if q.Valid() && LastAddr(q) == LastAddr(p) {
      SpanIsUnique(p, q);
    } else {
      RangePrefixFinds(p, bits + 1);
    }
  }

  lemma {:induction false} RangePrefixSpans(f: Family, first: nat, last: nat, bits: nat)
    requires bits <= Width(f) && RangePrefix(f, first, last, bits).Some?
    ensures SpansRange(RangePrefix(f, first, last, bits).value, f, first, last)
    decreases Width(f) - bits
  {
    var q := RawPrefix.Prefix(f, bits, first);
    if !(q.Valid() && LastAddr(q) == last) { RangePrefixSpans(f, first, last, bits + 1); }
  }

  /** wfpMatchPrefix: the entry a condition enforces, and whether it is in the form written today. */
  function WfpMatchPrefix(m: Match): Option<(Prefix, bool)> {
    if !m.remoteAddress then None
    else match m.value
      case PrefixValue(p) => if m.op.Equal? then Some((p, IsHost(p))) else None
      case AddrValue(f, a) =>
        if !m.op.Equal? || a >= Pow2(Width(f)) then None
        else if Is4In6(f, a) then Some((Masked(V4, Unmap(a), 32), true))
        else Some((Masked(f, a, Width(f)), true))
      case RangeValue(f, first, last) =>
        if !m.op.InRange? then None
        else (match RangePrefix(f, first, last)
          case None => None
          case Some(p) => Some((p, !IsHost(p))))
      case OtherValue => None
  }

  /** The addresses a condition matches. */
  ghost predicate Matches(m: Match, f: Family, a: nat) {
    && m.remoteAddress
    && match m.value
       case PrefixValue(p) => Has(p, f, a)
       case AddrValue(g, b) => if Is4In6(g, b) then f.V4? && a == Unmap(b) else f == g && a == b
       case RangeValue(g, first, last) => f == g && first <= a <= last
       case OtherValue => false
  }

  /** What is written for an entry is read back as that entry, in the current form. */
  lemma MatchRoundTrip(p: Prefix)
    ensures WfpMatchPrefix(WfpRemoteMatch(p)) == Some((p, true))
  {
    if !IsHost(p) { RangePrefixFinds(p, 0); }
  }

  /** A condition read back as an entry matches exactly the addresses of the entry. */
  lemma MatchIsExact(m: Match, f: Family, a: nat)
    requires WfpMatchPrefix(m).Some?
    ensures Matches(m, f, a) <==> Has(WfpMatchPrefix(m).value.0, f, a)
  {
    var p := WfpMatchPrefix(m).value.0;
    if m.value.RangeValue? { RangePrefixSpans(m.value.family, m.value.first, m.value.last, 0); }
    PrefixIsInterval(p, a);
  }

  /** The conditions of a filter are the current form of an entry. */
  ghost predicate Enforces(conditions: seq<Match>, k: Prefix) {
    |conditions| == 1 && WfpMatchPrefix(conditions[0]) == Some((k, true))
  }

  /** The entry is enforced: its own filter is there, in the current form. */
  ghost predicate Enforced(filters: map<RuleId, seq<Match>>, k: Prefix) {
    KeyId(k) in filters && Enforces(filters[KeyId(k)], k)
  }

  /** The entries of a set that are enforced. */
  ghost function EnforcedIn(filters: map<RuleId, seq<Match>>, want: set<Prefix>): set<Prefix> {
    set k | k in want && Enforced(filters, k)
  }

  /** The bookkeeping agrees with the engine: every entry of `cur` has the filter named by its id, in
      the current form unless that id is stale; every filter of ours is in `cur` or stale. */
  ghost predicate Mirror(filters: map<RuleId, seq<Match>>, cur: map<Prefix, RuleId>, stale: set<RuleId>) {
    && (forall k :: k in cur ==> cur[k] == KeyId(k) && KeyId(k) in filters)
    && (forall id :: id in filters ==> id in stale || (id.KeyId? && id.entry in cur))
    && (forall k :: k in cur && KeyId(k) !in stale ==> Enforces(filters[KeyId(k)], k))
  }

  /** No entry counted as enforced waits to be deleted as stale. */
  ghost predicate NoClash(cur: map<Prefix, RuleId>, stale: set<RuleId>) {
    forall k :: k in cur ==> KeyId(k) !in stale
  }

  /** With nothing stale the engine holds the filters of the entries and no other filter of ours. */
  ghost predicate Exactly(filters: map<RuleId, seq<Match>>, entries: set<Prefix>) {
    && (forall id :: id in filters <==> id.KeyId? && id.entry in entries)
    && (forall k :: k in entries ==> Enforces(filters[KeyId(k)], k))
  }

  /** An enforced entry blocks every address it holds. */
  lemma EnforcedBlocks(filters: map<RuleId, seq<Match>>, k: Prefix, a: nat)
    requires Enforced(filters, k) && Has(k, k.family, a)
    ensures Matches(filters[KeyId(k)][0], k.family, a)
  {
    MatchIsExact(filters[KeyId(k)][0], k.family, a);
  }

  /** What a mirrored engine enforces is what the entries ask for, address by address. */
  lemma MirrorBlocks(filters: map<RuleId, seq<Match>>, entries: set<Prefix>, f: Family, a: nat)
    requires Exactly(filters, entries)
    ensures Blocks(entries, f, a)
            <==> exists id :: id in filters && |filters[id]| == 1 && Matches(filters[id][0], f, a)
  {
    if Blocks(entries, f, a) {
      var p :| p in entries && Has(p, f, a);
      MatchIsExact(filters[KeyId(p)][0], f, a);
    }
    if id :| id in filters && |filters[id]| == 1 && Matches(filters[id][0], f, a) {
      MatchIsExact(filters[id][0], f, a);
    }
  }

  lemma MirrorIsExact(filters: map<RuleId, seq<Match>>, cur: map<Prefix, RuleId>)
    requires Mirror(filters, cur, {})
    ensures Exactly(filters, cur.Keys)
  {
  }

  // ----- Classification -----

  /** A rule that is an entry's own filter in the current form. */
  ghost predicate Current(r: Rule) {
    && |r.conditions| == 1 && WfpMatchPrefix(r.conditions[0]).Some?
    && WfpMatchPrefix(r.conditions[0]).value.1
    && r.id == KeyId(WfpMatchPrefix(r.conditions[0]).value.0)
  }

  ghost predicate DistinctIds(rules: seq<Rule>) {
    forall i, j :: 0 <= i < j < |rules| ==> rules[i].id != rules[j].id
  }

  /** The engine content a rule list shows, restricted to our filters. */
  ghost function FiltersOf(rules: seq<Rule>): map<RuleId, seq<Match>> {
    if rules == [] then map[]
    else
      var r := rules[|rules| - 1];
      FiltersOf(rules[..|rules| - 1]) + if r.ours then map[r.id := r.conditions] else map[]
  }

  lemma FiltersOfAppend(rules: seq<Rule>, r: Rule)
    ensures FiltersOf(rules + [r]) == FiltersOf(rules) + if r.ours then map[r.id := r.conditions] else map[]
  {
    assert (rules + [r])[..|rules|] == rules;
  }

  lemma {:induction false} FiltersOfIds(rules: seq<Rule>, id: RuleId)
    ensures id in FiltersOf(rules) <==> exists i :: 0 <= i < |rules| && rules[i].ours && rules[i].id == id
  {
    if rules != [] { FiltersOfIds(rules[..|rules| - 1], id); }
  }

  /** No stale id is that of an enforced entry. */
  ghost predicate Outdated(filters: map<RuleId, seq<Match>>, stale: set<RuleId>) {
    forall k :: KeyId(k) in stale ==> !Enforced(filters, k)
  }

  /** The loop state of the classification. */
  ghost predicate Classified(rules: seq<Rule>, cur: map<Prefix, RuleId>, stale: seq<RuleId>) {
    && Mirror(FiltersOf(rules), cur, Elems(stale)) && NoClash(cur, Elems(stale))
    && NoDup(stale) && Elems(stale) <= FiltersOf(rules).Keys
    && StaleOnes(rules, stale)
  }

  /** A rule of ours is stale exactly when it is not an entry's own filter in the current form. */
  ghost predicate StaleOnes(rules: seq<Rule>, stale: seq<RuleId>) {
    forall i :: 0 <= i < |rules| && rules[i].ours ==> (rules[i].id in stale <==> !Current(rules[i]))
  }

  lemma StaleAppend(rules: seq<Rule>, r: Rule, stale: seq<RuleId>)
    requires StaleOnes(rules, stale) && DistinctIds(rules + [r]) && r.ours && !Current(r)
    ensures StaleOnes(rules + [r], stale + [r.id])
  {
    FreshRule(rules, r);
  }

  lemma StaleStays(rules: seq<Rule>, r: Rule, stale: seq<RuleId>)
    requires StaleOnes(rules, stale) && DistinctIds(rules + [r])
    requires r.ours ==> Current(r) && r.id !in Elems(stale)
    ensures StaleOnes(rules + [r], stale)
  {
  }

  lemma NoDupAppend<T(!new)>(s: seq<T>, x: T)
    requires NoDup(s) && x !in Elems(s)
    ensures NoDup(s + [x])
  {
  }

  lemma ForeignRule(rules: seq<Rule>, r: Rule)
    requires !r.ours
    ensures FiltersOf(rules + [r]) == FiltersOf(rules)
  {
    FiltersOfAppend(rules, r);
  }

  lemma OwnRule(rules: seq<Rule>, r: Rule)
    requires r.ours
    ensures FiltersOf(rules + [r]) == FiltersOf(rules)[r.id := r.conditions]
  {
    FiltersOfAppend(rules, r);
  }

  lemma {:induction false} FilterOfRule(rules: seq<Rule>, i: nat)
    requires i < |rules| && DistinctIds(rules) && rules[i].ours
    ensures rules[i].id in FiltersOf(rules) && FiltersOf(rules)[rules[i].id] == rules[i].conditions
  {
    if i < |rules| - 1 { FilterOfRule(rules[..|rules| - 1], i); }
  }

  lemma StaleIsOutdated(rules: seq<Rule>, cur: map<Prefix, RuleId>, stale: seq<RuleId>)
    requires Classified(rules, cur, stale) && DistinctIds(rules)
    ensures Outdated(FiltersOf(rules), Elems(stale))
  {
    forall k | KeyId(k) in Elems(stale) ensures !Enforced(FiltersOf(rules), k) {
      FiltersOfIds(rules, KeyId(k));
      var i :| 0 <= i < |rules| && rules[i].ours && rules[i].id == KeyId(k);
      FilterOfRule(rules, i);
    }
  }

  lemma MirrorWithStale(filters: map<RuleId, seq<Match>>, cur: map<Prefix, RuleId>, stale: set<RuleId>,
                        id: RuleId, conditions: seq<Match>)
    requires Mirror(filters, cur, stale) && NoClash(cur, stale) && id !in filters
    ensures Mirror(filters[id := conditions], cur, stale + {id}) && NoClash(cur, stale + {id})
  {
  }

  lemma MirrorWithEntry(filters: map<RuleId, seq<Match>>, cur: map<Prefix, RuleId>, stale: set<RuleId>,
                        k: Prefix, conditions: seq<Match>)
    requires Mirror(filters, cur, stale) && Enforces(conditions, k)
    requires KeyId(k) !in filters
    ensures k !in cur && Mirror(filters[KeyId(k) := conditions], cur[k := KeyId(k)], stale)
  {
  }

  lemma FreshRule(rules: seq<Rule>, r: Rule)
    requires DistinctIds(rules + [r])
    ensures r.id !in FiltersOf(rules)
    ensures forall i :: 0 <= i < |rules| ==> rules[i].id != r.id && (rules + [r])[i] == rules[i]
  {
    forall i | 0 <= i < |rules| ensures rules[i].id != r.id && (rules + [r])[i] == rules[i] {
      assert (rules + [r])[i].id != (rules + [r])[|rules|].id;
    }
    FiltersOfIds(rules, r.id);
  }

  lemma ClassifyStale(rules: seq<Rule>, r: Rule, cur: map<Prefix, RuleId>, stale: seq<RuleId>)
    requires Classified(rules, cur, stale) && DistinctIds(rules + [r]) && r.ours && !Current(r)
    ensures Classified(rules + [r], cur, stale + [r.id])
  {
    FreshRule(rules, r);
    OwnRule(rules, r);
    AppendElems(stale, [r.id]);
    assert Elems([r.id]) == {r.id};
    MirrorWithStale(FiltersOf(rules), cur, Elems(stale), r.id, r.conditions);
    StaleAppend(rules, r, stale);
    NoDupAppend(stale, r.id);
  }

  lemma ClassifyCurrent(rules: seq<Rule>, r: Rule, cur: map<Prefix, RuleId>, stale: seq<RuleId>)
    requires Classified(rules, cur, stale) && DistinctIds(rules + [r]) && r.ours && Current(r)
    ensures r.id.entry !in cur && Classified(rules + [r], cur[r.id.entry := r.id], stale)
  {
    FreshRule(rules, r);
    OwnRule(rules, r);
    MirrorWithEntry(FiltersOf(rules), cur, Elems(stale), r.id.entry, r.conditions);
    StaleStays(rules, r, stale);
  }

  lemma ClassifyForeign(rules: seq<Rule>, r: Rule, cur: map<Prefix, RuleId>, stale: seq<RuleId>)
    requires Classified(rules, cur, stale) && DistinctIds(rules + [r]) && !r.ours
    ensures Classified(rules + [r], cur, stale)
  {
    ForeignRule(rules, r);
    StaleStays(rules, r, stale);
  }

  lemma ClassifyStep(rules: seq<Rule>, r: Rule, cur: map<Prefix, RuleId>, stale: seq<RuleId>)
    requires Classified(rules, cur, stale) && DistinctIds(rules + [r])
    ensures !r.ours ==> Classified(rules + [r], cur, stale)
    ensures r.ours && !Current(r) ==> Classified(rules + [r], cur, stale + [r.id])
    ensures r.ours && Current(r) ==>
              r.id.entry !in cur && Classified(rules + [r], cur[r.id.entry := r.id], stale)
  {
    if !r.ours {
      ClassifyForeign(rules, r, cur, stale);
    } else if Current(r) {
      ClassifyCurrent(rules, r, cur, stale);
    } else {
      ClassifyStale(rules, r, cur, stale);
    }
  }

  /** classifyWFPRules: with the distinct ids an engine gives, our filters split into the enforced
      entries and the stale ids, a rule being stale exactly when it is not an entry's own filter in
      the current form. */
  method ClassifyWFPRules(rules: seq<Rule>) returns (cur: map<Prefix, RuleId>, stale: seq<RuleId>)
    requires DistinctIds(rules)
    ensures Classified(rules, cur, stale)
  {
    cur, stale := map[], [];
    for i := 0 to |rules|
      invariant Classified(rules[..i], cur, stale)
    {
      var r := rules[i];
      assert rules[..i + 1] == rules[..i] + [r];
      ClassifyStep(rules[..i], r, cur, stale);
      if r.ours {
        var m := if |r.conditions| == 1 then WfpMatchPrefix(r.conditions[0]) else None;
        if m.None? || !m.value.1 || r.id != KeyId(m.value.0) || m.value.0 in cur {
          stale := stale + [r.id];
        } else {
          cur := cur[m.value.0 := r.id];
        }
      }
    }
    assert rules[..|rules|] == rules;
  }
}
