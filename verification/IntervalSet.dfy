/** The planner for a kernel set that refuses overlapping elements.

    Requested entries are kept in two parts: `present`, the elements of the kernel set, and `covered`,
    the entries hidden under a broader present network. The planner turns a delta into kernel deletes
    and adds. What it computes is stated without it: the requested entries follow plain set algebra
    and the kernel holds their containment-maximal elements. */
module IntervalSet {
  import opened Prefixes

  // ----- Specification -----

  /** No element lies inside another one: what the kernel accepts. */
  predicate Antichain(s: set<Prefix>) {
    forall p, q :: p in s && q in s ==> !StrictlyCovers(p, q)
  }

  ghost predicate CoveredBy(p: Prefix, s: set<Prefix>) {
    exists n :: n in s && StrictlyCovers(n, p)
  }

  /** The entries of s that no other entry of s contains. */
  ghost function Maximal(s: set<Prefix>): set<Prefix> {
    set p | p in s && !CoveredBy(p, s)
  }

  /** An address is dropped when some element holds it. */
  ghost predicate Blocks(s: set<Prefix>, f: Family, a: nat) {
    exists p :: p in s && Has(p, f, a)
  }

  /** The prefixes a token list names. */
  ghost function Canonical(ts: seq<Token>): set<Prefix> {
    set t | t in ts && CanonicalBanEntry(t).Some? :: CanonicalBanEntry(t).value
  }

  /** How many tokens name p. */
  ghost function Count(p: Prefix, ts: seq<Token>): nat {
    if ts == [] then 0
    else Count(p, ts[..|ts| - 1]) + if CanonicalBanEntry(ts[|ts| - 1]) == Some(p) then 1 else 0
  }

  /** The entries a removal list lifts. An entry found in both parts needs two removals: the first
      one only takes it out of `covered`. */
  ghost function Lifted(present: set<Prefix>, covered: set<Prefix>, dels: seq<Token>): set<Prefix> {
    set p | p in present + covered && Count(p, dels) >= if p in present * covered then 2 else 1
  }

  /** The entries requested after a delta, as set algebra: removals first, additions win. */
  ghost function Requested(present: set<Prefix>, covered: set<Prefix>, adds: seq<Token>, dels: seq<Token>)
    : set<Prefix>
  {
    (present + covered - Lifted(present, covered, dels)) + Canonical(adds)
  }

  predicate NoDup<T(==)>(s: seq<T>) {
    forall i, j :: 0 <= i < j < |s| ==> s[i] != s[j]
  }

  function Elems<T(==)>(s: seq<T>): set<T> {
    set x | x in s
  }

  ghost predicate Hidden(covered: set<Prefix>, present: set<Prefix>) {
    forall c :: c in covered ==> CoveredBy(c, present)
  }

  /** The entries reported as banned: present, or hidden under a present network. */
  ghost function Reported(present: set<Prefix>, covered: set<Prefix>): set<Prefix> {
    present + set c | c in covered && CoveredBy(c, present)
  }

  /** The state every plan leaves: an overlap-free kernel and covered entries strictly inside it. */
  ghost predicate Clean(present: set<Prefix>, covered: set<Prefix>) {
    Antichain(present) && Hidden(covered, present)
  }

  /** Single IPv4 addresses. */
  ghost predicate Hosts4(s: set<Prefix>) {
    forall p :: p in s ==> p.family.V4? && IsHost(p)
  }

  // ----- Laws of maximal elements -----

  lemma CountIsMembership(p: Prefix, ts: seq<Token>)
    ensures Count(p, ts) > 0 <==> p in Canonical(ts)
  {
    if ts != [] {
      var front := ts[..|ts| - 1];
      CountIsMembership(p, front);
      assert ts == front + [ts[|ts| - 1]];
      assert Canonical(ts) == Canonical(front) + Canonical([ts[|ts| - 1]]);
    }
  }

  lemma CanonicalAppend(ts: seq<Token>, t: Token)
    ensures Canonical(ts + [t])
              == Canonical(ts) + match CanonicalBanEntry(t) { case None => {} case Some(p) => {p} }
  {
    forall p: Prefix | p in Canonical(ts) || CanonicalBanEntry(t) == Some(p) ensures p in Canonical(ts + [t]) {
      if CanonicalBanEntry(t) == Some(p) { assert t in ts + [t]; }
      else { var u :| u in ts && CanonicalBanEntry(u) == Some(p); assert u in ts + [t]; }
    }
  }

  /** Every entry lies inside a maximal one. */
  lemma {:induction false} MaximalAbove(s: set<Prefix>, p: Prefix) returns (m: Prefix)
    requires p in s
    ensures m in Maximal(s) && Contains(m, p)
    decreases p.bits
  {
    if CoveredBy(p, s) {
      var n :| n in s && StrictlyCovers(n, p);
      StrictCoverIsBroader(n, p);
      m := MaximalAbove(s, n);
      ContainsTransitive(m, n, p);
    } else {
      m := p;
    }
  }

  lemma CleanIsUncovered(present: set<Prefix>, covered: set<Prefix>, p: Prefix)
    requires Clean(present, covered) && p in present
    ensures !CoveredBy(p, present + covered) && p !in covered
  {
    if CoveredBy(p, present + covered) {
      var n :| n in present + covered && StrictlyCovers(n, p);
      if n in covered {
        var q :| q in present && StrictlyCovers(q, n);
        StrictCoverIsBroader(q, n);
        StrictCoverIsBroader(n, p);
        ContainsTransitive(q, n, p);
      }
    }
  }

  /** In a clean state the kernel holds exactly the maximal requested entries. */
  lemma CleanIsCanonical(present: set<Prefix>, covered: set<Prefix>)
    requires Clean(present, covered)
    ensures present == Maximal(present + covered)
    ensures covered == (present + covered) - Maximal(present + covered)
    ensures present !! covered
  {
    var all := present + covered;
    forall c | c in covered ensures CoveredBy(c, all) {
      var n :| n in present && StrictlyCovers(n, c);
    }
    forall p | p in present ensures !CoveredBy(p, all) && p !in covered {
      CleanIsUncovered(present, covered, p);
    }
  }

  /** Two histories that reach the same requested entries leave the same kernel and the same covered
      entries. */
  lemma HistoryIndependence(p1: set<Prefix>, c1: set<Prefix>, p2: set<Prefix>, c2: set<Prefix>)
    requires Clean(p1, c1) && Clean(p2, c2)
    ensures p1 + c1 == p2 + c2 <==> p1 == p2 && c1 == c2
  {
    CleanIsCanonical(p1, c1);
    CleanIsCanonical(p2, c2);
  }

  /** Blocking the maximal entries blocks exactly what all of them ask for. */
  lemma MaximalBlocksAll(s: set<Prefix>, f: Family, a: nat)
    ensures Blocks(s, f, a) <==> Blocks(Maximal(s), f, a)
  {
    if Blocks(s, f, a) {
      var p :| p in s && Has(p, f, a);
      var m := MaximalAbove(s, p);
      ContainsIsInclusion(m, p, f, a);
    }
  }

  /** An antichain is pairwise disjoint: the kernel never sees two elements sharing an address. */
  lemma AntichainIsDisjoint(s: set<Prefix>, p: Prefix, q: Prefix)
    requires Antichain(s) && p in s && q in s && p != q
    ensures !Overlap(p, q)
  {
    Laminar(p, q);
  }

  lemma MaximalIsAntichain(s: set<Prefix>)
    ensures Antichain(Maximal(s))
  {
  }

  /** When the two parts are disjoint, a delta is exactly (S \ dels) + adds. In general it is so if
      and only if every entry held in both parts and removed exactly once is also added back. */
  lemma SetAlgebra(present: set<Prefix>, covered: set<Prefix>, adds: seq<Token>, dels: seq<Token>)
    ensures Requested(present, covered, adds, dels)
              == (present + covered - Canonical(dels)) + Canonical(adds)
            <==> forall p :: p in present * covered && Count(p, dels) == 1 ==> p in Canonical(adds)
  {
    var lhs := Requested(present, covered, adds, dels);
    var rhs := (present + covered - Canonical(dels)) + Canonical(adds);
    forall p ensures Count(p, dels) > 0 <==> p in Canonical(dels) {
      CountIsMembership(p, dels);
    }
    forall p | p in present * covered && Count(p, dels) == 1 && p !in Canonical(adds)
      ensures p in lhs && p !in rhs
    {
    }
  }

  /** Whatever `covered` holds, everything reported is fully blocked by the kernel. */
  lemma ReportedIsBlocked(present: set<Prefix>, covered: set<Prefix>, p: Prefix, f: Family, a: nat)
    requires p in Reported(present, covered) && Has(p, f, a)
    ensures Blocks(present, f, a)
  {
    if p !in present {
      var n :| n in present && StrictlyCovers(n, p);
      ContainsIsInclusion(n, p, f, a);
    }
  }

  /** One round of the server's delta (missing entries added, extra ones removed), from any
      overlap-free kernel and any covered entries: the round ends on the desired set if and only if
      every entry the report could not show apart (in both parts, or covered by nothing) is desired. */
  lemma OneRound(present: set<Prefix>, covered: set<Prefix>, desired: set<Prefix>,
                 adds: seq<Token>, dels: seq<Token>)
    requires Canonical(adds) == desired - Reported(present, covered)
    requires Canonical(dels) == Reported(present, covered) - desired
    requires forall p :: Count(p, dels) <= 1
    ensures Requested(present, covered, adds, dels) == desired
            <==> present * covered + (covered - Reported(present, covered)) <= desired
  {
    forall p ensures Count(p, dels) > 0 <==> p in Canonical(dels) { CountIsMembership(p, dels); }
    var all := Requested(present, covered, adds, dels);
    forall p | p in present * covered + (covered - Reported(present, covered)) && p !in desired
      ensures p in all
    {
    }
  }

  /** From a clean state one round suffices, and the kernel then blocks exactly the desired addresses. */
  lemma CleanRound(present: set<Prefix>, covered: set<Prefix>, desired: set<Prefix>,
                   adds: seq<Token>, dels: seq<Token>, f: Family, a: nat)
    requires Clean(present, covered)
    requires Canonical(adds) == desired - Reported(present, covered)
    requires Canonical(dels) == Reported(present, covered) - desired
    ensures var all := Requested(present, covered, adds, dels);
            all == desired && (Blocks(Maximal(all), f, a) <==> Blocks(desired, f, a))
            && Reported(Maximal(all), all - Maximal(all)) == desired
  {
    CleanIsCanonical(present, covered);
    SetAlgebra(present, covered, adds, dels);
    assert present + covered == Reported(present, covered);
    SplitIsClean(desired);
    MaximalBlocksAll(desired, f, a);
  }

  /** The canonical split of any set is a clean state that reports the whole set. */
  lemma SplitIsClean(all: set<Prefix>)
    ensures Clean(Maximal(all), all - Maximal(all))
    ensures Reported(Maximal(all), all - Maximal(all)) == all
  {
    forall c | c in all - Maximal(all) ensures CoveredBy(c, Maximal(all)) {
      var m := MaximalAbove(all, c);
    }
  }

  // ----- The planner -----

  lemma AppendElems<T>(s: seq<T>, t: seq<T>)
    ensures Elems(s + t) == Elems(s) + Elems(t)
    ensures NoDup(s) && NoDup(t) && Elems(s) !! Elems(t) ==> NoDup(s + t)
  {
    if NoDup(s) && NoDup(t) && Elems(s) !! Elems(t) {
      forall i, j | 0 <= i < j < |s + t| ensures (s + t)[i] != (s + t)[j] {
        if i < |s| <= j {
          assert (s + t)[i] in Elems(s) && (s + t)[j] in Elems(t);
        }
      }
    }
  }

  lemma NoElems<T>(s: seq<T>)
    ensures Elems(s) == {} <==> s == []
  {
    assert s != [] ==> s[0] in Elems(s);
  }

  /** A broadest entry of a non-empty set. */
  method Broadest(s: set<Prefix>) returns (k: Prefix)
    requires s != {}
    ensures k in s && forall p :: p in s ==> k.bits <= p.bits
  {
    k :| k in s;
    var todo := s - {k};
    while todo != {}
      invariant k in s && todo <= s
      invariant forall p :: p in s - todo ==> k.bits <= p.bits
      decreases |todo|
    {
      var p :| p in todo;
      if p.bits < k.bits { k := p; }
      todo := todo - {p};
    }
  }

  /** The keys in the order the plan visits them: broadest first (ties in any order). */
  method BroadestFirst(want: set<Prefix>) returns (keys: seq<Prefix>)
    ensures Elems(keys) == want && NoDup(keys)
    ensures forall i, j :: 0 <= i < j < |keys| ==> keys[i].bits <= keys[j].bits
  {
    keys := [];
    var rest := want;
    while rest != {}
      invariant rest <= want && Elems(keys) == want - rest && NoDup(keys)
      invariant forall i, j :: 0 <= i < j < |keys| ==> keys[i].bits <= keys[j].bits
      invariant forall i, p :: 0 <= i < |keys| && p in rest ==> keys[i].bits <= p.bits
      decreases |rest|
    {
      var k := Broadest(rest);
      AppendElems(keys, [k]);
      keys := keys + [k];
      rest := rest - {k};
    }
  }

  /** prefixCoveredBy over the non-host elements of a set. */
  method PrefixCoveredBy(p: Prefix, nets: set<Prefix>) returns (found: bool)
    ensures found <==> CoveredBy(p, nets)
  {
    found := false;
    var todo := nets;
    while todo != {} && !found
      invariant todo <= nets
      invariant found ==> CoveredBy(p, nets)
      invariant !found ==> forall n :: n in nets - todo ==> !StrictlyCovers(n, p)
      decreases |todo|
    {
      var n :| n in todo;
      todo := todo - {n};
      if !(n == p || n.bits > p.bits || n.family != p.family) && Has(n, p.family, p.addr) {
        found := true;
      }
    }
  }

  ghost function NonHosts(s: set<Prefix>): set<Prefix> {
    set p | p in s && !IsHost(p)
  }

  lemma OnlyNetworksCover(p: Prefix, s: set<Prefix>)
    ensures CoveredBy(p, s) <==> CoveredBy(p, NonHosts(s))
  {
    forall n | n in s && StrictlyCovers(n, p) ensures n in NonHosts(s) {
      StrictCoverIsBroader(n, p);
    }
  }

  ghost function LeftCovered(covered: set<Prefix>, dels: seq<Token>): set<Prefix> {
    set p | p in covered && Count(p, dels) == 0
  }

  lemma RemoveStep(present: set<Prefix>, covered: set<Prefix>, dels: seq<Token>, d: Token)
    ensures var e := CanonicalBanEntry(d);
            var pres, cov := present - Lifted(present, covered, dels), LeftCovered(covered, dels);
            var pres', cov' := present - Lifted(present, covered, dels + [d]), LeftCovered(covered, dels + [d]);
            if e.None? then pres' == pres && cov' == cov
            else if e.value in cov then pres' == pres && cov' == cov - {e.value}
            else pres' == pres - {e.value} && cov' == cov
  {
    assert (dels + [d])[..|dels|] == dels;
    forall p ensures Count(p, dels + [d]) == Count(p, dels) + if CanonicalBanEntry(d) == Some(p) then 1 else 0 {
    }
  }

  /** Step 1 of the plan: what is left of both parts, and the elements to delete. */
  method Remove(present: set<Prefix>, covered: set<Prefix>, dels: seq<Token>)
    returns (pres: set<Prefix>, cov: set<Prefix>, toDel: seq<Prefix>)
    ensures NoDup(toDel) && Elems(toDel) <= present && pres == present - Elems(toDel)
    ensures cov <= covered && pres + cov == present + covered - Lifted(present, covered, dels)
    ensures Elems(toDel) <= Canonical(dels) - cov
  {
    pres, cov, toDel := present, covered, [];
    for i := 0 to |dels|
      invariant NoDup(toDel) && Elems(toDel) == present - pres && pres <= present
      invariant cov == LeftCovered(covered, dels[..i])
      invariant pres == present - Lifted(present, covered, dels[..i])
    {
      assert dels[..i + 1] == dels[..i] + [dels[i]];
      RemoveStep(present, covered, dels[..i], dels[i]);
      var e := CanonicalBanEntry(dels[i]);
      if e.Some? {
        var k := e.value;
        if k in cov {
          cov := cov - {k};
        } else if k in pres {
          AppendElems(toDel, [k]);
          toDel := toDel + [k];
          pres := pres - {k};
        }
      }
    }
    assert dels[..|dels|] == dels;
    RemovedAreRequested(present, covered, dels);
  }

  lemma RemovedAreRequested(present: set<Prefix>, covered: set<Prefix>, dels: seq<Token>)
    ensures present - (present - Lifted(present, covered, dels)) <= Canonical(dels) - LeftCovered(covered, dels)
    ensures present - Lifted(present, covered, dels) + LeftCovered(covered, dels)
              == present + covered - Lifted(present, covered, dels)
  {
    forall p: Prefix | p in Lifted(present, covered, dels) ensures p in Canonical(dels) {
      CountIsMembership(p, dels);
    }
  }

  /** Step 2: the covered entries whose covering network is gone become wanted again. */
  method Expose(covered: set<Prefix>, nets: set<Prefix>)
    returns (cov: set<Prefix>, exposed: set<Prefix>)
    ensures cov == set c | c in covered && CoveredBy(c, nets)
    ensures exposed == covered - cov
  {
    cov, exposed := {}, {};
    var todo := covered;
    while todo != {}
      invariant todo <= covered
      invariant cov <= covered - todo && exposed == covered - todo - cov
      invariant forall c :: c in covered - todo ==> (c in cov <==> CoveredBy(c, nets))
      decreases |todo|
    {
      var c :| c in todo;
      todo := todo - {c};
      var hidden := PrefixCoveredBy(c, nets);
      if hidden { cov := cov + {c}; } else { exposed := exposed + {c}; }
    }
  }

  /** The requested additions, next to the exposed entries. */
  method Wanted(adds: seq<Token>, exposed: set<Prefix>) returns (want: set<Prefix>)
    ensures want == exposed + Canonical(adds)
  {
    want := exposed;
    for i := 0 to |adds|
      invariant want == exposed + Canonical(adds[..i])
    {
      assert adds[..i + 1] == adds[..i] + [adds[i]];
      assert Canonical(adds[..i + 1]) == Canonical(adds[..i]) + Canonical([adds[i]]);
      var e := CanonicalBanEntry(adds[i]);
      if e.Some? {
        assert adds[i] in [adds[i]];
        want := want + {e.value};
      }
    }
    assert adds[..|adds|] == adds;
  }

  /** The retire loop: the narrower present elements a landing network contains. */
  method Retire(pres: set<Prefix>, p: Prefix) returns (retired: seq<Prefix>)
    ensures NoDup(retired) && Elems(retired) == set e | e in pres && StrictlyCovers(p, e)
  {
    retired := [];
    var todo := pres;
    while todo != {}
      invariant todo <= pres && NoDup(retired)
      invariant Elems(retired) == set e | e in pres - todo && StrictlyCovers(p, e)
      decreases |todo|
    {
      var e :| e in todo;
      todo := todo - {e};
      if StrictlyCovers(p, e) { StrictCoverIsBroader(p, e); }
      if e.bits > p.bits && e.family == p.family && Has(p, e.family, e.addr) {
        AppendElems(retired, [e]);
        retired := retired + [e];
      }
    }
  }

  /** A network that no present element covers lands: the elements it contains are retired under it. */
  lemma Landing(pres: set<Prefix>, cov: set<Prefix>, p: Prefix, retired: set<Prefix>)
    requires Clean(pres, cov) && !CoveredBy(p, pres)
    requires retired == set e | e in pres && StrictlyCovers(p, e)
    ensures Clean(pres - retired + {p}, cov - {p} + retired)
  {
    var after := pres - retired + {p};
    forall c | c in cov + retired ensures CoveredBy(c, after) {
      if c in retired {
        assert p in after && StrictlyCovers(p, c);
      } else {
        var n :| n in pres && StrictlyCovers(n, c);
        if n in retired {
          StrictCoverIsBroader(p, n);
          StrictCoverIsBroader(n, c);
          ContainsTransitive(p, n, c);
          assert p in after && StrictlyCovers(p, c);
        }
      }
    }
  }

  lemma HostCoversNothing(p: Prefix, e: Prefix)
    requires IsHost(p)
    ensures !StrictlyCovers(p, e)
  {
    if StrictlyCovers(p, e) { StrictCoverIsBroader(p, e); }
  }

  /** What Place promises about one wanted entry. */
  ghost predicate Placed(pres: set<Prefix>, cov: set<Prefix>, p: Prefix,
                         pres': set<Prefix>, cov': set<Prefix>, retired: seq<Prefix>, landed: bool)
  {
    && Clean(pres', cov') && pres' + cov' == pres + cov + {p}
    && NoDup(retired) && Elems(retired) <= pres && (forall e :: e in Elems(retired) ==> e.bits > p.bits)
    && (landed ==> p !in pres + cov)
    && cov + Elems(retired) <= cov'
    && pres' == pres - Elems(retired) + if landed then {p} else {}
  }

  /** An entry no present element covers lands, retiring what it contains. */
  method Land(pres: set<Prefix>, cov: set<Prefix>, nets: set<Prefix>, p: Prefix)
    returns (pres': set<Prefix>, cov': set<Prefix>, nets': set<Prefix>, retired: seq<Prefix>)
    requires Clean(pres, cov) && nets == NonHosts(pres) && p !in pres && !CoveredBy(p, pres)
    ensures Placed(pres, cov, p, pres', cov', retired, true) && nets' == NonHosts(pres')
  {
    retired := [];
    if IsHost(p) {
      forall e | e in pres ensures !StrictlyCovers(p, e) { HostCoversNothing(p, e); }
    } else {
      retired := Retire(pres, p);
      forall e: Prefix | e in Elems(retired) ensures e.bits > p.bits { StrictCoverIsBroader(p, e); }
    }
    var gone := Elems(retired);
    Landing(pres, cov, p, gone);
    pres', cov' := pres - gone + {p}, cov - {p} + gone;
    nets' := (nets - gone) + if IsHost(p) then {} else {p};
  }

  /** One wanted entry: already present, hidden under a network, or landing in the kernel set. */
  method Place(pres: set<Prefix>, cov: set<Prefix>, nets: set<Prefix>, p: Prefix)
    returns (pres': set<Prefix>, cov': set<Prefix>, nets': set<Prefix>, retired: seq<Prefix>, landed: bool)
    requires Clean(pres, cov) && nets == NonHosts(pres)
    ensures Placed(pres, cov, p, pres', cov', retired, landed) && nets' == NonHosts(pres')
  {
    pres', cov', nets', retired, landed := pres, cov, nets, [], false;
    OnlyNetworksCover(p, pres);
    if p in pres {
      CleanIsCanonical(pres, cov);
      cov' := cov - {p};
      return;
    }
    var hidden := PrefixCoveredBy(p, nets);
    if hidden {
      cov' := cov + {p};
      return;
    }
    landed := true;
    pres', cov', nets', retired := Land(pres, cov, nets, p);
  }

  /** The edits made so far: distinct deletes of elements of `pres`, distinct adds of absent ones,
      leading to `cur`. */
  ghost predicate Edits<T(!new)>(pres: set<T>, cur: set<T>, deleted: seq<T>, added: seq<T>) {
    && NoDup(deleted) && Elems(deleted) <= pres
    && NoDup(added) && Elems(added) !! pres - Elems(deleted)
    && cur == pres - Elems(deleted) + Elems(added)
  }

  lemma MoreEdits<T(!new)>(pres: set<T>, cur: set<T>, deleted: seq<T>, added: seq<T>,
                           cur': set<T>, gone: seq<T>, landed: seq<T>)
    requires Edits(pres, cur, deleted, added)
    requires NoDup(gone) && Elems(gone) <= cur && Elems(gone) !! Elems(added)
    requires NoDup(landed) && Elems(landed) !! cur
    requires cur' == cur - Elems(gone) + Elems(landed)
    ensures Edits(pres, cur', deleted + gone, added + landed)
  {
    AppendElems(deleted, gone);
    AppendElems(added, landed);
  }

  /** The loop state of step 3 before keys[i]. */
  ghost predicate Placing(pres: set<Prefix>, cov: set<Prefix>, keys: seq<Prefix>, i: nat,
                          cur: set<Prefix>, cov': set<Prefix>, retired: seq<Prefix>, added: seq<Prefix>)
    requires i <= |keys|
  {
    && Clean(cur, cov') && cur + cov' == pres + cov + Elems(keys[..i])
    && Edits(pres, cur, retired, added)
    && Elems(added) <= Elems(keys[..i]) && Elems(retired) <= cov'
  }

  lemma PlacingStep(pres: set<Prefix>, cov: set<Prefix>, keys: seq<Prefix>, i: nat,
                    cur: set<Prefix>, cov': set<Prefix>, retired: seq<Prefix>, added: seq<Prefix>,
                    cur': set<Prefix>, cov'': set<Prefix>, gone: seq<Prefix>, landed: bool)
    requires i < |keys| && Placing(pres, cov, keys, i, cur, cov', retired, added)
    requires forall j :: 0 <= j < i ==> keys[j].bits <= keys[i].bits
    requires Placed(cur, cov', keys[i], cur', cov'', gone, landed)
    ensures Placing(pres, cov, keys, i + 1, cur', cov'', retired + gone, added + if landed then [keys[i]] else [])
  {
    var p := keys[i];
    var new_ := if landed then [p] else [];
    assert keys[..i + 1] == keys[..i] + [p];
    AppendElems(keys[..i], [p]);
    assert Elems([p]) == {p} && Elems(new_) == if landed then {p} else {};
    assert Elems(gone) !! Elems(added) by {
      forall e: Prefix | e in Elems(added) ensures e.bits <= p.bits { assert e in keys[..i]; }
    }
    MoreEdits(pres, cur, retired, added, cur', gone, new_);
    AppendElems(retired, gone);
    AppendElems(added, new_);
  }

  /** Step 3: every wanted entry in turn, broadest first. */
  method PlaceAll(pres: set<Prefix>, cov: set<Prefix>, keys: seq<Prefix>)
    returns (cur: set<Prefix>, cov': set<Prefix>, retired: seq<Prefix>, toAdd: seq<Prefix>)
    requires Clean(pres, cov)
    requires forall i, j :: 0 <= i < j < |keys| ==> keys[i].bits <= keys[j].bits
    ensures Placing(pres, cov, keys, |keys|, cur, cov', retired, toAdd)
  {
    var nets := set p | p in pres && !IsHost(p);
    cur, cov', retired, toAdd := pres, cov, [], [];
    for i := 0 to |keys|
      invariant Placing(pres, cov, keys, i, cur, cov', retired, toAdd) && nets == NonHosts(cur)
    {
      ghost var before, hidden := cur, cov';
      var gone, landed;
      cur, cov', nets, gone, landed := Place(cur, cov', nets, keys[i]);
      PlacingStep(pres, cov, keys, i, before, hidden, retired, toAdd, cur, cov', gone, landed);
      retired := retired + gone;
      if landed { toAdd := toAdd + [keys[i]]; } else { assert toAdd + [] == toAdd; }
    }
  }

  /** planIntervalSet. From any overlap-free kernel and any covered entries, the plan is executable
      (distinct deletes of present elements, distinct adds of absent ones) and its result is the
      canonical split of the requested entries. */
  method PlanIntervalSet(present: set<Prefix>, covered: set<Prefix>, adds: seq<Token>, dels: seq<Token>)
    returns (toDel: seq<Prefix>, toAdd: seq<Prefix>, covered': set<Prefix>)
    requires Antichain(present)
    ensures NoDup(toDel) && Elems(toDel) <= present
    ensures NoDup(toAdd) && Elems(toAdd) !! present - Elems(toDel)
    ensures var all := Requested(present, covered, adds, dels);
            present - Elems(toDel) + Elems(toAdd) == Maximal(all) && covered' == all - Maximal(all)
    // No churn: only an entry the delta both removes and adds is deleted and added again.
    ensures Elems(toDel) * Elems(toAdd) <= Canonical(dels) * Canonical(adds)
  {
    var pres, cov, exposed, retired;
    pres, cov, toDel := Remove(present, covered, dels);
    ghost var left := pres + cov;
    cov, exposed := Expose(cov, set p | p in pres && !IsHost(p));
    forall c | c in cov ensures CoveredBy(c, pres) { OnlyNetworksCover(c, pres); }
    var want := Wanted(adds, exposed);
    var keys := BroadestFirst(want);
    assert pres + cov + want == left + Canonical(adds);
    var cur;
    cur, covered', retired, toAdd := PlaceAll(pres, cov, keys);
    assert keys[..|keys|] == keys;
    CleanIsCanonical(cur, covered');
    AppendElems(toDel, retired);
    toDel := toDel + retired;
  }

  /** reportWithCovered: the present elements and the covered entries a present network contains. */
  method ReportWithCovered(present: set<Prefix>, covered: set<Prefix>) returns (out: set<Prefix>)
    ensures out == Reported(present, covered)
  {
    out := present;
    var nets := set p | p in present && !IsHost(p);
    var todo := covered;
    while todo != {}
      invariant todo <= covered
      invariant out == Reported(present, covered - todo)
      decreases |todo|
    {
      var c :| c in todo;
      todo := todo - {c};
      OnlyNetworksCover(c, present);
      if c !in present {
        var hidden := PrefixCoveredBy(c, nets);
        if hidden { out := out + {c}; }
      }
    }
  }
}
