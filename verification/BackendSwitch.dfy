/** The runtime switch between Windows backends: preferences may arrive at any time, one goroutine at a
    time applies them, and the latest one wins. */
module BackendSwitch {
  import opened Prefixes

  datatype Pref = Auto | PreferWfp | PreferNetsh

  datatype Kind = Wfp | Netsh | NoBackend

  function FirewallKindFor(p: Pref): Kind {
    if p.PreferNetsh? then Netsh else Wfp
  }

  /** switchLoop: before its check, in applyPreference, or before it records what it applied. */
  datatype Loop = AtCheck | Applying(pref: Pref) | Applied(pref: Pref)

  /** The fields of switchableFirewall (the backend by its kind), and the goroutines that run. */
  datatype State = State(cur: Kind, want: Pref, applied: Pref, running: bool, loops: seq<Loop>)

  datatype Event =
    | Request(pref: Pref)
    | Check(i: nat)
    | Migrate(i: nat, ok: bool)
    | Record(i: nat)

  /** What a switch leaves as the backend: nothing happens when the kind is already right, and a failed
      migration keeps the old one. */
  function Switched(cur: Kind, pref: Pref, ok: bool): Kind {
    if ok then FirewallKindFor(pref) else cur
  }

  predicate Enabled(s: State, e: Event) {
    match e
    case Request(_) => true
    case Check(i) => i < |s.loops| && s.loops[i].AtCheck?
    case Migrate(i, _) => i < |s.loops| && s.loops[i].Applying?
    case Record(i) => i < |s.loops| && s.loops[i].Applied?
  }

  function Do(s: State, e: Event): State
    requires Enabled(s, e)
  {
    match e
    case Request(p) =>
      if s.running || p == s.applied then s.(want := p)
      else s.(want := p, running := true, loops := s.loops + [AtCheck])
    case Check(i) =>
      if s.want == s.applied then s.(running := false, loops := s.loops[..i] + s.loops[i + 1..])
      else s.(loops := s.loops[i := Applying(s.want)])
    case Migrate(i, ok) =>
      s.(cur := Switched(s.cur, s.loops[i].pref, ok), loops := s.loops[i := Applied(s.loops[i].pref)])
    case Record(i) => s.(applied := s.loops[i].pref, loops := s.loops[i := AtCheck])
  }

  predicate IsRun(s: State, es: seq<Event>)
    decreases |es|
  {
    es == [] || (Enabled(s, es[0]) && IsRun(Do(s, es[0]), es[1..]))
  }

  function Final(s: State, es: seq<Event>): State
    requires IsRun(s, es)
    decreases |es|
  {
    if es == [] then s else Final(Do(s, es[0]), es[1..])
  }

  /** newSwitchableFirewall: the backend may not be the preferred one (a fallback at start-up). */
  predicate Start(s: State) {
    s.want == s.applied && !s.running && s.loops == []
  }

  // ----- Safety -----

  /** One goroutine when running and none otherwise; no preference is left unapplied without one. */
  predicate Inv(s: State) {
    |s.loops| == (if s.running then 1 else 0) && (!s.running ==> s.want == s.applied)
  }

  /** The backend the preference in force selects is the one enforcing. */
  predicate Agrees(s: State) {
    s.cur == FirewallKindFor(if |s.loops| == 1 && s.loops[0].Applied? then s.loops[0].pref else s.applied)
  }

  lemma StepKeepsInv(s: State, e: Event)
    requires Inv(s) && Enabled(s, e)
    ensures Inv(Do(s, e))
    ensures Agrees(s) && (e.Migrate? ==> e.ok) ==> Agrees(Do(s, e))
    ensures e.Migrate? && e.ok ==> Agrees(Do(s, e))
  {
  }

  /** Two switches never run at the same time. */
  lemma {:induction false} OneSwitchAtATime(s: State, es: seq<Event>)
    requires Inv(s) && IsRun(s, es)
    ensures Inv(Final(s, es)) && |Final(s, es).loops| <= 1
    decreases |es|
  {
    if es != [] {
      StepKeepsInv(s, es[0]);
      OneSwitchAtATime(Do(s, es[0]), es[1..]);
    }
  }

  function LastRequest(es: seq<Event>, p: Pref): Pref {
    if es == [] then p else LastRequest(es[1..], if es[0].Request? then es[0].pref else p)
  }

  lemma {:induction false} WantIsLastRequest(s: State, es: seq<Event>)
    requires IsRun(s, es)
    ensures Final(s, es).want == LastRequest(es, s.want)
    decreases |es|
  {
    if es != [] { WantIsLastRequest(Do(s, es[0]), es[1..]); }
  }

  /** Whether the backend is the selected one at the end, by the run's migrations: the last one decides. */
  function SwitchedWell(s: State, es: seq<Event>, well: bool): bool
    requires IsRun(s, es)
    decreases |es|
  {
    if es == [] then well
    else
      SwitchedWell(Do(s, es[0]), es[1..],
        if es[0].Migrate? then es[0].ok || s.cur == FirewallKindFor(s.loops[es[0].i].pref) else well)
  }

  lemma AgreesStep(s: State, e: Event)
    requires Inv(s) && Enabled(s, e)
    ensures Agrees(Do(s, e))
            <==> if e.Migrate? then e.ok || s.cur == FirewallKindFor(s.loops[e.i].pref) else Agrees(s)
  {
    if !e.Request? {
      assert e.i == 0 && s.loops == [s.loops[0]];
    } else if !s.running {
      assert s.loops == [];
    }
  }

  lemma {:induction false} AgreesAlong(s: State, es: seq<Event>)
    requires Inv(s) && IsRun(s, es)
    ensures Agrees(Final(s, es)) <==> SwitchedWell(s, es, Agrees(s))
    decreases |es|
  {
    if es != [] {
      StepKeepsInv(s, es[0]);
      AgreesStep(s, es[0]);
      AgreesAlong(Do(s, es[0]), es[1..]);
    }
  }

  /** Once at rest, the preference in force is the last one requested, and the backend enforcing is the
      one it selects if and only if the last switch that ran succeeded or was not needed (without any:
      if it was so at start). */
  lemma LatestWins(s: State, es: seq<Event>)
    requires Start(s) && IsRun(s, es) && !Final(s, es).running
    ensures var t := Final(s, es);
            && t.applied == t.want == LastRequest(es, s.want)
            && (t.cur == (if LastRequest(es, s.want) == PreferNetsh then Netsh else Wfp)
                <==> SwitchedWell(s, es, s.cur == (if s.want == PreferNetsh then Netsh else Wfp)))
  {
    OneSwitchAtATime(s, es);
    WantIsLastRequest(s, es);
    AgreesAlong(s, es);
  }

  lemma RunOf(s: State, e: Event, es: seq<Event>)
    requires Enabled(s, e) && IsRun(Do(s, e), es)
    ensures IsRun(s, [e] + es) && Final(s, [e] + es) == Final(Do(s, e), es)
  {
    assert ([e] + es)[1..] == es;
  }

  /** The run of a request whose migration fails: from rest to rest. */
  lemma FailedSwitch(s: State, p: Pref) returns (es: seq<Event>)
    requires Inv(s) && !s.running && p != s.want && s.cur != FirewallKindFor(p)
    ensures es == [Request(p)] + ([Check(0)] + ([Migrate(0, false)] + ([Record(0)] + ([Check(0)] + []))))
    ensures IsRun(s, es)
    ensures Final(s, es) == s.(want := p, applied := p)
  {
    var s1 := Do(s, Request(p));
    var s2 := Do(s1, Check(0));
    var s3 := Do(s2, Migrate(0, false));
    var s4 := Do(s3, Record(0));
    RunOf(s4, Check(0), []);
    RunOf(s3, Record(0), [Check(0)] + []);
    RunOf(s2, Migrate(0, false), [Record(0)] + ([Check(0)] + []));
    RunOf(s1, Check(0), [Migrate(0, false)] + ([Record(0)] + ([Check(0)] + [])));
    RunOf(s, Request(p), [Check(0)] + ([Migrate(0, false)] + ([Record(0)] + ([Check(0)] + []))));
    es := [Request(p)] + ([Check(0)] + ([Migrate(0, false)] + ([Record(0)] + ([Check(0)] + []))));
  }

  lemma {:induction false} RequestsDoNothing(s: State, es: seq<Event>)
    requires !s.running && s.want == s.applied && forall e :: e in es ==> e == Request(s.want)
    ensures IsRun(s, es) && Final(s, es) == s
    decreases |es|
  {
    if es != [] {
      assert es[0] in es && forall e :: e in es[1..] ==> e in es;
      RequestsDoNothing(Do(s, es[0]), es[1..]);
    }
  }

  /** A switch that failed is not tried again while the same preference keeps arriving: after the failure
      the wrong backend is left enforcing, and any number of requests for that preference changes
      nothing; a request for any other one starts a switch. */
  lemma SamePreferenceIsNoRetry(s: State, p: Pref, again: seq<Event>) returns (failed: seq<Event>)
    requires Inv(s) && !s.running && p != s.want && s.cur != FirewallKindFor(p)
    requires forall e :: e in again ==> e == Request(p)
    ensures |failed| == 5 && failed[0] == Request(p) && IsRun(s, failed)
    ensures var t := Final(s, failed);
            && !t.running && t.want == t.applied == p && t.cur == s.cur != FirewallKindFor(p)
            && IsRun(t, again) && Final(t, again) == t
            && forall q :: q != p ==> Do(t, Request(q)).running
  {
    failed := FailedSwitch(s, p);
    var t := Final(s, failed);
    RequestsDoNothing(t, again);
  }

  // ----- Progress -----

  /** The steps left at most without a new request: at most two switches. */
  function Work(s: State): nat {
    if |s.loops| != 1 then 0
    else
      match s.loops[0]
      case AtCheck => if s.want == s.applied then 1 else 4
      case Applied(p) => if p == s.want then 2 else 5
      case Applying(p) => if p == s.want then 3 else 6
  }

  lemma StepsEnd(s: State, e: Event)
    requires Inv(s) && Enabled(s, e) && !e.Request?
    ensures Work(Do(s, e)) < Work(s) <= 6
  {
  }

  lemma {:induction false} SwitchingEnds(s: State, es: seq<Event>)
    requires Inv(s) && IsRun(s, es) && forall e :: e in es ==> !e.Request?
    ensures |es| + Work(Final(s, es)) <= Work(s) <= 6
    decreases |es|
  {
    if es != [] {
      assert es[0] in es;
      StepKeepsInv(s, es[0]);
      StepsEnd(s, es[0]);
      forall e | e in es[1..] ensures e in es {}
      SwitchingEnds(Do(s, es[0]), es[1..]);
    }
  }

  /** While it runs there is a next step, so a run left alone comes to rest. */
  lemma SwitchingGoesOn(s: State) returns (e: Event)
    requires Inv(s) && s.running
    ensures !e.Request? && Enabled(s, e)
  {
    e := match s.loops[0] case AtCheck => Check(0) case Applying(_) => Migrate(0, true) case Applied(_) => Record(0);
  }

  // ----- The code, one lock section at a time -----

  class SwitchableFirewall {
    var cur: Kind
    var want: Pref
    var applied: Pref
    var running: bool

    constructor (fw: Kind, pref: Pref)
      ensures Shows(State(fw, pref, pref, false, []))
    {
      cur, want, applied, running := fw, pref, pref, false;
    }

    ghost predicate Shows(s: State)
      reads this
    {
      s.cur == cur && s.want == want && s.applied == applied && s.running == running
    }

    /** requestPreference: `start` when a goroutine has to be started. */
    method RequestPreference(pref: Pref, ghost s: State) returns (start: bool)
      requires Shows(s)
      modifies `want, `running
      ensures Shows(Do(s, Request(pref)))
      ensures |Do(s, Request(pref)).loops| == |s.loops| + if start then 1 else 0
    {
      want := pref;
      if running || want == applied { return false; }
      running := true;
      start := true;
    }

    /** The first section of switchLoop: None to stop. */
    method NextPreference(ghost s: State, ghost i: nat) returns (pref: Option<Pref>)
      requires Shows(s) && Enabled(s, Check(i))
      modifies `running
      ensures Shows(Do(s, Check(i)))
      ensures var loops := Do(s, Check(i)).loops;
              if pref.None? then loops == s.loops[..i] + s.loops[i + 1..]
              else |loops| == |s.loops| && loops[i] == Applying(pref.value)
    {
      if want == applied {
        running := false;
        return None;
      }
      pref := Some(want);
    }

    /** applyPreference: the migration may fail. */
    method ApplyPreference(pref: Pref, ghost s: State, ghost i: nat) returns (ghost ok: bool)
      requires Shows(s) && Enabled(s, Migrate(i, true)) && s.loops[i].pref == pref
      modifies `cur
      ensures Shows(Do(s, Migrate(i, ok)))
    {
      var to := FirewallKindFor(pref);
      if cur == to { return true; }
      var migrated: bool := *;
      ok := migrated;
      if migrated { cur := to; }
    }

    /** The last section of switchLoop. */
    method RecordApplied(pref: Pref, ghost s: State, ghost i: nat)
      requires Shows(s) && Enabled(s, Record(i)) && s.loops[i].pref == pref
      modifies `applied
      ensures Shows(Do(s, Record(i)))
    {
      applied := pref;
    }
  }
}
