/** The coalescing ban-delta mailbox: the last operation requested for an entry wins. */
module BanDelta {
  import opened Prefixes
  import opened IntervalSet

  /** Pending operations by entry: true = ban, false = unban. */
  type Ops = map<Prefix, bool>

  ghost function Bans(ops: Ops): set<Prefix> {
    set k | k in ops && ops[k]
  }

  ghost function Lifts(ops: Ops): set<Prefix> {
    set k | k in ops && !ops[k]
  }

  /** The entries requested once pending operations are carried out on s. */
  ghost function Overlay(s: set<Prefix>, add: set<Prefix>, remove: set<Prefix>): set<Prefix> {
    s + add - remove
  }

  /** Operations queued one delta after the other merge into one batch without changing their meaning. */
  ghost predicate Merges(before: Ops, after: Ops, add: set<Prefix>, remove: set<Prefix>) {
    && after.Keys == before.Keys + add + remove
    && forall k :: k in after ==> after[k] == if k in remove then false else if k in add then true else before[k]
  }

  lemma MergeIsSequential(s: set<Prefix>, before: Ops, after: Ops, add: set<Prefix>, remove: set<Prefix>)
    requires Merges(before, after, add, remove)
    ensures Overlay(s, Bans(after), Lifts(after)) == Overlay(Overlay(s, Bans(before), Lifts(before)), add, remove)
  {
  }

  class BanMailbox {
    var ops: Ops
    /** Keys of the same map that do not parse, all of them to lift. */
    var texts: set<Token>
    /** The wake-up channel of capacity one. */
    var signal: bool

    constructor ()
      ensures ops == map[] && texts == {} && !signal
    {
      ops, texts, signal := map[], {}, false;
    }

    /** One of the two recording loops. */
    method Record(keys: seq<Prefix>, ban: bool)
      modifies `ops
      ensures ops.Keys == old(ops).Keys + Elems(keys)
      ensures forall k :: k in ops ==> ops[k] == if k in Elems(keys) then ban else old(ops)[k]
    {
      for i := 0 to |keys|
        invariant ops.Keys == old(ops).Keys + Elems(keys[..i])
        invariant forall k :: k in ops ==> ops[k] == if k in Elems(keys[..i]) then ban else old(ops)[k]
      {
        assert keys[..i + 1] == keys[..i] + [keys[i]];
        AppendElems(keys[..i], [keys[i]]);
        assert Elems([keys[i]]) == {keys[i]};
        ops := ops[keys[i] := ban];
      }
      assert keys[..|keys|] == keys;
    }

    /** queueBanDelta up to the unlock; the wake-up follows (Signal). */
    method QueueBanDelta(add: seq<Prefix>, remove: seq<Prefix>, junk: seq<Token>)
      modifies `ops, `texts
      ensures Merges(old(ops), ops, Elems(add), Elems(remove)) && texts == old(texts) + Elems(junk)
    {
      Record(add, true);
      Record(remove, false);
      RecordTexts(junk);
    }

    method RecordTexts(junk: seq<Token>)
      modifies `texts
      ensures texts == old(texts) + Elems(junk)
    {
      for i := 0 to |junk|
        invariant texts == old(texts) + Elems(junk[..i])
      {
        assert junk[..i + 1] == junk[..i] + [junk[i]];
        AppendElems(junk[..i], [junk[i]]);
        assert Elems([junk[i]]) == {junk[i]};
        texts := texts + {junk[i]};
      }
      assert junk[..|junk|] == junk;
    }

    /** The non-blocking send: a wake-up already pending is enough. */
    method Signal()
      modifies `signal
      ensures signal
    {
      if !signal { signal := true; }
    }

    method ListTexts() returns (junk: seq<Token>)
      ensures NoDup(junk) && Elems(junk) == texts
    {
      junk := [];
      var todo := texts;
      while todo != {}
        invariant todo <= texts && NoDup(junk) && Elems(junk) == texts - todo
        decreases |todo|
      {
        var t :| t in todo;
        todo := todo - {t};
        AppendElems(junk, [t]);
        assert t !in Elems(junk);
        junk := junk + [t];
      }
    }

    /** takeBanDelta: the pending operations as two disjoint lists, and an empty mailbox. */
    method TakeBanDelta() returns (add: seq<Prefix>, remove: seq<Prefix>, junk: seq<Token>)
      modifies `ops, `texts
      ensures ops == map[] && texts == {}
      ensures NoDup(junk) && Elems(junk) == old(texts)
      ensures NoDup(add) && Elems(add) == Bans(old(ops))
      ensures NoDup(remove) && Elems(remove) == Lifts(old(ops))
      ensures Elems(add) !! Elems(remove)
    {
      var taken := ops;
      junk := ListTexts();
      ops, texts := map[], {};
      add, remove := [], [];
      var todo := taken.Keys;
      while todo != {}
        invariant todo <= taken.Keys && ops == map[] && texts == {}
        invariant NoDup(add) && Elems(add) == Bans(taken) - todo
        invariant NoDup(remove) && Elems(remove) == Lifts(taken) - todo
        decreases |todo|
      {
        var k :| k in todo;
        todo := todo - {k};
        if taken[k] {
          AppendElems(add, [k]);
          add := add + [k];
        } else {
          AppendElems(remove, [k]);
          remove := remove + [k];
        }
      }
    }
  }
}
