/** The bounded auth-event queue: a slice with a head index and compaction, refining a FIFO that drops
    its oldest events, and the flush loop that delivers it. */
module EventQueue {
  import opened Numbers

  // ----- Events -----

  datatype AgentIpEvent = AgentIpEvent(source: nat, rawLog: seq<Byte>)

  /** AgentIpEvent{}: what a released slot holds. */
  const ZERO := AgentIpEvent(0, [])

  const EVENT_QUEUE_CAP: nat := 10000
  const EVENT_BATCH_MAX: nat := 500
  const EVENT_RAW_LOG_MAX: nat := 1024

  /** utf8.RuneStart: not a continuation byte. */
  predicate RuneStart(b: Byte) {
    !(128 <= b < 192)
  }

  /** The length a lead byte announces, 0 when it cannot start a rune. */
  function RuneLen(b: Byte): nat {
    if b < 128 then 1 else if 192 <= b < 224 then 2 else if 224 <= b < 240 then 3 else if 240 <= b < 248 then 4 else 0
  }

  /** s is a sequence of whole runes. */
  ghost predicate WholeRunes(s: seq<Byte>) {
    s == [] ||
    var n := RuneLen(s[0]);
    0 < n <= |s| && (forall i :: 1 <= i < n ==> !RuneStart(s[i])) && WholeRunes(s[n..])
  }

  lemma {:induction false} RuneStartIsBoundary(s: seq<Byte>, cut: nat)
    requires WholeRunes(s) && cut < |s| && RuneStart(s[cut])
    ensures WholeRunes(s[..cut])
    decreases |s|
  {
    if cut > 0 {
      var n := RuneLen(s[0]);
      assert s[n..][cut - n] == s[cut];
      RuneStartIsBoundary(s[n..], cut - n);
      assert s[..cut][n..] == s[n..][..cut - n];
    }
  }

  /** A prefix of at most max bytes, the whole when that fits; nothing is cut away but the start of one
      rune, and no rune is split. */
  ghost predicate CutTo(r: seq<Byte>, s: seq<Byte>, max: nat) {
    && r <= s && |r| <= max && (|s| <= max ==> r == s)
    && (|s| > max ==> forall i :: |r| < i <= max ==> !RuneStart(s[i]))
    && (WholeRunes(s) ==> WholeRunes(r))
  }

  /** truncateUTF8: a prefix of at most max bytes that never splits a rune, and is not cut back by
      more than the bytes of one. */
  method TruncateUTF8(s: seq<Byte>, max: nat) returns (r: seq<Byte>)
    ensures CutTo(r, s, max)
  {
    if |s| <= max { return s; }
    var cut := max;
    while cut > 0 && !RuneStart(s[cut])
      invariant 0 <= cut <= max
      invariant forall i :: cut < i <= max ==> !RuneStart(s[i])
    {
      cut := cut - 1;
    }
    r := s[..cut];
    if cut > 0 && WholeRunes(s) { RuneStartIsBoundary(s, cut); }
  }

  /** The events kept for pushed ones: the same, with a raw line cut to the bound. */
  ghost predicate CutFrom(kept: seq<AgentIpEvent>, evts: seq<AgentIpEvent>) {
    && |kept| == |evts|
    && forall i :: 0 <= i < |evts| ==>
         kept[i].source == evts[i].source && CutTo(kept[i].rawLog, evts[i].rawLog, EVENT_RAW_LOG_MAX)
  }

  // ----- The FIFO it refines -----

  /** The newest n elements. */
  function Newest<T>(s: seq<T>, n: nat): seq<T> {
    if |s| <= n then s else s[|s| - n..]
  }

  function Overflow(len: nat, n: nat): nat {
    if len <= n then 0 else len - n
  }

  /** c is the newest part of h. */
  predicate IsSuffix<T(==)>(c: seq<T>, h: seq<T>) {
    |c| <= |h| && c == h[|h| - |c|..]
  }

  lemma NewestSuffix<T>(c: seq<T>, h: seq<T>, cap: nat)
    requires IsSuffix(c, h)
    ensures IsSuffix(Newest(c, cap), h)
  {
  }

  lemma PushSuffix<T>(h: seq<T>, c: seq<T>, kept: seq<T>, cap: nat)
    requires IsSuffix(c, h)
    ensures IsSuffix(Newest(c + kept, cap), h + kept)
  {
    assert c + kept == (h + kept)[|h| - |c|..];
    NewestSuffix(c + kept, h + kept, cap);
  }

  lemma PopSuffix<T>(h: seq<T>, out: seq<T>, rest: seq<T>)
    requires IsSuffix(out + rest, h)
    ensures IsSuffix(rest, h)
    ensures var at := |h| - |rest| - |out|; out == h[at..at + |out|]
  {
    var at := |h| - |out + rest|;
    assert rest == (out + rest)[|out|..] == h[at..][|out|..];
    assert out == (out + rest)[..|out|] == h[at..][..|out|];
  }

  /** Putting a batch back in front keeps the queue the newest part of the history: either nothing was
      dropped meanwhile, or the queue is full and the batch is dropped whole. */
  lemma RequeueSuffix<T>(h: seq<T>, batch: seq<T>, at: nat, c: seq<T>, cap: nat)
    requires IsSuffix(c, h) && at + |batch| <= |h| - |c| && batch == h[at..at + |batch|]
    requires at + |batch| == |h| - |c| || |c| == cap || batch == []
    ensures IsSuffix(Newest(batch + c, cap), h)
  {
    if batch == [] {
      assert batch + c == c;
      NewestSuffix(c, h, cap);
    } else if |c| == cap {
      assert (batch + c)[|batch|..] == c;
    } else {
      assert batch + c == h[at..] by { assert h[at..] == h[at..at + |batch|] + h[at + |batch|..]; }
      NewestSuffix(h[at..], h, cap);
    }
  }

  function Max(a: nat, b: nat): nat {
    if a < b then b else a
  }

  class EventQueue {
    const capacity: nat
    /** The backing array and length of the slice; items[head..] are the queued events. */
    var items: array<AgentIpEvent>
    var len: nat
    var head: nat
    var dropped: nat

    /** Every event ever pushed, as kept. */
    ghost var history: seq<AgentIpEvent>
    /** Elements moved by compaction, and elements released. */
    ghost var moved: nat
    ghost var released: nat

    /** Every slot outside the queued part is zeroed, and compaction has moved no more elements than
        were released. */
    ghost predicate Sound()
      reads this, items
    {
      && 0 < capacity && head <= len <= items.Length
      && (forall i :: 0 <= i < head ==> items[i] == ZERO)
      && (forall i :: len <= i < items.Length ==> items[i] == ZERO)
      && moved + head <= released
      && head <= Max(len - head, 64)
    }

    ghost predicate Valid()
      reads this, items
    {
      Sound() && len - head <= capacity
    }

    function Contents(): seq<AgentIpEvent>
      requires head <= len <= items.Length
      reads this, items
    {
      items[head..len]
    }

    /** newEventQueue. */
    constructor (capacity: int)
      ensures Valid() && fresh(items) && Contents() == [] && dropped == 0 && history == []
      ensures this.capacity == if capacity <= 0 then EVENT_QUEUE_CAP else capacity
    {
      this.capacity := if capacity <= 0 then EVENT_QUEUE_CAP else capacity;
      items := new AgentIpEvent[0];
      len, head, dropped := 0, 0, 0;
      history, moved, released := [], 0, 0;
    }

    /** Between operations: the bound on the slice and on its dead prefix, which holds no event any more,
        and the amortised cost of compaction, at most one move per event ever released. */
    lemma SpaceBound()
      requires Valid()
      ensures len <= capacity + Max(capacity, 64) && head <= Max(|Contents()|, 64)
      ensures forall i :: 0 <= i < head ==> items[i] == ZERO
      ensures moved <= released
    {
    }

    /** A larger backing array with the same slice (how much larger is up to the runtime). */
    method Grow()
      requires Sound()
      modifies `items
      ensures Sound() && fresh(items) && items.Length > len && Contents() == old(Contents())
    {
      var more: nat :| more > 0;
      ghost var was := Contents();
      var grown := new AgentIpEvent[len + more](_ => ZERO);
      forall i | 0 <= i < len { grown[i] := items[i]; }
      assert forall i :: 0 <= i < |was| ==> was[i] == items[head + i] == grown[head + i];
      items := grown;
      assert |Contents()| == |was| && forall i :: 0 <= i < |was| ==> Contents()[i] == was[i];
    }

    /** append: in place when there is room, otherwise into a larger zeroed array. */
    method Append(e: AgentIpEvent)
      requires Sound()
      modifies `items, `len, items
      ensures Sound() && (items == old(items) || fresh(items))
      ensures Contents() == old(Contents()) + [e]
    {
      if len == items.Length { Grow(); }
      items[len] := e;
      len := len + 1;
      assert items[head..len] == items[head..len - 1] + [e];
    }

    /** The append loop of Push. */
    method AppendAll(evts: seq<AgentIpEvent>) returns (ghost kept: seq<AgentIpEvent>)
      requires Sound()
      modifies `items, `len, items
      ensures Sound() && (items == old(items) || fresh(items))
      ensures CutFrom(kept, evts) && Contents() == old(Contents()) + kept
    {
      kept := [];
      for i := 0 to |evts|
        invariant Sound() && (items == old(items) || fresh(items))
        invariant |kept| == i && CutFrom(kept, evts[..i])
        invariant Contents() == old(Contents()) + kept
      {
        var raw := TruncateUTF8(evts[i].rawLog, EVENT_RAW_LOG_MAX);
        Append(evts[i].(rawLog := raw));
        kept := kept + [evts[i].(rawLog := raw)];
      }
      assert evts[..|evts|] == evts;
    }

    /** Push: the newest events up to the capacity stay, the rest are counted. */
    method Push(evts: seq<AgentIpEvent>) returns (ghost kept: seq<AgentIpEvent>)
      requires Valid()
      modifies this, items
      ensures Valid() && (items == old(items) || fresh(items))
      ensures CutFrom(kept, evts) && history == old(history) + kept
      ensures Contents() == Newest(old(Contents()) + kept, capacity)
      ensures dropped == old(dropped) + Overflow(|old(Contents()) + kept|, capacity)
    {
      if |evts| == 0 {
        kept := [];
        assert history == history + kept && Contents() == Contents() + kept;
        return;
      }
      kept := AppendAll(evts);
      history := history + kept;
      Trim();
    }

    /** trimLocked. */
    method Trim()
      requires Sound()
      modifies `head, `len, `dropped, `moved, `released, items
      ensures Valid() && Contents() == Newest(old(Contents()), capacity)
      ensures dropped == old(dropped) + Overflow(|old(Contents())|, capacity)
    {
      var over := len - head - capacity;
      if over > 0 {
        dropped := dropped + over;
        Advance(over);
      }
    }

    /** The compaction of advanceLocked: the live part moves to the front, its stale copies are
        cleared. */
    method Compact()
      requires head <= len <= items.Length && len - head < head
      requires forall i :: 0 <= i < head ==> items[i] == ZERO
      requires forall i :: len <= i < items.Length ==> items[i] == ZERO
      modifies `head, `len, `moved, items
      ensures head == 0 && len == old(len - head) && Contents() == old(Contents())
      ensures len <= items.Length && forall i :: len <= i < items.Length ==> items[i] == ZERO
      ensures moved == old(moved) + len
    {
      var live, total := len - head, len;
      forall i | 0 <= i < live { items[i] := items[head + i]; }
      assert items[0..live] == old(Contents());
      forall i | live <= i < total { items[i] := ZERO; }
      assert items[0..live] == old(Contents());
      moved := moved + live;
      len, head := live, 0;
    }

    /** advanceLocked: releases the n oldest events and compacts once the dead prefix outweighs the
        live part. The elements it moves are paid for by elements released before. */
    method Advance(n: nat)
      requires Sound() && n <= len - head
      modifies `head, `len, `moved, `released, items
      ensures Sound() && Contents() == old(Contents())[n..]
      ensures released == old(released) + n && moved - old(moved) <= old(head) + n
    {
      forall i | head <= i < head + n { items[i] := ZERO; }
      assert items[head + n..len] == old(Contents())[n..];
      head := head + n;
      released := released + n;
      var live := len - head;
      if live == 0 {
        len, head := 0, 0;
      } else if head > live && head > 64 {
        Compact();
      }
    }

    /** PopBatch. */
    method PopBatch(max: int) returns (out: seq<AgentIpEvent>)
      requires Valid()
      modifies `head, `len, `moved, `released, items
      ensures Valid()
      ensures var n := if max <= 0 then EVENT_BATCH_MAX else max;
              |out| == (if |old(Contents())| < n then |old(Contents())| else n)
      ensures out + Contents() == old(Contents())
    {
      var most := if max <= 0 then EVENT_BATCH_MAX else max;
      var n := len - head;
      if n == 0 { return []; }
      if n > most { n := most; }
      out := items[head..head + n];
      ghost var before := Contents();
      Advance(n);
      assert out == before[..n] && before == before[..n] + before[n..];
    }

    /** The merge of Requeue. */
    method Merge(batch: seq<AgentIpEvent>)
      requires Valid()
      modifies `items, `len, `head
      ensures Sound() && fresh(items) && Contents() == batch + old(Contents())
    {
      var merged := batch + items[head..len];
      items := new AgentIpEvent[|merged|](i requires 0 <= i < |merged| => merged[i]);
      len, head := |merged|, 0;
      assert items[0..len] == merged;
    }

    /** Requeue: the batch goes back in front; if there is no room it is the first to go. */
    method Requeue(batch: seq<AgentIpEvent>, count: nat)
      requires Valid()
      modifies this, items
      ensures Valid() && (items == old(items) || fresh(items)) && history == old(history)
      ensures Contents() == Newest(batch + old(Contents()), capacity)
      ensures dropped == old(dropped) + count + Overflow(|batch + old(Contents())|, capacity)
    {
      if count > 0 { dropped := dropped + count; }
      if |batch| == 0 {
        assert batch + Contents() == Contents();
        return;
      }
      Merge(batch);
      Trim();
    }

    /** TakeDropped. */
    method TakeDropped() returns (d: nat)
      modifies `dropped
      ensures d == old(dropped) && dropped == 0
    {
      d := dropped;
      dropped := 0;
    }

    // ----- What has left the queue -----

    /** The queue is what is left of the history: its newest part. */
    ghost predicate Suffix()
      requires head <= len <= items.Length
      reads this, items
    {
      IsSuffix(Contents(), history)
    }

    /** The position of the oldest queued event in the history. */
    ghost function First(): int
      reads this
    {
      |history| - (len - head)
    }
  }

  /** The channel a flush writes to: which events went out (their positions in the history), how many
      drops the frames reported, and how much was lost with frames that could not be marshalled. A send
      is atomic: the whole frame, or nothing. */
  class Session {
    ghost var delivered: seq<nat>
    ghost var reported: nat
    ghost var lost: nat
    /** The events in the frames that went out, how many frames, and how many could not be marshalled or
        sent. */
    ghost var sent: seq<AgentIpEvent>
    ghost var frames: nat
    ghost var refusals: nat

    constructor ()
      ensures delivered == [] && reported == 0 && lost == 0 && sent == [] && frames == 0 && refusals == 0
    {
      delivered, reported, lost, sent, frames, refusals := [], 0, 0, [], 0, 0;
    }

    /** json.Marshal of a frame; when it fails the batch and its count are gone. */
    method Marshal(batch: seq<AgentIpEvent>, count: nat) returns (ok: bool)
      modifies `lost, `refusals
      ensures lost == old(lost) + if ok then 0 else |batch| + count
      ensures refusals == old(refusals) + if ok then 0 else 1
    {
      ok := *;
      if !ok { lost, refusals := lost + |batch| + count, refusals + 1; }
    }

    method SendSync(batch: seq<AgentIpEvent>, count: nat, ghost at: nat) returns (ok: bool)
      modifies `delivered, `reported, `sent, `frames, `refusals
      ensures sent == old(sent) + if ok then batch else []
      ensures frames == old(frames) + (if ok then 1 else 0) && refusals == old(refusals) + if ok then 0 else 1
      ensures delivered == old(delivered) + if ok then Range(at, |batch|) else []
      ensures reported == old(reported) + if ok then count else 0
    {
      ok := *;
      if ok {
        delivered := delivered + Range(at, |batch|);
        reported := reported + count;
        sent, frames := sent + batch, frames + 1;
      } else {
        refusals := refusals + 1;
        assert delivered == delivered + [] && sent == sent + [];
      }
    }
  }

  ghost function Range(from: nat, n: nat): seq<nat> {
    seq(n, i requires 0 <= i < n => from + i)
  }

  /** The books balance: the delivered positions are increasing (in push order, none twice) and behind
      the queue, and every other position behind the queue is counted as dropped, either in a frame
      that went out or in the queue's counter, or was lost with a frame. */
  ghost predicate Balanced(delivered: seq<nat>, reported: nat, lost: nat, first: int, dropped: nat) {
    InOrder(delivered, first) && |delivered| + reported + lost + dropped == first
  }

  /** The frames carried the events of the delivered positions, one after the other. */
  ghost predicate Carried(delivered: seq<nat>, sent: seq<AgentIpEvent>, history: seq<AgentIpEvent>) {
    && |sent| == |delivered|
    && forall i :: 0 <= i < |sent| ==> delivered[i] < |history| && sent[i] == history[delivered[i]]
  }

  lemma CarriedOn(delivered: seq<nat>, sent: seq<AgentIpEvent>, history: seq<AgentIpEvent>, later: seq<AgentIpEvent>)
    requires Carried(delivered, sent, history) && history <= later
    ensures Carried(delivered, sent, later)
  {
  }

  lemma CarriedMore(delivered: seq<nat>, sent: seq<AgentIpEvent>, history: seq<AgentIpEvent>, at: nat, n: nat)
    requires Carried(delivered, sent, history) && at + n <= |history|
    ensures Carried(delivered + Range(at, n), sent + history[at..at + n], history)
  {
  }

  ghost predicate InOrder(delivered: seq<nat>, first: int) {
    && (forall i, j :: 0 <= i < j < |delivered| ==> delivered[i] < delivered[j])
    && (forall i :: 0 <= i < |delivered| ==> delivered[i] < first)
  }

  /** How many positions below n were never delivered. */
  ghost function Missing(delivered: seq<nat>, n: nat): nat {
    if n == 0 then 0 else Missing(delivered, n - 1) + if n - 1 in delivered then 0 else 1
  }

  lemma {:induction false} MissingNone(n: nat)
    ensures Missing([], n) == n
  {
    if n > 0 { MissingNone(n - 1); }
  }

  lemma {:induction false} MissingOne(delivered: seq<nat>, last: nat, n: nat)
    requires last !in delivered
    ensures Missing(delivered + [last], n) == Missing(delivered, n) - if last < n then 1 else 0
  {
    if n > 0 {
      MissingOne(delivered, last, n - 1);
      assert n - 1 in delivered + [last] <==> n - 1 in delivered || n - 1 == last;
    }
  }

  lemma {:induction false} MissingCount(delivered: seq<nat>, n: nat)
    requires InOrder(delivered, n)
    ensures Missing(delivered, n) == n - |delivered|
    decreases |delivered|
  {
    if delivered == [] {
      MissingNone(n);
    } else {
      var front, last := delivered[..|delivered| - 1], delivered[|delivered| - 1];
      MissingCount(front, n);
      MissingOne(front, last, n);
      assert delivered == front + [last];
    }
  }

  /** Balanced books mean that the events behind the queue that were never delivered are exactly as
      many as were counted as dropped or lost. */
  lemma MissingAreCounted(delivered: seq<nat>, reported: nat, lost: nat, first: nat, dropped: nat)
    requires Balanced(delivered, reported, lost, first, dropped)
    ensures Missing(delivered, first) == reported + lost + dropped
  {
    MissingCount(delivered, first);
  }

  ghost predicate Ledger(q: EventQueue, s: Session)
    reads q, q.items, s
  {
    && q.Valid() && q.Suffix() && Balanced(s.delivered, s.reported, s.lost, q.First(), q.dropped)
    && Carried(s.delivered, s.sent, q.history)
  }

  ghost predicate IsFull(q: EventQueue)
    reads q
  {
    q.len - q.head == q.capacity
  }

  /** One push of arbitrary events. It drops from the front only when it leaves the queue full. */
  method Other(q: EventQueue)
    requires q.Valid() && q.Suffix()
    modifies q, q.items
    ensures q.Valid() && q.Suffix() && (q.items == old(q.items) || fresh(q.items))
    ensures old(q.history) <= q.history
    ensures q.First() >= old(q.First()) && q.dropped - old(q.dropped) == q.First() - old(q.First())
    ensures q.First() > old(q.First()) || old(IsFull(q)) ==> IsFull(q)
  {
    var evts: seq<AgentIpEvent> := *;
    ghost var h, c := q.history, q.Contents();
    ghost var kept := q.Push(evts);
    PushSuffix(h, c, kept, q.capacity);
  }

  /** Any number of pushes between two steps. */
  method Others(q: EventQueue)
    requires q.Valid() && q.Suffix()
    modifies q, q.items
    ensures q.Valid() && q.Suffix() && (q.items == old(q.items) || fresh(q.items))
    ensures old(q.history) <= q.history
    ensures q.First() >= old(q.First()) && q.dropped - old(q.dropped) == q.First() - old(q.First())
    ensures q.First() > old(q.First()) || old(IsFull(q)) ==> IsFull(q)
  {
    var pushes: nat :| pushes >= 0;
    for i := 0 to pushes
      invariant q.Valid() && q.Suffix() && (q.items == old(q.items) || fresh(q.items))
      invariant old(q.history) <= q.history
      invariant q.First() >= old(q.First()) && q.dropped - old(q.dropped) == q.First() - old(q.First())
      invariant q.First() > old(q.First()) || old(IsFull(q)) ==> IsFull(q)
    {
      Other(q);
    }
  }

  /** The books while a flush holds a batch taken at position `at`, with the dropped count taken along:
      what was pushed since either left the batch next to the queue, or filled the queue up. */
  ghost predicate Held(q: EventQueue, s: Session, batch: seq<AgentIpEvent>, at: nat, count: nat)
    reads q, q.items, s
  {
    && q.Valid() && q.Suffix()
    && at + |batch| <= q.First() && batch == q.history[at..at + |batch|]
    && (q.First() > at + |batch| && batch != [] ==> q.len - q.head == q.capacity)
    && InOrder(s.delivered, at) && Carried(s.delivered, s.sent, q.history)
    && |s.delivered| + s.reported + s.lost + q.dropped + count + |batch| == q.First()
  }

  /** Pushes while a batch is held. */
  method OthersWhileHeld(s: Session, q: EventQueue, batch: seq<AgentIpEvent>, ghost at: nat, count: nat)
    requires Held(q, s, batch, at, count)
    modifies q, q.items
    ensures Held(q, s, batch, at, count) && (q.items == old(q.items) || fresh(q.items))
    ensures old(q.history) <= q.history && q.First() >= old(q.First())
  {
    ghost var history := q.history;
    Others(q);
    CarriedOn(s.delivered, s.sent, history, q.history);
    assert batch == q.history[at..at + |batch|];
  }

  /** PopBatch, when there is still something to send. */
  method TakeFront(s: Session, q: EventQueue, remaining: int, ghost before: nat, count: nat)
    returns (batch: seq<AgentIpEvent>, ghost at: nat)
    requires Held(q, s, [], before, count)
    modifies q, q.items
    ensures Held(q, s, batch, at, count) && q.items == old(q.items) && q.history == old(q.history)
    ensures |batch| <= EVENT_BATCH_MAX && (remaining <= 0 ==> batch == [])
    ensures q.First() == old(q.First()) + |batch|
    ensures remaining > 0 && batch == [] ==> q.First() == |q.history|
  {
    batch, at := [], q.First();
    if remaining > 0 {
      batch := q.PopBatch(EVENT_BATCH_MAX);
      PopSuffix(q.history, batch, q.Contents());
    }
  }

  /** TakeDropped and PopBatch. */
  method TakeBatch(s: Session, q: EventQueue, remaining: int)
    returns (batch: seq<AgentIpEvent>, ghost at: nat, count: nat)
    requires Ledger(q, s)
    modifies q, q.items
    ensures Held(q, s, batch, at, count) && (q.items == old(q.items) || fresh(q.items))
    ensures |old(q.history)| <= |q.history|
    ensures |batch| <= EVENT_BATCH_MAX && (remaining <= 0 ==> batch == [])
    ensures q.First() >= old(q.First()) + |batch|
    ensures remaining > 0 && batch == [] ==> q.First() >= |old(q.history)|
    ensures count >= old(q.dropped)
  {
    ghost var history := q.history;
    Others(q);
    CarriedOn(s.delivered, s.sent, history, q.history);
    ghost var before := q.First();
    count := q.TakeDropped();
    OthersWhileHeld(s, q, [], before, count);
    batch, at := TakeFront(s, q, remaining, before, count);
  }

  /** A failed send: the batch goes back, and if the queue filled up meanwhile it is dropped whole. */
  method GiveBack(s: Session, q: EventQueue, batch: seq<AgentIpEvent>, ghost at: nat, count: nat)
    requires Held(q, s, batch, at, count)
    modifies q, q.items
    ensures Ledger(q, s) && (q.items == old(q.items) || fresh(q.items)) && q.history == old(q.history)
    ensures q.First() >= old(q.First()) - |batch|
  {
    RequeueSuffix(q.history, batch, at, q.Contents(), q.capacity);
    q.Requeue(batch, count);
  }

  /** The send: the frame is out, or the batch is back in the queue. */
  method SendHeld(s: Session, q: EventQueue, batch: seq<AgentIpEvent>, ghost at: nat, count: nat) returns (ok: bool)
    requires Held(q, s, batch, at, count)
    modifies s, q, q.items
    ensures Ledger(q, s) && (q.items == old(q.items) || fresh(q.items)) && q.history == old(q.history)
    ensures s.delivered == old(s.delivered) + if ok then Range(at, |batch|) else []
    ensures old(s.sent) <= s.sent && s.frames <= old(s.frames) + 1 && s.lost == old(s.lost)
    ensures s.refusals == old(s.refusals) + if ok then 0 else 1
    ensures s.frames == old(s.frames) + (if ok then 1 else 0) && (ok ==> s.reported == old(s.reported) + count)
    ensures q.First() >= old(q.First()) - if ok then 0 else |batch|
  {
    CarriedMore(s.delivered, s.sent, q.history, at, |batch|);
    InOrderMore(s.delivered, at, |batch|);
    ok := s.SendSync(batch, count, at);
    if !ok { GiveBack(s, q, batch, at, count); }
  }

  lemma InOrderMore(delivered: seq<nat>, at: nat, n: nat)
    requires InOrder(delivered, at)
    ensures InOrder(delivered + Range(at, n), at + n)
  {
  }

  /** One round of the flush loop: at most one frame, and none when it cannot be marshalled. */
  method FlushRound(s: Session, q: EventQueue, remaining: int)
    returns (done: bool, ok: bool, n: nat)
    requires Ledger(q, s)
    modifies s, q, q.items
    ensures Ledger(q, s) && (q.items == old(q.items) || fresh(q.items)) && |q.history| >= |old(q.history)|
    ensures n <= EVENT_BATCH_MAX && (remaining <= 0 ==> n == 0) && (!done ==> ok && n > 0)
    ensures old(s.delivered) <= s.delivered && |s.delivered| <= |old(s.delivered)| + n
    ensures q.First() >= old(q.First()) + if ok then n else 0
    ensures done && ok && remaining > 0 ==> q.First() >= |old(q.history)|
    ensures old(s.sent) <= s.sent && s.frames <= old(s.frames) + 1
    ensures s.frames > old(s.frames) ==> s.reported >= old(s.reported) + old(q.dropped)
    ensures s.refusals >= old(s.refusals) && (s.refusals == old(s.refusals) ==> ok && s.lost == old(s.lost))
  {
    var batch, count;
    ghost var at;
    batch, at, count := TakeBatch(s, q, remaining);
    n := |batch|;
    OthersWhileHeld(s, q, batch, at, count);
    if n == 0 {
      GiveBack(s, q, batch, at, count);
      return true, true, 0;
    }
    done, ok := SendFrame(s, q, batch, at, count);
  }

  /** The frame of a batch: it is out, or cannot be marshalled, or the batch is back in the queue. */
  method SendFrame(s: Session, q: EventQueue, batch: seq<AgentIpEvent>, ghost at: nat, count: nat)
    returns (done: bool, ok: bool)
    requires Held(q, s, batch, at, count)
    modifies s, q, q.items
    ensures Ledger(q, s) && (q.items == old(q.items) || fresh(q.items)) && q.history == old(q.history)
    ensures done == !ok && q.First() >= old(q.First()) - if ok then 0 else |batch|
    ensures old(s.delivered) <= s.delivered && |s.delivered| <= |old(s.delivered)| + |batch|
    ensures old(s.sent) <= s.sent && s.frames <= old(s.frames) + 1
    ensures s.frames > old(s.frames) ==> s.reported == old(s.reported) + count
    ensures s.refusals >= old(s.refusals) && (s.refusals == old(s.refusals) ==> ok && s.lost == old(s.lost))
  {
    var marshalled := s.Marshal(batch, count);
    if !marshalled { return false, true; }
    ok := SendHeld(s, q, batch, at, count);
    done := !ok;
  }

  /** flushEventQueue, with other goroutines pushing between any two of its steps. It ends, takes at
      most one batch minus one event more than was queued when it started, and leaves the books
      balanced; a nil result means nothing queued at the start is still queued. */
  method FlushEventQueue(s: Session, q: EventQueue) returns (ok: bool, ghost popped: nat)
    requires Ledger(q, s)
    modifies s, q, q.items
    ensures Ledger(q, s) && (q.items == old(q.items) || fresh(q.items))
    ensures popped == 0 || popped <= old(q.len - q.head) + EVENT_BATCH_MAX - 1
    ensures old(s.delivered) <= s.delivered && |s.delivered| <= |old(s.delivered)| + popped
    ensures ok ==> q.First() >= |old(q.history)|
    ensures old(s.sent) <= s.sent
    ensures s.refusals >= old(s.refusals) && (s.refusals == old(s.refusals) ==> ok && s.lost == old(s.lost))
  {
    var remaining: int := q.len - q.head;
    popped := 0;
    while true
      invariant Ledger(q, s) && (q.items == old(q.items) || fresh(q.items)) && |q.history| >= |old(q.history)|
      invariant remaining == old(q.len - q.head) - popped
      invariant popped == 0 || remaining + EVENT_BATCH_MAX > 0
      invariant q.First() >= old(q.First()) + popped
      invariant old(s.delivered) <= s.delivered && |s.delivered| <= |old(s.delivered)| + popped
      invariant old(s.sent) <= s.sent && s.refusals >= old(s.refusals)
      invariant s.refusals == old(s.refusals) ==> s.lost == old(s.lost)
      decreases if remaining > 0 then remaining else 0
    {
      var done, n;
      done, ok, n := FlushRound(s, q, remaining);
      remaining := remaining - n;
      popped := popped + n;
      if done { return; }
    }
  }

  /** A push or a flush session. */
  method PushOrFlush(q: EventQueue, s: Session)
    requires Ledger(q, s)
    modifies s, q, q.items
    ensures Ledger(q, s) && (q.items == old(q.items) || fresh(q.items))
  {
    var flush: bool := *;
    if flush {
      var ok;
      ghost var popped;
      ok, popped := FlushEventQueue(s, q);
    } else {
      Others(q);
    }
  }

  /** Any run of pushes and flush sessions, failed sends and frames included: the books balance throughout.
      What was pushed is what was delivered, in push order and none twice, what is queued, and what is
      missing; and exactly as much is missing as was counted as dropped, in a frame or in the queue's
      counter, or was lost with a frame. */
  method Sessions(q: EventQueue, s: Session)
    requires Ledger(q, s)
    modifies s, q, q.items
    ensures Ledger(q, s) && (q.items == old(q.items) || fresh(q.items))
    ensures q.First() >= 0 && q.First() + |q.Contents()| == |q.history|
    ensures Missing(s.delivered, q.First()) == s.reported + s.lost + q.dropped
  {
    var steps: nat :| steps >= 0;
    for i := 0 to steps
      invariant Ledger(q, s) && (q.items == old(q.items) || fresh(q.items))
    {
      PushOrFlush(q, s);
    }
    MissingAreCounted(s.delivered, s.reported, s.lost, q.First(), q.dropped);
  }

  /** The books start balanced. */
  method FreshQueue(capacity: int) returns (q: EventQueue, s: Session)
    ensures fresh(q) && fresh(q.items) && fresh(s) && Ledger(q, s)
    ensures q.history == [] && s.delivered == [] && s.reported == 0 && s.lost == 0 && q.dropped == 0
  {
    q := new EventQueue(capacity);
    s := new Session();
  }
}
