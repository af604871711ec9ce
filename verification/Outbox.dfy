/**
 The event outbox of backend/module/ingestion/main.go: the ingest loop and the backfill worker share
 the events table and run concurrently.  Every database statement and every publish is one step.
 */
module Outbox {
  import opened Order

  /** Block height and event index. */
  type Key = (int, int)

  datatype Event = Event(key: Key, kind: string, payload: Bytes)

  datatype Row = Row(event: Event, published: bool)

  /** A published message: the event, or a pointer to its row when the encoded event is too large. */
  datatype Message = Full(event: Event) | Reference(key: Key)

  const PAYLOAD_THRESHOLD := 750 * 1024
  const BATCH := 100

  /** The ingest loop, between the statements of saveAndPublishEvent. */
  datatype Ingest = Idle | Saved(event: Event) | Sent(event: Event)

  /**
   The backfill worker, within a pass: its batch, how far it is, the table when the batch was read, how
   long the log was then, and whether every update so far succeeded.
   */
  datatype Pass = Pass(batch: seq<Event>, next: nat, before: map<Key, Row>, mark: nat, allMarked: bool)

  datatype Backfill = Waiting | Publishing(pass: Pass) | Marking(pass: Pass)

  datatype State = State(rows: map<Key, Row>, log: seq<Message>, ingest: Ingest, backfill: Backfill)

  function MessageKey(m: Message): Key {
    match m
    case Full(e) => e.key
    case Reference(k) => k
  }

  /** publishToNats, given the size of the encoded event. */
  function MessageFor(size: Event -> nat, e: Event): Message {
    if size(e) > PAYLOAD_THRESHOLD then Reference(e.key) else Full(e)
  }

  // ---------- The table ----------

  /** INSERT ... WHERE NOT EXISTS */
  function InsertIfAbsent(rows: map<Key, Row>, e: Event): map<Key, Row> {
    if e.key in rows then rows else rows[e.key := Row(e, false)]
  }

  /** UPDATE ... SET nats_published = true WHERE the key matches */
  function SetPublished(rows: map<Key, Row>, k: Key): map<Key, Row> {
    if k in rows then rows[k := rows[k].(published := true)] else rows
  }

  function Unpublished(rows: map<Key, Row>): set<Key> {
    set k | k in rows && !rows[k].published
  }

  predicate KeyLess(a: Key, b: Key) {
    a.0 < b.0 || (a.0 == b.0 && a.1 < b.1)
  }

  lemma KeyLessIsStrictTotal()
    ensures StrictTotal<Key>(KeyLess)
  {
  }

  function SortedKeysOf(keys: set<Key>): (r: seq<Key>)
    ensures |r| == |keys| && forall k :: k in r <==> k in keys
    ensures forall i, j :: 0 <= i < j < |r| ==> KeyLess(r[i], r[j])
  {
    KeyLessIsStrictTotal();
    Ascending(keys, KeyLess)
  }

  /** SELECT the unpublished rows ORDER BY height, index LIMIT 100 */
  function BatchKeys(rows: map<Key, Row>): seq<Key> {
    var all := SortedKeysOf(Unpublished(rows));
    if |all| <= BATCH then all else all[..BATCH]
  }

  function SelectBatch(rows: map<Key, Row>): seq<Event> {
    var keys := BatchKeys(rows);
    seq(|keys|, i requires 0 <= i < |keys| => BatchKeyInRows(rows, i); rows[keys[i]].event)
  }

  lemma BatchKeyInRows(rows: map<Key, Row>, i: nat)
    requires i < |BatchKeys(rows)|
    ensures BatchKeys(rows)[i] in rows && !rows[BatchKeys(rows)[i]].published
  {
    var all := SortedKeysOf(Unpublished(rows));
    assert all[i] in all;
  }

  // ---------- Steps ----------

  datatype Step =
    | Save(event: Event, ok: bool)
    | Publish(ok: bool)
    | Mark(ok: bool)
    | Query(ok: bool)
    | Republish(ok: bool)
    | Remark(ok: bool)

  /** One atomic step; a step that does not fit the state of its process does nothing. */
  function Next(size: Event -> nat, s: State, step: Step): State {
    match step
    case Save(e, ok) =>
      if s.ingest != Idle || !ok then s else s.(rows := InsertIfAbsent(s.rows, e), ingest := Saved(e))
    case Publish(ok) =>
      if !s.ingest.Saved? then s
      else if ok then s.(log := s.log + [MessageFor(size, s.ingest.event)], ingest := Sent(s.ingest.event))
      else s.(ingest := Idle)
    case Mark(ok) =>
      if !s.ingest.Sent? then s
      else s.(rows := if ok then SetPublished(s.rows, s.ingest.event.key) else s.rows, ingest := Idle)
    case Query(ok) =>
      if s.backfill != Waiting || !ok then s
      else s.(backfill := StartPass(s))
    case Republish(ok) =>
      if !s.backfill.Publishing? then s
      else
        var p := s.backfill.pass;
        if p.next >= |p.batch| || !ok then s.(backfill := Waiting)
        else s.(log := s.log + [MessageFor(size, p.batch[p.next])], backfill := Marking(p))
    case Remark(ok) =>
      if !s.backfill.Marking? || s.backfill.pass.next >= |s.backfill.pass.batch| then s
      else
        var p := s.backfill.pass;
        s.(rows := if ok then SetPublished(s.rows, p.batch[p.next].key) else s.rows,
           backfill := Publishing(p.(next := p.next + 1, allMarked := p.allMarked && ok)))
  }

  function StartPass(s: State): Backfill {
    Publishing(Pass(SelectBatch(s.rows), 0, s.rows, |s.log|, true))
  }

  function Run(size: Event -> nat, s: State, steps: seq<Step>): State
    decreases |steps|
  {
    if steps == [] then s else Run(size, Next(size, s, steps[0]), steps[1..])
  }

  // ---------- The invariant ----------

  ghost predicate WasPublished(log: seq<Message>, k: Key) {
    exists i :: 0 <= i < |log| && MessageKey(log[i]) == k
  }

  ghost predicate TableSound(s: State) {
    && (forall k :: k in s.rows ==> s.rows[k].event.key == k)
    && (forall k :: k in s.rows && s.rows[k].published ==> WasPublished(s.log, k))
  }

  ghost predicate IngestSound(s: State) {
    && (s.ingest.Saved? ==> s.ingest.event.key in s.rows)
    && (s.ingest.Sent? ==> s.ingest.event.key in s.rows && WasPublished(s.log, s.ingest.event.key))
  }

  /** The keys are the keys of some of the messages, in the same order. */
  ghost predicate SentInOrder(batch: seq<Event>, log: seq<Message>)
    decreases |batch| + |log|
  {
    batch == [] ||
    (log != [] &&
     (SentInOrder(batch, log[..|log| - 1]) ||
      (MessageKey(log[|log| - 1]) == batch[|batch| - 1].key && SentInOrder(batch[..|batch| - 1], log[..|log| - 1]))))
  }

  /** How many events of the batch have been published by the pass. */
  function Reached(b: Backfill): nat
    requires !b.Waiting?
  {
    b.pass.next + (if b.Marking? then 1 else 0)
  }

  ghost predicate PassSound(s: State) {
    !s.backfill.Waiting? ==>
      var p := s.backfill.pass;
      && (forall k :: k in p.before ==> p.before[k].event.key == k)
      && p.batch == SelectBatch(p.before)
      && Reached(s.backfill) <= |p.batch| && p.mark <= |s.log|
      && (forall k :: k in p.before ==> k in s.rows && (p.before[k].published ==> s.rows[k].published))
      && SentInOrder(p.batch[..Reached(s.backfill)], s.log[p.mark..])
      && (p.allMarked ==> forall i :: 0 <= i < p.next ==> p.batch[i].key in s.rows && s.rows[p.batch[i].key].published)
  }

  ghost predicate Invariant(s: State) {
    TableSound(s) && IngestSound(s) && PassSound(s)
  }

  lemma LogGrows(log: seq<Message>, m: Message)
    ensures forall k :: WasPublished(log, k) ==> WasPublished(log + [m], k)
    ensures WasPublished(log + [m], MessageKey(m))
  {
    forall k | WasPublished(log, k)
      ensures WasPublished(log + [m], k)
    {
      var i :| 0 <= i < |log| && MessageKey(log[i]) == k;
      assert (log + [m])[i] == log[i];
    }
    assert (log + [m])[|log|] == m;
  }

  lemma SentMore(batch: seq<Event>, log: seq<Message>, m: Message)
    requires SentInOrder(batch, log)
    ensures SentInOrder(batch, log + [m])
  {
    assert (log + [m])[..|log|] == log;
  }

  lemma SentNext(batch: seq<Event>, e: Event, log: seq<Message>, m: Message)
    requires SentInOrder(batch, log) && MessageKey(m) == e.key
    ensures SentInOrder(batch + [e], log + [m])
  {
    assert (log + [m])[..|log|] == log && (batch + [e])[..|batch|] == batch;
  }

  lemma SelectBatchKeys(rows: map<Key, Row>)
    requires forall k :: k in rows ==> rows[k].event.key == k
    ensures |SelectBatch(rows)| == |BatchKeys(rows)|
    ensures forall i :: 0 <= i < |SelectBatch(rows)| ==>
              SelectBatch(rows)[i].key == BatchKeys(rows)[i] && BatchKeys(rows)[i] in rows
  {
    hide BatchKeys;
    forall i | 0 <= i < |BatchKeys(rows)|
      ensures BatchKeys(rows)[i] in rows && SelectBatch(rows)[i].key == BatchKeys(rows)[i]
    {
      BatchKeyInRows(rows, i);
    }
  }

  /** A step of the ingest loop, or of the worker's updates, keeps what the worker relies on. */
  lemma PassKept(s: State, s': State)
    requires PassSound(s) && s'.backfill == s.backfill
    requires forall k :: k in s.rows ==> k in s'.rows && (s.rows[k].published ==> s'.rows[k].published)
    requires s'.log == s.log || (|s'.log| == |s.log| + 1 && s'.log[..|s.log|] == s.log)
    ensures PassSound(s')
  {
    hide SelectBatch;
    if !s.backfill.Waiting? && s'.log != s.log {
      var p := s.backfill.pass;
      var m := s'.log[|s.log|];
      assert s'.log[p.mark..] == s.log[p.mark..] + [m];
      SentMore(p.batch[..Reached(s.backfill)], s.log[p.mark..], m);
    }
  }

  lemma RowsGrow(s: State, step: Step, size: Event -> nat)
    requires TableSound(s)
    ensures var s' := Next(size, s, step);
            && (forall k :: k in s.rows ==> k in s'.rows && (s.rows[k].published ==> s'.rows[k].published))
            && (forall k :: k in s'.rows ==> s'.rows[k].event.key == k)
            && s.log <= s'.log
  {
    hide SelectBatch;
  }

  lemma IngestKeeps(size: Event -> nat, s: State, step: Step)
    requires Invariant(s) && (step.Save? || step.Publish? || step.Mark?)
    ensures Invariant(Next(size, s, step))
  {
    hide SelectBatch, PassSound, WasPublished;
    var s' := Next(size, s, step);
    RowsGrow(s, step, size);
    if step.Publish? && s.ingest.Saved? && step.ok {
      LogGrows(s.log, MessageFor(size, s.ingest.event));
      assert s'.log[..|s.log|] == s.log;
    }
    PassKept(s, s');
  }

  lemma QueryKeeps(size: Event -> nat, s: State, step: Step)
    requires Invariant(s) && step.Query?
    ensures Invariant(Next(size, s, step))
  {
    hide SelectBatch, WasPublished;
    var s' := Next(size, s, step);
    if s' != s {
      assert s'.backfill.pass.batch[..0] == [];
    }
  }

  lemma RepublishKeeps(size: Event -> nat, s: State, step: Step)
    requires Invariant(s) && step.Republish?
    ensures Invariant(Next(size, s, step))
  {
    hide SelectBatch, WasPublished;
    var s' := Next(size, s, step);
    if s.backfill.Publishing? && s.backfill.pass.next < |s.backfill.pass.batch| && step.ok {
      var p := s.backfill.pass;
      var e := p.batch[p.next];
      var m := MessageFor(size, e);
      LogGrows(s.log, m);
      assert s'.log[p.mark..] == s.log[p.mark..] + [m];
      assert p.batch[..p.next + 1] == p.batch[..p.next] + [e];
      SentNext(p.batch[..p.next], e, s.log[p.mark..], m);
    }
  }

  lemma {:induction false} SentArePublished(batch: seq<Event>, log: seq<Message>, i: nat)
    requires SentInOrder(batch, log) && i < |batch|
    ensures WasPublished(log, batch[i].key)
    decreases |batch| + |log|
  {
    var shorter := log[..|log| - 1];
    if SentInOrder(batch, shorter) {
      SentArePublished(batch, shorter, i);
      LogGrows(shorter, log[|log| - 1]);
      assert shorter + [log[|log| - 1]] == log;
    } else if i == |batch| - 1 {
      assert MessageKey(log[|log| - 1]) == batch[i].key;
    } else {
      SentArePublished(batch[..|batch| - 1], shorter, i);
      LogGrows(shorter, log[|log| - 1]);
      assert shorter + [log[|log| - 1]] == log;
    }
  }

  lemma SuffixPublished(log: seq<Message>, mark: nat, k: Key)
    requires mark <= |log| && WasPublished(log[mark..], k)
    ensures WasPublished(log, k)
  {
    var i :| 0 <= i < |log[mark..]| && MessageKey(log[mark..][i]) == k;
    assert log[mark + i] == log[mark..][i];
  }

  lemma RemarkKeeps(size: Event -> nat, s: State, step: Step)
    requires Invariant(s) && step.Remark?
    ensures Invariant(Next(size, s, step))
  {
    hide SelectBatch, WasPublished, SentInOrder;
    var s' := Next(size, s, step);
    if s.backfill.Marking? && s.backfill.pass.next < |s.backfill.pass.batch| {
      var p := s.backfill.pass;
      SentArePublished(p.batch[..p.next + 1], s.log[p.mark..], p.next);
      SuffixPublished(s.log, p.mark, p.batch[p.next].key);
      BatchInRows(p.before);
      assert p.batch[p.next].key in s.rows;
    }
  }

  lemma BatchInRows(rows: map<Key, Row>)
    requires forall k :: k in rows ==> rows[k].event.key == k
    ensures forall i :: 0 <= i < |SelectBatch(rows)| ==> SelectBatch(rows)[i].key in rows
  {
    hide SelectBatch, BatchKeys;
    SelectBatchKeys(rows);
  }

  lemma StepKeeps(size: Event -> nat, s: State, step: Step)
    requires Invariant(s)
    ensures Invariant(Next(size, s, step))
  {
    hide Invariant, Next;
    match step {
      case Save(_, _) => IngestKeeps(size, s, step);
      case Publish(_) => IngestKeeps(size, s, step);
      case Mark(_) => IngestKeeps(size, s, step);
      case Query(_) => QueryKeeps(size, s, step);
      case Republish(_) => RepublishKeeps(size, s, step);
      case Remark(_) => RemarkKeeps(size, s, step);
    }
  }

  /**
   Under every interleaving and every pattern of failures: a flagged row was published; rows and
   messages are never lost and flags never reset; and whatever the worker has published in its pass so
   far is a prefix of its batch, in order.
   */
  lemma {:induction false} RunKeeps(size: Event -> nat, s: State, steps: seq<Step>)
    requires Invariant(s)
    ensures var s' := Run(size, s, steps);
            && Invariant(s')
            && (forall k :: k in s'.rows && s'.rows[k].published ==> WasPublished(s'.log, k))
            && (forall k :: k in s.rows ==> k in s'.rows && (s.rows[k].published ==> s'.rows[k].published))
            && s.log <= s'.log
            && (!s'.backfill.Waiting? ==>
                  SentInOrder(s'.backfill.pass.batch[..Reached(s'.backfill)], s'.log[s'.backfill.pass.mark..]))
    decreases |steps|
  {
    hide Next, WasPublished, SentInOrder, SelectBatch;
    if steps == [] {
    } else {
      StepKeeps(size, s, steps[0]);
      RowsGrow(s, steps[0], size);
      RunKeeps(size, Next(size, s, steps[0]), steps[1..]);
    }
  }

  // ---------- Progress ----------

  /** The batch is the unpublished rows with the lowest keys, at most 100 of them, in increasing order. */
  lemma BatchIsLowest(rows: map<Key, Row>)
    requires forall k :: k in rows ==> rows[k].event.key == k
    ensures var batch := SelectBatch(rows);
            && |batch| == (if |Unpublished(rows)| <= 100 then |Unpublished(rows)| else 100)
            && (forall i, j :: 0 <= i < j < |batch| ==> KeyLess(batch[i].key, batch[j].key))
            && (forall i :: 0 <= i < |batch| ==> batch[i].key in Unpublished(rows))
            && (forall k, i :: k in Unpublished(rows) && 0 <= i < |batch| && KeyLess(k, batch[i].key) ==>
                  exists j :: 0 <= j < i && batch[j].key == k)
  {
    hide SelectBatch, Unpublished, BatchKeys, KeyLess;
    SelectBatchKeys(rows);
    BatchKeysAreLowest(rows);
    var keys, batch := BatchKeys(rows), SelectBatch(rows);
    forall k, i | k in Unpublished(rows) && 0 <= i < |batch| && KeyLess(k, batch[i].key)
      ensures exists j :: 0 <= j < i && batch[j].key == k
    {
      var j :| 0 <= j < i && keys[j] == k;
      assert batch[j].key == k;
    }
  }

  lemma BatchKeysAreLowest(rows: map<Key, Row>)
    ensures var keys := BatchKeys(rows);
            && |keys| == (if |Unpublished(rows)| <= 100 then |Unpublished(rows)| else 100)
            && (forall i, j :: 0 <= i < j < |keys| ==> KeyLess(keys[i], keys[j]))
            && (forall i :: 0 <= i < |keys| ==> keys[i] in Unpublished(rows))
            && (forall k, i :: k in Unpublished(rows) && 0 <= i < |keys| && KeyLess(k, keys[i]) ==>
                  exists j :: 0 <= j < i && keys[j] == k)
  {
    hide SortedKeysOf, Unpublished, KeyLess;
    var all, keys := SortedKeysOf(Unpublished(rows)), BatchKeys(rows);
    assert forall i :: 0 <= i < |keys| ==> keys[i] == all[i] && all[i] in all;
    forall k, i | k in Unpublished(rows) && 0 <= i < |keys| && KeyLess(k, keys[i])
      ensures exists j :: 0 <= j < i && keys[j] == k
    {
      assert k in all;
      var j :| 0 <= j < |all| && all[j] == k;
      LowerIsEarlier(all, j, i);
      assert keys[j] == k;
    }
  }

  lemma LowerIsEarlier(all: seq<Key>, j: nat, i: nat)
    requires i < |all| && j < |all|
    requires forall a, b :: 0 <= a < b < |all| ==> KeyLess(all[a], all[b])
    requires KeyLess(all[j], all[i])
    ensures j < i
  {
  }

  ghost function BatchKeySet(batch: seq<Event>): set<Key> {
    set i | 0 <= i < |batch| :: batch[i].key
  }

  lemma {:induction false} BatchKeySetSize(batch: seq<Event>)
    requires forall i, j :: 0 <= i < j < |batch| ==> KeyLess(batch[i].key, batch[j].key)
    ensures |BatchKeySet(batch)| == |batch|
  {
    if batch == [] {
      assert BatchKeySet(batch) == {};
    } else {
      var n := |batch| - 1;
      BatchKeySetSize(batch[..n]);
      assert BatchKeySet(batch) == BatchKeySet(batch[..n]) + {batch[n].key} by {
        assert forall i :: 0 <= i < n ==> batch[..n][i] == batch[i];
      }
      assert batch[n].key !in BatchKeySet(batch[..n]);
    }
  }

  /**
   A pass that reaches the end of its batch with every update successful has flagged the whole batch,
   whatever ran in between: of the rows that existed when it started, at least 100 fewer, or none,
   are unpublished.
   */
  lemma CompletePassShrinks(s: State)
    requires Invariant(s) && s.backfill.Publishing?
    requires s.backfill.pass.next == |s.backfill.pass.batch| && s.backfill.pass.allMarked
    ensures var before := s.backfill.pass.before;
            var remaining := Unpublished(s.rows) * before.Keys;
            && remaining <= Unpublished(before) - BatchKeySet(s.backfill.pass.batch)
            && |remaining| <= (if |Unpublished(before)| <= 100 then 0 else |Unpublished(before)| - 100)
  {
    hide SelectBatch, WasPublished, SentInOrder;
    var p := s.backfill.pass;
    BatchIsLowest(p.before);
    BatchKeySetSize(p.batch);
    var remaining := Unpublished(s.rows) * p.before.Keys;
    var rest := Unpublished(p.before) - BatchKeySet(p.batch);
    assert remaining <= rest;
    assert BatchKeySet(p.batch) <= Unpublished(p.before);
    assert |rest| == |Unpublished(p.before)| - |p.batch|;
    SmallerSet(remaining, rest);
  }

  lemma SmallerSet(a: set<Key>, b: set<Key>)
    requires a <= b
    ensures |a| <= |b|
  {
    assert b == a + (b - a);
  }

  /** The rows after the updates of a prefix of a batch, of which some fail. */
  function FlagSome(rows: map<Key, Row>, batch: seq<Event>, markOk: seq<bool>): map<Key, Row>
    requires |batch| <= |markOk|
    decreases |batch|
  {
    if batch == [] then rows
    else
      var n := |batch| - 1;
      var before := FlagSome(rows, batch[..n], markOk);
      if markOk[n] then SetPublished(before, batch[n].key) else before
  }

  lemma FlagNone(rows: map<Key, Row>, markOk: seq<bool>)
    ensures FlagSome(rows, [], markOk) == rows
  {
  }

  lemma FlagOneMore(rows: map<Key, Row>, batch: seq<Event>, e: Event, markOk: seq<bool>)
    requires |batch| < |markOk|
    ensures FlagSome(rows, batch + [e], markOk)
         == if markOk[|batch|] then SetPublished(FlagSome(rows, batch, markOk), e.key)
            else FlagSome(rows, batch, markOk)
  {
    assert (batch + [e])[..|batch|] == batch;
  }

  /** The updates touch only the flags, and flag exactly the rows whose own update succeeded. */
  lemma {:induction false} FlagSomeEffect(rows: map<Key, Row>, batch: seq<Event>, markOk: seq<bool>)
    requires |batch| <= |markOk|
    ensures var rows' := FlagSome(rows, batch, markOk);
            && rows'.Keys == rows.Keys
            && (forall k :: k in rows ==> rows'[k].event == rows[k].event)
            && (forall k :: k in Unpublished(rows') <==> k in Unpublished(rows) && !Flagged(batch, markOk, k))
    decreases |batch|
  {
    if batch == [] {
    } else {
      var n := |batch| - 1;
      FlagSomeEffect(rows, batch[..n], markOk);
      forall k
        ensures Flagged(batch, markOk, k) <==> Flagged(batch[..n], markOk, k) || (batch[n].key == k && markOk[n])
      {
        FlaggedNext(batch[..n], batch[n], markOk, k);
        assert batch == batch[..n] + [batch[n]];
      }
    }
  }

  /** The update of some event with this key succeeded. */
  predicate Flagged(batch: seq<Event>, markOk: seq<bool>, k: Key)
    requires |batch| <= |markOk|
  {
    exists i :: 0 <= i < |batch| && batch[i].key == k && markOk[i]
  }

  lemma FlaggedNext(batch: seq<Event>, e: Event, markOk: seq<bool>, k: Key)
    requires |batch| < |markOk|
    ensures Flagged(batch + [e], markOk, k) <==> Flagged(batch, markOk, k) || (e.key == k && markOk[|batch|])
  {
    if Flagged(batch, markOk, k) {
      var i :| 0 <= i < |batch| && batch[i].key == k && markOk[i];
      assert (batch + [e])[i].key == k;
    }
    if e.key == k && markOk[|batch|] {
      assert (batch + [e])[|batch|].key == k;
    }
  }

  /** The steps of a pass alone: the query, then n published rows with the given update outcomes. */
  function PassSteps(markOk: seq<bool>, n: nat): seq<Step>
    requires n <= |markOk|
    decreases n
  {
    if n == 0 then [Query(true)] else PassSteps(markOk, n - 1) + [Republish(true), Remark(markOk[n - 1])]
  }

  function Messages(size: Event -> nat, batch: seq<Event>): seq<Message> {
    seq(|batch|, i requires 0 <= i < |batch| => MessageFor(size, batch[i]))
  }

  lemma {:induction false} RunAppend(size: Event -> nat, s: State, a: seq<Step>, b: seq<Step>)
    ensures Run(size, s, a + b) == Run(size, Run(size, s, a), b)
    decreases |a|
  {
    hide Next;
    if a == [] {
      assert a + b == b;
    } else {
      assert (a + b)[0] == a[0] && (a + b)[1..] == a[1..] + b;
      RunAppend(size, Next(size, s, a[0]), a[1..], b);
    }
  }

  /** What a pass that nothing interrupts does to the table and the stream, row by row. */
  lemma {:induction false} PassAlone(size: Event -> nat, s: State, markOk: seq<bool>, n: nat)
    requires s.backfill.Waiting? && n <= |SelectBatch(s.rows)| && n <= |markOk|
    ensures var batch := SelectBatch(s.rows);
            var s' := Run(size, s, PassSteps(markOk, n));
            && s'.rows == FlagSome(s.rows, batch[..n], markOk)
            && s'.log == s.log + Messages(size, batch[..n])
            && s'.ingest == s.ingest
            && s'.backfill == Publishing(Pass(batch, n, s.rows, |s.log|, forall i :: 0 <= i < n ==> markOk[i]))
    decreases n
  {
    hide SelectBatch, SetPublished, MessageFor, FlagSome;
    var batch := SelectBatch(s.rows);
    if n == 0 {
      OneStep(size, s, Query(true));
      assert batch[..0] == [];
      FlagNone(s.rows, markOk);
    } else {
      PassAlone(size, s, markOk, n - 1);
      var s1 := Run(size, s, PassSteps(markOk, n - 1));
      RunAppend(size, s, PassSteps(markOk, n - 1), [Republish(true), Remark(markOk[n - 1])]);
      TwoSteps(size, s1, Republish(true), Remark(markOk[n - 1]));
      assert batch[..n] == batch[..n - 1] + [batch[n - 1]];
      FlagOneMore(s.rows, batch[..n - 1], batch[n - 1], markOk);
    }
  }

  lemma OneStep(size: Event -> nat, s: State, a: Step)
    ensures Run(size, s, [a]) == Next(size, s, a)
  {
    hide Next;
    assert Run(size, Next(size, s, a), [a][1..]) == Next(size, s, a);
  }

  lemma TwoSteps(size: Event -> nat, s: State, a: Step, b: Step)
    ensures Run(size, s, [a, b]) == Next(size, Next(size, s, a), b)
  {
    hide Next;
    assert [a, b][1..] == [b];
    OneStep(size, Next(size, s, a), b);
  }

  /** The rows after n passes in which nothing fails and no row is added. */
  function Passes(rows: map<Key, Row>, n: nat): map<Key, Row>
    decreases n
  {
    if n == 0 then rows
    else Passes(FlagSome(rows, SelectBatch(rows), AllTrue(|SelectBatch(rows)|)), n - 1)
  }

  function AllTrue(n: nat): seq<bool> {
    seq(n, _ => true)
  }

  lemma OnePass(rows: map<Key, Row>)
    requires forall k :: k in rows ==> rows[k].event.key == k
    ensures var rows' := FlagSome(rows, SelectBatch(rows), AllTrue(|SelectBatch(rows)|));
            && (forall k :: k in rows' ==> rows'[k].event.key == k)
            && |Unpublished(rows')| == (if |Unpublished(rows)| <= 100 then 0 else |Unpublished(rows)| - 100)
  {
    hide FlagSome, Unpublished, SelectBatch, KeyLess;
    var batch := SelectBatch(rows);
    var rows' := FlagSome(rows, batch, AllTrue(|batch|));
    FlagSomeEffect(rows, batch, AllTrue(|batch|));
    FlagAllUnpublished(rows, batch);
    BatchCounts(rows);
  }

  lemma FlagAllUnpublished(rows: map<Key, Row>, batch: seq<Event>)
    ensures Unpublished(FlagSome(rows, batch, AllTrue(|batch|))) == Unpublished(rows) - BatchKeySet(batch)
  {
    hide FlagSome, Unpublished;
    FlagSomeEffect(rows, batch, AllTrue(|batch|));
  }

  lemma BatchCounts(rows: map<Key, Row>)
    requires forall k :: k in rows ==> rows[k].event.key == k
    ensures |Unpublished(rows) - BatchKeySet(SelectBatch(rows))|
         == (if |Unpublished(rows)| <= 100 then 0 else |Unpublished(rows)| - 100)
  {
    hide Unpublished, SelectBatch, KeyLess;
    BatchIsLowest(rows);
    BatchKeySetSize(SelectBatch(rows));
    assert BatchKeySet(SelectBatch(rows)) <= Unpublished(rows);
  }

  /** Successful passes with no new rows publish everything: n passes clear up to 100 * n rows. */
  lemma {:induction false} PassesClear(rows: map<Key, Row>, n: nat)
    requires forall k :: k in rows ==> rows[k].event.key == k
    ensures |Unpublished(Passes(rows, n))| ==
              (if |Unpublished(rows)| <= 100 * n then 0 else |Unpublished(rows)| - 100 * n)
    decreases n
  {
    hide FlagSome, Unpublished, SelectBatch;
    if n == 0 {
    } else {
      OnePass(rows);
      PassesClear(FlagSome(rows, SelectBatch(rows), AllTrue(|SelectBatch(rows)|)), n - 1);
    }
  }

  /** The steps of n passes alone: each publishes and flags its whole batch and then finds its end. */
  function QuietSteps(rows: map<Key, Row>, n: nat): seq<Step>
    decreases n
  {
    if n == 0 then []
    else
      var b := |SelectBatch(rows)|;
      PassSteps(AllTrue(b), b) + [Republish(true)] + QuietSteps(FlagSome(rows, SelectBatch(rows), AllTrue(b)), n - 1)
  }

  lemma QuietPass(size: Event -> nat, s: State)
    requires s.backfill.Waiting?
    ensures var b := |SelectBatch(s.rows)|;
            Run(size, s, PassSteps(AllTrue(b), b) + [Republish(true)]) ==
            State(FlagSome(s.rows, SelectBatch(s.rows), AllTrue(b)), s.log + Messages(size, SelectBatch(s.rows)),
                  s.ingest, Waiting)
  {
    hide SelectBatch, FlagSome, MessageFor;
    var batch := SelectBatch(s.rows);
    PassAlone(size, s, AllTrue(|batch|), |batch|);
    assert batch[..|batch|] == batch;
    var s1 := Run(size, s, PassSteps(AllTrue(|batch|), |batch|));
    RunAppend(size, s, PassSteps(AllTrue(|batch|), |batch|), [Republish(true)]);
    OneStep(size, s1, Republish(true));
  }

  /** n uninterrupted passes of the step machine clear up to 100 * n rows. */
  lemma {:induction false} QuietRunClears(size: Event -> nat, s: State, n: nat)
    requires s.backfill.Waiting? && forall k :: k in s.rows ==> s.rows[k].event.key == k
    ensures var s' := Run(size, s, QuietSteps(s.rows, n));
            && s'.rows == Passes(s.rows, n) && s'.backfill.Waiting? && s'.ingest == s.ingest
            && |Unpublished(s'.rows)| ==
                 (if |Unpublished(s.rows)| <= 100 * n then 0 else |Unpublished(s.rows)| - 100 * n)
    decreases n
  {
    hide SelectBatch, FlagSome, Unpublished, Messages;
    if n == 0 {
    } else {
      var b := |SelectBatch(s.rows)|;
      var once := PassSteps(AllTrue(b), b) + [Republish(true)];
      var s1 := Run(size, s, once);
      QuietPass(size, s);
      OnePass(s.rows);
      QuietRunClears(size, s1, n - 1);
      RunAppend(size, s, once, QuietSteps(s1.rows, n - 1));
      PassesClear(s.rows, n);
    }
  }

  // ---------- Whose event was sent ----------

  const START: State := State(map[], [], Idle, Waiting)

  ghost predicate WasSent(size: Event -> nat, log: seq<Message>, e: Event) {
    MessageFor(size, e) in log
  }

  /** The event stored in every flagged row has been published, not merely some event with its key. */
  ghost predicate FlaggedWereSent(size: Event -> nat, s: State) {
    forall k :: k in s.rows && s.rows[k].published ==> WasSent(size, s.log, s.rows[k].event)
  }

  ghost predicate IngestAgrees(size: Event -> nat, s: State) {
    !s.ingest.Idle? ==>
      var e := s.ingest.event;
      && e.key in s.rows && MessageFor(size, s.rows[e.key].event) == MessageFor(size, e)
      && (s.ingest.Sent? ==> WasSent(size, s.log, e))
  }

  ghost predicate BatchAgrees(size: Event -> nat, s: State) {
    !s.backfill.Waiting? ==>
      var p := s.backfill.pass;
      && (forall i :: 0 <= i < |p.batch| ==> p.batch[i].key in s.rows && s.rows[p.batch[i].key].event == p.batch[i])
      && (s.backfill.Marking? && p.next < |p.batch| ==> WasSent(size, s.log, p.batch[p.next]))
  }

  ghost predicate EventsSound(size: Event -> nat, s: State) {
    && (forall k :: k in s.rows ==> s.rows[k].event.key == k)
    && FlaggedWereSent(size, s) && IngestAgrees(size, s) && BatchAgrees(size, s)
  }

  lemma BatchAgreesAtStart(rows: map<Key, Row>)
    requires forall k :: k in rows ==> rows[k].event.key == k
    ensures forall i :: 0 <= i < |SelectBatch(rows)| ==>
              SelectBatch(rows)[i].key in rows && rows[SelectBatch(rows)[i].key].event == SelectBatch(rows)[i]
  {
    hide BatchKeys;
    SelectBatchKeys(rows);
  }

  lemma IngestKeepsEvents(size: Event -> nat, s: State, step: Step)
    requires EventsSound(size, s) && (step.Publish? || step.Mark?)
    ensures EventsSound(size, Next(size, s, step))
  {
    hide SelectBatch, MessageFor;
  }

  lemma SaveKeepsEvents(size: Event -> nat, s: State, step: Step)
    requires EventsSound(size, s) && step.Save?
    requires step.event.key in s.rows ==> MessageFor(size, s.rows[step.event.key].event) == MessageFor(size, step.event)
    ensures EventsSound(size, Next(size, s, step))
  {
    hide SelectBatch, MessageFor;
  }

  lemma BackfillKeepsEvents(size: Event -> nat, s: State, step: Step)
    requires EventsSound(size, s) && (step.Query? || step.Republish? || step.Remark?)
    ensures EventsSound(size, Next(size, s, step))
  {
    hide SelectBatch, MessageFor;
    if step.Query? {
      BatchAgreesAtStart(s.rows);
    }
  }

  lemma EventsStay(size: Event -> nat, s: State, step: Step)
    ensures var s' := Next(size, s, step);
            forall k :: k in s'.rows ==>
              (k in s.rows && s'.rows[k].event == s.rows[k].event) || (step.Save? && s'.rows[k].event == step.event)
  {
    hide SelectBatch, MessageFor;
  }

  /** A step keeps the events sound if an event saved under a stored key has the stored event's message. */
  lemma StepKeepsEvents(size: Event -> nat, s: State, step: Step)
    requires EventsSound(size, s)
    requires step.Save? && step.event.key in s.rows ==>
               MessageFor(size, s.rows[step.event.key].event) == MessageFor(size, step.event)
    ensures EventsSound(size, Next(size, s, step))
  {
    hide EventsSound, Next, MessageFor;
    match step {
      case Save(_, _) => SaveKeepsEvents(size, s, step);
      case Publish(_) => IngestKeepsEvents(size, s, step);
      case Mark(_) => IngestKeepsEvents(size, s, step);
      case Query(_) => BackfillKeepsEvents(size, s, step);
      case Republish(_) => BackfillKeepsEvents(size, s, step);
      case Remark(_) => BackfillKeepsEvents(size, s, step);
    }
  }

  /** Only these events are saved. */
  ghost predicate SavesFrom(steps: seq<Step>, events: iset<Event>) {
    forall i :: 0 <= i < |steps| && steps[i].Save? ==> steps[i].event in events
  }

  /** Events with the same height and index are published as the same message. */
  ghost predicate Compatible(size: Event -> nat, events: iset<Event>) {
    forall e, f :: e in events && f in events && e.key == f.key ==> MessageFor(size, e) == MessageFor(size, f)
  }

  /** Two events of one height and index agree only as the same event, or as two that are too large to be sent. */
  lemma CompatibleMeaning(size: Event -> nat, events: iset<Event>)
    ensures Compatible(size, events) <==>
              forall e, f :: e in events && f in events && e.key == f.key ==>
                e == f || (size(e) > 768_000 && size(f) > 768_000)
  {
    forall e, f | e in events && f in events && e.key == f.key
      ensures MessageFor(size, e) == MessageFor(size, f) <==>
                e == f || (size(e) > 768_000 && size(f) > 768_000)
    {
    }
  }

  lemma {:induction false} RunKeepsEvents(size: Event -> nat, s: State, steps: seq<Step>, events: iset<Event>)
    requires EventsSound(size, s) && Compatible(size, events) && SavesFrom(steps, events)
    requires forall k :: k in s.rows ==> s.rows[k].event in events
    ensures EventsSound(size, Run(size, s, steps))
    decreases |steps|
  {
    hide Next, EventsSound, MessageFor;
    if steps == [] {
    } else {
      assert forall i :: 0 <= i < |steps[1..]| ==> steps[1..][i] == steps[i + 1];
      KeyedRows(size, s);
      StepKeepsEvents(size, s, steps[0]);
      EventsStay(size, s, steps[0]);
      RunKeepsEvents(size, Next(size, s, steps[0]), steps[1..], events);
    }
  }

  lemma KeyedRows(size: Event -> nat, s: State)
    requires EventsSound(size, s)
    ensures forall k :: k in s.rows ==> s.rows[k].event.key == k
  {
  }

  lemma SoundFlags(size: Event -> nat, s: State)
    requires EventsSound(size, s)
    ensures FlaggedWereSent(size, s)
  {
  }

  /** An event that failed to be published, then another one saved under its key and published. */
  function Overtaken(e: Event, f: Event): seq<Step> {
    [Save(e, true), Publish(false), Save(f, true), Publish(true), Mark(true)]
  }

  lemma OvertakenEventIsLost(size: Event -> nat, e: Event, f: Event)
    requires e.key == f.key && MessageFor(size, e) != MessageFor(size, f)
    ensures var s := Run(size, START, Overtaken(e, f));
            && s == State(map[e.key := Row(e, true)], [MessageFor(size, f)], Idle, Waiting)
            && Unpublished(s.rows) == {} && !FlaggedWereSent(size, s)
  {
    hide MessageFor;
    var s2 := State(map[e.key := Row(e, false)], [], Idle, Waiting);
    assert Next(size, Next(size, START, Save(e, true)), Publish(false)) == s2;
    var s5 := Next(size, Next(size, Next(size, s2, Save(f, true)), Publish(true)), Mark(true));
    assert s5 == State(map[e.key := Row(e, true)], [MessageFor(size, f)], Idle, Waiting);
    TwoSteps(size, START, Save(e, true), Publish(false));
    ThreeSteps(size, s2, Save(f, true), Publish(true), Mark(true));
    RunAppend(size, START, [Save(e, true), Publish(false)], [Save(f, true), Publish(true), Mark(true)]);
    assert [Save(e, true), Publish(false)] + [Save(f, true), Publish(true), Mark(true)] == Overtaken(e, f);
    assert s5.rows[e.key].published && s5.rows[e.key].event == e;
  }

  /**
   Under every interleaving and every pattern of failures each flagged row's own event has been published,
   if and only if the chain never delivers two events of the same height and index that are published as
   different messages.
   */
  lemma FlaggedWereSentIff(size: Event -> nat, events: iset<Event>)
    ensures (forall steps :: SavesFrom(steps, events) ==> FlaggedWereSent(size, Run(size, START, steps)))
       <==> Compatible(size, events)
  {
    hide MessageFor, Run, EventsSound, FlaggedWereSent;
    if Compatible(size, events) {
      forall steps | SavesFrom(steps, events)
        ensures FlaggedWereSent(size, Run(size, START, steps))
      {
        StartIsSound(size);
        RunKeepsEvents(size, START, steps, events);
        SoundFlags(size, Run(size, START, steps));
      }
    } else {
      var e, f :| e in events && f in events && e.key == f.key && MessageFor(size, e) != MessageFor(size, f);
      OvertakenEventIsLost(size, e, f);
      assert SavesFrom(Overtaken(e, f), events);
    }
  }

  lemma StartIsSound(size: Event -> nat)
    ensures EventsSound(size, START)
  {
  }

  /**
   From the empty state, when events of the same height and index have the same message: the event of every
   flagged row is in the log in full if it encodes to at most 750 KiB, and as a pointer to its row if not.
   */
  lemma FlaggedInFull(size: Event -> nat, steps: seq<Step>, events: iset<Event>, k: Key)
    requires Compatible(size, events) && SavesFrom(steps, events)
    requires k in Run(size, START, steps).rows && Run(size, START, steps).rows[k].published
    ensures var s := Run(size, START, steps);
            if size(s.rows[k].event) <= 768_000 then Full(s.rows[k].event) in s.log else Reference(k) in s.log
  {
    hide Run, EventsSound, Compatible;
    StartIsSound(size);
    RunKeepsEvents(size, START, steps, events);
    SoundFlags(size, Run(size, START, steps));
    KeyedRows(size, Run(size, START, steps));
  }

  /** Every message, so every pointer too, is about a stored row, and no event above 750 KiB is sent whole. */
  ghost predicate LogFits(size: Event -> nat, s: State) {
    forall i :: 0 <= i < |s.log| ==>
      MessageKey(s.log[i]) in s.rows && (s.log[i].Full? ==> size(s.log[i].event) <= 768_000)
  }

  lemma StepFits(size: Event -> nat, s: State, step: Step)
    requires Invariant(s) && LogFits(size, s)
    ensures LogFits(size, Next(size, s, step))
  {
    hide SelectBatch, WasPublished, SentInOrder;
    RowsGrow(s, step, size);
    if s.backfill.Publishing? {
      BatchInRows(s.backfill.pass.before);
    }
  }

  /** Under every interleaving and every pattern of failures, and whatever events are delivered. */
  lemma {:induction false} RunFits(size: Event -> nat, s: State, steps: seq<Step>)
    requires Invariant(s) && LogFits(size, s)
    ensures LogFits(size, Run(size, s, steps))
    decreases |steps|
  {
    hide Next, Invariant, LogFits;
    if steps == [] {
    } else {
      StepKeeps(size, s, steps[0]);
      StepFits(size, s, steps[0]);
      RunFits(size, Next(size, s, steps[0]), steps[1..]);
    }
  }

  lemma FitsFromStart(size: Event -> nat, steps: seq<Step>)
    ensures LogFits(size, Run(size, START, steps))
  {
    hide Run;
    RunFits(size, START, steps);
  }

  /** A failed statement or publication writes nothing, and a process that is busy takes on nothing new. */
  lemma FailedStepWritesNothing(size: Event -> nat, s: State, step: Step)
    requires !step.ok || (step.Save? && s.ingest != Idle) || (step.Query? && s.backfill != Waiting)
    ensures var s' := Next(size, s, step);
            && s'.rows == s.rows && s'.log == s.log
            && (s.ingest != Idle && step.Save? ==> s' == s) && (s.backfill != Waiting && step.Query? ==> s' == s)
  {
    hide SelectBatch, MessageFor;
  }

  /** The ingest loop alone stores an event, then publishes it, then flags its row. */
  lemma IngestAlone(size: Event -> nat, s: State, e: Event)
    requires s.ingest == Idle && e.key !in s.rows
    ensures Run(size, s, [Save(e, true), Publish(true), Mark(true)]) ==
              State(s.rows[e.key := Row(e, true)], s.log + [MessageFor(size, e)], Idle, s.backfill)
  {
    hide SelectBatch, MessageFor;
    ThreeSteps(size, s, Save(e, true), Publish(true), Mark(true));
    assert s.rows[e.key := Row(e, false)][e.key := Row(e, true)] == s.rows[e.key := Row(e, true)];
  }

  // ---------- The code of the two processes ----------

  class Service {
    const size: Event -> nat
    var rows: map<Key, Row>
    var log: seq<Message>

    constructor (size: Event -> nat)
      ensures this.size == size && rows == map[] && log == []
    {
      this.size := size;
      rows, log := map[], [];
    }

    /** saveAndPublishEvent without interference; true when it returns no error. */
    method SaveAndPublishEvent(ev: Event, saveOk: bool, publishOk: bool, markOk: bool) returns (ok: bool)
      modifies this
      ensures State(rows, log, Idle, Waiting)
           == Run(size, State(old(rows), old(log), Idle, Waiting), [Save(ev, saveOk), Publish(publishOk), Mark(markOk)])
      ensures ok == saveOk
    {
      ghost var s0 := State(rows, log, Idle, Waiting);
      ghost var s1 := Next(size, s0, Save(ev, saveOk));
      ghost var s2 := Next(size, s1, Publish(publishOk));
      ghost var s3 := Next(size, s2, Mark(markOk));
      ThreeSteps(size, s0, Save(ev, saveOk), Publish(publishOk), Mark(markOk));
      if !saveOk {
        return false;
      }
      rows := InsertIfAbsent(rows, ev);
      if !publishOk {
        return true;
      }
      log := log + [MessageFor(size, ev)];
      if markOk {
        rows := SetPublished(rows, ev.key);
      }
      return true;
    }

    /** One tick of the backfill worker without interference: failures are given per row. */
    method BackfillTick(publishOk: seq<bool>, markOk: seq<bool>) returns (published: nat)
      requires forall k :: k in rows ==> rows[k].event.key == k
      requires |publishOk| >= BATCH && |markOk| >= BATCH
      modifies this
      ensures var batch := SelectBatch(old(rows));
              && published <= |batch|
              && (forall i :: 0 <= i < published ==> publishOk[i])
              && (published < |batch| ==> !publishOk[published])
              && log == old(log) + Messages(size, batch[..published])
              && rows == FlagSome(old(rows), batch[..published], markOk)
    {
      hide SelectBatch, SetPublished, FlagSome, MessageFor, Unpublished, KeyLess;
      FlagNone(rows, markOk);
      assert |SelectBatch(rows)| <= BATCH by {
        BatchIsLowest(rows);
      }
      var records := SelectBatch(rows);
      published := 0;
      var i := 0;
      assert records[..0] == [];
      while i < |records|
        invariant 0 <= i <= |records| && published == i
        invariant forall j :: 0 <= j < i ==> publishOk[j]
        invariant log == old(log) + Messages(size, records[..i])
        invariant rows == FlagSome(old(rows), records[..i], markOk)
      {
        if !publishOk[i] {
          break;
        }
        log := log + [MessageFor(size, records[i])];
        published := published + 1;
        FlagOneMore(old(rows), records[..i], records[i], markOk);
        assert records[..i + 1] == records[..i] + [records[i]];
        if markOk[i] {
          rows := SetPublished(rows, records[i].key);
        }
        i := i + 1;
      }
    }
  }

  lemma ThreeSteps(size: Event -> nat, s: State, a: Step, b: Step, c: Step)
    ensures Run(size, s, [a, b, c]) == Next(size, Next(size, Next(size, s, a), b), c)
  {
    hide Next;
    assert [a, b, c][1..] == [b, c];
    TwoSteps(size, Next(size, s, a), b, c);
  }
}
