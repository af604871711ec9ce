/**
 The state the two relayer watchers work on (relayer/bsc_watcher.go, relayer/cosmos_watcher.go and the
 in-memory maps of relayer/db.go), what each call does to it, and what holds over every run of both.
 A nonce is the byte string whose hexadecimal form is the map key in the source.
 */
module RelayerState {
  import opened Order

  const TWO64: nat := 0x1_0000_0000_0000_0000

  type Word64 = n: nat | n < TWO64

  datatype Lock = Lock(user: string, amount: Word64, recipient: string, nonce: Bytes, block: Word64)

  datatype Burn = Burn(sender: string, recipient: string, amount: Word64, nonce: Bytes, height: Word64)

  /** The nonce states of the relayer; Absent is the empty string a missing map entry reads as. */
  datatype Phase = Absent | Observed | Burned | Confirmed | Ready | Submitted | Stuck

  /** A message the bus accepted; for a lock, with the watcher's block number at that moment. */
  datatype Message = LockSent(lock: Lock, at: Word64) | BurnSent(burn: Burn)

  datatype Database = Database(
    nonces: map<Bytes, Phase>,
    burns: map<Bytes, Burn>,
    bscSeen: Word64,
    cosmosSeen: Word64)

  /** What both watchers share. */
  datatype Shared = Shared(db: Database, log: seq<Message>)

  datatype World = World(shared: Shared, pending: seq<Lock>, height: Word64)

  function PhaseOf(db: Database, nonce: Bytes): Phase {
    if nonce in db.nonces then db.nonces[nonce] else Absent
  }

  function SetPhase(db: Database, nonce: Bytes, phase: Phase): Database {
    db.(nonces := db.nonces[nonce := phase])
  }

  // ---------- Locks ----------

  function RequiredConfirmations(threshold: Word64, l: Lock): Word64 {
    if l.amount >= threshold then 50 else 15
  }

  /** The watcher's test, in 64-bit arithmetic. */
  predicate IsConfirmed(threshold: Word64, height: Word64, l: Lock) {
    height >= (l.block + RequiredConfirmations(threshold, l)) % TWO64
  }

  /** The loop of UpdateBlockNumber. */
  datatype Sweep = Sweep(shared: Shared, remaining: seq<Lock>, failed: bool)

  function SweepLock(threshold: Word64, height: Word64, s: Sweep, l: Lock, ok: bool): Sweep {
    if s.failed then s
    else if !IsConfirmed(threshold, height, l) then s.(remaining := s.remaining + [l])
    else if !ok then s.(failed := true)
    else s.(shared := Shared(SetPhase(s.shared.db, l.nonce, Confirmed), s.shared.log + [LockSent(l, height)]))
  }

  function SweepLocks(threshold: Word64, height: Word64, shared: Shared, locks: seq<Lock>, ok: nat -> bool): Sweep
    decreases |locks|
  {
    if locks == [] then Sweep(shared, [], false)
    else
      var n := |locks| - 1;
      SweepLock(threshold, height, SweepLocks(threshold, height, shared, locks[..n], ok), locks[n], ok(n))
  }

  /** UpdateBlockNumber; ok(i) is the outcome of publishing the i-th pending lock. */
  function UpdateBlock(threshold: Word64, w: World, height: Word64, ok: nat -> bool): World {
    var seen := w.shared.(db := w.shared.db.(bscSeen := height));
    var s := SweepLocks(threshold, height, seen, w.pending, ok);
    World(s.shared, if s.failed then w.pending else s.remaining, height)
  }

  // ---------- What an update does, without its loop ----------

  function Select(threshold: Word64, height: Word64, locks: seq<Lock>, confirmed: bool): seq<Lock>
    decreases |locks|
  {
    if locks == [] then []
    else
      var n := |locks| - 1;
      Select(threshold, height, locks[..n], confirmed) +
      (if IsConfirmed(threshold, height, locks[n]) == confirmed then [locks[n]] else [])
  }

  function Announcements(locks: seq<Lock>, height: Word64): seq<Message> {
    seq(|locks|, i requires 0 <= i < |locks| => LockSent(locks[i], height))
  }

  /** The first confirmed lock whose publication fails; the number of locks if there is none. */
  function FirstFailure(threshold: Word64, height: Word64, locks: seq<Lock>, ok: nat -> bool): (f: nat)
    ensures f <= |locks|
    ensures f < |locks| ==> IsConfirmed(threshold, height, locks[f]) && !ok(f)
    ensures forall i :: 0 <= i < f ==> IsConfirmed(threshold, height, locks[i]) ==> ok(i)
    decreases |locks|
  {
    if locks == [] then 0
    else
      var n := |locks| - 1;
      var f := FirstFailure(threshold, height, locks[..n], ok);
      if f < n || (IsConfirmed(threshold, height, locks[n]) && !ok(n)) then f else n + 1
  }

  ghost predicate SomeConfirmed(threshold: Word64, height: Word64, locks: seq<Lock>, nonce: Bytes) {
    exists i :: 0 <= i < |locks| && IsConfirmed(threshold, height, locks[i]) && locks[i].nonce == nonce
  }

  /** Exactly the nonces of the confirmed locks have become confirmed. */
  ghost predicate Marked(threshold: Word64, height: Word64, sent: seq<Lock>, before: Database, after: Database) {
    && after == before.(nonces := after.nonces)
    && forall n :: PhaseOf(after, n) ==
         if SomeConfirmed(threshold, height, sent, n) then Confirmed else PhaseOf(before, n)
  }

  lemma SomeConfirmedNext(threshold: Word64, height: Word64, locks: seq<Lock>, l: Lock, nonce: Bytes)
    ensures SomeConfirmed(threshold, height, locks + [l], nonce)
       <==> SomeConfirmed(threshold, height, locks, nonce) || (IsConfirmed(threshold, height, l) && l.nonce == nonce)
  {
    hide IsConfirmed;
    if SomeConfirmed(threshold, height, locks, nonce) {
      var i :| 0 <= i < |locks| && IsConfirmed(threshold, height, locks[i]) && locks[i].nonce == nonce;
      assert (locks + [l])[i] == locks[i];
    }
    if IsConfirmed(threshold, height, l) && l.nonce == nonce {
      assert (locks + [l])[|locks|] == l;
    }
  }

  lemma {:induction false} SweepSends(
      threshold: Word64, height: Word64, shared: Shared, locks: seq<Lock>, ok: nat -> bool)
    ensures var s := SweepLocks(threshold, height, shared, locks, ok);
            var sent := locks[..FirstFailure(threshold, height, locks, ok)];
            && s.failed == (|sent| < |locks|)
            && s.shared.log == shared.log + Announcements(Select(threshold, height, sent, true), height)
            && (!s.failed ==> s.remaining == Select(threshold, height, locks, false))
    decreases |locks|
  {
    hide IsConfirmed, SomeConfirmed;
    if locks == [] {
    } else {
      var n := |locks| - 1;
      var f := FirstFailure(threshold, height, locks, ok);
      SweepSends(threshold, height, shared, locks[..n], ok);
      if f <= n {
        assert locks[..n][..f] == locks[..f];
      } else {
        assert locks[..n][..n] == locks[..n] && locks[..n + 1] == locks;
        AnnounceMore(Select(threshold, height, locks[..n], true), locks[n], height);
      }
    }
  }

  lemma AnnounceMore(locks: seq<Lock>, l: Lock, height: Word64)
    ensures Announcements(locks + [l], height) == Announcements(locks, height) + [LockSent(l, height)]
    ensures Announcements(locks + [], height) == Announcements(locks, height)
  {
    assert locks + [] == locks;
  }

  lemma {:induction false} SweepMarks(
      threshold: Word64, height: Word64, shared: Shared, locks: seq<Lock>, ok: nat -> bool)
    ensures var s := SweepLocks(threshold, height, shared, locks, ok);
            var sent := locks[..FirstFailure(threshold, height, locks, ok)];
            && s.failed == (|sent| < |locks|)
            && Marked(threshold, height, sent, shared.db, s.shared.db)
    decreases |locks|
  {
    hide IsConfirmed, SomeConfirmed;
    if locks == [] {
      forall n
        ensures !SomeConfirmed(threshold, height, [], n)
      {
        NoneConfirmed(threshold, height, n);
      }
    } else {
      var n := |locks| - 1;
      var f := FirstFailure(threshold, height, locks, ok);
      SweepMarks(threshold, height, shared, locks[..n], ok);
      if f <= n {
        assert locks[..n][..f] == locks[..f];
      } else {
        assert locks[..n][..n] == locks[..n] && locks[..n + 1] == locks;
        forall k
          ensures SomeConfirmed(threshold, height, locks, k) <==>
                    (SomeConfirmed(threshold, height, locks[..n], k) ||
                     (IsConfirmed(threshold, height, locks[n]) && locks[n].nonce == k))
        {
          SomeConfirmedNext(threshold, height, locks[..n], locks[n], k);
          assert locks == locks[..n] + [locks[n]];
        }
      }
    }
  }

  lemma NoneConfirmed(threshold: Word64, height: Word64, nonce: Bytes)
    ensures !SomeConfirmed(threshold, height, [], nonce)
  {
  }

  // ---------- Burns ----------

  /** IngestBurnEvent; ok is the outcome of publishing. */
  function IngestBurn(s: Shared, b: Burn, ok: bool): Shared {
    if PhaseOf(s.db, b.nonce) in {Observed, Burned} then s
    else
      var saved := SetPhase(s.db.(burns := s.db.burns[b.nonce := b]), b.nonce, Observed).(cosmosSeen := b.height);
      if ok then Shared(SetPhase(saved, b.nonce, Burned), s.log + [BurnSent(b)]) else Shared(saved, s.log)
  }

  /** The nonces of the burns GetPendingBurns returns. */
  function PendingBurns(db: Database): set<Bytes> {
    set n | n in db.burns && PhaseOf(db, n) == Observed
  }

  /** The sequence is some order of iteration over the set. */
  ghost predicate Enumerates(order: seq<Bytes>, s: set<Bytes>) {
    && (forall n :: n in order <==> n in s)
    && (forall i, j :: 0 <= i < j < |order| ==> order[i] != order[j])
  }

  datatype Sending = Sending(shared: Shared, failed: bool)

  function SendBurn(s: Sending, b: Burn, ok: bool): Sending {
    if s.failed then s
    else if !ok then s.(failed := true)
    else Sending(Shared(SetPhase(s.shared.db, b.nonce, Burned), s.shared.log + [BurnSent(b)]), false)
  }

  /** The loop of ProcessPendingBurns. */
  function SendBurns(s: Shared, burns: seq<Burn>, ok: nat -> bool): Sending
    decreases |burns|
  {
    if burns == [] then Sending(s, false)
    else
      var n := |burns| - 1;
      SendBurn(SendBurns(s, burns[..n], ok), burns[n], ok(n))
  }

  function BurnsOf(db: Database, order: seq<Bytes>): seq<Burn>
    requires forall n :: n in order ==> n in db.burns
  {
    seq(|order|, i requires 0 <= i < |order| => db.burns[order[i]])
  }

  function BurnMessages(burns: seq<Burn>): seq<Message> {
    seq(|burns|, i requires 0 <= i < |burns| => BurnSent(burns[i]))
  }

  /** How many of the first n publications succeed before one fails. */
  function SuccessesBefore(ok: nat -> bool, n: nat): (f: nat)
    ensures f <= n && (f < n ==> !ok(f)) && forall i :: 0 <= i < f ==> ok(i)
    decreases n
  {
    if n == 0 then 0
    else
      var f := SuccessesBefore(ok, n - 1);
      if f < n - 1 || !ok(n - 1) then f else n
  }

  ghost predicate MarkedBurned(sent: seq<Burn>, before: Database, after: Database) {
    && after == before.(nonces := after.nonces)
    && forall n :: PhaseOf(after, n) == if HasNonce(sent, n) then Burned else PhaseOf(before, n)
  }

  ghost predicate HasNonce(burns: seq<Burn>, nonce: Bytes) {
    exists i :: 0 <= i < |burns| && burns[i].nonce == nonce
  }

  lemma HasNonceNext(burns: seq<Burn>, b: Burn, nonce: Bytes)
    ensures HasNonce(burns + [b], nonce) <==> HasNonce(burns, nonce) || b.nonce == nonce
  {
    if HasNonce(burns, nonce) {
      var i :| 0 <= i < |burns| && burns[i].nonce == nonce;
      assert (burns + [b])[i] == burns[i];
    }
    assert (burns + [b])[|burns|] == b;
  }

  /** The loop sends and marks exactly the burns before the first failure. */
  lemma {:induction false} SendBurnsEffect(s: Shared, burns: seq<Burn>, ok: nat -> bool)
    ensures var r := SendBurns(s, burns, ok);
            var sent := burns[..SuccessesBefore(ok, |burns|)];
            && r.failed == (|sent| < |burns|)
            && r.shared.log == s.log + BurnMessages(sent)
            && MarkedBurned(sent, s.db, r.shared.db)
    decreases |burns|
  {
    hide HasNonce;
    if burns == [] {
      forall n
        ensures !HasNonce([], n)
      {
        NoNonce(n);
      }
    } else {
      var n := |burns| - 1;
      SendBurnsEffect(s, burns[..n], ok);
      var f := SuccessesBefore(ok, |burns|);
      if f <= n {
        assert burns[..n][..f] == burns[..f];
      } else {
        assert burns[..n][..n] == burns[..n] && burns[..n + 1] == burns;
        assert burns == burns[..n] + [burns[n]];
        forall k
          ensures HasNonce(burns, k) <==> HasNonce(burns[..n], k) || burns[n].nonce == k
        {
          HasNonceNext(burns[..n], burns[n], k);
        }
      }
    }
  }

  lemma NoNonce(nonce: Bytes)
    ensures !HasNonce([], nonce)
  {
  }
}

/** Runs of both watchers, and of the other components that write nonce states, over one database. */
module RelayerRuns {
  import opened Order
  import opened RelayerState

  datatype Step =
    | IngestLock(lock: Lock)
    | UpdateBlockNumber(height: Word64, lockOk: nat -> bool)
    | IngestBurnEvent(burn: Burn, burnOk: bool)
    | ProcessPendingBurns(order: seq<Bytes>, burnsOk: nat -> bool)
    | SetNonceState(nonce: Bytes, phase: Phase)

  ghost function ProcessBurns(s: Shared, order: seq<Bytes>, ok: nat -> bool): Sending {
    if Enumerates(order, PendingBurns(s.db)) then SendBurns(s, BurnsOf(s.db, order), ok) else Sending(s, true)
  }

  /** One call. A ProcessPendingBurns step whose order is no order of the pending burns does nothing. */
  ghost function Next(threshold: Word64, w: World, step: Step): World {
    match step
    case IngestLock(l) => w.(pending := w.pending + [l])
    case UpdateBlockNumber(height, ok) => UpdateBlock(threshold, w, height, ok)
    case IngestBurnEvent(b, ok) => w.(shared := IngestBurn(w.shared, b, ok))
    case ProcessPendingBurns(order, ok) => w.(shared := ProcessBurns(w.shared, order, ok).shared)
    case SetNonceState(n, phase) => w.(shared := w.shared.(db := SetPhase(w.shared.db, n, phase)))
  }

  ghost function Run(threshold: Word64, w: World, steps: seq<Step>): World
    decreases |steps|
  {
    if |steps| == 0 then w else Run(threshold, Next(threshold, w, steps[0]), steps[1..])
  }

  // ---------- Locks: conservation ----------

  /** The locks announced on the bus, with multiplicity. */
  ghost function Announced(log: seq<Message>): multiset<Lock>
    decreases |log|
  {
    if log == [] then multiset{}
    else
      var n := |log| - 1;
      Announced(log[..n]) + (if log[n].LockSent? then multiset{log[n].lock} else multiset{})
  }

  ghost function Ingested(steps: seq<Step>): multiset<Lock>
    decreases |steps|
  {
    if |steps| == 0 then multiset{}
    else (if steps[0].IngestLock? then multiset{steps[0].lock} else multiset{}) + Ingested(steps[1..])
  }

  ghost function LocksOf(w: World): multiset<Lock> {
    multiset(w.pending) + Announced(w.shared.log)
  }

  lemma AnnouncedOne(log: seq<Message>, m: Message)
    ensures Announced(log + [m]) == Announced(log) + (if m.LockSent? then multiset{m.lock} else multiset{})
  {
    assert (log + [m])[..|log|] == log;
  }

  lemma {:induction false} AnnouncedMore(log: seq<Message>, locks: seq<Lock>, height: Word64)
    ensures Announced(log + Announcements(locks, height)) == Announced(log) + multiset(locks)
    decreases |locks|
  {
    hide Announced;
    if locks == [] {
      assert log + Announcements(locks, height) == log;
    } else {
      var n := |locks| - 1;
      AnnouncedMore(log, locks[..n], height);
      AnnouncedOne(log + Announcements(locks[..n], height), LockSent(locks[n], height));
      assert log + Announcements(locks, height) ==
               log + Announcements(locks[..n], height) + [LockSent(locks[n], height)];
      assert multiset(locks) == multiset(locks[..n]) + multiset{locks[n]} by {
        assert locks == locks[..n] + [locks[n]];
      }
    }
  }

  lemma {:induction false} AnnouncedBurns(log: seq<Message>, burns: seq<Burn>)
    ensures Announced(log + BurnMessages(burns)) == Announced(log)
    decreases |burns|
  {
    hide Announced;
    if burns == [] {
      assert log + BurnMessages(burns) == log;
    } else {
      var n := |burns| - 1;
      AnnouncedBurns(log, burns[..n]);
      AnnouncedOne(log + BurnMessages(burns[..n]), BurnSent(burns[n]));
      assert log + BurnMessages(burns) == log + BurnMessages(burns[..n]) + [BurnSent(burns[n])];
    }
  }

  lemma {:induction false} SelectSplits(threshold: Word64, height: Word64, locks: seq<Lock>)
    ensures multiset(Select(threshold, height, locks, true)) + multiset(Select(threshold, height, locks, false)) ==
              multiset(locks)
    decreases |locks|
  {
    hide IsConfirmed;
    if locks == [] {
    } else {
      var n := |locks| - 1;
      SelectSplits(threshold, height, locks[..n]);
      assert locks == locks[..n] + [locks[n]];
    }
  }

  /** An update loses no lock; one without a failure announces each confirmed lock once and no other. */
  lemma UpdateConserves(threshold: Word64, w: World, height: Word64, ok: nat -> bool)
    ensures var w' := UpdateBlock(threshold, w, height, ok);
            && LocksOf(w') >= LocksOf(w)
            && (FirstFailure(threshold, height, w.pending, ok) == |w.pending| ==> LocksOf(w') == LocksOf(w))
  {
    hide IsConfirmed, SweepLocks, Select, FirstFailure, Announced;
    var seen := w.shared.(db := w.shared.db.(bscSeen := height));
    var f := FirstFailure(threshold, height, w.pending, ok);
    var sent := Select(threshold, height, w.pending[..f], true);
    SweepSends(threshold, height, seen, w.pending, ok);
    AnnouncedMore(w.shared.log, sent, height);
    SelectSplits(threshold, height, w.pending);
    assert w.pending[..|w.pending|] == w.pending;
  }

  lemma StepConserves(threshold: Word64, w: World, step: Step)
    ensures var w' := Next(threshold, w, step);
            && LocksOf(w') >= LocksOf(w) + Ingested([step])
            && ((step.UpdateBlockNumber? ==>
                  FirstFailure(threshold, step.height, w.pending, step.lockOk) == |w.pending|) ==>
                  LocksOf(w') == LocksOf(w) + Ingested([step]))
  {
    hide Announced, UpdateBlock, SendBurns, FirstFailure, IsConfirmed;
    assert |[step][1..]| == 0;
    match step {
      case IngestLock(l) =>
      case UpdateBlockNumber(height, ok) => UpdateConserves(threshold, w, height, ok);
      case IngestBurnEvent(b, ok) => AnnouncedOne(w.shared.log, BurnSent(b));
      case ProcessPendingBurns(order, ok) =>
        if Enumerates(order, PendingBurns(w.shared.db)) {
          var burns := BurnsOf(w.shared.db, order);
          SendBurnsEffect(w.shared, burns, ok);
          AnnouncedBurns(w.shared.log, burns[..SuccessesBefore(ok, |burns|)]);
        }
      case SetNonceState(_, _) =>
    }
  }

  /** No update of the run stops at a failed publication. */
  ghost predicate NoUpdateFails(threshold: Word64, w: World, steps: seq<Step>)
    decreases |steps|
  {
    |steps| > 0 ==>
      && (steps[0].UpdateBlockNumber? ==>
            FirstFailure(threshold, steps[0].height, w.pending, steps[0].lockOk) == |w.pending|)
      && NoUpdateFails(threshold, Next(threshold, w, steps[0]), steps[1..])
  }

  /**
   Whatever fails, every ingested lock, counted with multiplicity, is pending or announced; when no
   update stops early, each is exactly one of the two, once.
   */
  lemma {:induction false} LocksConserved(threshold: Word64, w: World, steps: seq<Step>)
    ensures LocksOf(Run(threshold, w, steps)) >= LocksOf(w) + Ingested(steps)
    ensures NoUpdateFails(threshold, w, steps) ==> LocksOf(Run(threshold, w, steps)) == LocksOf(w) + Ingested(steps)
    decreases |steps|
  {
    hide Next, LocksOf, FirstFailure;
    if |steps| == 0 {
    } else {
      StepConserves(threshold, w, steps[0]);
      LocksConserved(threshold, Next(threshold, w, steps[0]), steps[1..]);
      assert |[steps[0]][1..]| == 0;
      assert Ingested(steps) == Ingested([steps[0]]) + Ingested(steps[1..]);
    }
  }

  /** A failed update announces the confirmed locks before the failure and keeps all of them pending. */
  lemma FailedUpdateRepeats(threshold: Word64, w: World, height: Word64, ok: nat -> bool)
    ensures var w' := UpdateBlock(threshold, w, height, ok);
            var f := FirstFailure(threshold, height, w.pending, ok);
            f < |w.pending| ==>
              (w'.pending == w.pending &&
               LocksOf(w') == LocksOf(w) + multiset(Select(threshold, height, w.pending[..f], true)))
  {
    hide IsConfirmed, SweepLocks, Select, FirstFailure, Announced;
    var seen := w.shared.(db := w.shared.db.(bscSeen := height));
    var f := FirstFailure(threshold, height, w.pending, ok);
    SweepSends(threshold, height, seen, w.pending, ok);
    AnnouncedMore(w.shared.log, Select(threshold, height, w.pending[..f], true), height);
  }

  // ---------- Locks: confirmations ----------

  /** At this block number a large lock has its 50 confirmations, a smaller one its 15. */
  ghost predicate Deep(threshold: Word64, l: Lock, at: Word64) {
    && (l.amount >= threshold ==> l.block + 50 <= at)
    && (l.amount < threshold ==> l.block + 15 <= at)
  }

  /** The block number of the last confirmation is a 64-bit number. */
  ghost predicate NoWrap(threshold: Word64, l: Lock) {
    && (l.amount >= threshold ==> l.block + 50 < TWO64)
    && (l.amount < threshold ==> l.block + 15 < TWO64)
  }

  /** The watcher's test demands the full depth exactly when that number does not wrap around 2^64. */
  lemma TestIsDepthIffNoWrap(threshold: Word64, l: Lock)
    ensures (forall h: Word64 :: IsConfirmed(threshold, h, l) ==> Deep(threshold, l, h)) <==> NoWrap(threshold, l)
    ensures forall h: Word64 :: Deep(threshold, l, h) ==> IsConfirmed(threshold, h, l)
  {
    if !NoWrap(threshold, l) {
      var h: Word64 := 50;
      assert IsConfirmed(threshold, h, l) && !Deep(threshold, l, h);
    }
  }

  /** An update without a failed publication leaves no lock pending that has its confirmations. */
  lemma NoDeepLockLeft(threshold: Word64, w: World, height: Word64, ok: nat -> bool)
    requires forall i :: 0 <= i < |w.pending| ==> ok(i)
    ensures forall l :: l in UpdateBlock(threshold, w, height, ok).pending ==>
              l in w.pending && !Deep(threshold, l, height)
  {
    hide IsConfirmed, SweepLocks, Select, Deep;
    var seen := w.shared.(db := w.shared.db.(bscSeen := height));
    SweepSends(threshold, height, seen, w.pending, ok);
    SelectedAreConfirmed(threshold, height, w.pending, false);
    SelectedAreSome(threshold, height, w.pending, false);
    forall l | l in UpdateBlock(threshold, w, height, ok).pending
      ensures l in w.pending && !Deep(threshold, l, height)
    {
      TestIsDepthIffNoWrap(threshold, l);
    }
  }

  lemma {:induction false} SelectedAreConfirmed(threshold: Word64, height: Word64, locks: seq<Lock>, confirmed: bool)
    ensures forall i :: 0 <= i < |Select(threshold, height, locks, confirmed)| ==>
              IsConfirmed(threshold, height, Select(threshold, height, locks, confirmed)[i]) == confirmed
    decreases |locks|
  {
    hide IsConfirmed;
    if locks == [] {
    } else {
      SelectedAreConfirmed(threshold, height, locks[..|locks| - 1], confirmed);
    }
  }

  ghost predicate Sound(threshold: Word64, m: Message) {
    m.LockSent? ==> IsConfirmed(threshold, m.at, m.lock)
  }

  /** Every message a call appends about a lock passed the test at the block number it carries. */
  lemma StepAppendsSound(threshold: Word64, w: World, step: Step)
    ensures var w' := Next(threshold, w, step);
            && w.shared.log <= w'.shared.log
            && forall i :: |w.shared.log| <= i < |w'.shared.log| ==> Sound(threshold, w'.shared.log[i])
  {
    hide IsConfirmed, SendBurns, SweepLocks, Select, FirstFailure;
    match step {
      case IngestLock(l) =>
      case UpdateBlockNumber(height, ok) =>
        var seen := w.shared.(db := w.shared.db.(bscSeen := height));
        SweepSends(threshold, height, seen, w.pending, ok);
        SelectedAreConfirmed(threshold, height, w.pending[..FirstFailure(threshold, height, w.pending, ok)], true);
      case IngestBurnEvent(b, ok) =>
      case ProcessPendingBurns(order, ok) =>
        if Enumerates(order, PendingBurns(w.shared.db)) {
          SendBurnsEffect(w.shared, BurnsOf(w.shared.db, order), ok);
        }
      case SetNonceState(_, _) =>
    }
  }

  /** Over every run, no lock is announced before its confirmations unless its block number wraps the sum. */
  lemma {:induction false} NeverAnnouncedEarly(threshold: Word64, w: World, steps: seq<Step>)
    ensures var log := Run(threshold, w, steps).shared.log;
            && w.shared.log <= log
            && forall i :: |w.shared.log| <= i < |log| && log[i].LockSent? ==>
                 && IsConfirmed(threshold, log[i].at, log[i].lock)
                 && (NoWrap(threshold, log[i].lock) ==> Deep(threshold, log[i].lock, log[i].at))
    decreases |steps|
  {
    hide Next;
    if |steps| == 0 {
    } else {
      var w1 := Next(threshold, w, steps[0]);
      StepAppendsSound(threshold, w, steps[0]);
      NeverAnnouncedEarly(threshold, w1, steps[1..]);
      var log := Run(threshold, w, steps).shared.log;
      forall i | |w.shared.log| <= i < |log|
        ensures Sound(threshold, log[i])
      {
        if i < |w1.shared.log| {
          assert log[i] == w1.shared.log[i];
        }
      }
    }
  }

  // ---------- Burns ----------

  /** Every saved burn is still to be published, or has been published and is marked so. */
  ghost predicate Settled(s: Shared) {
    forall n :: n in s.db.burns ==>
      && s.db.burns[n].nonce == n
      && (PhaseOf(s.db, n) == Observed || (PhaseOf(s.db, n) == Burned && BurnSent(s.db.burns[n]) in s.log))
  }

  /** A call that returns no error leaves no burn pending; a failed one has published a prefix of its order. */
  lemma ProcessBurnsEffect(s: Shared, order: seq<Bytes>, ok: nat -> bool)
    requires Settled(s) && Enumerates(order, PendingBurns(s.db))
    ensures var r := ProcessBurns(s, order, ok);
            var sent := order[..SuccessesBefore(ok, |order|)];
            && r.failed == (|sent| < |order|)
            && (forall n :: n in sent ==> n in PendingBurns(s.db))
            && r.shared.log == s.log + BurnMessages(BurnsOf(s.db, sent))
            && PendingBurns(r.shared.db) == PendingBurns(s.db) - (set n | n in sent)
            && (!r.failed ==> PendingBurns(r.shared.db) == {})
            && r.shared.db.burns == s.db.burns
            && (forall n :: PhaseOf(r.shared.db, n) != PhaseOf(s.db, n) ==> n in s.db.burns)
            && Settled(r.shared)
  {
    hide SendBurns, SuccessesBefore;
    var r := ProcessBurns(s, order, ok);
    var burns := BurnsOf(s.db, order);
    SendBurnsEffect(s, burns, ok);
    var f := SuccessesBefore(ok, |order|);
    var sent := order[..f];
    assert burns[..f] == BurnsOf(s.db, sent);
    forall n
      ensures HasNonce(burns[..f], n) <==> n in sent
    {
      SentNonces(s, order, f, n);
    }
    forall n | n in sent
      ensures BurnSent(s.db.burns[n]) in r.shared.log
    {
      var i :| 0 <= i < |sent| && sent[i] == n;
      assert r.shared.log[|s.log| + i] == BurnSent(s.db.burns[n]);
    }
    if !r.failed {
      assert sent == order;
    }
  }

  lemma SentNonces(s: Shared, order: seq<Bytes>, f: nat, n: Bytes)
    requires Settled(s) && f <= |order| && forall k :: k in order ==> k in s.db.burns
    ensures HasNonce(BurnsOf(s.db, order)[..f], n) <==> n in order[..f]
  {
    var burns := BurnsOf(s.db, order)[..f];
    assert forall i :: 0 <= i < f ==> burns[i].nonce == order[i] by {
      assert forall i :: 0 <= i < f ==> order[i] in order;
    }
    if n in order[..f] {
      var i :| 0 <= i < f && order[i] == n;
      assert burns[i].nonce == n;
    }
  }

  /** For the nonces of burns, only the burn watcher writes nonce states. */
  ghost predicate Apart(w: World, steps: seq<Step>, burnNonces: set<Bytes>) {
    && (forall n :: n in w.shared.db.burns ==> n in burnNonces)
    && (forall n :: n in burnNonces && PhaseOf(w.shared.db, n) in {Observed, Burned} ==> n in w.shared.db.burns)
    && (forall i :: 0 <= i < |w.pending| ==> w.pending[i].nonce !in burnNonces)
    && (forall i :: 0 <= i < |steps| ==> StepApart(steps[i], burnNonces))
  }

  ghost predicate StepApart(step: Step, burnNonces: set<Bytes>) {
    match step
    case IngestLock(l) => l.nonce !in burnNonces
    case IngestBurnEvent(b, _) => b.nonce in burnNonces
    case SetNonceState(n, _) => n !in burnNonces
    case _ => true
  }

  lemma UpdateSparesBurns(threshold: Word64, w: World, height: Word64, ok: nat -> bool)
    requires Settled(w.shared)
    requires forall i :: 0 <= i < |w.pending| ==> w.pending[i].nonce !in w.shared.db.burns
    ensures var w' := UpdateBlock(threshold, w, height, ok);
            && Settled(w'.shared) && w'.shared.db.burns == w.shared.db.burns
            && (forall n :: PhaseOf(w'.shared.db, n) in {PhaseOf(w.shared.db, n), Confirmed})
            && (forall i :: 0 <= i < |w'.pending| ==> w'.pending[i] in w.pending)
  {
    hide IsConfirmed, SweepLocks, Select, FirstFailure;
    var seen := w.shared.(db := w.shared.db.(bscSeen := height));
    SweepSends(threshold, height, seen, w.pending, ok);
    SweepMarks(threshold, height, seen, w.pending, ok);
    SelectedAreSome(threshold, height, w.pending, false);
    forall n | n in w.shared.db.burns
      ensures PhaseOf(UpdateBlock(threshold, w, height, ok).shared.db, n) == PhaseOf(w.shared.db, n)
    {
      assert !SomeConfirmed(threshold, height, w.pending[..FirstFailure(threshold, height, w.pending, ok)], n);
    }
  }

  lemma {:induction false} SelectedAreSome(threshold: Word64, height: Word64, locks: seq<Lock>, confirmed: bool)
    ensures forall i :: 0 <= i < |Select(threshold, height, locks, confirmed)| ==>
              Select(threshold, height, locks, confirmed)[i] in locks
    decreases |locks|
  {
    hide IsConfirmed;
    if locks == [] {
    } else {
      SelectedAreSome(threshold, height, locks[..|locks| - 1], confirmed);
    }
  }

  lemma IngestSettles(s: Shared, b: Burn, ok: bool)
    requires Settled(s)
    requires PhaseOf(s.db, b.nonce) in {Observed, Burned} ==> b.nonce in s.db.burns
    ensures var s' := IngestBurn(s, b, ok);
            && Settled(s')
            && (forall n :: n in s.db.burns ==> n in s'.db.burns && s'.db.burns[n] == s.db.burns[n])
            && s'.db.burns.Keys == s.db.burns.Keys + {b.nonce}
            && (forall n :: n != b.nonce ==> PhaseOf(s'.db, n) == PhaseOf(s.db, n))
  {
  }

  lemma StepSettles(threshold: Word64, w: World, step: Step, burnNonces: set<Bytes>)
    requires Settled(w.shared) && Apart(w, [step], burnNonces)
    ensures var w' := Next(threshold, w, step);
            && Settled(w'.shared)
            && Apart(w', [], burnNonces)
            && (forall n :: n in w.shared.db.burns ==>
                 n in w'.shared.db.burns && w'.shared.db.burns[n] == w.shared.db.burns[n])
            && (step.IngestBurnEvent? ==> step.burn.nonce in w'.shared.db.burns)
  {
    hide SendBurns, UpdateBlock, IsConfirmed, IngestBurn;
    assert StepApart([step][0], burnNonces);
    match step {
      case IngestLock(l) =>
      case UpdateBlockNumber(height, ok) => UpdateSparesBurns(threshold, w, height, ok);
      case IngestBurnEvent(b, ok) => IngestSettles(w.shared, b, ok);
      case ProcessPendingBurns(order, ok) =>
        if Enumerates(order, PendingBurns(w.shared.db)) {
          ProcessBurnsEffect(w.shared, order, ok);
        }
      case SetNonceState(_, _) =>
    }
  }

  /**
   While the burn watcher alone writes the states of burn nonces, over every run and whatever fails:
   every accepted burn stays recorded as it was accepted, and is pending or published.
   */
  lemma {:induction false} BurnsSettle(threshold: Word64, w: World, steps: seq<Step>, burnNonces: set<Bytes>)
    requires Settled(w.shared) && Apart(w, steps, burnNonces)
    ensures var w' := Run(threshold, w, steps);
            && Settled(w'.shared)
            && (forall n :: n in w'.shared.db.burns ==>
                  n in PendingBurns(w'.shared.db) || BurnSent(w'.shared.db.burns[n]) in w'.shared.log)
            && (forall n :: n in w.shared.db.burns ==>
                 n in w'.shared.db.burns && w'.shared.db.burns[n] == w.shared.db.burns[n])
            && (forall i :: 0 <= i < |steps| && steps[i].IngestBurnEvent? ==> steps[i].burn.nonce in w'.shared.db.burns)
    decreases |steps|
  {
    hide Next;
    if |steps| == 0 {
    } else {
      var w1 := Next(threshold, w, steps[0]);
      assert Apart(w, [steps[0]], burnNonces);
      StepSettles(threshold, w, steps[0], burnNonces);
      assert Apart(w1, steps[1..], burnNonces);
      BurnsSettle(threshold, w1, steps[1..], burnNonces);
      var w' := Run(threshold, w, steps);
      forall i | 0 <= i < |steps| && steps[i].IngestBurnEvent?
        ensures steps[i].burn.nonce in w'.shared.db.burns
      {
        if i > 0 {
          assert steps[1..][i - 1] == steps[i];
        }
      }
    }
  }

  /**
   A burn in state observed or burned is known and changes nothing; any other is recorded and its height
   remembered, and it is then pending if its publication failed and announced and settled if not.
   */
  lemma IngestBurnEffect(s: Shared, b: Burn, ok: bool)
    ensures var s' := IngestBurn(s, b, ok);
            if PhaseOf(s.db, b.nonce) == Observed || PhaseOf(s.db, b.nonce) == Burned then s' == s
            else
              && s'.db.burns == s.db.burns[b.nonce := b]
              && s'.db.cosmosSeen == b.height && s'.db.bscSeen == s.db.bscSeen
              && (b.nonce in PendingBurns(s'.db) <==> !ok)
              && PhaseOf(s'.db, b.nonce) == (if ok then Burned else Observed)
              && s'.log == s.log + (if ok then [BurnSent(b)] else [])
              && forall n :: n != b.nonce ==> PhaseOf(s'.db, n) == PhaseOf(s.db, n)
  {
  }

  /** Every update, failed or not, remembers its block number. */
  lemma UpdateRemembersBlock(threshold: Word64, w: World, height: Word64, ok: nat -> bool)
    ensures var w' := UpdateBlock(threshold, w, height, ok);
            && w'.height == height && w'.shared.db.bscSeen == height
            && w'.shared.db.cosmosSeen == w.shared.db.cosmosSeen && w'.shared.db.burns == w.shared.db.burns
  {
    hide IsConfirmed, SweepLocks, FirstFailure;
    var seen := w.shared.(db := w.shared.db.(bscSeen := height));
    SweepMarks(threshold, height, seen, w.pending, ok);
  }

  /** Every saved burn is still to be published or has been published. */
  ghost predicate Tracked(s: Shared) {
    forall n :: n in s.db.burns ==> PhaseOf(s.db, n) == Observed || BurnSent(s.db.burns[n]) in s.log
  }

  /**
   The watchers share one nonce table.  A lock update keeps track of every burn exactly when no lock it
   announces has the nonce of a burn that is not yet published.
   */
  lemma UpdateTracksIff(threshold: Word64, w: World, height: Word64, ok: nat -> bool)
    requires Tracked(w.shared)
    ensures var sent := w.pending[..FirstFailure(threshold, height, w.pending, ok)];
            Tracked(UpdateBlock(threshold, w, height, ok).shared) <==>
              forall i :: 0 <= i < |sent| &&
                          IsConfirmed(threshold, height, sent[i]) && sent[i].nonce in w.shared.db.burns ==>
                            BurnSent(w.shared.db.burns[sent[i].nonce]) in w.shared.log
  {
    hide IsConfirmed, SweepLocks, Select, FirstFailure;
    var seen := w.shared.(db := w.shared.db.(bscSeen := height));
    var sent := w.pending[..FirstFailure(threshold, height, w.pending, ok)];
    var after := UpdateBlock(threshold, w, height, ok).shared;
    SweepSends(threshold, height, seen, w.pending, ok);
    SweepMarks(threshold, height, seen, w.pending, ok);
    BurnMessagesSame(w.shared.log, Announcements(Select(threshold, height, sent, true), height));
    if i :| 0 <= i < |sent| && IsConfirmed(threshold, height, sent[i]) && sent[i].nonce in w.shared.db.burns
              && BurnSent(w.shared.db.burns[sent[i].nonce]) !in w.shared.log {
      assert SomeConfirmed(threshold, height, sent, sent[i].nonce);
      assert PhaseOf(after.db, sent[i].nonce) == Confirmed;
    } else {
      forall n | n in w.shared.db.burns
        ensures PhaseOf(after.db, n) == Observed || BurnSent(after.db.burns[n]) in after.log
      {
        if !SomeConfirmed(threshold, height, sent, n) {
          assert PhaseOf(after.db, n) == PhaseOf(w.shared.db, n);
        }
      }
    }
  }

  lemma BurnMessagesSame(log: seq<Message>, more: seq<Message>)
    requires forall i :: 0 <= i < |more| ==> more[i].LockSent?
    ensures forall b :: BurnSent(b) in log + more <==> BurnSent(b) in log
  {
    forall b | BurnSent(b) in log + more
      ensures BurnSent(b) in log
    {
      var i :| 0 <= i < |log + more| && (log + more)[i] == BurnSent(b);
      assert i < |log|;
    }
  }

  lemma SweepOne(threshold: Word64, height: Word64, shared: Shared, l: Lock, ok: nat -> bool)
    requires IsConfirmed(threshold, height, l) && ok(0)
    ensures SweepLocks(threshold, height, shared, [l], ok)
         == Sweep(Shared(SetPhase(shared.db, l.nonce, Confirmed), shared.log + [LockSent(l, height)]), [], false)
  {
    assert [l][..0] == [];
  }

  /**
   A lock with the nonce of a burn whose publication failed hides the burn: from the empty state, after
   ingesting both and one update, ProcessPendingBurns succeeds, and the burn has not been published.
   */
  lemma SharedNonceLosesBurn(threshold: Word64, b: Burn, l: Lock, height: Word64)
    requires l.nonce == b.nonce && IsConfirmed(threshold, height, l)
    ensures var w0 := World(Shared(Database(map[], map[], 0, 0), []), [], 0);
            var w := Run(threshold, w0,
                          [IngestBurnEvent(b, false), IngestLock(l), UpdateBlockNumber(height, _ => true)]);
            && w.shared.db.burns == map[b.nonce := b]
            && PendingBurns(w.shared.db) == {}
            && (forall ok :: ProcessBurns(w.shared, [], ok) == Sending(w.shared, false))
            && BurnSent(b) !in w.shared.log
  {
    hide IsConfirmed;
    var w0 := World(Shared(Database(map[], map[], 0, 0), []), [], 0);
    var a, c, d := IngestBurnEvent(b, false), IngestLock(l), UpdateBlockNumber(height, _ => true);
    var w1 := Next(threshold, w0, a);
    var w2 := Next(threshold, w1, c);
    var w3 := Next(threshold, w2, d);
    assert Run(threshold, w0, [a, c, d]) == w3 by {
      hide Next;
      assert [a, c, d][1..] == [c, d] && [c, d][1..] == [d] && |[d][1..]| == 0;
      assert Run(threshold, w2, [d]) == w3;
      assert Run(threshold, w1, [c, d]) == w3;
    }
    SweepOne(threshold, height, w2.shared.(db := w2.shared.db.(bscSeen := height)), l, _ => true);
    assert w3.shared.db.burns == map[b.nonce := b];
    assert w3.shared.log == [LockSent(l, height)];
    assert BurnSent(b) !in w3.shared.log;
  }
}

/** The code of the two watchers, over the database and the bus they share. */
module Watchers {
  import opened Order
  import opened RelayerState

  /** The in-memory maps of relayer/db.go. */
  class RelayerDB {
    var memNonces: map<Bytes, Phase>
    var memBurns: map<Bytes, Burn>
    var bscLastSeenBlock: Word64
    var cosmosLastSeenHeight: Word64

    constructor ()
      ensures Contents() == Database(map[], map[], 0, 0)
    {
      memNonces, memBurns, bscLastSeenBlock, cosmosLastSeenHeight := map[], map[], 0, 0;
    }

    ghost function Contents(): Database
      reads this
    {
      Database(memNonces, memBurns, bscLastSeenBlock, cosmosLastSeenHeight)
    }

    method SetNonceState(nonce: Bytes, phase: Phase)
      modifies this
      ensures Contents() == SetPhase(old(Contents()), nonce, phase)
    {
      memNonces := memNonces[nonce := phase];
    }

    method GetNonceState(nonce: Bytes) returns (phase: Phase)
      ensures phase == PhaseOf(Contents(), nonce)
    {
      phase := if nonce in memNonces then memNonces[nonce] else Absent;
    }

    /** The pending burns, in whatever order the map is iterated. */
    method GetPendingBurns() returns (list: seq<Burn>)
      ensures exists order :: Enumerates(order, PendingBurns(Contents())) && list == BurnsOf(Contents(), order)
    {
      list := [];
      ghost var order: seq<Bytes> := [];
      var todo := memBurns.Keys;
      while todo != {}
        invariant todo <= memBurns.Keys
        invariant forall n :: n in order <==> n in PendingBurns(Contents()) && n !in todo
        invariant forall i, j :: 0 <= i < j < |order| ==> order[i] != order[j]
        invariant list == BurnsOf(Contents(), order)
        decreases |todo|
      {
        var nonce :| nonce in todo;
        todo := todo - {nonce};
        var phase := GetNonceState(nonce);
        if phase == Observed {
          list := list + [memBurns[nonce]];
          order := order + [nonce];
        }
      }
    }
  }

  /** The bus: what it accepted, in order. */
  class EventBus {
    var log: seq<Message>

    constructor ()
      ensures log == []
    {
      log := [];
    }

    method Publish(m: Message, ok: bool)
      modifies this
      ensures log == if ok then old(log) + [m] else old(log)
    {
      if ok {
        log := log + [m];
      }
    }
  }

  class BSCWatcher {
    const db: RelayerDB
    const bus: EventBus
    const largeTransferThreshold: Word64
    var currentBscBlock: Word64
    var pendingLocks: seq<Lock>

    constructor (db: RelayerDB, bus: EventBus, threshold: Word64)
      ensures this.db == db && this.bus == bus && largeTransferThreshold == threshold
      ensures State() == World(Shared(db.Contents(), bus.log), [], 0)
    {
      this.db, this.bus, largeTransferThreshold := db, bus, threshold;
      currentBscBlock, pendingLocks := 0, [];
    }

    ghost function State(): World
      reads this, db, bus
    {
      World(Shared(db.Contents(), bus.log), pendingLocks, currentBscBlock)
    }

    method IngestLockEvent(event: Lock)
      modifies this
      ensures State() == old(State()).(pending := old(State()).pending + [event])
    {
      pendingLocks := pendingLocks + [event];
    }

    /** err is true when a publication failed. */
    method UpdateBlockNumber(blockNum: Word64, publishOk: nat -> bool) returns (err: bool)
      modifies this, db, bus
      ensures State() == UpdateBlock(largeTransferThreshold, old(State()), blockNum, publishOk)
      ensures var f := FirstFailure(largeTransferThreshold, blockNum, old(pendingLocks), publishOk);
              err == (f < |old(pendingLocks)|)
    {
      hide SweepLocks, FirstFailure, SetPhase;
      currentBscBlock := blockNum;
      db.bscLastSeenBlock := blockNum;
      ghost var before := Shared(db.Contents(), bus.log);
      SweepSends(largeTransferThreshold, blockNum, before, pendingLocks, publishOk);
      SweepNone(largeTransferThreshold, blockNum, before, publishOk);
      var remaining: seq<Lock> := [];
      var i := 0;
      assert pendingLocks[..0] == [];
      while i < |pendingLocks|
        invariant 0 <= i <= |pendingLocks| && pendingLocks == old(pendingLocks) && currentBscBlock == blockNum
        invariant SweepLocks(largeTransferThreshold, blockNum, before, pendingLocks[..i], publishOk)
               == Sweep(Shared(db.Contents(), bus.log), remaining, false)
      {
        var lock := pendingLocks[i];
        var requiredConfirmations := 15;
        if lock.amount >= largeTransferThreshold {
          requiredConfirmations := 50;
        }
        SweepNext(largeTransferThreshold, blockNum, before, pendingLocks, i, publishOk);
        if currentBscBlock >= (lock.block + requiredConfirmations) % TWO64 {
          bus.Publish(LockSent(lock, currentBscBlock), publishOk(i));
          if !publishOk(i) {
            SweepStops(largeTransferThreshold, blockNum, before, pendingLocks, i + 1, publishOk);
            return true;
          }
          db.SetNonceState(lock.nonce, Confirmed);
        } else {
          remaining := remaining + [lock];
        }
        i := i + 1;
      }
      assert pendingLocks[..|pendingLocks|] == pendingLocks;
      pendingLocks := remaining;
      return false;
    }
  }

  lemma SweepNone(threshold: Word64, height: Word64, shared: Shared, ok: nat -> bool)
    ensures SweepLocks(threshold, height, shared, [], ok) == Sweep(shared, [], false)
  {
  }

  lemma SweepNext(threshold: Word64, height: Word64, shared: Shared, locks: seq<Lock>, i: nat, ok: nat -> bool)
    requires i < |locks|
    ensures SweepLocks(threshold, height, shared, locks[..i + 1], ok)
         == SweepLock(threshold, height, SweepLocks(threshold, height, shared, locks[..i], ok), locks[i], ok(i))
  {
    assert locks[..i + 1][..i] == locks[..i];
  }

  /** Once a publication has failed the loop changes nothing. */
  lemma {:induction false} SweepStops(
      threshold: Word64, height: Word64, shared: Shared, locks: seq<Lock>, i: nat, ok: nat -> bool)
    requires i <= |locks| && SweepLocks(threshold, height, shared, locks[..i], ok).failed
    ensures SweepLocks(threshold, height, shared, locks, ok) == SweepLocks(threshold, height, shared, locks[..i], ok)
    decreases |locks| - i
  {
    if i == |locks| {
      assert locks[..i] == locks;
    } else {
      SweepNext(threshold, height, shared, locks, i, ok);
      SweepStops(threshold, height, shared, locks, i + 1, ok);
    }
  }

  class CosmosWatcher {
    const db: RelayerDB
    const bus: EventBus

    constructor (db: RelayerDB, bus: EventBus)
      ensures this.db == db && this.bus == bus
    {
      this.db, this.bus := db, bus;
    }

    ghost function State(): Shared
      reads db, bus
    {
      Shared(db.Contents(), bus.log)
    }

    method IngestBurnEvent(event: Burn, publishOk: bool)
      modifies db, bus
      ensures State() == IngestBurn(old(State()), event, publishOk)
    {
      var state := db.GetNonceState(event.nonce);
      if state == Observed || state == Burned {
        return;
      }
      db.memBurns := db.memBurns[event.nonce := event];
      db.SetNonceState(event.nonce, Observed);
      db.cosmosLastSeenHeight := event.height;
      bus.Publish(BurnSent(event), publishOk);
      if !publishOk {
        return;
      }
      db.SetNonceState(event.nonce, Burned);
    }

    /** err is true when a publication failed. */
    method ProcessPendingBurns(publishOk: nat -> bool) returns (err: bool)
      modifies db, bus
      ensures exists order :: Enumerates(order, PendingBurns(old(db.Contents()))) &&
                              Sending(State(), err) ==
                                SendBurns(old(State()), BurnsOf(old(db.Contents()), order), publishOk)
    {
      hide SendBurns, SetPhase;
      var pending := db.GetPendingBurns();
      ghost var order :| Enumerates(order, PendingBurns(db.Contents())) && pending == BurnsOf(db.Contents(), order);
      SendNone(State(), publishOk);
      var i := 0;
      assert pending[..0] == [];
      while i < |pending|
        invariant 0 <= i <= |pending|
        invariant SendBurns(old(State()), pending[..i], publishOk) == Sending(State(), false)
      {
        var event := pending[i];
        SendNext(old(State()), pending, i, publishOk);
        bus.Publish(BurnSent(event), publishOk(i));
        if !publishOk(i) {
          SendStops(old(State()), pending, i + 1, publishOk);
          return true;
        }
        db.SetNonceState(event.nonce, Burned);
        i := i + 1;
      }
      assert pending[..|pending|] == pending;
      return false;
    }
  }

  lemma SendNone(s: Shared, ok: nat -> bool)
    ensures SendBurns(s, [], ok) == Sending(s, false)
  {
  }

  lemma SendNext(s: Shared, burns: seq<Burn>, i: nat, ok: nat -> bool)
    requires i < |burns|
    ensures SendBurns(s, burns[..i + 1], ok) == SendBurn(SendBurns(s, burns[..i], ok), burns[i], ok(i))
  {
    assert burns[..i + 1][..i] == burns[..i];
  }

  lemma {:induction false} SendStops(s: Shared, burns: seq<Burn>, i: nat, ok: nat -> bool)
    requires i <= |burns| && SendBurns(s, burns[..i], ok).failed
    ensures SendBurns(s, burns, ok) == SendBurns(s, burns[..i], ok)
    decreases |burns| - i
  {
    if i == |burns| {
      assert burns[..i] == burns;
    } else {
      SendNext(s, burns, i, ok);
      SendStops(s, burns, i + 1, ok);
    }
  }
}
