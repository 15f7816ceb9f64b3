/** The per-table transaction queue of DMLProc (dmlproc/dmlprocessor.cpp, dmlproc/dmlprocessor.h).
    A handler that wants to change a table either starts the table's queue and works, or gets
    on the queue and waits for one condition variable shared by all tables. Each
    critical section under the mutex is one atomic step. Handlers are named by their
    transaction: a transaction has at most one live handler. */
module TableAccess {

  // A blocked thread may have a notification pending. A working one may have built its processor,
  // and may have been released by force.
  datatype Phase = Waiting(notified: bool) | Working(hasProcessor: bool, forced: bool)
  datatype Handler = Handler(oid: int, phase: Phase)
  datatype State = State(queues: map<int, seq<int>>, handlers: map<int, Handler>)

  const INIT := State(map[], map[])

  // ---------- critical sections ----------

  function WithPhase(s: State, txn: int, p: Phase): (r: State)
    requires txn in s.handlers
  {
    s.(handlers := s.handlers[txn := s.handlers[txn].(phase := p)])
  }

  // notify_all: every blocked thread, whatever its table
  function NotifyAll(hs: map<int, Handler>): (r: map<int, Handler>)
  {
    map t | t in hs :: if hs[t].phase.Waiting? then hs[t].(phase := Waiting(true)) else hs[t]
  }

  // Empty queues are removed from the map.
  function SetQueue(queues: map<int, seq<int>>, oid: int, q: seq<int>): (r: map<int, seq<int>>)
  {
    if q == [] then queues - {oid} else queues[oid := q]
  }

  // iterable_queue::erase: the first occurrence
  function Erase(q: seq<int>, txn: int): (r: seq<int>)
  {
    if q == [] then [] else if q[0] == txn then q[1..] else [q[0]] + Erase(q[1..], txn)
  }

  // synchTableAccess up to the wait
  function Arrive(s: State, txn: int, oid: int): (r: State)
  {
    var working := Handler(oid, Working(false, false));
    if oid in s.queues then
      var q := s.queues[oid];
      if q != [] && q[0] == txn then s.(handlers := s.handlers[txn := working])
      else State(s.queues[oid := q + [txn]], s.handlers[txn := Handler(oid, Waiting(false))])
    else State(s.queues[oid := [txn]], s.handlers[txn := working])
  }

  // What a thread finds when it wakes up, in the order of the tests.
  datatype Exit = MissingEntry | Next | EmptyQueue | NotQueued | WaitAgain

  function WakeExit(s: State, txn: int): (e: Exit)
    requires txn in s.handlers
  {
    var oid := s.handlers[txn].oid;
    if oid !in s.queues then MissingEntry
    else
      var q := s.queues[oid];
      if q != [] && q[0] == txn then Next
      else if q == [] then EmptyQueue
      else if txn !in q then NotQueued
      else WaitAgain
  }

  // synchTableAccess after a wake-up: every exit but the last lets the thread work
  function Wake(s: State, txn: int): (r: State)
    requires txn in s.handlers
  {
    match WakeExit(s, txn)
    case WaitAgain => WithPhase(s, txn, Waiting(false))
    case EmptyQueue =>
      WithPhase(s.(queues := s.queues - {s.handlers[txn].oid}), txn, Working(false, false))
    case _ => WithPhase(s, txn, Working(false, false))
  }

  // releaseTableAccess; the handler is gone afterwards
  function Release(s: State, txn: int): (r: State)
    requires txn in s.handlers
  {
    var oid := s.handlers[txn].oid;
    var others := s.handlers - {txn};
    if oid == 0 || oid !in s.queues then State(s.queues, others)
    else
      var q := s.queues[oid];
      State(if q != [] && q[0] == txn then SetQueue(s.queues, oid, q[1..]) else s.queues, NotifyAll(others))
  }

  // rollbackPending with forceReleaseTableAccess; a handler without a processor is left alone
  function RollbackPending(s: State, txn: int): (r: State)
    requires txn in s.handlers
  {
    var h := s.handlers[txn];
    if h.phase.Waiting? || !h.phase.hasProcessor then s
    else
      var forced := WithPhase(s, txn, Working(true, true));
      if h.oid == 0 || h.oid !in s.queues then forced
      else State(SetQueue(s.queues, h.oid, Erase(s.queues[h.oid], txn)), NotifyAll(forced.handlers))
  }

  // ---------- runs ----------

  datatype Step =
    | DoArrive(txn: int, oid: int)
    | DoWake(txn: int)
    | SpuriousWakeup(txn: int)
    | BuildProcessor(txn: int)
    | DoRollbackPending(txn: int)
    | DoRelease(txn: int)

  predicate Enabled(s: State, step: Step)
  {
    match step
    case DoArrive(txn, oid) => txn !in s.handlers && oid != 0
    case DoWake(txn) => txn in s.handlers && s.handlers[txn].phase == Waiting(true)
    case SpuriousWakeup(txn) => txn in s.handlers && s.handlers[txn].phase.Waiting?
    case BuildProcessor(txn) => txn in s.handlers && s.handlers[txn].phase.Working?
    case DoRollbackPending(txn) => txn in s.handlers
    case DoRelease(txn) => txn in s.handlers && s.handlers[txn].phase.Working?
  }

  function Apply(s: State, step: Step): (r: State)
    requires Enabled(s, step)
  {
    match step
    case DoArrive(txn, oid) => Arrive(s, txn, oid)
    case DoWake(txn) => Wake(s, txn)
    case SpuriousWakeup(txn) => WithPhase(s, txn, Waiting(true))
    case BuildProcessor(txn) => WithPhase(s, txn, Working(true, s.handlers[txn].phase.forced))
    case DoRollbackPending(txn) => RollbackPending(s, txn)
    case DoRelease(txn) => Release(s, txn)
  }

  predicate IsRun(s: State, steps: seq<Step>)
    decreases |steps|
  {
    steps == [] || (Enabled(s, steps[0]) && IsRun(Apply(s, steps[0]), steps[1..]))
  }

  function After(s: State, steps: seq<Step>): (r: State)
    requires IsRun(s, steps)
    decreases |steps|
  {
    if steps == [] then s else After(Apply(s, steps[0]), steps[1..])
  }

  // ---------- the invariant ----------

  predicate NoDuplicates(q: seq<int>)
  {
    forall i, j :: 0 <= i < j < |q| ==> q[i] != q[j]
  }

  // Only live handlers of the table that were not released by force are queued.
  predicate MayQueue(s: State, oid: int, txn: int)
  {
    && txn in s.handlers && s.handlers[txn].oid == oid
    && (s.handlers[txn].phase.Working? ==> !s.handlers[txn].phase.forced)
  }

  predicate QueueOk(s: State, oid: int)
    requires oid in s.queues
  {
    var q := s.queues[oid];
    && q != [] && NoDuplicates(q)
    && forall k :: 0 <= k < |q| ==> MayQueue(s, oid, q[k])
  }

  predicate HandlerOk(s: State, txn: int)
    requires txn in s.handlers
  {
    var h := s.handlers[txn];
    && h.oid != 0
    && (h.phase.Waiting? ==> h.oid in s.queues && txn in s.queues[h.oid])
    && (h.phase.Working? && !h.phase.forced ==> IsFront(s, h.oid, txn))
    && (h.phase == Waiting(false) ==> !IsFront(s, h.oid, txn))
  }

  predicate IsFront(s: State, oid: int, txn: int)
  {
    oid in s.queues && s.queues[oid] != [] && s.queues[oid][0] == txn
  }

  predicate Inv(s: State)
  {
    && (forall oid :: oid in s.queues ==> QueueOk(s, oid))
    && (forall txn :: txn in s.handlers ==> HandlerOk(s, txn))
  }

  // ---------- every step keeps it ----------

  lemma InvInitially()
    ensures Inv(INIT)
  {
  }

  lemma {:induction false} EraseFront(q: seq<int>, txn: int)
    requires q != [] && q[0] == txn
    ensures Erase(q, txn) == q[1..]
  {
  }

  lemma {:induction false} EraseAbsent(q: seq<int>, txn: int)
    requires txn !in q
    ensures Erase(q, txn) == q
  {
    if q != [] {
      EraseAbsent(q[1..], txn);
    }
  }

  // A new handler works at once on a free table, and otherwise queues up behind the others.
  lemma ArriveKeeps(s: State, txn: int, oid: int)
    requires Inv(s) && txn !in s.handlers && oid != 0
    ensures Inv(Arrive(s, txn, oid))
  {
    var r := Arrive(s, txn, oid);
    if oid in s.queues {
      assert QueueOk(s, oid);
      assert MayQueue(s, oid, s.queues[oid][0]);
    }
    forall o | o in r.queues
      ensures QueueOk(r, o)
    {
      if o in s.queues {
        assert QueueOk(s, o);
        forall k | 0 <= k < |r.queues[o]|
          ensures MayQueue(r, o, r.queues[o][k])
        {
          if k < |s.queues[o]| {
            assert MayQueue(s, o, s.queues[o][k]);
          }
        }
      }
    }
    forall t | t in r.handlers
      ensures HandlerOk(r, t)
    {
      if t in s.handlers {
        assert HandlerOk(s, t);
      }
    }
  }

  // Changing one handler's phase without touching the queues.
  lemma PhaseKeeps(s: State, txn: int, p: Phase)
    requires Inv(s) && txn in s.handlers
    requires HandlerOk(WithPhase(s, txn, p), txn)
    requires MayQueue(s, s.handlers[txn].oid, txn) ==> MayQueue(WithPhase(s, txn, p), s.handlers[txn].oid, txn)
    ensures Inv(WithPhase(s, txn, p))
  {
    var r := WithPhase(s, txn, p);
    forall o | o in r.queues
      ensures QueueOk(r, o)
    {
      assert QueueOk(s, o);
      forall k | 0 <= k < |r.queues[o]|
        ensures MayQueue(r, o, r.queues[o][k])
      {
        assert MayQueue(s, o, s.queues[o][k]);
      }
    }
    forall t | t in r.handlers
      ensures HandlerOk(r, t)
    {
      assert HandlerOk(s, t);
    }
  }

  // A waiter is still queued when it wakes up: it either goes on to work at the front or waits again.
  lemma WakeExits(s: State, txn: int)
    requires Inv(s) && txn in s.handlers && s.handlers[txn].phase.Waiting?
    ensures WakeExit(s, txn) == Next || WakeExit(s, txn) == WaitAgain
    ensures WakeExit(s, txn) == Next <==> IsFront(s, s.handlers[txn].oid, txn)
  {
    assert HandlerOk(s, txn);
    assert QueueOk(s, s.handlers[txn].oid);
  }

  lemma WakeKeeps(s: State, txn: int)
    requires Inv(s) && txn in s.handlers && s.handlers[txn].phase.Waiting?
    ensures Inv(Wake(s, txn))
  {
    WakeExits(s, txn);
    assert HandlerOk(s, txn);
    PhaseKeeps(s, txn, if WakeExit(s, txn) == Next then Working(false, false) else Waiting(false));
  }

  // All handlers but one are the same, up to pending notifications.
  predicate SameUpToNotification(hs: map<int, Handler>, rs: map<int, Handler>, txn: int)
  {
    && (forall t :: t in rs && t != txn ==> t in hs && (rs[t] == hs[t] || rs[t] == NotifyAll(hs)[t]))
    && (txn in rs ==> txn in hs && rs[txn] == hs[txn].(phase := Working(true, true)))
  }

  predicate AllNotified(rs: map<int, Handler>)
  {
    forall t :: t in rs && rs[t].phase.Waiting? ==> rs[t].phase.notified
  }

  predicate KeepsOthers(hs: map<int, Handler>, rs: map<int, Handler>, txn: int)
  {
    forall t :: t in hs && t != txn ==> t in rs
  }

  // Taking the front off a table's queue and notifying everybody. The transaction that left is
  // gone from the handlers or marked as forced.
  lemma PopKeeps(s: State, oid: int, r: State)
    requires Inv(s) && oid in s.queues && s.queues[oid] != []
    requires r.queues == SetQueue(s.queues, oid, s.queues[oid][1..])
    requires SameUpToNotification(s.handlers, r.handlers, s.queues[oid][0])
    requires KeepsOthers(s.handlers, r.handlers, s.queues[oid][0]) && AllNotified(r.handlers)
    ensures Inv(r)
  {
    var front := s.queues[oid][0];
    assert QueueOk(s, oid);
    assert MayQueue(s, oid, front);
    forall o | o in r.queues
      ensures QueueOk(r, o)
    {
      assert QueueOk(s, o);
      var shift := if o == oid then 1 else 0;
      forall k | 0 <= k < |r.queues[o]|
        ensures MayQueue(r, o, r.queues[o][k])
      {
        assert r.queues[o][k] == s.queues[o][k + shift];
        assert MayQueue(s, o, s.queues[o][k + shift]);
      }
    }
    forall t | t in r.handlers
      ensures HandlerOk(r, t)
    {
      assert HandlerOk(s, t);
      if t != front && s.handlers[t].phase.Waiting? && s.handlers[t].oid == oid {
        assert t in s.queues[oid][1..] by {
          assert s.queues[oid] == [front] + s.queues[oid][1..];
        }
      }
    }
  }

  // Notifying everybody, with one handler that is in no queue gone or marked as forced.
  lemma NotifyKeeps(s: State, txn: int, r: State)
    requires Inv(s) && txn in s.handlers && s.handlers[txn].phase.Working? && s.handlers[txn].phase.forced
    requires r.queues == s.queues
    requires SameUpToNotification(s.handlers, r.handlers, txn) && KeepsOthers(s.handlers, r.handlers, txn)
    ensures Inv(r)
  {
    forall o | o in r.queues
      ensures QueueOk(r, o)
    {
      assert QueueOk(s, o);
      forall k | 0 <= k < |r.queues[o]|
        ensures MayQueue(r, o, r.queues[o][k])
      {
        assert MayQueue(s, o, s.queues[o][k]);
      }
    }
    forall t | t in r.handlers
      ensures HandlerOk(r, t)
    {
      assert HandlerOk(s, t);
    }
  }

  // A handler released by force is in no queue.
  lemma ForcedIsNotQueued(s: State, txn: int, oid: int)
    requires Inv(s) && txn in s.handlers && s.handlers[txn].phase.Working? && s.handlers[txn].phase.forced
    requires oid in s.queues
    ensures txn !in s.queues[oid]
  {
    assert QueueOk(s, oid);
    forall k | 0 <= k < |s.queues[oid]|
      ensures s.queues[oid][k] != txn
    {
      assert MayQueue(s, oid, s.queues[oid][k]);
    }
  }

  lemma ReleaseKeeps(s: State, txn: int)
    requires Inv(s) && txn in s.handlers && s.handlers[txn].phase.Working?
    ensures Inv(Release(s, txn))
  {
    assert HandlerOk(s, txn);
    var oid := s.handlers[txn].oid;
    if s.handlers[txn].phase.forced {
      if oid in s.queues {
        ForcedIsNotQueued(s, txn, oid);
      }
      NotifyKeeps(s, txn, Release(s, txn));
    } else {
      PopKeeps(s, oid, Release(s, txn));
    }
  }

  lemma RollbackPendingKeeps(s: State, txn: int)
    requires Inv(s) && txn in s.handlers
    ensures Inv(RollbackPending(s, txn))
  {
    assert HandlerOk(s, txn);
    var h := s.handlers[txn];
    if h.phase.Working? && h.phase.hasProcessor {
      if h.phase.forced {
        if h.oid in s.queues {
          ForcedIsNotQueued(s, txn, h.oid);
          EraseAbsent(s.queues[h.oid], txn);
          assert QueueOk(s, h.oid);
          assert s.queues[h.oid := s.queues[h.oid]] == s.queues;
        }
        NotifyKeeps(s, txn, RollbackPending(s, txn));
      } else {
        EraseFront(s.queues[h.oid], txn);
        PopKeeps(s, h.oid, RollbackPending(s, txn));
      }
    }
  }

  // ---------- what every step does ----------

  // Everything but the queue of one table and one handler is the same, up to pending notifications.
  ghost predicate ElseSame(s: State, r: State, oid: int, txn: int)
  {
    && (forall o :: o != oid ==> (o in r.queues <==> o in s.queues))
    && (forall o :: o != oid && o in s.queues ==> r.queues[o] == s.queues[o])
    && (forall t :: t != txn ==> (t in r.handlers <==> t in s.handlers))
    && (forall t :: t != txn && t in s.handlers ==>
          && r.handlers[t].oid == s.handlers[t].oid
          && (r.handlers[t].phase == s.handlers[t].phase
              || (s.handlers[t].phase.Waiting? && r.handlers[t].phase == Waiting(true))))
  }

  // An arrival starts the queue of a free table and works; otherwise it is last in the queue and waits.
  lemma ArriveDoes(s: State, txn: int, oid: int)
    requires Inv(s) && Enabled(s, DoArrive(txn, oid))
    ensures var r := Apply(s, DoArrive(txn, oid));
            && ElseSame(s, r, oid, txn) && oid in r.queues && txn in r.handlers
            && r.handlers == s.handlers[txn := r.handlers[txn]] && r.handlers[txn].oid == oid
            && (oid !in s.queues ==> r.queues[oid] == [txn] && r.handlers[txn].phase == Working(false, false))
            && (oid in s.queues ==>
                 && r.handlers[txn].phase == Waiting(false)
                 && |r.queues[oid]| == |s.queues[oid]| + 1 && r.queues[oid][|s.queues[oid]|] == txn
                 && forall k :: 0 <= k < |s.queues[oid]| ==> r.queues[oid][k] == s.queues[oid][k])
  {
    if oid in s.queues {
      assert QueueOk(s, oid);
      assert MayQueue(s, oid, s.queues[oid][0]);
    }
  }

  // A wake-up starts the front of the queue and sends everybody else back to wait.
  lemma WakeDoes(s: State, txn: int)
    requires Inv(s) && Enabled(s, DoWake(txn))
    ensures var r := Apply(s, DoWake(txn));
            var oid := s.handlers[txn].oid;
            && r.queues == s.queues && oid in s.queues && s.queues[oid] != []
            && r.handlers == s.handlers[txn := Handler(oid, if s.queues[oid][0] == txn then Working(false, false)
                                                            else Waiting(false))]
  {
    WakeExits(s, txn);
    assert HandlerOk(s, txn);
    assert QueueOk(s, s.handlers[txn].oid);
  }

  // The transaction is gone from the queue of its table, the others are there in the same order, and a
  // queue that became empty is no entry of the map.
  ghost predicate LeftQueue(s: State, r: State, oid: int, txn: int)
  {
    && (oid in r.queues ==> oid in s.queues && txn !in r.queues[oid] && r.queues[oid] != [])
    && (oid in s.queues && oid !in r.queues ==> forall k :: 0 <= k < |s.queues[oid]| ==> s.queues[oid][k] == txn)
    && (oid in s.queues && oid in r.queues ==>
         var d := if txn in s.queues[oid] then 1 else 0;
         && |r.queues[oid]| == |s.queues[oid]| - d
         && (d == 1 ==> s.queues[oid][0] == txn)
         && forall k :: 0 <= k < |r.queues[oid]| ==> r.queues[oid][k] == s.queues[oid][k + d])
  }

  ghost predicate WaitersNotified(r: State)
  {
    forall t :: t in r.handlers && r.handlers[t].phase.Waiting? ==> r.handlers[t].phase == Waiting(true)
  }

  // The queue loses its front, or keeps all if the transaction is not in it.
  lemma LeavesQueue(s: State, r: State, oid: int, txn: int)
    requires Inv(s) && oid in s.queues
    requires txn in s.queues[oid] ==>
               s.queues[oid][0] == txn && r.queues == SetQueue(s.queues, oid, s.queues[oid][1..])
    requires txn !in s.queues[oid] ==> r.queues == s.queues
    ensures LeftQueue(s, r, oid, txn)
  {
    assert QueueOk(s, oid);
    if txn in s.queues[oid] {
      assert forall k :: 0 < k < |s.queues[oid]| ==> s.queues[oid][k] != txn;
    }
  }

  // A release ends the handler, takes it off its queue and notifies every waiter.
  lemma ReleaseDoes(s: State, txn: int)
    requires Inv(s) && Enabled(s, DoRelease(txn))
    ensures var r := Apply(s, DoRelease(txn));
            var oid := s.handlers[txn].oid;
            && txn !in r.handlers && ElseSame(s, r, oid, txn) && LeftQueue(s, r, oid, txn)
            && (oid in s.queues ==> WaitersNotified(r)) && (oid !in s.queues ==> r.handlers == s.handlers - {txn})
            && (!s.handlers[txn].phase.forced ==> oid in s.queues && txn in s.queues[oid])
  {
    assert HandlerOk(s, txn);
    var oid := s.handlers[txn].oid;
    if oid in s.queues {
      assert QueueOk(s, oid);
      if s.handlers[txn].phase.forced {
        ForcedIsNotQueued(s, txn, oid);
      }
      LeavesQueue(s, Apply(s, DoRelease(txn)), oid, txn);
    }
  }

  // A release by force takes a working handler with a processor off its queue, marks it, and notifies
  // every waiter, the new front among them. Every other handler is left alone.
  lemma RollbackPendingDoes(s: State, txn: int)
    requires Inv(s) && txn in s.handlers
    ensures var r := Apply(s, DoRollbackPending(txn));
            var h := s.handlers[txn];
            && (h.phase.Waiting? || !h.phase.hasProcessor ==> r == s)
            && (h.phase.Working? && h.phase.hasProcessor ==>
                 && txn in r.handlers && r.handlers[txn] == Handler(h.oid, Working(true, true))
                 && ElseSame(s, r, h.oid, txn) && LeftQueue(s, r, h.oid, txn)
                 && (h.oid in s.queues ==> WaitersNotified(r))
                 && (h.oid !in s.queues ==> r.handlers == s.handlers[txn := r.handlers[txn]])
                 && (!h.phase.forced ==> h.oid in s.queues && txn in s.queues[h.oid])
                 && forall o :: o in r.queues ==> txn !in r.queues[o])
  {
    RollbackPendingKeeps(s, txn);
    assert HandlerOk(s, txn);
    var h, r := s.handlers[txn], Apply(s, DoRollbackPending(txn));
    if h.phase.Working? && h.phase.hasProcessor {
      if h.oid in s.queues {
        assert QueueOk(s, h.oid);
        if h.phase.forced {
          ForcedIsNotQueued(s, txn, h.oid);
          EraseAbsent(s.queues[h.oid], txn);
          assert s.queues[h.oid := s.queues[h.oid]] == s.queues;
        } else {
          EraseFront(s.queues[h.oid], txn);
        }
        LeavesQueue(s, r, h.oid, txn);
      }
      forall o | o in r.queues
        ensures txn !in r.queues[o]
      {
        ForcedIsNotQueued(r, txn, o);
      }
    }
  }

  // A spurious wake-up is a pending notification; building a processor is only noted.
  lemma OtherStepsDo(s: State, txn: int)
    ensures Enabled(s, SpuriousWakeup(txn)) ==>
              Apply(s, SpuriousWakeup(txn))
              == State(s.queues, s.handlers[txn := Handler(s.handlers[txn].oid, Waiting(true))])
    ensures Enabled(s, BuildProcessor(txn)) ==>
              var h := s.handlers[txn];
              Apply(s, BuildProcessor(txn))
              == State(s.queues, s.handlers[txn := Handler(h.oid, Working(true, h.phase.forced))])
  {
  }

  lemma StepKeepsInv(s: State, step: Step)
    requires Inv(s) && Enabled(s, step)
    ensures Inv(Apply(s, step))
  {
    match step
    case DoArrive(txn, oid) => ArriveKeeps(s, txn, oid);
    case DoWake(txn) => WakeKeeps(s, txn);
    case SpuriousWakeup(txn) =>
      assert HandlerOk(s, txn);
      PhaseKeeps(s, txn, Waiting(true));
    case BuildProcessor(txn) =>
      assert HandlerOk(s, txn);
      PhaseKeeps(s, txn, Working(true, s.handlers[txn].phase.forced));
    case DoRollbackPending(txn) => RollbackPendingKeeps(s, txn);
    case DoRelease(txn) => ReleaseKeeps(s, txn);
  }

  lemma {:induction false} RunKeepsInv(s: State, steps: seq<Step>)
    requires Inv(s) && IsRun(s, steps)
    ensures Inv(After(s, steps))
    decreases |steps|
  {
    if steps != [] {
      StepKeepsInv(s, steps[0]);
      RunKeepsInv(Apply(s, steps[0]), steps[1..]);
    }
  }

  // ---------- safety of every run ----------

  // At most one transaction that was not released by force works on a table, and it is the
  // front of the table's queue.
  lemma MutualExclusion(steps: seq<Step>, t: int, u: int)
    requires IsRun(INIT, steps)
    ensures var s := After(INIT, steps);
            t in s.handlers && s.handlers[t].phase.Working? && !s.handlers[t].phase.forced ==>
              && IsFront(s, s.handlers[t].oid, t)
              && ((u in s.handlers && s.handlers[u].phase.Working? && !s.handlers[u].phase.forced
                   && s.handlers[u].oid == s.handlers[t].oid) ==> t == u)
  {
    InvInitially();
    RunKeepsInv(INIT, steps);
    var s := After(INIT, steps);
    if t in s.handlers {
      assert HandlerOk(s, t);
    }
    if u in s.handlers {
      assert HandlerOk(s, u);
    }
  }

  // The force matters: here 1 was released by force but still works on table 5, and so does 2.
  lemma ForcedHandlerOverlaps()
    ensures var steps := [DoArrive(1, 5), BuildProcessor(1), DoArrive(2, 5), DoRollbackPending(1), DoWake(2)];
            && IsRun(INIT, steps)
            && After(INIT, steps).handlers
               == map[1 := Handler(5, Working(true, true)), 2 := Handler(5, Working(false, false))]
  {
    var w := Handler(5, Working(false, false));
    var s1 := State(map[5 := [1]], map[1 := w]);
    var s2 := State(map[5 := [1]], map[1 := Handler(5, Working(true, false))]);
    var s3 := State(map[5 := [1, 2]], s2.handlers[2 := Handler(5, Waiting(false))]);
    var s4 := State(map[5 := [2]], map[1 := Handler(5, Working(true, true)), 2 := Handler(5, Waiting(true))]);
    var s5 := State(map[5 := [2]], map[1 := Handler(5, Working(true, true)), 2 := w]);
    assert Apply(INIT, DoArrive(1, 5)) == s1;
    assert Apply(s1, BuildProcessor(1)) == s2;
    assert Apply(s2, DoArrive(2, 5)) == s3 by {
      assert [1] + [2] == [1, 2];
    }
    EraseFront([1, 2], 1);
    assert Apply(s3, DoRollbackPending(1)) == s4;
    assert Apply(s4, DoWake(2)) == s5;
    OneStep(s4, [DoWake(2)], s5);
    OneStep(s3, [DoRollbackPending(1), DoWake(2)], s4);
    OneStep(s2, [DoArrive(2, 5), DoRollbackPending(1), DoWake(2)], s3);
    OneStep(s1, [BuildProcessor(1), DoArrive(2, 5), DoRollbackPending(1), DoWake(2)], s2);
    OneStep(INIT, [DoArrive(1, 5), BuildProcessor(1), DoArrive(2, 5), DoRollbackPending(1), DoWake(2)], s1);
  }

  // Alone in the queue: a release by force frees the table for the next arrival.
  lemma ForceFreesTable()
    ensures var steps := [DoArrive(1, 5), BuildProcessor(1), DoRollbackPending(1), DoArrive(2, 5)];
            && IsRun(INIT, steps)
            && After(INIT, steps) == State(map[5 := [2]], map[1 := Handler(5, Working(true, true)),
                                                             2 := Handler(5, Working(false, false))])
  {
    var w, f := Handler(5, Working(false, false)), Handler(5, Working(true, true));
    var s1 := State(map[5 := [1]], map[1 := w]);
    var s2 := State(map[5 := [1]], map[1 := Handler(5, Working(true, false))]);
    var s3 := State(map[], map[1 := f]);
    var s4 := State(map[5 := [2]], map[1 := f, 2 := w]);
    assert Apply(INIT, DoArrive(1, 5)) == s1;
    assert Apply(s1, BuildProcessor(1)) == s2;
    EraseFront([1], 1);
    assert Apply(s2, DoRollbackPending(1)) == s3;
    assert Apply(s3, DoArrive(2, 5)) == s4;
    OneStep(s3, [DoArrive(2, 5)], s4);
    OneStep(s2, [DoRollbackPending(1), DoArrive(2, 5)], s3);
    OneStep(s1, [BuildProcessor(1), DoRollbackPending(1), DoArrive(2, 5)], s2);
    OneStep(INIT, [DoArrive(1, 5), BuildProcessor(1), DoRollbackPending(1), DoArrive(2, 5)], s1);
  }

  lemma OneStep(s: State, steps: seq<Step>, r: State)
    requires steps != [] && Enabled(s, steps[0]) && Apply(s, steps[0]) == r
    ensures IsRun(s, steps) <==> IsRun(r, steps[1..])
    ensures IsRun(s, steps) ==> After(s, steps) == After(r, steps[1..])
  {
  }

  // No wake-up is lost: a blocked thread at the front of its queue has a notification pending,
  // and it will leave the wait by the regular exit.
  lemma NoLostWakeup(steps: seq<Step>, oid: int)
    requires IsRun(INIT, steps)
    ensures var s := After(INIT, steps);
            oid in s.queues ==>
              && s.queues[oid] != [] && s.queues[oid][0] in s.handlers
              && (s.handlers[s.queues[oid][0]].phase.Waiting? ==>
                   && Enabled(s, DoWake(s.queues[oid][0]))
                   && WakeExit(s, s.queues[oid][0]) == Next)
  {
    InvInitially();
    RunKeepsInv(INIT, steps);
    var s := After(INIT, steps);
    if oid in s.queues {
      assert QueueOk(s, oid);
      var front := s.queues[oid][0];
      assert MayQueue(s, oid, front);
      assert HandlerOk(s, front);
    }
  }

  // In every run a thread that wakes up leaves the wait only as the front of its queue.
  lemma OnlyRegularExits(steps: seq<Step>, txn: int)
    requires IsRun(INIT, steps)
    ensures var s := After(INIT, steps);
            txn in s.handlers && s.handlers[txn].phase.Waiting? ==> WakeExit(s, txn) in {Next, WaitAgain}
  {
    InvInitially();
    RunKeepsInv(INIT, steps);
    var s := After(INIT, steps);
    if txn in s.handlers && s.handlers[txn].phase.Waiting? {
      WakeExits(s, txn);
    }
  }

  // The late release of a transaction released by force takes nobody else off a queue.
  lemma LateReleaseIsHarmless(steps: seq<Step>, txn: int)
    requires IsRun(INIT, steps)
    ensures var s := After(INIT, steps);
            txn in s.handlers && s.handlers[txn].phase.Working? && s.handlers[txn].phase.forced ==>
              Release(s, txn).queues == s.queues
  {
    InvInitially();
    RunKeepsInv(INIT, steps);
    var s := After(INIT, steps);
    if txn in s.handlers && s.handlers[txn].phase.Working? && s.handlers[txn].phase.forced {
      if s.handlers[txn].oid in s.queues {
        ForcedIsNotQueued(s, txn, s.handlers[txn].oid);
      }
    }
  }

  // ---------- arrival order ----------

  function Queue(s: State, oid: int): (q: seq<int>)
  {
    if oid in s.queues then s.queues[oid] else []
  }

  // What one step does to a table, as an observer sees it: who arrived, who left the queue, and who
  // started to work.
  function ArrivedBy(step: Step, oid: int): (r: seq<int>)
  {
    if step.DoArrive? && step.oid == oid then [step.txn] else []
  }

  function LeftBy(s: State, step: Step, oid: int): (r: seq<int>)
    requires Enabled(s, step)
  {
    if step.txn in Queue(s, oid) && step.txn !in Queue(Apply(s, step), oid) then [step.txn] else []
  }

  predicate WorksOn(s: State, txn: int, oid: int)
  {
    txn in s.handlers && s.handlers[txn].oid == oid && s.handlers[txn].phase.Working?
  }

  function GrantedBy(s: State, step: Step, oid: int): (r: seq<int>)
    requires Enabled(s, step)
  {
    if !WorksOn(s, step.txn, oid) && WorksOn(Apply(s, step), step.txn, oid) then [step.txn] else []
  }

  // The front of the queue, if it is working.
  function WorkingFront(s: State, oid: int): (r: seq<int>)
  {
    if Queue(s, oid) != [] && WorksOn(s, Queue(s, oid)[0], oid) then [Queue(s, oid)[0]] else []
  }

  function Arrived(steps: seq<Step>, oid: int): (r: seq<int>)
  {
    if steps == [] then [] else ArrivedBy(steps[0], oid) + Arrived(steps[1..], oid)
  }

  function Left(s: State, steps: seq<Step>, oid: int): (r: seq<int>)
    requires IsRun(s, steps)
    decreases |steps|
  {
    if steps == [] then [] else LeftBy(s, steps[0], oid) + Left(Apply(s, steps[0]), steps[1..], oid)
  }

  function Granted(s: State, steps: seq<Step>, oid: int): (r: seq<int>)
    requires IsRun(s, steps)
    decreases |steps|
  {
    if steps == [] then [] else GrantedBy(s, steps[0], oid) + Granted(Apply(s, steps[0]), steps[1..], oid)
  }

  // A table's queue changes only by arrivals at its back and by its front leaving.
  predicate Fifo(s: State, step: Step, oid: int)
    requires Enabled(s, step)
  {
    var r := Apply(s, step);
    && Queue(s, oid) + ArrivedBy(step, oid) == LeftBy(s, step, oid) + Queue(r, oid)
    && WorkingFront(s, oid) + GrantedBy(s, step, oid) == LeftBy(s, step, oid) + WorkingFront(r, oid)
  }

  lemma ArriveIsFifo(s: State, txn: int, o: int, oid: int)
    requires Inv(s) && Enabled(s, DoArrive(txn, o))
    ensures Fifo(s, DoArrive(txn, o), oid)
  {
    assert txn !in Queue(s, oid) by {
      if oid in s.queues {
        assert QueueOk(s, oid);
        forall k | 0 <= k < |s.queues[oid]|
          ensures s.queues[oid][k] != txn
        {
          assert MayQueue(s, oid, s.queues[oid][k]);
        }
      }
    }
    if o in s.queues {
      assert QueueOk(s, o);
      assert MayQueue(s, o, s.queues[o][0]);
    }
  }

  lemma WakeIsFifo(s: State, txn: int, oid: int)
    requires Inv(s) && Enabled(s, DoWake(txn))
    ensures Fifo(s, DoWake(txn), oid)
  {
    WakeExits(s, txn);
    assert HandlerOk(s, txn);
    if oid in s.queues {
      assert QueueOk(s, oid);
      assert MayQueue(s, oid, s.queues[oid][0]);
    }
  }

  // Behind the front everybody is waiting.
  lemma SecondWaits(s: State, oid: int)
    requires Inv(s) && oid in s.queues && |s.queues[oid]| > 1
    ensures !WorksOn(s, s.queues[oid][1], oid)
  {
    assert QueueOk(s, oid);
    var t := s.queues[oid][1];
    assert MayQueue(s, oid, t);
    assert HandlerOk(s, t);
  }

  // Taking the working front off the queue of table o.
  lemma PopIsFifo(s: State, step: Step, o: int, oid: int)
    requires Inv(s) && Enabled(s, step) && (step.DoRelease? || step.DoRollbackPending?)
    requires o in s.queues && s.queues[o] != [] && s.queues[o][0] == step.txn && WorksOn(s, step.txn, o)
    requires Apply(s, step).queues == SetQueue(s.queues, o, s.queues[o][1..])
    requires SameUpToNotification(s.handlers, Apply(s, step).handlers, step.txn)
    ensures Fifo(s, step, oid)
  {
    if oid == o {
      PopIsFifoHere(s, step, o);
    } else if oid in s.queues {
      assert QueueOk(s, oid);
      assert MayQueue(s, oid, s.queues[oid][0]);
    }
  }

  lemma PopIsFifoHere(s: State, step: Step, o: int)
    requires Inv(s) && Enabled(s, step) && (step.DoRelease? || step.DoRollbackPending?)
    requires o in s.queues && s.queues[o] != [] && s.queues[o][0] == step.txn && WorksOn(s, step.txn, o)
    requires Apply(s, step).queues == SetQueue(s.queues, o, s.queues[o][1..])
    requires SameUpToNotification(s.handlers, Apply(s, step).handlers, step.txn)
    ensures Fifo(s, step, o)
  {
    assert QueueOk(s, o);
    var q := s.queues[o];
    assert q == [step.txn] + q[1..];
    assert Queue(Apply(s, step), o) == q[1..];
    assert LeftBy(s, step, o) == [step.txn];
    if |q| > 1 {
      SecondWaits(s, o);
      assert q[1..][0] == q[1];
    }
  }

  // A step that leaves the queues and everybody's work alone.
  lemma QuietIsFifo(s: State, step: Step, oid: int)
    requires Inv(s) && Enabled(s, step) && !step.DoArrive? && Apply(s, step).queues == s.queues
    requires forall t :: t in Queue(s, oid) ==> (WorksOn(Apply(s, step), t, oid) <==> WorksOn(s, t, oid))
    requires WorksOn(Apply(s, step), step.txn, oid) ==> WorksOn(s, step.txn, oid)
    ensures Fifo(s, step, oid)
  {
  }

  lemma ReleaseIsFifo(s: State, txn: int, oid: int)
    requires Inv(s) && Enabled(s, DoRelease(txn))
    ensures Fifo(s, DoRelease(txn), oid)
  {
    assert HandlerOk(s, txn);
    var h := s.handlers[txn];
    if h.phase.forced {
      if h.oid in s.queues {
        ForcedIsNotQueued(s, txn, h.oid);
      }
      if oid in s.queues {
        ForcedIsNotQueued(s, txn, oid);
      }
      QuietIsFifo(s, DoRelease(txn), oid);
    } else {
      PopIsFifo(s, DoRelease(txn), h.oid, oid);
    }
  }

  lemma RollbackPendingIsFifo(s: State, txn: int, oid: int)
    requires Inv(s) && Enabled(s, DoRollbackPending(txn))
    ensures Fifo(s, DoRollbackPending(txn), oid)
  {
    assert HandlerOk(s, txn);
    var h := s.handlers[txn];
    if h.phase.Working? && h.phase.hasProcessor && !h.phase.forced {
      EraseFront(s.queues[h.oid], txn);
      PopIsFifo(s, DoRollbackPending(txn), h.oid, oid);
    } else {
      if h.oid in s.queues && h.phase.Working? && h.phase.forced {
        ForcedIsNotQueued(s, txn, h.oid);
        EraseAbsent(s.queues[h.oid], txn);
        assert QueueOk(s, h.oid);
        assert s.queues[h.oid := s.queues[h.oid]] == s.queues;
      }
      QuietIsFifo(s, DoRollbackPending(txn), oid);
    }
  }

  lemma StepIsFifo(s: State, step: Step, oid: int)
    requires Inv(s) && Enabled(s, step)
    ensures Fifo(s, step, oid)
  {
    match step
    case DoArrive(txn, o) => ArriveIsFifo(s, txn, o, oid);
    case DoWake(txn) => WakeIsFifo(s, txn, oid);
    case SpuriousWakeup(txn) => QuietIsFifo(s, step, oid);
    case BuildProcessor(txn) => QuietIsFifo(s, step, oid);
    case DoRollbackPending(txn) => RollbackPendingIsFifo(s, txn, oid);
    case DoRelease(txn) => ReleaseIsFifo(s, txn, oid);
  }

  // Over any run a table's queue, extended by the arrivals, is what left it followed by what is
  // queued now; and who was granted access is who left plus the front if it works.
  lemma {:induction false} RunIsFifo(s: State, steps: seq<Step>, oid: int)
    requires Inv(s) && IsRun(s, steps)
    ensures Queue(s, oid) + Arrived(steps, oid) == Left(s, steps, oid) + Queue(After(s, steps), oid)
    ensures WorkingFront(s, oid) + Granted(s, steps, oid) == Left(s, steps, oid) + WorkingFront(After(s, steps), oid)
    decreases |steps|
  {
    if steps != [] {
      var r := Apply(s, steps[0]);
      StepKeepsInv(s, steps[0]);
      StepIsFifo(s, steps[0], oid);
      RunIsFifo(r, steps[1..], oid);
      var left := LeftBy(s, steps[0], oid);
      Chain(Queue(s, oid), ArrivedBy(steps[0], oid), left, Queue(r, oid),
            Arrived(steps[1..], oid), Left(r, steps[1..], oid), Queue(After(s, steps), oid));
      Chain(WorkingFront(s, oid), GrantedBy(s, steps[0], oid), left, WorkingFront(r, oid),
            Granted(r, steps[1..], oid), Left(r, steps[1..], oid), WorkingFront(After(s, steps), oid));
    }
  }

  lemma Chain(q: seq<int>, a: seq<int>, l: seq<int>, q1: seq<int>, a1: seq<int>, l1: seq<int>, q2: seq<int>)
    requires q + a == l + q1 && q1 + a1 == l1 + q2
    ensures q + (a + a1) == (l + l1) + q2
  {
    assert q + (a + a1) == (q + a) + a1;
    assert (l + q1) + a1 == l + (q1 + a1);
    assert l + (l1 + q2) == (l + l1) + q2;
  }

  // Access to a table is granted in arrival order, and nobody is skipped.
  lemma GrantedInArrivalOrder(steps: seq<Step>, oid: int)
    requires IsRun(INIT, steps)
    ensures Granted(INIT, steps, oid) <= Arrived(steps, oid)
    ensures Arrived(steps, oid) == Left(INIT, steps, oid) + Queue(After(INIT, steps), oid)
  {
    InvInitially();
    RunIsFifo(INIT, steps, oid);
    var s := After(INIT, steps);
    assert Queue(INIT, oid) + Arrived(steps, oid) == Arrived(steps, oid);
    assert WorkingFront(INIT, oid) + Granted(INIT, steps, oid) == Granted(INIT, steps, oid);
    assert WorkingFront(s, oid) <= Queue(s, oid);
  }

  /** The k-th of q is at place k - |left| of q1, or it was the k-th to leave. */
  predicate MovedUp(q: seq<int>, k: nat, left: seq<int>, q1: seq<int>)
    requires k < |q|
  {
    if |left| <= k then k - |left| < |q1| && q1[k - |left|] == q[k] else left[k] == q[k]
  }

  // Whoever has k predecessors moves up by one with every front that leaves: it is the front after
  // exactly k of them, and the next to leave is itself.
  lemma {:induction false} PredecessorsLeaveFirst(s: State, steps: seq<Step>, oid: int, k: nat)
    requires Inv(s) && IsRun(s, steps) && k < |Queue(s, oid)|
    ensures MovedUp(Queue(s, oid), k, Left(s, steps, oid), Queue(After(s, steps), oid))
  {
    RunIsFifo(s, steps, oid);
    SplitAt(Queue(s, oid), Arrived(steps, oid), Left(s, steps, oid), Queue(After(s, steps), oid), k);
  }

  lemma SplitAt(q: seq<int>, a: seq<int>, left: seq<int>, q1: seq<int>, k: nat)
    requires q + a == left + q1 && k < |q|
    ensures MovedUp(q, k, left, q1)
  {
    assert (q + a)[k] == q[k];
    assert |q + a| == |left + q1|;
  }

  // A step concerns only the table of its handler.
  lemma TablesAreIndependent(s: State, step: Step, oid: int)
    requires Inv(s) && Enabled(s, step)
    requires oid != if step.DoArrive? then step.oid else s.handlers[step.txn].oid
    ensures Queue(Apply(s, step), oid) == Queue(s, oid)
    ensures forall t :: WorksOn(s, t, oid) <==> WorksOn(Apply(s, step), t, oid)
  {
  }

  // ---------- the monitor ----------

  // iterable_queue::find
  method Find(q: seq<int>, t: int) returns (it: nat)
    ensures it <= |q| && t !in q[..it] && (it < |q| ==> q[it] == t)
  {
    it := 0;
    while it != |q|
      invariant 0 <= it <= |q| && t !in q[..it]
    {
      if q[it] == t {
        break;
      }
      it := it + 1;
    }
  }

  lemma {:induction false} EraseAt(q: seq<int>, t: int, i: nat)
    requires i < |q| && q[i] == t && t !in q[..i]
    ensures Erase(q, t) == q[..i] + q[i + 1..]
  {
    if i > 0 {
      assert q[0] in q[..i];
      assert q[1..][..i - 1] == q[..i][1..];
      EraseAt(q[1..], t, i - 1);
      assert q[..i] + q[i + 1..] == [q[0]] + (q[1..][..i - 1] + q[1..][i..]);
    }
  }

  // The shared map and the threads that use it. Each method is one critical section.
  class Monitor {
    var tableOidMap: map<int, seq<int>>
    var handlers: map<int, Handler>

    ghost function Abstract(): (s: State)
      reads this
    {
      State(tableOidMap, handlers)
    }

    ghost predicate Valid()
      reads this
    {
      Inv(Abstract())
    }

    constructor ()
      ensures Valid() && Abstract() == INIT
    {
      tableOidMap, handlers := map[], map[];
    }

    method NotifyEverybody()
      modifies this`handlers
      ensures handlers == NotifyAll(old(handlers))
    {
      handlers := NotifyAll(handlers);
    }

    // synchTableAccess: true when the thread may work at once
    method Synch(txn: int, oid: int) returns (works: bool)
      requires Valid() && Enabled(Abstract(), DoArrive(txn, oid))
      modifies this
      ensures Valid() && Abstract() == Apply(old(Abstract()), DoArrive(txn, oid))
      ensures works <==> oid !in old(tableOidMap)
    {
      ArriveKeeps(Abstract(), txn, oid);
      works := true;
      if oid in tableOidMap {
        assert QueueOk(Abstract(), oid);
        assert MayQueue(Abstract(), oid, tableOidMap[oid][0]);
        works := txn == tableOidMap[oid][0];
        if !works {
          tableOidMap := tableOidMap[oid := tableOidMap[oid] + [txn]];
        }
      } else {
        tableOidMap := tableOidMap[oid := [txn]];
      }
      handlers := handlers[txn := Handler(oid, if works then Working(false, false) else Waiting(false))];
    }

    // the tests after the wait: true when the thread leaves it
    method WakeUp(txn: int) returns (leaves: bool)
      requires Valid() && Enabled(Abstract(), DoWake(txn))
      modifies this
      ensures Valid() && Abstract() == Apply(old(Abstract()), DoWake(txn))
      ensures leaves <==> IsFront(Abstract(), handlers[txn].oid, txn)
      ensures tableOidMap == old(tableOidMap)
    {
      WakeKeeps(Abstract(), txn);
      WakeExits(Abstract(), txn);
      var oid := handlers[txn].oid;
      leaves := true;
      if oid in tableOidMap {
        var tableOidQueue := tableOidMap[oid];
        tableOidMap := if tableOidQueue == [] then tableOidMap - {oid} else tableOidMap;
        if tableOidQueue != [] && tableOidQueue[0] != txn {
          var it := Find(tableOidQueue, txn);
          leaves := it == |tableOidQueue|;
        }
      }
      handlers := handlers[txn := Handler(oid, if leaves then Working(false, false) else Waiting(false))];
    }

    method ReleaseTableAccess(txn: int)
      requires Valid() && Enabled(Abstract(), DoRelease(txn))
      modifies this
      ensures Valid() && Abstract() == Apply(old(Abstract()), DoRelease(txn))
    {
      ReleaseKeeps(Abstract(), txn);
      var oid := handlers[txn].oid;
      handlers := handlers - {txn};
      if oid == 0 || oid !in tableOidMap {
        return;
      }
      var tableOidQueue := tableOidMap[oid];
      if tableOidQueue != [] && tableOidQueue[0] == txn {
        tableOidQueue := tableOidQueue[1..];
        if tableOidQueue == [] {
          tableOidMap := tableOidMap - {oid};
        } else {
          tableOidMap := tableOidMap[oid := tableOidQueue];
        }
      }
      NotifyEverybody();
    }

    method RollbackPendingOf(txn: int)
      requires Valid() && Enabled(Abstract(), DoRollbackPending(txn))
      modifies this
      ensures Valid() && Abstract() == Apply(old(Abstract()), DoRollbackPending(txn))
    {
      RollbackPendingKeeps(Abstract(), txn);
      var h := handlers[txn];
      if h.phase.Waiting? || !h.phase.hasProcessor {
        return;
      }
      handlers := handlers[txn := h.(phase := Working(true, true))];
      if h.oid == 0 || h.oid !in tableOidMap {
        return;
      }
      var tableOidQueue := tableOidMap[h.oid];
      var it := Find(tableOidQueue, txn);
      if it != |tableOidQueue| {
        EraseAt(tableOidQueue, txn, it);
        tableOidQueue := tableOidQueue[..it] + tableOidQueue[it + 1..];
      } else {
        assert tableOidQueue[..it] == tableOidQueue;
        EraseAbsent(tableOidQueue, txn);
      }
      if tableOidQueue == [] {
        tableOidMap := tableOidMap - {h.oid};
      } else {
        tableOidMap := tableOidMap[h.oid := tableOidQueue];
      }
      NotifyEverybody();
    }
  }
}
