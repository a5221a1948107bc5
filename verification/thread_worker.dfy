/** `ThreadWorker` of `src/data/thread_worker.rs` as a sequential state machine.

    Tasks are identified by the number `run_async` (or `run`) hands out in
    submission order.  One call of `WorkerStep` is one iteration of the
    background thread's loop; the caller's operations (`RunAsync`, `Run`,
    `Tick`, `Stop`, `IsFinished`) are separate transitions.  A task has
    produced its result once the worker has run it, so a pending entry is
    ready for `tick` exactly when its task id is in `ran`. */
module ThreadWorker {

  datatype Worker = Worker(
    queue: seq<nat>,     // tasks sent to the channel and not yet received by the thread
    ran: seq<nat>,       // tasks the thread has run, in order
    sent: seq<nat>,      // tasks successfully sent to the channel, in order
    pending: seq<nat>,   // `tasks_results`: the tasks whose callbacks still wait, in order
    stop: bool,          // the stop flag
    exited: bool,        // the exited flag
    nextId: nat)         // the id of the next submitted task

  /** A freshly constructed worker. */
  function New(): (w: Worker)
    ensures Inv(w) && !w.stop && !w.exited && w.pending == []
  {
    Worker([], [], [], [], false, false, 0)
  }

  /** Every task sent is either run or still queued, in submission order. */
  predicate Inv(w: Worker)
  {
    w.ran + w.queue == w.sent
  }

  /** `run_async`: send the task (the send fails silently once the thread
      has exited and dropped its receiver) and append its callback entry. */
  function RunAsync(w: Worker): (r: Worker)
    ensures r.pending == w.pending + [w.nextId]
    ensures r.queue == if w.exited then w.queue else w.queue + [w.nextId]
    ensures r.sent == if w.exited then w.sent else w.sent + [w.nextId]
    ensures r.ran == w.ran && r.stop == w.stop && r.exited == w.exited && r.nextId == w.nextId + 1
    ensures Inv(w) ==> Inv(r)
  {
    var id := w.nextId;
    if w.exited then w.(pending := w.pending + [id], nextId := id + 1)
    else w.(queue := w.queue + [id], sent := w.sent + [id], pending := w.pending + [id], nextId := id + 1)
  }

  /** `run`: send the task without keeping a callback; the caller holds the
      receiver (here, the returned task id). */
  function Run(w: Worker): (r: (Worker, nat))
    ensures r.1 == w.nextId && r.0.pending == w.pending
    ensures r.0.queue == if w.exited then w.queue else w.queue + [w.nextId]
    ensures Inv(w) ==> Inv(r.0)
  {
    var id := w.nextId;
    if w.exited then (w.(nextId := id + 1), id)
    else (w.(queue := w.queue + [id], sent := w.sent + [id], nextId := id + 1), id)
  }

  /** One iteration of the background loop: run the oldest queued task;
      with nothing queued, sleep unless the stop flag is set, in which case
      leave the loop and set the exited flag. */
  function WorkerStep(w: Worker): (r: Worker)
    // the thread only leaves its loop when the queue is empty and stop is set
    ensures !w.exited && r.exited ==> w.queue == [] && w.stop
    ensures w.exited ==> r == w
    // tasks run one at a time, oldest first
    ensures !w.exited && w.queue != [] ==> r.ran == w.ran + [w.queue[0]] && r.queue == w.queue[1..]
    ensures r.sent == w.sent && r.pending == w.pending && r.stop == w.stop
    ensures Inv(w) ==> Inv(r)
  {
    if w.exited then w
    else if |w.queue| > 0 then w.(queue := w.queue[1..], ran := w.ran + [w.queue[0]])
    else if w.stop then w.(exited := true)
    else w
  }

  /** `stop`: set the stop flag, nothing else. */
  function Stop(w: Worker): (r: Worker)
    ensures r.stop && r.(stop := w.stop) == w
  {
    w.(stop := true)
  }

  /** `is_finished`: the exited flag. */
  function IsFinished(w: Worker): (b: bool)
    ensures b <==> w.exited
  {
    w.exited
  }

  /** `k` iterations of the background loop. */
  function Steps(w: Worker, k: nat): Worker
    decreases k
  {
    if k == 0 then w else Steps(WorkerStep(w), k - 1)
  }

  /** After `stop`, the thread runs every queued task, oldest first, and then
      exits: |queue| + 1 iterations suffice. */
  lemma {:induction false} StopDrains(w: Worker)
    requires Inv(w) && w.stop && !w.exited
    ensures var r := Steps(w, |w.queue| + 1);
      r.exited && r.queue == [] && r.ran == w.sent && Inv(r)
    decreases |w.queue|
  {
    if |w.queue| > 0 {
      var w' := WorkerStep(w);
      StopDrains(w');
      assert |w'.queue| + 1 == |w.queue|;
    }
  }

  // ---------------------------------------------------------------------
  // tick

  /** The entries of `p` whose task has not run yet. */
  function Waiting(p: seq<nat>, ran: seq<nat>): (q: seq<nat>)
    ensures |q| <= |p|
  {
    if |p| == 0 then []
    else (if p[0] in ran then [] else [p[0]]) + Waiting(p[1..], ran)
  }

  lemma {:induction false} WaitingAppend(a: seq<nat>, b: seq<nat>, ran: seq<nat>)
    ensures Waiting(a + b, ran) == Waiting(a, ran) + Waiting(b, ran)
    decreases |a|
  {
    if |a| > 0 {
      WaitingAppend(a[1..], b, ran);
      assert (a + b)[1..] == a[1..] + b;
    } else {
      assert a + b == b;
    }
  }

  lemma {:induction false} WaitingMember(p: seq<nat>, t: nat, ran: seq<nat>)
    requires t in Waiting(p, ran)
    ensures t in p
    decreases |p|
  {
    if p[0] != t {
      WaitingMember(p[1..], t, ran);
    }
  }

  lemma WaitingLast(p: seq<nat>, t: nat, ran: seq<nat>)
    requires t !in ran
    ensures t in Waiting(p + [t], ran)
  {
    WaitingAppend(p, [t], ran);
  }

  datatype Ticked = Ticked(pending: seq<nat>, called: seq<nat>)

  /** The `for i in 0..len` loop from position `i` on, where `len` was fixed
      before the loop: an entry whose result is ready is removed at `i` and
      its callback called, and the loop moves on to `i + 1` either way, so
      the entry that shifted into position `i` is not looked at. */
  function TickLoop(p: seq<nat>, i: nat, len: nat, ran: seq<nat>): (r: Ticked)
    ensures |r.pending| + |r.called| == |p|
    // only ready entries are removed, each callback called once
    ensures forall t :: t in r.called ==> t in ran
    ensures Waiting(r.pending, ran) == Waiting(p, ran)
    decreases len - i
  {
    if i >= len then Ticked(p, [])
    else if i < |p| && p[i] in ran then
      var q := p[..i] + p[i + 1..];
      RemoveReady(p, i, ran);
      var r := TickLoop(q, i + 1, len, ran);
      Ticked(r.pending, [p[i]] + r.called)
    else
      TickLoop(p, i + 1, len, ran)
  }

  /** The loop neither loses nor invents entries: those still pending and
      those called are the entries it started with. */
  lemma {:induction false} TickLoopPermutes(p: seq<nat>, i: nat, len: nat, ran: seq<nat>)
    ensures var r := TickLoop(p, i, len, ran);
      multiset(r.pending) + multiset(r.called) == multiset(p)
    decreases len - i
  {
    if i < len {
      if i < |p| && p[i] in ran {
        var q := p[..i] + p[i + 1..];
        RemoveReady(p, i, ran);
        TickLoopPermutes(q, i + 1, len, ran);
      } else {
        TickLoopPermutes(p, i + 1, len, ran);
      }
    }
  }

  /** The first ready entry from position `i` on is always removed. */
  lemma {:induction false} TickRemovesFirstReady(p: seq<nat>, i: nat, len: nat, ran: seq<nat>, j: nat)
    requires i <= j < |p| && j < len && p[j] in ran
    ensures |TickLoop(p, i, len, ran).called| > 0
    decreases len - i
  {
    if !(p[i] in ran) {
      TickRemovesFirstReady(p, i + 1, len, ran, j);
    }
  }

  /** Removing a ready entry keeps the rest, in order. */
  lemma RemoveReady(p: seq<nat>, i: nat, ran: seq<nat>)
    requires i < |p| && p[i] in ran
    ensures var q := p[..i] + p[i + 1..];
      && |q| == |p| - 1 && q[..i] == p[..i]
      && multiset(q) + multiset([p[i]]) == multiset(p)
      && Waiting(q, ran) == Waiting(p, ran)
  {
    var q := p[..i] + p[i + 1..];
    assert p == p[..i] + ([p[i]] + p[i + 1..]);
    assert q[..i] == p[..i];
    assert Waiting([p[i]], ran) == [] by {
      assert [p[i]][1..] == [];
    }
    calc {
      Waiting(p, ran);
      { WaitingAppend(p[..i], [p[i]] + p[i + 1..], ran); }
      Waiting(p[..i], ran) + Waiting([p[i]] + p[i + 1..], ran);
      { WaitingAppend([p[i]], p[i + 1..], ran); }
      Waiting(p[..i], ran) + Waiting(p[i + 1..], ran);
      { WaitingAppend(p[..i], p[i + 1..], ran); }
      Waiting(q, ran);
    }
  }

  /** `tick`: one pass over the pending callbacks; answers whether entries remain. */
  function Tick(w: Worker): (r: (Worker, seq<nat>, bool))
    ensures r.0 == w.(pending := r.0.pending)
    ensures multiset(r.0.pending) + multiset(r.1) == multiset(w.pending)
    ensures forall t :: t in r.1 ==> t in w.ran
    // entries still waiting for their task keep their relative order
    ensures Waiting(r.0.pending, w.ran) == Waiting(w.pending, w.ran)
    ensures r.2 <==> |r.0.pending| != 0
  {
    var t := TickLoop(w.pending, 0, |w.pending|, w.ran);
    TickLoopPermutes(w.pending, 0, |w.pending|, w.ran);
    (w.(pending := t.pending), t.called, |t.pending| != 0)
  }

  /** If some pending task has run, `tick` calls at least one callback. */
  lemma TickRemovesOne(w: Worker)
    requires exists j :: 0 <= j < |w.pending| && w.pending[j] in w.ran
    ensures |Tick(w).1| > 0
  {
    var j :| 0 <= j < |w.pending| && w.pending[j] in w.ran;
    TickRemovesFirstReady(w.pending, 0, |w.pending|, w.ran, j);
  }

  /** Two adjacent ready entries: the second shifts into the vacated slot and
      waits for the next tick. */
  lemma AdjacentReadySkipped(w: Worker)
    requires w.pending == [0, 1] && 0 in w.ran && 1 in w.ran
    ensures Tick(w).0.pending == [1] && Tick(w).1 == [0] && Tick(w).2
  {
    var p := [0, 1];
    assert p[..0] + p[1..] == [1];
    assert TickLoop([1], 2, 2, w.ran) == Ticked([1], []);
    assert TickLoop([1], 1, 2, w.ran) == Ticked([1], []);
    assert TickLoop(p, 0, 2, w.ran) == Ticked([1], [0]);
  }

  /** One pass of `tick` over the entries from the loop's position on, with
      `n` iterations left: a ready entry is removed and called, and the entry
      after it slides into its slot, where the loop no longer looks. */
  function Pass(s: seq<nat>, n: nat, ran: seq<nat>): Ticked
    decreases n
  {
    if n == 0 || |s| == 0 then Ticked(s, [])
    else if s[0] in ran then
      if |s| == 1 then Ticked([], [s[0]])
      else
        var r := Pass(s[2..], n - 1, ran);
        Ticked([s[1]] + r.pending, [s[0]] + r.called)
    else
      var r := Pass(s[1..], n - 1, ran);
      Ticked([s[0]] + r.pending, r.called)
  }

  /** Past the end of the list the loop only counts up. */
  lemma {:induction false} TickLoopPastEnd(p: seq<nat>, i: nat, len: nat, ran: seq<nat>)
    requires i >= |p|
    ensures TickLoop(p, i, len, ran) == Ticked(p, [])
    decreases len - i
  {
    if i < len {
      TickLoopPastEnd(p, i + 1, len, ran);
    }
  }

  /** The loop leaves the entries before its position alone and does to the
      rest what `Pass` does, in list order. */
  lemma {:induction false} TickLoopIsPass(p: seq<nat>, i: nat, len: nat, ran: seq<nat>)
    requires i <= |p|
    ensures LoopIsPass(p, i, len, ran)
    decreases len - i
  {
    if i >= len {
      DoneStep(p, i, len, ran);
    } else if i == |p| {
      PastListStep(p, i, len, ran);
    } else if p[i] in ran {
      if i + 1 == |p| {
        ReadyLastStep(p, i, len, ran);
      } else {
        TickLoopIsPass(p[..i] + p[i + 1..], i + 1, len, ran);
        ReadyBranch(p, i, len, ran);
      }
    } else {
      TickLoopIsPass(p, i + 1, len, ran);
      WaitingBranch(p, i, len, ran);
    }
  }

  /** The loop from position `i` agrees with `Pass` over the entries from `i` on. */
  predicate LoopIsPass(p: seq<nat>, i: nat, len: nat, ran: seq<nat>)
    requires i <= |p|
  {
    var t := Pass(p[i..], if len >= i then len - i else 0, ran);
    TickLoop(p, i, len, ran) == Ticked(p[..i] + t.pending, t.called)
  }

  /** The step of `TickLoopIsPass` once the loop has run its course. */
  lemma DoneStep(p: seq<nat>, i: nat, len: nat, ran: seq<nat>)
    requires len <= i <= |p|
    ensures LoopIsPass(p, i, len, ran)
  {
    assert p[..i] + p[i..] == p;
  }

  /** The step of `TickLoopIsPass` past the last entry. */
  lemma PastListStep(p: seq<nat>, i: nat, len: nat, ran: seq<nat>)
    requires i == |p| < len
    ensures LoopIsPass(p, i, len, ran)
  {
    TickLoopPastEnd(p, i, len, ran);
    assert p[..i] == p && p[i..] == [];
  }

  /** The step of `TickLoopIsPass` at a ready last entry. */
  lemma ReadyLastStep(p: seq<nat>, i: nat, len: nat, ran: seq<nat>)
    requires i < len && i + 1 == |p| && p[i] in ran
    ensures LoopIsPass(p, i, len, ran)
  {
    var q := p[..i] + p[i + 1..];
    TickLoopReady(p, i, len, ran);
    TickLoopPastEnd(q, i + 1, len, ran);
    assert q == p[..i];
    assert p[i..] == [p[i]];
  }

  /** `TickLoopIsPass` at a ready entry with a successor, given the loop
      after its removal. */
  lemma ReadyBranch(p: seq<nat>, i: nat, len: nat, ran: seq<nat>)
    requires i < len && i + 1 < |p| && p[i] in ran
    requires LoopIsPass(p[..i] + p[i + 1..], i + 1, len, ran)
    ensures LoopIsPass(p, i, len, ran)
  {
    TickLoopReady(p, i, len, ran);
    ReadyStep(p, i, len - i, ran, TickLoop(p[..i] + p[i + 1..], i + 1, len, ran));
  }

  /** `TickLoopIsPass` at an entry still waiting, given the loop from the
      next position. */
  lemma WaitingBranch(p: seq<nat>, i: nat, len: nat, ran: seq<nat>)
    requires i < len && i < |p| && p[i] !in ran
    requires LoopIsPass(p, i + 1, len, ran)
    ensures LoopIsPass(p, i, len, ran)
  {
    TickLoopWaiting(p, i, len, ran);
    WaitingStep(p, i, len - i, ran, TickLoop(p, i + 1, len, ran));
  }

  /** The step of `TickLoopIsPass` at a ready entry with a successor: `r`
      is what the loop does after removing it. */
  lemma ReadyStep(p: seq<nat>, i: nat, n: nat, ran: seq<nat>, r: Ticked)
    requires i + 1 < |p| && n > 0 && p[i] in ran
    requires var q := p[..i] + p[i + 1..];
      var t := Pass(q[i + 1..], n - 1, ran);
      r == Ticked(q[..i + 1] + t.pending, t.called)
    ensures var t := Pass(p[i..], n, ran);
      Ticked(r.pending, [p[i]] + r.called) == Ticked(p[..i] + t.pending, t.called)
  {
    var q := p[..i] + p[i + 1..];
    RemovedSlices(p, i);
    PassReady(p[i..], n, ran);
    var t := Pass(p[i..][2..], n - 1, ran);
    assert q[..i + 1] + t.pending == p[..i] + ([p[i + 1]] + t.pending);
  }

  /** The loop at a ready entry, unfolded once. */
  lemma TickLoopReady(p: seq<nat>, i: nat, len: nat, ran: seq<nat>)
    requires i < len && i < |p| && p[i] in ran
    ensures var r := TickLoop(p[..i] + p[i + 1..], i + 1, len, ran);
      TickLoop(p, i, len, ran) == Ticked(r.pending, [p[i]] + r.called)
  {
  }

  /** The loop at an entry still waiting, unfolded once. */
  lemma TickLoopWaiting(p: seq<nat>, i: nat, len: nat, ran: seq<nat>)
    requires i < len && i < |p| && p[i] !in ran
    ensures TickLoop(p, i, len, ran) == TickLoop(p, i + 1, len, ran)
  {
  }

  /** `Pass` at a ready entry with a successor, unfolded once. */
  lemma PassReady(s: seq<nat>, n: nat, ran: seq<nat>)
    requires n > 0 && |s| >= 2 && s[0] in ran
    ensures var t := Pass(s[2..], n - 1, ran);
      Pass(s, n, ran) == Ticked([s[1]] + t.pending, [s[0]] + t.called)
  {
  }

  /** Removing the entry at `i` and looking from `i + 1` on. */
  lemma RemovedSlices(p: seq<nat>, i: nat)
    requires i + 1 < |p|
    ensures var q := p[..i] + p[i + 1..];
      p[i..][0] == p[i] && p[i..][1] == p[i + 1]
      && q[i + 1..] == p[i..][2..] && q[..i + 1] == p[..i] + [p[i + 1]]
  {
    var q := p[..i] + p[i + 1..];
    assert q[..i] == p[..i] && q[i] == p[i + 1];
    assert q[..i + 1] == q[..i] + [q[i]];
  }

  /** The step of `TickLoopIsPass` at an entry still waiting: `r` is what
      the loop does from the next position. */
  lemma WaitingStep(p: seq<nat>, i: nat, n: nat, ran: seq<nat>, r: Ticked)
    requires i < |p| && n > 0 && p[i] !in ran
    requires var t := Pass(p[i + 1..], n - 1, ran);
      r == Ticked(p[..i + 1] + t.pending, t.called)
    ensures var t := Pass(p[i..], n, ran);
      r == Ticked(p[..i] + t.pending, t.called)
  {
    WaitingSlices(p, i);
    PassWaiting(p[i..], n, ran);
    var t := Pass(p[i..][1..], n - 1, ran);
    assert p[..i + 1] + t.pending == p[..i] + ([p[i]] + t.pending);
  }

  /** Moving past the entry at `i`. */
  lemma WaitingSlices(p: seq<nat>, i: nat)
    requires i < |p|
    ensures p[i..][0] == p[i] && p[i + 1..] == p[i..][1..] && p[..i + 1] == p[..i] + [p[i]]
  {
  }

  /** `Pass` at an entry still waiting, unfolded once. */
  lemma PassWaiting(s: seq<nat>, n: nat, ran: seq<nat>)
    requires n > 0 && |s| >= 1 && s[0] !in ran
    ensures var t := Pass(s[1..], n - 1, ran);
      Pass(s, n, ran) == Ticked([s[0]] + t.pending, t.called)
  {
  }

  /** `tick` is one `Pass` over the whole pending list. */
  lemma TickIsPass(w: Worker)
    ensures Tick(w).0.pending == Pass(w.pending, |w.pending|, w.ran).pending
    ensures Tick(w).1 == Pass(w.pending, |w.pending|, w.ran).called
  {
    TickLoopIsPass(w.pending, 0, |w.pending|, w.ran);
    assert w.pending[0..] == w.pending && w.pending[..0] == [];
  }

  /** Whenever the loop removes the entry at its position, the entry that
      shifts into the vacated slot is not looked at in this tick: it stays
      pending, ready or not. */
  lemma ShiftedEntrySkipped(p: seq<nat>, i: nat, len: nat, ran: seq<nat>)
    requires i < len && i + 1 < |p| && p[i] in ran
    ensures var t := TickLoop(p, i, len, ran);
      i < |t.pending| && t.pending[i] == p[i + 1] && |t.called| > 0 && t.called[0] == p[i]
  {
    TickLoopIsPass(p, i, len, ran);
    assert p[i..][0] == p[i] && p[i..][1] == p[i + 1];
  }

  /** When every pending task has run, repeated ticks empty the list within
      as many ticks as there are entries. */
  function Ticks(w: Worker, k: nat): Worker
    decreases k
  {
    if k == 0 then w else Ticks(Tick(w).0, k - 1)
  }

  lemma {:induction false} TicksDrain(w: Worker, k: nat)
    requires forall t :: t in w.pending ==> t in w.ran
    requires k >= |w.pending|
    ensures Ticks(w, k).pending == []
    decreases k
  {
    if k > 0 {
      TickAllReady(w);
      TicksDrain(Tick(w).0, k - 1);
    }
  }

  /** When every pending task has run, a tick removes at least one entry and
      the rest stay ready. */
  lemma TickAllReady(w: Worker)
    requires forall t :: t in w.pending ==> t in w.ran
    ensures Tick(w).0.ran == w.ran
    ensures forall t :: t in Tick(w).0.pending ==> t in w.ran
    ensures |w.pending| > 0 ==> |Tick(w).0.pending| < |w.pending|
  {
    var w' := Tick(w).0;
    if |w.pending| > 0 {
      assert w.pending[0] in w.ran;
      TickRemovesOne(w);
    }
    forall t | t in w'.pending ensures t in w.ran {
      assert t in multiset(w'.pending);
      assert t in multiset(w.pending);
    }
  }

  /** A callback whose task was submitted after the thread exited never
      becomes ready: `tick` keeps answering that entries remain. */
  lemma LateSubmissionStaysPending(w: Worker)
    requires Inv(w) && w.exited && forall t :: t in w.sent ==> t < w.nextId
    ensures var r := RunAsync(w);
      var t := Tick(r);
      w.nextId in t.0.pending && t.2
  {
    var r := RunAsync(w);
    forall t | t in w.ran ensures t < w.nextId {
      var k :| 0 <= k < |w.ran| && w.ran[k] == t;
      assert (w.ran + w.queue)[k] == t;
      assert w.sent[k] == t;
      assert t in w.sent;
    }
    var t := Tick(r);
    WaitingLast(w.pending, w.nextId, w.ran);
    WaitingMember(t.0.pending, w.nextId, w.ran);
  }
}
