/**
 The accept loop and its client workers, one thread each
 (src/network/tcp_server.cpp:403-431, src/network/tcp_server.cpp:490-558).
 Every atomic operation is a step of its own, and steps of the loop and of the
 workers interleave in any order. Workers are numbered as they are started.
 */
module WorkerPool {
  type Id = nat

  /** A worker serves, takes itself off the counter, raises its flag, and its thread ends. */
  datatype Worker = Serving | Uncounted | Flagged | Exited

  /** Where the accept loop is; `at` is a position in the list of slots. */
  datatype Loop =
    | Top
    | Reaping(at: nat)
    | JoiningFinished(at: nat)
    | Accepting
    | Deciding
    | Admitting
    | Spawning
    | Pushing
    | Rejecting
    | Draining(ok: bool, at: nat)
    | Returned(ok: bool)

  /** What the last reaping pass started from and saw of each slot. */
  datatype Pass = Pass(slots: seq<Id>, joined: seq<Id>, observed: seq<bool>)

  datatype Pool = Pool(
    loop: Loop,
    active: nat,
    slots: seq<Id>,
    workers: seq<Worker>,
    joined: seq<Id>,
    pass: Pass)

  datatype Accepted = Client | StopRequested | AcceptFailed

  /** A worker takes its next step, or the loop does, with what it finds in its surroundings. */
  datatype Move =
    | Work(worker: Id)
    | Poll(stop: bool)
    | LoadFlag
    | JoinFinished
    | Accept(outcome: Accepted)
    | CompareLimit
    | FetchAdd
    | StartThread
    | PushSlot
    | SendRejection
    | JoinNext

  const SIZE_LIMIT := 0x1_0000_0000_0000_0000

  ghost function Fresh(): Pool
  {
    Pool(Top, 0, [], [], [], Pass([], [], []))
  }

  /** The counter is a size_t and wraps around. */
  ghost function OneMore(n: nat): nat
  {
    if n == SIZE_LIMIT - 1 then 0 else n + 1
  }

  ghost function OneLess(n: nat): nat
  {
    if n == 0 then SIZE_LIMIT - 1 else n - 1
  }

  function Erased(slots: seq<Id>, at: nat): (r: seq<Id>)
    requires at < |slots|
    ensures |r| == |slots| - 1
  {
    slots[..at] + slots[at + 1..]
  }

  ghost predicate IsAt(p: Pool, id: Id, stage: Worker)
  {
    id < |p.workers| && p.workers[id] == stage
  }

  ghost predicate Finished(workers: seq<Worker>, id: Id)
  {
    id < |workers| && (workers[id].Flagged? || workers[id].Exited?)
  }

  ghost predicate Ended(workers: seq<Worker>, id: Id)
  {
    id < |workers| && workers[id].Exited?
  }

  /** The worker's next step: fetch_sub, then the flag, then the end of its thread. */
  ghost function Worked(p: Pool, id: Id): Pool
  {
    if IsAt(p, id, Serving) then
      p.(workers := p.workers[id := Uncounted], active := OneLess(p.active))
    else if IsAt(p, id, Uncounted) then p.(workers := p.workers[id := Flagged])
    else if IsAt(p, id, Flagged) then p.(workers := p.workers[id := Exited])
    else p
  }

  /** The state after a thread tries a move; a move that is not possible there changes nothing. */
  ghost function Moved(p: Pool, limit: nat, move: Move): Pool
  {
    match move
    case Work(id) => Worked(p, id)
    case Poll(stop) =>
      if !p.loop.Top? then p
      else if stop then p.(loop := Draining(true, 0))
      else p.(loop := Reaping(0), pass := Pass(p.slots, p.joined, []))
    case LoadFlag => if p.loop.Reaping? then FlagLoaded(p, p.loop.at) else p
    case JoinFinished => if p.loop.JoiningFinished? then FinishedJoined(p, p.loop.at) else p
    case Accept(outcome) =>
      if !p.loop.Accepting? then p
      else p.(loop := if outcome.Client? then Deciding else Draining(outcome.StopRequested?, 0))
    case CompareLimit =>
      if p.loop.Deciding? then p.(loop := if p.active < limit then Admitting else Rejecting) else p
    case SendRejection => if p.loop.Rejecting? then p.(loop := Top) else p
    case FetchAdd => if p.loop.Admitting? then p.(loop := Spawning, active := OneMore(p.active)) else p
    case StartThread => if p.loop.Spawning? then p.(loop := Pushing, workers := p.workers + [Serving]) else p
    case PushSlot =>
      if p.loop.Pushing? && p.workers != [] then p.(loop := Top, slots := p.slots + [|p.workers| - 1]) else p
    case JoinNext => if p.loop.Draining? then NextJoined(p, p.loop.ok, p.loop.at) else p
  }

  /** A reaping pass looks at the slot at `at`, or is through. */
  ghost function FlagLoaded(p: Pool, at: nat): Pool
  {
    if at >= |p.slots| then p.(loop := Accepting)
    else if Finished(p.workers, p.slots[at]) then p.(loop := JoiningFinished(at))
    else p.(loop := Reaping(at + 1), pass := p.pass.(observed := p.pass.observed + [false]))
  }

  /** It waits for the thread it saw finished, and erases its slot. */
  ghost function FinishedJoined(p: Pool, at: nat): Pool
  {
    if at < |p.slots| && Ended(p.workers, p.slots[at]) then
      p.(loop := Reaping(at), joined := p.joined + [p.slots[at]], slots := Erased(p.slots, at),
         pass := p.pass.(observed := p.pass.observed + [true]))
    else p
  }

  /** At shutdown the loop waits for every thread in turn, then clears the list. */
  ghost function NextJoined(p: Pool, ok: bool, at: nat): Pool
  {
    if at >= |p.slots| then p.(loop := Returned(ok), slots := [])
    else if Ended(p.workers, p.slots[at]) then
      p.(loop := Draining(ok, at + 1), joined := p.joined + [p.slots[at]])
    else p
  }

  ghost function RunPool(p: Pool, limit: nat, moves: seq<Move>): Pool
    decreases |moves|
  {
    if moves == [] then p else RunPool(Moved(p, limit, moves[0]), limit, moves[1..])
  }

  // ----- The counter -----

  /** How many of the started workers have not yet taken themselves off the counter. */
  ghost function StillCounted(workers: seq<Worker>): nat
  {
    if workers == [] then 0
    else StillCounted(workers[..|workers| - 1]) + if workers[|workers| - 1].Serving? then 1 else 0
  }

  ghost function One(worker: Worker): nat
  {
    if worker.Serving? then 1 else 0
  }

  lemma {:induction false} CountOfUpdate(workers: seq<Worker>, id: Id, stage: Worker)
    requires id < |workers|
    ensures StillCounted(workers[id := stage]) + One(workers[id]) == StillCounted(workers) + One(stage)
    decreases |workers|
  {
    var n := |workers| - 1;
    if id < n {
      CountOfUpdate(workers[..n], id, stage);
      assert workers[id := stage][..n] == workers[..n][id := stage];
    } else {
      assert workers[id := stage][..n] == workers[..n];
    }
  }

  /** The counter is what it should be, one ahead between counting a worker and starting it. */
  ghost predicate CounterRight(p: Pool, limit: nat)
  {
    && p.active == StillCounted(p.workers) + (if p.loop.Spawning? then 1 else 0)
    && p.active <= limit
    && (p.loop.Admitting? ==> p.active < limit)
  }

  lemma CounterKeptByWorker(p: Pool, limit: nat, id: Id)
    requires limit < SIZE_LIMIT && CounterRight(p, limit)
    ensures CounterRight(Worked(p, id), limit)
  {
    if IsAt(p, id, Serving) {
      CountOfUpdate(p.workers, id, Uncounted);
    } else if IsAt(p, id, Uncounted) {
      CountOfUpdate(p.workers, id, Flagged);
    } else if IsAt(p, id, Flagged) {
      CountOfUpdate(p.workers, id, Exited);
    }
  }

  lemma CountOfMore(workers: seq<Worker>)
    ensures StillCounted(workers + [Serving]) == StillCounted(workers) + 1
  {
    assert (workers + [Serving])[..|workers|] == workers;
  }

  lemma LoopCounts(p: Pool, limit: nat, move: Move)
    requires !move.Work?
    ensures
      var after := Moved(p, limit, move);
      && after.workers == (if move.StartThread? && p.loop.Spawning? then p.workers + [Serving] else p.workers)
      && after.active == (if move.FetchAdd? && p.loop.Admitting? then OneMore(p.active) else p.active)
      && (after.loop.Spawning? <==>
            (move.FetchAdd? && p.loop.Admitting?) || (!move.StartThread? && p.loop.Spawning?))
      && (after.loop.Admitting? ==> p.loop.Admitting? || p.active < limit)
  {
    hide Erased, Finished, Ended, Worked, OneMore;
  }

  lemma {:induction false} CounterKept(p: Pool, limit: nat, move: Move)
    requires limit < SIZE_LIMIT && CounterRight(p, limit)
    ensures CounterRight(Moved(p, limit, move), limit)
  {
    if move.Work? {
      CounterKeptByWorker(p, limit, move.worker);
      hide CounterRight, Worked;
    } else {
      LoopCounts(p, limit, move);
      CountOfMore(p.workers);
      hide StillCounted, Moved;
    }
  }

  // ----- Slots and joins -----

  ghost function Ids(n: nat): seq<Id>
  {
    seq(n, i => i)
  }

  /** Started workers that the loop has yet to join. */
  ghost function Unjoined(p: Pool): seq<Id>
  {
    if p.loop.Draining? && p.loop.at <= |p.slots| then p.slots[p.loop.at..]
    else if p.loop.Pushing? && p.workers != [] then p.slots + [|p.workers| - 1]
    else p.slots
  }

  ghost predicate InRange(p: Pool)
  {
    match p.loop
    case Reaping(at) => at <= |p.slots|
    case JoiningFinished(at) =>
      at < |p.slots| && Finished(p.workers, p.slots[at])
    case Draining(_, at) => at <= |p.slots|
    case Pushing => p.workers != []
    case Returned(_) => p.slots == []
    case _ => true
  }

  /** Every started worker is in one of the lists, once. */
  ghost predicate EachOnce(joined: seq<Id>, unjoined: seq<Id>, started: nat)
  {
    multiset(joined + unjoined) == multiset(Ids(started))
  }

  ghost predicate AllEnded(joined: seq<Id>, workers: seq<Worker>)
  {
    forall id :: id in joined ==> Ended(workers, id)
  }

  /** Every started worker is joined or waits to be, and not both or twice; a joined one has ended. */
  ghost predicate SlotsRight(p: Pool)
  {
    InRange(p) && EachOnce(p.joined, Unjoined(p), |p.workers|) && AllEnded(p.joined, p.workers)
  }

  lemma EachOnceJoined(joined: seq<Id>, slots: seq<Id>, at: nat, started: nat)
    requires at < |slots|
    ensures EachOnce(joined, slots, started) ==> EachOnce(joined + [slots[at]], Erased(slots, at), started)
    ensures EachOnce(joined, slots[at..], started) ==> EachOnce(joined + [slots[at]], slots[at + 1..], started)
  {
    hide Ids;
    assert slots == slots[..at] + [slots[at]] + slots[at + 1..];
    assert slots[at..] == [slots[at]] + slots[at + 1..];
  }

  lemma EachOnceStarted(joined: seq<Id>, slots: seq<Id>, started: nat)
    ensures EachOnce(joined, slots, started) ==> EachOnce(joined, slots + [started], started + 1)
  {
    assert Ids(started + 1) == Ids(started) + [started];
    assert joined + (slots + [started]) == (joined + slots) + [started];
    hide Ids;
  }

  lemma WorkerStep(p: Pool, id: Id)
    ensures Worked(p, id) == p.(workers := Worked(p, id).workers, active := Worked(p, id).active)
    ensures |Worked(p, id).workers| == |p.workers|
    ensures forall w :: Finished(p.workers, w) ==> Finished(Worked(p, id).workers, w)
    ensures forall w :: Ended(p.workers, w) ==> Ended(Worked(p, id).workers, w)
  {
  }

  lemma {:induction false} SlotsKeptByWorker(p: Pool, id: Id)
    requires SlotsRight(p)
    ensures SlotsRight(Worked(p, id))
  {
    WorkerStep(p, id);
    hide Worked, EachOnce, Finished, Ended;
  }

  lemma SlotsKeptByJoin(p: Pool, limit: nat, move: Move)
    requires SlotsRight(p)
    requires (p.loop.JoiningFinished? && move.JoinFinished?) || (p.loop.Draining? && move.JoinNext?)
    ensures SlotsRight(Moved(p, limit, move))
  {
    hide EachOnce, Finished, Ended, Erased, Worked, IsAt;
    if p.loop.at < |p.slots| {
      EachOnceJoined(p.joined, p.slots, p.loop.at, |p.workers|);
    } else {
      assert p.slots[p.loop.at..] == [];
    }
  }

  lemma StillAllEnded(joined: seq<Id>, workers: seq<Worker>)
    ensures AllEnded(joined, workers) ==> AllEnded(joined, workers + [Serving])
  {
  }

  lemma SlotsKeptByStart(p: Pool, limit: nat)
    requires SlotsRight(p) && p.loop.Spawning?
    ensures SlotsRight(Moved(p, limit, StartThread))
  {
    hide EachOnce, Erased, Worked, IsAt, AllEnded, Finished, Ended;
    EachOnceStarted(p.joined, p.slots, |p.workers|);
    StillAllEnded(p.joined, p.workers);
    var after := Moved(p, limit, StartThread);
    assert after.workers == p.workers + [Serving];
    assert Unjoined(after) == p.slots + [|p.workers|];
    hide Moved, Unjoined;
  }

  /** The other steps of the loop leave the workers where they are. */
  lemma SlotsKeptOtherwise(p: Pool, limit: nat, move: Move)
    requires InRange(p) && !move.Work? && !move.JoinFinished? && !move.JoinNext? && !move.StartThread?
    ensures
      var after := Moved(p, limit, move);
      InRange(after) && Unjoined(after) == Unjoined(p) && after.joined == p.joined && after.workers == p.workers
  {
    hide Worked, Erased, Ended, IsAt;
    assert p.slots[0..] == p.slots;
  }

  lemma {:induction false} SlotsKept(p: Pool, limit: nat, move: Move)
    requires SlotsRight(p)
    ensures SlotsRight(Moved(p, limit, move))
  {
    if move.Work? {
      SlotsKeptByWorker(p, move.worker);
      hide SlotsRight, Worked, Erased, Finished, Ended;
    } else if (p.loop.JoiningFinished? && move.JoinFinished?) || (p.loop.Draining? && move.JoinNext?) {
      SlotsKeptByJoin(p, limit, move);
      hide SlotsRight, Moved;
    } else if p.loop.Spawning? && move.StartThread? {
      SlotsKeptByStart(p, limit);
      hide SlotsRight, Moved;
    } else if move.JoinFinished? || move.JoinNext? || move.StartThread? {
      hide SlotsRight, Worked, Erased, Finished, Ended;
    } else {
      SlotsKeptOtherwise(p, limit, move);
      hide EachOnce, AllEnded, InRange, Unjoined, Moved;
    }
  }

  // ----- Reaping -----

  /** The slots a pass keeps: those it saw unfinished. */
  function Kept(slots: seq<Id>, observed: seq<bool>): seq<Id>
    requires |slots| == |observed|
  {
    if slots == [] then [] else
    var n := |slots| - 1;
    Kept(slots[..n], observed[..n]) + if observed[n] then [] else [slots[n]]
  }

  /** The slots a pass joins: those it saw finished. */
  function Reaped(slots: seq<Id>, observed: seq<bool>): seq<Id>
    requires |slots| == |observed|
  {
    if slots == [] then [] else
    var n := |slots| - 1;
    Reaped(slots[..n], observed[..n]) + if observed[n] then [slots[n]] else []
  }

  lemma {:induction false} OneMoreObserved(slots: seq<Id>, observed: seq<bool>, flag: bool)
    requires |observed| < |slots|
    ensures
      var k := |observed|;
      && Kept(slots[..k + 1], observed + [flag]) == Kept(slots[..k], observed) + (if flag then [] else [slots[k]])
      && Reaped(slots[..k + 1], observed + [flag]) == Reaped(slots[..k], observed) + (if flag then [slots[k]] else [])
  {
    var k := |observed|;
    assert slots[..k + 1][..k] == slots[..k];
    assert (observed + [flag])[..k] == observed;
  }

  lemma SplitFurther(kept: seq<Id>, reaped: seq<Id>, slots: seq<Id>, id: Id, flag: bool)
    requires multiset(kept + reaped) == multiset(slots)
    ensures multiset((kept + if flag then [] else [id]) + (reaped + if flag then [id] else []))
      == multiset(slots + [id])
  {
  }

  /** A pass splits the slots. */
  lemma {:induction false} PassSplits(slots: seq<Id>, observed: seq<bool>)
    requires |slots| == |observed|
    ensures multiset(Kept(slots, observed) + Reaped(slots, observed)) == multiset(slots)
  {
    if slots != [] {
      var n := |slots| - 1;
      var front, seen := slots[..n], observed[..n];
      PassSplits(front, seen);
      SplitFurther(Kept(front, seen), Reaped(front, seen), front, slots[n], observed[n]);
      assert front + [slots[n]] == slots;
    }
  }

  ghost predicate SeenAs(slots: seq<Id>, observed: seq<bool>, id: Id, flag: bool)
    requires |slots| == |observed|
  {
    exists i :: 0 <= i < |slots| && slots[i] == id && observed[i] == flag
  }

  lemma SeenBefore(slots: seq<Id>, observed: seq<bool>, id: Id, flag: bool)
    requires |slots| == |observed| > 0
    ensures
      var n := |slots| - 1;
      SeenAs(slots, observed, id, flag) <==>
        SeenAs(slots[..n], observed[..n], id, flag) || (slots[n] == id && observed[n] == flag)
  {
    var n := |slots| - 1;
    if SeenAs(slots[..n], observed[..n], id, flag) {
      var i :| 0 <= i < n && slots[..n][i] == id && observed[..n][i] == flag;
      assert slots[i] == id && observed[i] == flag;
    }
  }

  /** It joins exactly the slots it saw finished and keeps exactly the others. */
  lemma {:induction false} PassSplitsByFlag(slots: seq<Id>, observed: seq<bool>, id: Id)
    requires |slots| == |observed|
    ensures id in Reaped(slots, observed) <==> SeenAs(slots, observed, id, true)
    ensures id in Kept(slots, observed) <==> SeenAs(slots, observed, id, false)
    decreases |slots|
  {
    if slots != [] {
      var n := |slots| - 1;
      PassSplitsByFlag(slots[..n], observed[..n], id);
      SeenBefore(slots, observed, id, true);
      SeenBefore(slots, observed, id, false);
      hide SeenAs;
    }
  }

  /** It keeps the order of the slots. */
  lemma {:induction false} PassKeepsOrder(slots: seq<Id>, observed: seq<bool>)
    requires |slots| == |observed| && Increasing(slots)
    ensures Increasing(Kept(slots, observed)) && Increasing(Reaped(slots, observed))
  {
    if slots != [] {
      var n := |slots| - 1;
      PassKeepsOrder(slots[..n], observed[..n]);
      forall id | id in Kept(slots[..n], observed[..n]) || id in Reaped(slots[..n], observed[..n])
        ensures id < slots[n]
      {
        PassSplitsByFlag(slots[..n], observed[..n], id);
      }
      IncreasingFurther(Kept(slots[..n], observed[..n]), slots[n]);
      IncreasingFurther(Reaped(slots[..n], observed[..n]), slots[n]);
    }
  }

  lemma IncreasingFurther(slots: seq<Id>, id: Id)
    requires Increasing(slots) && forall other :: other in slots ==> other < id
    ensures Increasing(slots + [id]) && slots + [] == slots
  {
    assert forall i :: 0 <= i < |slots| ==> slots[i] in slots;
  }

  ghost predicate Increasing(slots: seq<Id>)
  {
    forall i, j :: 0 <= i < j < |slots| ==> slots[i] < slots[j]
  }

  /** How far the current pass has come. */
  ghost predicate PassRight(p: Pool)
  {
    var k := |p.pass.observed|;
    && k <= |p.pass.slots|
    && (p.loop.Reaping? || p.loop.JoiningFinished? ==>
          && p.loop.at == |Kept(p.pass.slots[..k], p.pass.observed)|
          && p.slots == Kept(p.pass.slots[..k], p.pass.observed) + p.pass.slots[k..]
          && p.joined == p.pass.joined + Reaped(p.pass.slots[..k], p.pass.observed))
    && (p.loop.Accepting? || p.loop.Deciding? || p.loop.Admitting? || p.loop.Rejecting? ==> PassDone(p))
  }

  /** The pass looked at every slot, joined exactly those it saw finished, in order, and kept the others. */
  ghost predicate PassDone(p: Pool)
  {
    && |p.pass.observed| == |p.pass.slots|
    && p.slots == Kept(p.pass.slots, p.pass.observed)
    && p.joined == p.pass.joined + Reaped(p.pass.slots, p.pass.observed)
  }

  lemma PassKeptByLoad(p: Pool, limit: nat)
    requires PassRight(p) && p.loop.Reaping?
    ensures PassRight(Moved(p, limit, LoadFlag))
  {
    hide Worked, Erased, IsAt, Finished, Ended;
    var slots, observed := p.pass.slots, p.pass.observed;
    var k := |observed|;
    var kept := Kept(slots[..k], observed);
    if k < |slots| {
      SlotAhead(slots, k);
      OneMoreObserved(slots, observed, false);
      ConcatIds(kept, [slots[k]], slots[k + 1..]);
    } else {
      assert slots[..k] == slots && kept + [] == kept;
    }
    hide Kept, Reaped;
  }

  lemma PassKeptByJoin(p: Pool, limit: nat)
    requires PassRight(p) && p.loop.JoiningFinished?
    ensures PassRight(Moved(p, limit, JoinFinished))
  {
    hide Worked, IsAt, Ended;
    var slots, observed := p.pass.slots, p.pass.observed;
    var k := |observed|;
    if k < |slots| {
      var kept := Kept(slots[..k], observed);
      SlotAhead(slots, k);
      OneMoreObserved(slots, observed, true);
      EraseAfter(kept, slots[k], slots[k + 1..]);
      ConcatIds(p.pass.joined, Reaped(slots[..k], observed), [slots[k]]);
    }
    hide Kept, Reaped, Erased;
  }

  lemma ConcatIds(a: seq<Id>, b: seq<Id>, c: seq<Id>)
    ensures (a + b) + c == a + (b + c)
  {
  }

  lemma SlotAhead(slots: seq<Id>, at: nat)
    requires at < |slots|
    ensures slots[at..] == [slots[at]] + slots[at + 1..]
  {
  }

  lemma EraseAfter(front: seq<Id>, id: Id, back: seq<Id>)
    ensures Erased(front + ([id] + back), |front|) == front + back
  {
  }

  lemma PassKept(p: Pool, limit: nat, move: Move)
    requires PassRight(p)
    ensures PassRight(Moved(p, limit, move))
  {
    if p.loop.Reaping? && move.LoadFlag? {
      PassKeptByLoad(p, limit);
      hide PassRight, Moved;
    } else if p.loop.JoiningFinished? && move.JoinFinished? {
      PassKeptByJoin(p, limit);
      hide PassRight, Moved;
    } else if move.Work? {
      WorkerStep(p, move.worker);
      hide Erased, IsAt, Finished, Ended, Worked, Kept, Reaped;
    } else if !move.Poll? {
      hide Erased, IsAt, Finished, Ended, Worked, Kept, Reaped;
    } else {
      hide Erased, IsAt, Finished, Ended, Worked;
      assert p.slots[0..] == p.slots;
      assert p.joined + [] == p.joined && [] + p.slots == p.slots;
    }
  }

  // ----- Order -----

  /** The slots are in the order in which their workers were started. */
  ghost predicate Ordered(p: Pool)
  {
    && Increasing(p.slots)
    && (forall id :: id in p.slots ==> id < |p.workers|)
    && (p.loop.Pushing? ==> forall id :: id in p.slots ==> id < |p.workers| - 1)
  }

  lemma OrderedErased(slots: seq<Id>, at: nat)
    requires at < |slots| && Increasing(slots)
    ensures Increasing(Erased(slots, at))
    ensures forall id :: id in Erased(slots, at) ==> id in slots
  {
  }

  lemma OrderKept(p: Pool, limit: nat, move: Move)
    requires Ordered(p)
    ensures Ordered(Moved(p, limit, move))
  {
    if move.Work? {
      WorkerStep(p, move.worker);
      hide Worked, Finished, Ended, Erased, Increasing, IsAt;
    } else if p.loop.JoiningFinished? && p.loop.at < |p.slots| {
      OrderedErased(p.slots, p.loop.at);
      hide Erased, Worked, Finished, Ended, Increasing, IsAt;
    } else if p.loop.Pushing? && p.workers != [] {
      IncreasingFurther(p.slots, |p.workers| - 1);
      hide Erased, Worked, Finished, Ended, Increasing, IsAt;
    } else {
      hide Erased, Worked, Finished, Ended, IsAt;
    }
  }

  // ----- Whole runs -----

  ghost predicate Right(p: Pool, limit: nat)
  {
    CounterRight(p, limit) && SlotsRight(p) && PassRight(p) && Ordered(p)
  }

  lemma {:induction false} RightKept(p: Pool, limit: nat, moves: seq<Move>)
    requires limit < SIZE_LIMIT && Right(p, limit)
    ensures Right(RunPool(p, limit, moves), limit)
    decreases |moves|
  {
    if moves != [] {
      var move := moves[0];
      hide CounterRight, SlotsRight, PassRight, Ordered, Moved;
      CounterKept(p, limit, move);
      SlotsKept(p, limit, move);
      PassKept(p, limit, move);
      OrderKept(p, limit, move);
      RightKept(Moved(p, limit, move), limit, moves[1..]);
    }
  }

  /**
   However loop and workers interleave, the counter is the number of workers not yet taken off it (one ahead just
   before a worker is started) and never above the limit, every started worker waits in a slot or was joined once,
   after it ended, and a reaping pass joins exactly the slots it sees finished, in order.
   */
  lemma {:induction false} Reachable(limit: nat, moves: seq<Move>)
    requires limit < SIZE_LIMIT
    ensures Right(RunPool(Fresh(), limit, moves), limit)
  {
    RightKept(Fresh(), limit, moves);
    hide RunPool;
  }

  lemma IdsOnce(n: nat, id: Id)
    ensures multiset(Ids(n))[id] == if id < n then 1 else 0
  {
    if n > 0 {
      IdsOnce(n - 1, id);
      assert Ids(n) == Ids(n - 1) + [n - 1];
      hide Ids;
    }
  }

  /** No thread is ever joined twice, and none before it has ended. */
  lemma {:induction false} JoinedOnce(limit: nat, moves: seq<Move>, id: Id)
    requires limit < SIZE_LIMIT
    ensures
      var p := RunPool(Fresh(), limit, moves);
      && multiset(p.joined)[id] <= 1
      && (id in p.joined ==> Ended(p.workers, id))
      && (id in p.joined ==> id !in Unjoined(p))
  {
    Reachable(limit, moves);
    var p := RunPool(Fresh(), limit, moves);
    hide RunPool, PassRight, CounterRight, Ordered, Unjoined, Ended, Ids;
    IdsOnce(|p.workers|, id);
    assert multiset(p.joined + Unjoined(p)) == multiset(p.joined) + multiset(Unjoined(p));
  }

  lemma {:induction false} NoneCounted(workers: seq<Worker>)
    requires forall id :: 0 <= id < |workers| ==> workers[id].Exited?
    ensures StillCounted(workers) == 0
  {
    if workers != [] {
      NoneCounted(workers[..|workers| - 1]);
    }
  }

  /** Once the server returns, every worker it started has ended and been joined once, and the counter is zero. */
  lemma {:induction false} NobodyLeftBehind(limit: nat, moves: seq<Move>)
    requires limit < SIZE_LIMIT && RunPool(Fresh(), limit, moves).loop.Returned?
    ensures
      var p := RunPool(Fresh(), limit, moves);
      && p.slots == [] && p.active == 0
      && multiset(p.joined) == multiset(Ids(|p.workers|))
      && forall id :: 0 <= id < |p.workers| ==> p.workers[id].Exited?
  {
    Reachable(limit, moves);
    hide RunPool, Right, StillCounted, Ids;
    RightReturned(RunPool(Fresh(), limit, moves), limit);
  }

  lemma {:induction false} RightReturned(p: Pool, limit: nat)
    requires Right(p, limit) && p.loop.Returned?
    ensures p.slots == [] && p.active == 0
    ensures multiset(p.joined) == multiset(Ids(|p.workers|))
    ensures forall id :: 0 <= id < |p.workers| ==> p.workers[id].Exited?
  {
    hide PassRight, Ordered, Ids, StillCounted, AllEnded;
    assert p.joined + [] == p.joined;
    AllJoined(p.joined, p.workers);
    NoneCounted(p.workers);
  }

  lemma AllJoined(joined: seq<Id>, workers: seq<Worker>)
    requires multiset(joined) == multiset(Ids(|workers|)) && AllEnded(joined, workers)
    ensures forall id :: 0 <= id < |workers| ==> workers[id].Exited?
  {
    hide Ids;
    forall id | 0 <= id < |workers| ensures workers[id].Exited? {
      IdsOnce(|workers|, id);
      assert id in multiset(joined);
      assert Ended(workers, id);
    }
  }

  // ----- What a pass achieves -----

  ghost predicate InPass(p: Pool)
  {
    p.loop.Reaping? || p.loop.JoiningFinished?
  }

  /** The moves take one pass to its end, and no further. */
  ghost predicate FinishesPass(p: Pool, limit: nat, moves: seq<Move>)
    decreases |moves|
  {
    if moves == [] then p.loop.Accepting? else InPass(p) && FinishesPass(Moved(p, limit, moves[0]), limit, moves[1..])
  }

  /** The pass began at `start`, and whatever was finished then and has been looked at was seen finished. */
  ghost predicate SincePass(start: Pool, p: Pool)
  {
    && p.pass.slots == start.slots && p.pass.joined == start.joined
    && |p.pass.observed| <= |start.slots|
    && (forall id :: Finished(start.workers, id) ==> Finished(p.workers, id))
    && (forall i :: 0 <= i < |p.pass.observed| && Finished(start.workers, start.slots[i]) ==> p.pass.observed[i])
  }

  lemma SinceKept(start: Pool, p: Pool, limit: nat, move: Move)
    requires InPass(p) && PassRight(p) && SincePass(start, p)
    ensures SincePass(start, Moved(p, limit, move))
  {
    if move.Work? {
      WorkerStep(p, move.worker);
      hide Worked, Finished, PassRight;
    } else if move.LoadFlag? && p.loop.Reaping? && p.loop.at < |p.slots| {
      LookedAt(p);
      hide PassRight, Finished, Kept, Reaped, Worked, Erased;
    } else if move.JoinFinished? && p.loop.JoiningFinished? && p.loop.at < |p.slots| {
      LookedAt(p);
      hide PassRight, Finished, Ended, Kept, Reaped, Worked, Erased;
    } else {
      hide PassRight, Finished, Ended, Kept, Reaped, Worked, Erased;
    }
  }

  /** The slot that is looked at is the next one of the pass. */
  lemma LookedAt(p: Pool)
    requires InPass(p) && PassRight(p) && p.loop.at < |p.slots|
    ensures |p.pass.observed| < |p.pass.slots| && p.slots[p.loop.at] == p.pass.slots[|p.pass.observed|]
  {
    hide Kept, Reaped;
  }

  lemma {:induction false} PassSeesFinished(start: Pool, p: Pool, limit: nat, moves: seq<Move>)
    requires limit < SIZE_LIMIT && Right(p, limit) && SincePass(start, p) && FinishesPass(p, limit, moves)
    ensures SincePass(start, RunPool(p, limit, moves)) && RunPool(p, limit, moves).loop.Accepting?
    decreases |moves|
  {
    if moves != [] {
      SinceKept(start, p, limit, moves[0]);
      FirstStep(p, limit, moves[0]);
      hide Right, SincePass, Moved, InPass;
      PassSeesFinished(start, Moved(p, limit, moves[0]), limit, moves[1..]);
    }
  }

  lemma {:induction false} RunMore(p: Pool, limit: nat, a: seq<Move>, b: seq<Move>)
    ensures RunPool(p, limit, a + b) == RunPool(RunPool(p, limit, a), limit, b)
    decreases |a|
  {
    hide Moved;
    if a == [] {
      assert a + b == b;
    } else {
      assert (a + b)[0] == a[0] && (a + b)[1..] == a[1..] + b;
      RunMore(Moved(p, limit, a[0]), limit, a[1..], b);
    }
  }

  /**
   A reaping pass reaps. Every worker whose flag was up when the pass began has been joined when the pass is over and
   has no slot any more, and every slot that is left belongs to a worker that was unfinished when the pass began.
   */
  lemma {:induction false} PassReaps(limit: nat, before: seq<Move>, during: seq<Move>)
    requires limit < SIZE_LIMIT && RunPool(Fresh(), limit, before).loop.Top?
    requires FinishesPass(RunPool(Fresh(), limit, before + [Poll(false)]), limit, during)
    ensures
      var start := RunPool(Fresh(), limit, before);
      var end := RunPool(Fresh(), limit, before + [Poll(false)] + during);
      && (forall id :: 0 <= id < |start.workers| && (start.workers[id].Flagged? || start.workers[id].Exited?) ==>
            id in end.joined && id !in end.slots)
      && (forall id :: id in end.slots ==>
            id in start.slots && id < |start.workers| && !start.workers[id].Flagged? && !start.workers[id].Exited?)
  {
    var start := RunPool(Fresh(), limit, before);
    RunMore(Fresh(), limit, before, [Poll(false)]);
    RunMore(Fresh(), limit, before + [Poll(false)], during);
    assert RunPool(start, limit, [Poll(false)]) == Moved(start, limit, Poll(false)) by {
      hide Moved;
    }
    Reachable(limit, before);
    hide RunPool, Moved, Fresh, FinishesPass, Right;
    PassReapsFrom(start, limit, during);
    hide PassReaped;
    UnfoldReaped(start, RunPool(Moved(start, limit, Poll(false)), limit, during));
  }

  ghost predicate SlotReaped(start: Pool, end: Pool, id: Id)
  {
    && (Finished(start.workers, id) ==> id in end.joined && id !in end.slots)
    && (id in end.slots ==> id in start.slots && id < |start.workers| && !Finished(start.workers, id))
  }

  ghost predicate PassReaped(start: Pool, end: Pool)
  {
    forall id: Id :: SlotReaped(start, end, id)
  }

  lemma UnfoldReaped(start: Pool, end: Pool)
    requires PassReaped(start, end)
    ensures forall id :: 0 <= id < |start.workers| && (start.workers[id].Flagged? || start.workers[id].Exited?) ==>
      id in end.joined && id !in end.slots
    ensures forall id :: id in end.slots ==>
      id in start.slots && id < |start.workers| && !start.workers[id].Flagged? && !start.workers[id].Exited?
  {
    assert forall id: Id :: 0 <= id < |start.workers| ==>
      SlotReaped(start, end, id) &&
      (Finished(start.workers, id) <==> start.workers[id].Flagged? || start.workers[id].Exited?);
    assert forall id: Id :: id in end.slots ==> SlotReaped(start, end, id);
  }

  lemma {:induction false} PassReapsFrom(start: Pool, limit: nat, during: seq<Move>)
    requires limit < SIZE_LIMIT && Right(start, limit) && start.loop.Top?
    requires FinishesPass(Moved(start, limit, Poll(false)), limit, during)
    ensures PassReaped(start, RunPool(Moved(start, limit, Poll(false)), limit, during))
  {
    var first := Moved(start, limit, Poll(false));
    assert SincePass(start, first);
    FirstStep(start, limit, Poll(false));
    hide Moved, RunPool, Right, FinishesPass, SincePass;
    PassSeesFinished(start, first, limit, during);
    RightKept(first, limit, during);
    var end := RunPool(first, limit, during);
    hide SlotReaped;
    forall id: Id ensures SlotReaped(start, end, id) {
      SlotAfterPass(start, end, limit, id);
    }
  }

  lemma FirstStep(p: Pool, limit: nat, move: Move)
    requires limit < SIZE_LIMIT && Right(p, limit)
    ensures Right(Moved(p, limit, move), limit)
  {
    hide CounterRight, SlotsRight, PassRight, Ordered, Moved;
    CounterKept(p, limit, move);
    SlotsKept(p, limit, move);
    PassKept(p, limit, move);
    OrderKept(p, limit, move);
  }

  lemma {:induction false} SlotAfterPass(start: Pool, end: Pool, limit: nat, id: Id)
    requires Right(start, limit) && Right(end, limit) && start.loop.Top? && end.loop.Accepting?
    requires SincePass(start, end)
    ensures SlotReaped(start, end, id)
  {
    HasOnePlace(start, id);
    HasOnePlace(end, id);
    PassSplitsByFlag(start.slots, end.pass.observed, id);
    hide CounterRight, SlotsRight, Ordered, Kept, Reaped;
  }

  lemma {:induction false} HasOnePlace(p: Pool, id: Id)
    requires SlotsRight(p) && (p.loop.Top? || p.loop.Accepting?)
    ensures id < |p.workers| <==> id in p.joined || id in p.slots
    ensures !(id in p.joined && id in p.slots)
  {
    IdsOnce(|p.workers|, id);
    assert multiset(p.joined + p.slots) == multiset(p.joined) + multiset(p.slots);
    assert id in multiset(p.joined) || id in multiset(p.slots) <==> multiset(p.joined + p.slots)[id] > 0;
    hide Ids, AllEnded, Finished;
  }

  // ----- Shutting down -----

  /** Steps the workers still have to take. */
  ghost function WorkLeft(workers: seq<Worker>): nat
  {
    if workers == [] then 0 else WorkLeft(workers[..|workers| - 1]) + StepsLeft(workers[|workers| - 1])
  }

  ghost function StepsLeft(worker: Worker): nat
  {
    match worker
    case Serving => 3
    case Uncounted => 2
    case Flagged => 1
    case Exited => 0
  }

  lemma {:induction false} LessWorkLeft(workers: seq<Worker>, id: Id, stage: Worker)
    requires id < |workers| && StepsLeft(stage) < StepsLeft(workers[id])
    ensures WorkLeft(workers[id := stage]) < WorkLeft(workers)
    decreases |workers|
  {
    var n := |workers| - 1;
    if id < n {
      LessWorkLeft(workers[..n], id, stage);
      assert workers[id := stage][..n] == workers[..n][id := stage];
    } else {
      assert workers[id := stage][..n] == workers[..n];
    }
  }

  ghost function ToDrain(p: Pool): nat
    requires p.loop.Draining? && InRange(p)
  {
    WorkLeft(p.workers) + |p.slots| - p.loop.at + 1
  }

  ghost function NextInDrain(p: Pool): Move
    requires p.loop.Draining? && InRange(p)
  {
    if p.loop.at < |p.slots| && !Ended(p.workers, p.slots[p.loop.at]) then Work(p.slots[p.loop.at]) else JoinNext
  }

  /** Draining brings the end nearer with every step anybody takes. */
  lemma {:induction false} DrainAdvances(p: Pool, limit: nat, move: Move)
    requires p.loop.Draining? && InRange(p) && Moved(p, limit, move) != p
    ensures
      var after := Moved(p, limit, move);
      (after.loop.Draining? && InRange(after) && ToDrain(after) < ToDrain(p)) || after.loop.Returned?
  {
    hide Erased;
    if move.Work? {
      var id := move.worker;
      if IsAt(p, id, Serving) {
        LessWorkLeft(p.workers, id, Uncounted);
      } else if IsAt(p, id, Uncounted) {
        LessWorkLeft(p.workers, id, Flagged);
      } else if IsAt(p, id, Flagged) {
        LessWorkLeft(p.workers, id, Exited);
      }
      hide WorkLeft, Finished, Ended;
    } else {
      hide WorkLeft, Worked, Finished, Ended, IsAt;
    }
  }

  /** And some step is always possible, so the server returns as soon as its workers end. */
  lemma {:induction false} DrainNeverStuck(limit: nat, moves: seq<Move>)
    requires limit < SIZE_LIMIT && RunPool(Fresh(), limit, moves).loop.Draining?
    ensures
      var p := RunPool(Fresh(), limit, moves);
      InRange(p) && Moved(p, limit, NextInDrain(p)) != p
  {
    Reachable(limit, moves);
    var p := RunPool(Fresh(), limit, moves);
    UnfoldSlots(p);
    hide RunPool, PassRight, SlotsRight, CounterRight, Erased, Ended, IsAt, Worked;
    if p.loop.at < |p.slots| && !Ended(p.workers, p.slots[p.loop.at]) {
      assert p.slots[p.loop.at] in p.slots;
      WorkerNotStuck(p, p.slots[p.loop.at]);
    }
  }

  lemma WorkerNotStuck(p: Pool, id: Id)
    requires id < |p.workers| && !Ended(p.workers, id)
    ensures Worked(p, id) != p
  {
    assert Worked(p, id).workers[id] != p.workers[id];
  }

  lemma UnfoldSlots(p: Pool)
    requires SlotsRight(p)
    ensures InRange(p)
  {
  }

  /** The loop admits no client while `limit` workers are counted, and then starts exactly one worker for it. */
  lemma {:induction false} AdmitsOnlyBelowLimit(limit: nat, moves: seq<Move>)
    requires limit < SIZE_LIMIT && RunPool(Fresh(), limit, moves).loop.Deciding?
    ensures
      var p := RunPool(Fresh(), limit, moves);
      var after := Moved(p, limit, CompareLimit);
      && (after.loop.Rejecting? <==> StillCounted(p.workers) == limit)
      && (after.loop.Admitting? <==> StillCounted(p.workers) < limit)
  {
    Reachable(limit, moves);
    hide RunPool, PassRight, SlotsRight, Ordered, StillCounted, Erased, Worked;
  }

  // ----- How the loop goes on and ends -----

  /** A way on from every state of the loop: its own next step, or that of the worker it waits for. */
  ghost function NextMove(p: Pool): Move
    requires InRange(p) && !p.loop.Returned?
  {
    match p.loop
    case Top => Poll(false)
    case Reaping(_) => LoadFlag
    case JoiningFinished(at) => if Ended(p.workers, p.slots[at]) then JoinFinished else Work(p.slots[at])
    case Accepting => Accept(Client)
    case Deciding => CompareLimit
    case Admitting => FetchAdd
    case Spawning => StartThread
    case Pushing => PushSlot
    case Rejecting => SendRejection
    case Draining(_, _) => NextInDrain(p)
  }

  /** Until it returns, the loop or the worker it waits for can always take a step. */
  lemma {:induction false} LoopNeverStuck(limit: nat, moves: seq<Move>)
    requires limit < SIZE_LIMIT && !RunPool(Fresh(), limit, moves).loop.Returned?
    ensures
      var p := RunPool(Fresh(), limit, moves);
      InRange(p) && Moved(p, limit, NextMove(p)) != p
  {
    Reachable(limit, moves);
    var p := RunPool(Fresh(), limit, moves);
    UnfoldSlots(p);
    if p.loop.Draining? {
      DrainNeverStuck(limit, moves);
      hide Moved;
    } else {
      LoopSteps(p, limit);
      hide Moved;
    }
  }

  lemma LoopSteps(p: Pool, limit: nat)
    requires InRange(p) && !p.loop.Draining? && !p.loop.Returned?
    ensures Moved(p, limit, NextMove(p)) != p
  {
    hide Erased, IsAt, Worked;
    if p.loop.JoiningFinished? {
      var id := p.slots[p.loop.at];
      if !Ended(p.workers, id) {
        WorkerNotStuck(p, id);
        hide Ended, Finished;
      }
    } else if p.loop.Reaping? {
      hide Ended, Finished;
    } else {
      hide FlagLoaded, FinishedJoined, NextJoined;
    }
  }

  /** A client that is admitted is served: one more worker, with a slot of its own, and the loop starts over. */
  lemma {:induction false} AdmittedIsServed(p: Pool, limit: nat)
    requires p.loop.Admitting?
    ensures
      var end := RunPool(p, limit, [FetchAdd, StartThread, PushSlot]);
      && end.loop.Top? && end.workers == p.workers + [Serving] && end.slots == p.slots + [|p.workers|]
      && end.joined == p.joined
  {
    var a := Moved(p, limit, FetchAdd);
    var b := Moved(a, limit, StartThread);
    var c := Moved(b, limit, PushSlot);
    assert [FetchAdd, StartThread, PushSlot][1..] == [StartThread, PushSlot];
    assert [StartThread, PushSlot][1..] == [PushSlot] && [PushSlot][1..] == [];
    assert RunPool(c, limit, []) == c;
    assert RunPool(b, limit, [PushSlot]) == c;
    assert RunPool(a, limit, [StartThread, PushSlot]) == c;
  }

  /** Turning a client away changes nothing else, and the loop starts over. */
  lemma RejectedGoesOn(p: Pool, limit: nat)
    requires p.loop.Rejecting?
    ensures Moved(p, limit, SendRejection) == p.(loop := Top)
  {
  }

  datatype End = Open | Over(ok: bool)

  /** The first move of a run that ends the serving: a stop request where the loop polls, or a failed accept. */
  ghost function EndedBy(p: Pool, limit: nat, moves: seq<Move>): End
    decreases |moves|
  {
    if moves == [] then Open
    else if p.loop.Top? && moves[0] == Poll(true) then Over(true)
    else if p.loop.Accepting? && moves[0] == Accept(StopRequested) then Over(true)
    else if p.loop.Accepting? && moves[0] == Accept(AcceptFailed) then Over(false)
    else EndedBy(Moved(p, limit, moves[0]), limit, moves[1..])
  }

  ghost predicate IsOver(p: Pool, ok: bool)
  {
    (p.loop.Draining? && p.loop.ok == ok) || p.loop == Returned(ok)
  }

  lemma {:induction false} StaysOver(p: Pool, limit: nat, moves: seq<Move>, ok: bool)
    requires IsOver(p, ok)
    ensures IsOver(RunPool(p, limit, moves), ok)
    decreases |moves|
  {
    if moves != [] {
      hide Finished, Ended, Erased, IsAt;
      StaysOver(Moved(p, limit, moves[0]), limit, moves[1..], ok);
    }
  }

  lemma {:induction false} EndsFrom(p: Pool, limit: nat, moves: seq<Move>)
    requires !p.loop.Draining? && !p.loop.Returned?
    ensures
      var end := RunPool(p, limit, moves);
      match EndedBy(p, limit, moves)
      case Open => !end.loop.Draining? && !end.loop.Returned?
      case Over(ok) => IsOver(end, ok)
    decreases |moves|
  {
    if moves != [] {
      hide Finished, Ended, Erased, IsAt;
      var next := Moved(p, limit, moves[0]);
      if next.loop.Draining? {
        StaysOver(next, limit, moves[1..], next.loop.ok);
      } else {
        EndsFrom(next, limit, moves[1..]);
      }
    }
  }

  /**
   The server goes on until a stop is requested or accepting fails, whatever else happens, and it returns OK exactly
   if it was the stop request that came first.
   */
  lemma {:induction false} ReturnsOkIffStopped(limit: nat, moves: seq<Move>)
    ensures
      var end, ended := RunPool(Fresh(), limit, moves), EndedBy(Fresh(), limit, moves);
      && (end.loop.Draining? || end.loop.Returned? <==> ended.Over?)
      && (end.loop.Returned? ==> end.loop.ok == ended.ok)
  {
    EndsFrom(Fresh(), limit, moves);
    hide RunPool, EndedBy;
  }

  // ----- The list of slots -----

  lemma NextObserved(was: seq<Id>, flags: seq<bool>, seen: nat, before: seq<Id>)
    requires seen < |was| == |flags|
    ensures
      var kept, keptNext := Kept(was[..seen], flags[..seen]), Kept(was[..seen + 1], flags[..seen + 1]);
      var reaped, reapedNext := Reaped(was[..seen], flags[..seen]), Reaped(was[..seen + 1], flags[..seen + 1]);
      var slots := kept + was[seen..];
      && slots[|kept|] == was[seen]
      && (flags[seen] ==>
            && Erased(slots, |kept|) == keptNext + was[seen + 1..] && |keptNext| == |kept|
            && before + reaped + [was[seen]] == before + reapedNext)
      && (!flags[seen] ==>
            slots == keptNext + was[seen + 1..] && |keptNext| == |kept| + 1 && reapedNext == reaped)
  {
    var kept, id := Kept(was[..seen], flags[..seen]), was[seen];
    OneMoreObserved(was, flags[..seen], flags[seen]);
    hide Kept, Reaped;
    assert flags[..seen] + [flags[seen]] == flags[..seen + 1];
    SlotAhead(was, seen);
    EraseAfter(kept, id, was[seen + 1..]);
    ConcatIds(kept, [id], was[seen + 1..]);
    ConcatIds(before, Reaped(was[..seen], flags[..seen]), [id]);
    hide Erased;
  }

  /** The accept loop's `workers`, with the threads it has joined. */
  class WorkerSlots {
    var slots: seq<Id>
    var joined: seq<Id>

    constructor ()
      ensures slots == [] && joined == []
    {
      slots, joined := [], [];
    }

    /** `flags` is what each slot's flag reads when the pass comes to it. */
    method JoinFinishedClientWorkers(flags: seq<bool>)
      requires |flags| == |slots|
      modifies this
      ensures slots == Kept(old(slots), flags)
      ensures joined == old(joined) + Reaped(old(slots), flags)
    {
      ghost var was := slots;
      var at, seen := 0, 0;
      assert joined + [] == joined && [] + slots == slots;
      assert was[..0] == [] && flags[..0] == [];
      assert was[0..] == was;
      while at < |slots|
        invariant seen <= |was| && at == |Kept(was[..seen], flags[..seen])|
        invariant slots == Kept(was[..seen], flags[..seen]) + was[seen..]
        invariant joined == old(joined) + Reaped(was[..seen], flags[..seen])
        decreases |was| - seen
      {
        hide Kept, Reaped;
        NextObserved(was, flags, seen, old(joined));
        if flags[seen] {
          joined := joined + [slots[at]];
          slots := Erased(slots, at);
        } else {
          at := at + 1;
        }
        seen := seen + 1;
      }
      assert was[..seen] == was && flags[..seen] == flags;
    }

    method JoinClientWorkers()
      modifies this
      ensures slots == [] && joined == old(joined) + old(slots)
    {
      var at := 0;
      while at < |slots|
        invariant at <= |slots| && slots == old(slots) && joined == old(joined) + slots[..at]
      {
        assert slots[..at + 1] == slots[..at] + [slots[at]];
        joined := joined + [slots[at]];
        at := at + 1;
      }
      assert slots[..at] == slots;
      slots := [];
    }
  }
}
