/**
 Block ingestion as a concurrent state machine: the parser that learns finalized heights, the publisher
 loop behind a one-place channel, the rate limiter in front of the queue, and any number of workers
 that fill blocks and move the two redis watermarks. Every step is one atomic action of one goroutine.
 */
module Ingest {
  import opened Basics

  const FINALIZED_WAITING_BLOCK_COUNT: int := 2

  /** Where the publisher goroutine is, with the block number `i` of its loop. */
  datatype Pc =
    | Waiting            // in select
    | Woken              // a head was received
    | ReadingMark        // the finalized height is not 0; about to read the watermark
    | Scanning(i: int)   // about to test the loop condition
    | Limiting(i: int)   // about to ask for the key's ttl
    | Marking(i: int)    // no live key: about to set it
    | Queueing(i: int)   // key set: about to enqueue
    | Published(i: int)  // Publish returned; lastBlock is not yet updated
    | Stopped            // returned after a head of height 0

  /** The subscription: parser, channel, publisher and rate-limit keys. */
  datatype Feed = Feed(
    finalized: int,            // finalizedBlockNum
    sending: bool,             // the parser is blocked on newFinHead <- true
    signal: bool,              // newFinHead holds a value
    lastBlock: int,
    pc: Pc,
    checked: int,              // finalizedBlockNum at the last successful loop test
    keys: set<int>,            // live rate-limit keys, by block
    log: seq<(int, int)>,      // published blocks, each with the height it was checked against
    heads: seq<int>,           // the heights of all heads received
    start: Option<int>)        // the watermark that was read last with nothing published

  /** Where a worker is, with its block and what it read last. */
  datatype Worker =
    | Idle
    | Got(b: int)              // message taken; about to look the block up
    | Filling(b: int)          // fetching and writing
    | Committed(b: int)        // CreateChainBlock is past its commit
    | BestRead(b: int, v: int) // GET FillAlreadyBlockNum answered v
    | BestDone(b: int)
    | MarkRead(b: int, v: int) // GET FillFinalizedBlockNum answered v
    | Requeueing(b: int)       // the job failed; about to publish it again

  /** What the workers share. */
  datatype Store = Store(
    queue: multiset<int>,
    stored: map<int, bool>,    // stored blocks; true if the row carries a codec error
    lost: set<int>,            // blocks given up without being stored: see the faults
    best: int,                 // FillAlreadyBlockNum
    mark: int)                 // FillFinalizedBlockNum

  /** What can go wrong unnoticed. */
  datatype Fault =
    | LostCommit               // a commit fails, which DbCommit only prints
    | PanickedFill             // a job panics, and its message is gone: only a returned error puts it back

  datatype State = State(feed: Feed, store: Store, workers: map<nat, Worker>, faults: set<Fault>)

  /** How a worker's next action turns out. */
  datatype Act =
    | Take(b: int)             // an idle worker takes a message
    | Proceed(codecError: bool)
    | Fail                     // the fill, or the publishing after the commit, returns an error
    | Lose                     // the commit is lost
    | Panic                    // the job panics, as a fill does when the metadata of a new spec cannot be fetched

  datatype Step = ParserSets(n: int) | ParserSends | Publish | Expire(b: int) | Work(w: nat, act: Act)

  /** The log with one more block, and the height it was checked against. */
  function Logged(f: Feed, i: int): seq<(int, int)> {
    f.log + [(i, f.checked)]
  }

  /** One action of the publisher, given the watermark it may read. */
  function PublisherAfter(f: Feed, mark: int): Feed {
    match f.pc
    case Waiting => f.(signal := false, pc := Woken)
    case Woken => f.(pc := if f.finalized == 0 then Stopped else ReadingMark)
    case ReadingMark =>
      if f.lastBlock > 0 then f.(pc := Scanning(f.lastBlock + 1)) else f.(pc := Scanning(mark), start := Some(mark))
    case Scanning(i) =>
      if i <= f.finalized - FINALIZED_WAITING_BLOCK_COUNT then f.(pc := Limiting(i), checked := f.finalized)
      else f.(pc := Waiting)
    case Limiting(i) => f.(pc := if i in f.keys then Published(i) else Marking(i))
    case Marking(i) => f.(pc := Queueing(i), keys := f.keys + {i})
    case Queueing(i) => f.(pc := Published(i))
    case Published(i) => f.(pc := Scanning(i + 1), lastBlock := i, log := Logged(f, i))
    case Stopped => f
  }

  predicate CanWork(st: Store, at: Worker, act: Act) {
    match act
    case Take(b) => at.Idle? && b in st.queue
    case Proceed(_) => !at.Idle?
    case Fail => at.Filling? || at.Committed?
    case Lose => at.Filling?
    case Panic => at.Filling? || at.Committed?
  }

  /** Which faults are possible is fixed for a run. */
  predicate Permitted(faults: set<Fault>, act: Act) {
    (act.Lose? ==> LostCommit in faults) && (act.Panic? ==> PanickedFill in faults)
  }

  /** Where the worker goes. */
  function WorkerAfter(st: Store, at: Worker, act: Act): Worker {
    match at
    case Idle => if act.Take? then Got(act.b) else at
    // a stored block without codec error is not filled again
    case Got(b) => if b in st.stored && !st.stored[b] then Idle else Filling(b)
    case Filling(b) => if act.Fail? then Requeueing(b) else if act.Panic? then Idle else Committed(b)
    case Committed(b) => if act.Fail? then Requeueing(b) else if act.Panic? then Idle else BestRead(b, st.best)
    case BestRead(b, _) => BestDone(b)
    case BestDone(b) => MarkRead(b, st.mark)
    case MarkRead(_, _) => Idle
    case Requeueing(_) => Idle
  }

  /** What happens to the shared store. */
  function StoreAfter(st: Store, at: Worker, act: Act): Store {
    match at
    case Idle => if act.Take? then st.(queue := st.queue - multiset{act.b}) else st
    case Filling(b) =>
      // inserting ignores duplicates: a block row that is there stays as it is, commit or not
      if b in st.stored || act.Fail? then st
      else if act.Lose? || act.Panic? then st.(lost := st.lost + {b})
      else if act.Proceed? then st.(stored := st.stored[b := act.codecError], lost := st.lost - {b})
      else st
    case BestRead(b, v) => if b > v then st.(best := b) else st
    case MarkRead(b, v) => if b > v then st.(mark := b) else st
    case Requeueing(b) => st.(queue := st.queue + multiset{b})
    case _ => st
  }

  ghost predicate Enabled(s: State, step: Step) {
    match step
    case ParserSets(_) => !s.feed.sending
    case ParserSends => s.feed.sending && !s.feed.signal
    case Publish => !s.feed.pc.Stopped? && (s.feed.pc.Waiting? ==> s.feed.signal)
    case Expire(b) => b in s.feed.keys
    case Work(w, act) => w in s.workers && CanWork(s.store, s.workers[w], act) && Permitted(s.faults, act)
  }

  function Apply(s: State, step: Step): State {
    match step
    case ParserSets(n) => s.(feed := s.feed.(finalized := n, sending := true, heads := s.feed.heads + [n]))
    case ParserSends => s.(feed := s.feed.(sending := false, signal := true))
    case Expire(b) => s.(feed := s.feed.(keys := s.feed.keys - {b}))
    case Publish =>
      var queued := if s.feed.pc.Queueing? then multiset{s.feed.pc.i} else multiset{};
      s.(feed := PublisherAfter(s.feed, s.store.mark), store := s.store.(queue := s.store.queue + queued))
    case Work(w, act) =>
      if w !in s.workers then s
      else s.(workers := s.workers[w := WorkerAfter(s.store, s.workers[w], act)],
              store := StoreAfter(s.store, s.workers[w], act))
  }

  ghost predicate Next(s: State, s': State) {
    exists step :: Enabled(s, step) && s' == Apply(s, step)
  }

  // ---------- invariants ----------

  predicate InLoop(p: Pc) {
    p.Scanning? || p.Limiting? || p.Marking? || p.Queueing? || p.Published?
  }

  /** The log counts up by one from a first block above 0, and each entry passed its check. */
  ghost predicate InOrder(log: seq<(int, int)>) {
    && (forall k :: 0 <= k < |log| ==> log[k].0 == log[0].0 + k)
    && (forall k :: 0 <= k < |log| ==> 0 < log[k].0 <= log[k].1 - FINALIZED_WAITING_BLOCK_COUNT)
  }

  ghost predicate OrderInv(f: Feed) {
    && InOrder(f.log)
    && f.lastBlock == (if f.log == [] then 0 else f.log[|f.log| - 1].0)
    && (InLoop(f.pc) ==> f.pc.i > 0 && (f.log != [] ==> f.pc.i == f.lastBlock + 1))
    && (InLoop(f.pc) && !f.pc.Scanning? ==> f.pc.i <= f.checked - FINALIZED_WAITING_BLOCK_COUNT)
  }

  /** A block that is stored, or was lost on the way. */
  predicate Settled(st: Store, b: int) {
    b in st.stored || b in st.lost
  }

  /** The lost blocks are not stored. */
  predicate LostInv(st: Store) {
    forall b :: b in st.lost ==> b !in st.stored
  }

  /** A worker that moves the watermarks works for a settled block and read no negative watermark. */
  predicate WorkerInv(st: Store, at: Worker) {
    && (at.MarkRead? ==> at.v >= 0)
    && (at.Committed? || at.BestRead? || at.BestDone? || at.MarkRead? ==> Settled(st, at.b))
  }

  ghost predicate WorkersInv(s: State) {
    forall w :: w in s.workers ==> WorkerInv(s.store, s.workers[w])
  }

  /** The worker has the job for `b` in hand, with nothing committed yet. */
  predicate Holds(at: Worker, b: int) {
    at == Got(b) || at == Filling(b) || at == Requeueing(b)
  }

  ghost predicate InHand(workers: map<nat, Worker>, b: int) {
    exists w :: w in workers && Holds(workers[w], b)
  }

  /** Nobody has forgotten `b`: it is queued, in a worker, or settled. */
  ghost predicate Tracked(s: State, b: int) {
    b in s.store.queue || InHand(s.workers, b) || Settled(s.store, b)
  }

  ghost predicate TrackInv(s: State) {
    && (forall k :: 0 <= k < |s.feed.log| ==> Tracked(s, s.feed.log[k].0))
    && (forall b :: b in s.feed.keys ==> Tracked(s, b) || s.feed.pc == Queueing(b))
    && (s.feed.pc.Published? ==> Tracked(s, s.feed.pc.i))
  }

  predicate StartOrSettled(st: Store, b: int, first: int) {
    b == first || Settled(st, b)
  }

  /** `first` is the watermark the session started with; later it names a settled block. */
  ghost predicate MarkInv(st: Store, first: int) {
    st.mark > 0 && StartOrSettled(st, st.mark, first)
  }

  /** The block that publishing starts from was the watermark when the publisher read it. */
  ghost predicate FirstInv(s: State, first: int) {
    s.feed.start.Some? ==> StartOrSettled(s.store, s.feed.start.value, first)
  }

  /** The publisher waits, and no head is on its way to it. */
  predicate AtRest(f: Feed) {
    f.pc.Waiting? && !f.signal && !f.sending
  }

  /** The block to publish next. */
  function NextBlock(f: Feed, start: int): int {
    if f.log == [] then start else f.lastBlock + 1
  }

  /** The height is that of the last head, and a publisher that came to rest has reached it. */
  ghost predicate HeadInv(f: Feed) {
    && (f.heads != [] ==> f.finalized == f.heads[|f.heads| - 1])
    && (f.log != [] ==> f.start == Some(f.log[0].0))
    && (f.log == [] && InLoop(f.pc) ==> f.start == Some(f.pc.i))
    && (AtRest(f) && f.heads != [] ==> f.start.Some? && NextBlock(f, f.start.value) > f.finalized - 2)
  }

  ghost predicate Inv(s: State, first: int) {
    && OrderInv(s.feed) && MarkInv(s.store, first) && WorkersInv(s)
    && TrackInv(s) && FirstInv(s, first) && LostInv(s.store) && HeadInv(s.feed)
  }

  /** With a single worker, what it read is still there when it writes. */
  ghost predicate ReadIsFresh(s: State) {
    forall w :: w in s.workers ==>
      && (s.workers[w].MarkRead? ==> s.workers[w].v == s.store.mark)
      && (s.workers[w].BestRead? ==> s.workers[w].v == s.store.best)
  }

  /** A new subscription: nothing received yet. */
  function FreshFeed(keys: set<int>): Feed {
    Feed(0, false, false, 0, Waiting, 0, keys, [], [], None)
  }

  /**
   A session starts with a new subscription and the watermark `first`. Whatever an earlier session left
   behind - messages, live keys, stored and lost blocks, workers at any point of a job - is consistent:
   every live key belongs to a block that is accounted for, nothing is lost unless something can go wrong,
   and a sole worker has the current watermarks.
   */
  ghost predicate Init(s: State, first: int) {
    && s.feed == FreshFeed(s.feed.keys)
    && s.store.mark == first && WorkersInv(s) && LostInv(s.store)
    && (s.faults == {} ==> s.store.lost == {})
    && (AtMostOne(s.workers.Keys) ==> ReadIsFresh(s))
    && (forall b :: b in s.feed.keys ==> Tracked(s, b))
  }

  lemma LogGrows(log: seq<(int, int)>, i: int, checked: int)
    requires InOrder(log) && 0 < i <= checked - FINALIZED_WAITING_BLOCK_COUNT
    requires log != [] ==> i == log[|log| - 1].0 + 1
    ensures InOrder(log + [(i, checked)])
  {
  }

  lemma PublishKeepsOrder(f: Feed, mark: int)
    requires OrderInv(f) && mark > 0
    ensures OrderInv(PublisherAfter(f, mark))
  {
    if f.pc.Published? {
      LogGrows(f.log, f.pc.i, f.checked);
    }
  }

  lemma SettledStays(st: Store, at: Worker, act: Act, b: int)
    requires Settled(st, b)
    ensures Settled(StoreAfter(st, at, act), b)
  {
  }

  lemma WorkKeepsWorker(st: Store, at: Worker, act: Act)
    requires CanWork(st, at, act) && WorkerInv(st, at) && st.mark > 0
    ensures WorkerInv(StoreAfter(st, at, act), WorkerAfter(st, at, act))
  {
  }

  lemma WorkKeepsMark(st: Store, at: Worker, act: Act, first: int)
    requires CanWork(st, at, act) && WorkerInv(st, at) && MarkInv(st, first)
    ensures MarkInv(StoreAfter(st, at, act), first)
  {
  }

  lemma WorkersKept(s: State, step: Step)
    requires Enabled(s, step) && WorkersInv(s) && s.store.mark > 0
    ensures WorkersInv(Apply(s, step))
  {
    if step.Work? {
      var at, act := s.workers[step.w], step.act;
      WorkKeepsWorker(s.store, at, act);
      forall w | w in s.workers && w != step.w ensures WorkerInv(StoreAfter(s.store, at, act), s.workers[w]) {
        if Settled(s.store, (if s.workers[w].Idle? then 0 else s.workers[w].b)) {
          SettledStays(s.store, at, act, if s.workers[w].Idle? then 0 else s.workers[w].b);
        }
      }
    }
  }

  /** What a working step does to the block its worker has, or takes. */
  lemma WorkTracks(st: Store, at: Worker, act: Act, b: int)
    requires CanWork(st, at, act)
    requires Holds(at, b) || b in st.queue
    ensures var st' := StoreAfter(st, at, act);
            Holds(WorkerAfter(st, at, act), b) || b in st'.queue || Settled(st', b)
  {
  }

  /** No step forgets a block. */
  lemma TrackedStays(s: State, step: Step, b: int)
    requires Enabled(s, step) && Tracked(s, b)
    ensures Tracked(Apply(s, step), b)
  {
    var s' := Apply(s, step);
    if step.Work? {
      var at, act := s.workers[step.w], step.act;
      if Settled(s.store, b) {
        SettledStays(s.store, at, act, b);
      } else if b in s.store.queue || Holds(at, b) {
        WorkTracks(s.store, at, act, b);
        assert s'.workers[step.w] == WorkerAfter(s.store, at, act);
      } else {
        var w :| w in s.workers && Holds(s.workers[w], b);
        assert w in s'.workers && s'.workers[w] == s.workers[w];
      }
    }
  }

  lemma TrackKept(s: State, step: Step)
    requires Enabled(s, step) && TrackInv(s)
    ensures TrackInv(Apply(s, step))
  {
    var s' := Apply(s, step);
    forall b | Tracked(s, b) ensures Tracked(s', b) {
      TrackedStays(s, step, b);
    }
    if step.Publish? && s.feed.pc.Queueing? {
      assert Tracked(s', s.feed.pc.i);
    }
  }

  lemma FirstKept(s: State, step: Step, first: int)
    requires Enabled(s, step) && MarkInv(s.store, first) && FirstInv(s, first)
    ensures FirstInv(Apply(s, step), first)
  {
    match step
    case Work(w, act) =>
      forall b | Settled(s.store, b) ensures Settled(StoreAfter(s.store, s.workers[w], act), b) {
        SettledStays(s.store, s.workers[w], act, b);
      }
    case _ =>
  }

  /** In particular, the loop ends only at a block above the height less two. */
  lemma PublishKeepsHead(f: Feed, mark: int)
    requires OrderInv(f) && HeadInv(f) && mark > 0
    ensures HeadInv(PublisherAfter(f, mark))
  {
  }

  lemma StepKeepsInv(s: State, step: Step, first: int)
    requires Inv(s, first) && Enabled(s, step)
    ensures Inv(Apply(s, step), first)
  {
    FirstKept(s, step, first);
    WorkersKept(s, step);
    TrackKept(s, step);
    match step
    case Publish =>
      PublishKeepsOrder(s.feed, s.store.mark);
      PublishKeepsHead(s.feed, s.store.mark);
    case Work(w, act) => WorkKeepsMark(s.store, s.workers[w], act, first);
    case _ =>
  }

  // ---------- what holds in every run ----------

  /** A run starts in a state and goes on step by step. */
  datatype Run = Start(state: State) | Then(before: Run, state: State)

  ghost predicate IsRun(run: Run, first: int) {
    match run
    case Start(s) => Init(s, first)
    case Then(before, s) => IsRun(before, first) && Next(before.state, s)
  }

  lemma {:induction false} RunInv(run: Run, first: int)
    requires first > 0 && IsRun(run, first)
    ensures Inv(run.state, first)
  {
    match run
    case Start(_) =>
    case Then(before, s) =>
      RunInv(before, first);
      var step :| Enabled(before.state, step) && s == Apply(before.state, step);
      StepKeepsInv(before.state, step, first);
  }

  /**
   In every interleaving the published blocks are F, F + 1, ... up to lastBlock, in order, without gap
   or repeat, and each was at most "finalized - 2" when it was checked. F is the watermark that the
   session found, or one that a worker has moved to a settled block since.
   */
  lemma PublishedInOrder(run: Run, first: int)
    requires first > 0 && IsRun(run, first)
    ensures var f := run.state.feed;
            && (forall k :: 0 <= k < |f.log| ==> f.log[k].0 == f.log[0].0 + k > 0)
            && (forall k :: 0 <= k < |f.log| ==> f.log[k].0 <= f.log[k].1 - 2)
            && (f.log != [] ==> f.lastBlock == f.log[0].0 + |f.log| - 1)
            && (f.log != [] ==> StartOrSettled(run.state.store, f.log[0].0, first))
  {
    RunInv(run, first);
  }

  /**
   Catching up. Whenever the publisher is back in its select with no head on its way, it has published
   every block from the watermark it started from up to the last head less two.
   */
  lemma CaughtUp(run: Run, first: int)
    requires first > 0 && IsRun(run, first)
    requires var f := run.state.feed; f.pc.Waiting? && !f.signal && !f.sending && f.heads != []
    ensures var f := run.state.feed;
            var n := f.heads[|f.heads| - 1];
            && f.finalized == n && f.start.Some? && StartOrSettled(run.state.store, f.start.value, first)
            && (f.start.value <= n - 2 ==> f.log != [] && f.lastBlock >= n - 2)
            && (forall b :: f.start.value <= b <= n - 2 ==> WasPublished(f.log, b))
  {
    RunInv(run, first);
    var f := run.state.feed;
    forall b | f.start.value <= b <= f.finalized - 2 ensures WasPublished(f.log, b) {
      assert f.log[b - f.start.value].0 == b;
    }
  }

  ghost predicate WasPublished(log: seq<(int, int)>, b: int) {
    exists k :: 0 <= k < |log| && log[k].0 == b
  }

  /** Every published block is queued, in a worker, stored or lost - rate-limited or not. */
  lemma NothingForgotten(run: Run, first: int, k: nat)
    requires first > 0 && IsRun(run, first) && k < |run.state.feed.log|
    ensures Tracked(run.state, run.state.feed.log[k].0)
  {
    RunInv(run, first);
  }

  ghost predicate Quiet(s: State) {
    s.store.queue == multiset{} && forall w :: w in s.workers ==> s.workers[w].Idle?
  }

  /**
   Once queue and workers are empty, a block from the first published one to lastBlock is stored exactly
   if it was not lost, in its last commit or in a fill that panicked.
   */
  lemma QuietMeansStored(run: Run, first: int, b: int)
    requires first > 0 && IsRun(run, first) && Quiet(run.state) && run.state.feed.log != []
    requires run.state.feed.log[0].0 <= b <= run.state.feed.lastBlock
    ensures b in run.state.store.stored <==> b !in run.state.store.lost
  {
    RunInv(run, first);
    var log := run.state.feed.log;
    assert log[b - log[0].0].0 == b;
    assert Tracked(run.state, b);
  }

  lemma {:induction false} FaultlessLosesNothing(run: Run, first: int)
    requires IsRun(run, first) && run.state.faults == {}
    ensures run.state.store.lost == {}
  {
    match run
    case Start(_) =>
    case Then(before, s) =>
      var step :| Enabled(before.state, step) && s == Apply(before.state, step);
      FaultlessLosesNothing(before, first);
  }

  ghost predicate PublishedAreStored(s: State) {
    forall k :: 0 <= k < |s.feed.log| ==> s.feed.log[k].0 in s.store.stored
  }

  lemma FaultlessQuietIsStored(run: Run, first: int)
    requires first > 0 && IsRun(run, first) && run.state.faults == {} && Quiet(run.state)
    ensures PublishedAreStored(run.state)
  {
    RunInv(run, first);
    FaultlessLosesNothing(run, first);
    forall k | 0 <= k < |run.state.feed.log| ensures run.state.feed.log[k].0 in run.state.store.stored {
      assert Tracked(run.state, run.state.feed.log[k].0);
    }
  }

  /** Every quiet state has all published blocks stored if and only if neither a commit can be lost nor a fill panic. */
  lemma QuietIsStoredIff(first: int, faults: set<Fault>)
    requires first > 0
    ensures (forall run ::
               IsRun(run, first) && run.state.faults == faults && Quiet(run.state) ==> PublishedAreStored(run.state))
            <==> LostCommit !in faults && PanickedFill !in faults
  {
    if LostCommit in faults {
      var run := LostCommitLeavesHole(first, faults);
      assert run.state.feed.log[0].0 !in run.state.store.stored;
    } else if PanickedFill in faults {
      var run := PanicLeavesHole(first, faults);
      assert run.state.feed.log[0].0 !in run.state.store.stored;
    } else {
      forall f ensures f !in faults {
        match f
        case LostCommit =>
        case PanickedFill =>
      }
      assert faults == {};
      forall run | IsRun(run, first) && run.state.faults == faults && Quiet(run.state)
        ensures PublishedAreStored(run.state)
      {
        FaultlessQuietIsStored(run, first);
      }
    }
  }

  /** The watermark is where the session found it or names a settled block. */
  lemma MarkNamesSettledBlock(run: Run, first: int)
    requires first > 0 && IsRun(run, first)
    ensures run.state.store.mark == first || Settled(run.state.store, run.state.store.mark)
  {
    RunInv(run, first);
  }

  lemma {:induction false} SoleWorkerReadsFresh(run: Run, first: int)
    requires IsRun(run, first) && AtMostOne(run.state.workers.Keys)
    ensures ReadIsFresh(run.state)
  {
    match run
    case Start(_) =>
    case Then(before, s) =>
      var step :| Enabled(before.state, step) && s == Apply(before.state, step);
      assert before.state.workers.Keys == s.workers.Keys;
      SoleWorkerReadsFresh(before, first);
  }

  /** One of the two watermarks moves back. */
  predicate MarkFalls(s: State, s': State) {
    s'.store.mark < s.store.mark || s'.store.best < s.store.best
  }

  /** One worker never moves a watermark back. */
  lemma SoleWorkerMarkGrows(run: Run, first: int, s': State)
    requires IsRun(run, first) && AtMostOne(run.state.workers.Keys) && Next(run.state, s')
    ensures !MarkFalls(run.state, s')
  {
    SoleWorkerReadsFresh(run, first);
  }

  /** A run of these workers in which these faults are possible. */
  ghost predicate IsRunOf(run: Run, first: int, ws: set<nat>, faults: set<Fault>) {
    IsRun(run, first) && run.state.workers.Keys == ws && run.state.faults == faults
  }

  /** The watermarks never move back if and only if there is at most one worker, whatever they start from. */
  lemma MarkNeverFallsIff(ws: set<nat>, first: int, faults: set<Fault>)
    ensures (forall run, s' :: IsRunOf(run, first, ws, faults) && Next(run.state, s') ==> !MarkFalls(run.state, s'))
            <==> |ws| <= 1
  {
    AtMostOneIff(ws);
    if AtMostOne(ws) {
      forall run, s' | IsRunOf(run, first, ws, faults) && Next(run.state, s')
        ensures !MarkFalls(run.state, s')
      {
        SoleWorkerMarkGrows(run, first, s');
      }
    } else {
      var v, w :| v in ws && w in ws && v != w;
      var run, s' := TwoWorkersMoveMarkBack(ws, v, w, first, faults);
      assert IsRunOf(run, first, ws, faults);
    }
  }

  /** No block is published twice if and only if the session starts from a watermark above 0. */
  lemma NoRepeatIff(first: nat, faults: set<Fault>)
    ensures (forall run :: IsRun(run, first) && run.state.faults == faults ==> NoRepeats(run.state.feed.log))
            <==> first > 0
  {
    if first > 0 {
      forall run | IsRun(run, first) ensures NoRepeats(run.state.feed.log) {
        PublishedInOrder(run, first);
      }
    } else {
      var run := ZeroWatermarkRepeats(faults);
      assert run.state.feed.log[0].0 == run.state.feed.log[1].0;
    }
  }

  ghost predicate NoRepeats(log: seq<(int, int)>) {
    forall i, j :: 0 <= i < j < |log| ==> log[i].0 != log[j].0
  }

  // ---------- witnesses ----------

  lemma Extend(run: Run, first: int, step: Step) returns (longer: Run)
    requires IsRun(run, first) && Enabled(run.state, step)
    ensures IsRun(longer, first) && longer.state == Apply(run.state, step)
  {
    longer := Then(run, Apply(run.state, step));
    assert Next(run.state, longer.state);
  }

  /** One worker's way from an unseen message to the read of the watermark. */
  lemma FillUpToMarkRead(run: Run, first: int, w: nat, b: int) returns (longer: Run)
    requires IsRun(run, first) && w in run.state.workers && run.state.workers[w] == Got(b)
    requires b !in run.state.store.stored
    ensures IsRun(longer, first) && longer.state.faults == run.state.faults
    ensures longer.state.store.mark == run.state.store.mark
    ensures longer.state.store.stored == run.state.store.stored[b := false]
    ensures longer.state.workers == run.state.workers[w := MarkRead(b, run.state.store.mark)]
  {
    longer := Extend(run, first, Work(w, Proceed(false)));
    longer := Extend(longer, first, Work(w, Proceed(false)));
    longer := Extend(longer, first, Work(w, Proceed(false)));
    longer := Extend(longer, first, Work(w, Proceed(false)));
    longer := Extend(longer, first, Work(w, Proceed(false)));
  }

  /** Any two workers can move it back: GET and SET are not one step. */
  lemma TwoWorkersMoveMarkBack(ws: set<nat>, v: nat, w: nat, first: int, faults: set<Fault>)
    returns (run: Run, s': State)
    requires v in ws && w in ws && v != w
    ensures IsRunOf(run, first, ws, faults) && Next(run.state, s')
    ensures s'.store.mark < run.state.store.mark
  {
    run := BothHaveRead(ws, v, w, first, faults);
    run := Extend(run, first, Work(w, Proceed(false)));
    s' := Apply(run.state, Work(v, Proceed(false)));
    assert Enabled(run.state, Work(v, Proceed(false)));
  }

  /** Two workers that have read the same watermark, one for a lower block than the other. */
  lemma BothHaveRead(ws: set<nat>, v: nat, w: nat, first: int, faults: set<Fault>) returns (run: Run)
    requires v in ws && w in ws && v != w
    ensures IsRunOf(run, first, ws, faults)
    ensures run.state.workers[v] == MarkRead(first + 1, first) && run.state.workers[w] == MarkRead(first + 2, first)
  {
    var workers := map u | u in ws :: if u == v then Got(first + 1) else if u == w then Got(first + 2) else Idle;
    run := Start(State(FreshFeed({}), Store(multiset{}, map[], {}, 0, first), workers, faults));
    run := FillUpToMarkRead(run, first, v, first + 1);
    run := FillUpToMarkRead(run, first, w, first + 2);
  }

  /** One action of the publisher that leaves the store alone. */
  lemma ExtendFeed(run: Run, first: int, f: Feed) returns (longer: Run)
    requires IsRun(run, first) && Enabled(run.state, Publish) && !run.state.feed.pc.Queueing?
    requires f == PublisherAfter(run.state.feed, run.state.store.mark)
    ensures IsRun(longer, first) && longer.state == run.state.(feed := f)
  {
    longer := Extend(run, first, Publish);
    assert run.state.store.queue + multiset{} == run.state.store.queue;
  }

  lemma ExtendKey(run: Run, first: int, i: int) returns (longer: Run)
    requires IsRun(run, first) && run.state.feed.pc == Marking(i)
    ensures IsRun(longer, first)
    ensures var f := run.state.feed;
            longer.state == run.state.(feed := f.(pc := Queueing(i), keys := f.keys + {i}))
  {
    longer := ExtendFeed(run, first, PublisherAfter(run.state.feed, run.state.store.mark));
  }

  lemma ExtendQueue(run: Run, first: int, i: int) returns (longer: Run)
    requires IsRun(run, first) && run.state.feed.pc == Queueing(i)
    ensures IsRun(longer, first)
    ensures var s := run.state;
            longer.state == State(
              s.feed.(pc := Published(i)), s.store.(queue := s.store.queue + multiset{i}), s.workers, s.faults)
  {
    longer := Extend(run, first, Publish);
  }

  lemma LogStep(f: Feed, mark: int, i: int)
    requires f.pc == Published(i)
    ensures PublisherAfter(f, mark) == f.(pc := Scanning(i + 1), lastBlock := i, log := Logged(f, i))
  {
  }

  lemma ExtendLog(run: Run, first: int, i: int) returns (longer: Run)
    requires IsRun(run, first) && run.state.feed.pc == Published(i)
    ensures IsRun(longer, first)
    ensures var f := run.state.feed;
            longer.state == run.state.(feed := f.(pc := Scanning(i + 1), lastBlock := i, log := Logged(f, i)))
  {
    var f := run.state.feed;
    LogStep(f, run.state.store.mark, i);
    longer := ExtendFeed(run, first, f.(pc := Scanning(i + 1), lastBlock := i, log := Logged(f, i)));
  }

  /** A head comes in and is signalled. */
  lemma Receive(run: Run, first: int, n: int) returns (longer: Run)
    requires IsRun(run, first) && !run.state.feed.sending && !run.state.feed.signal
    ensures IsRun(longer, first)
    ensures var f := run.state.feed;
            longer.state == run.state.(feed := f.(finalized := n, signal := true, heads := f.heads + [n]))
  {
    longer := Extend(run, first, ParserSets(n));
    longer := Extend(longer, first, ParserSends);
  }

  /** From a received head to the first loop test. */
  lemma Wake(run: Run, first: int) returns (longer: Run)
    requires IsRun(run, first) && run.state.feed.pc.Waiting? && run.state.feed.signal && run.state.feed.finalized != 0
    ensures IsRun(longer, first)
    ensures var f, mark := run.state.feed, run.state.store.mark;
            longer.state == run.state.(feed :=
              if f.lastBlock > 0 then f.(signal := false, pc := Scanning(f.lastBlock + 1))
              else f.(signal := false, pc := Scanning(mark), start := Some(mark)))
  {
    longer := ExtendFeed(run, first, run.state.feed.(signal := false, pc := Woken));
    longer := ExtendFeed(longer, first, longer.state.feed.(pc := ReadingMark));
    longer := ExtendFeed(longer, first, PublisherAfter(longer.state.feed, longer.state.store.mark));
  }

  /** A loop test that lets its block through. */
  lemma Pass(run: Run, first: int, i: int) returns (longer: Run)
    requires IsRun(run, first) && run.state.feed.pc == Scanning(i) && i <= run.state.feed.finalized - 2
    ensures IsRun(longer, first)
    ensures var f := run.state.feed;
            longer.state == run.state.(feed := f.(pc := Limiting(i), checked := f.finalized))
  {
    longer := ExtendFeed(run, first, PublisherAfter(run.state.feed, run.state.store.mark));
  }

  /** From a passed loop test to the block in the queue, past a limiter that does not know it. */
  lemma PublishChecked(run: Run, first: int, i: int) returns (longer: Run)
    requires IsRun(run, first) && run.state.feed.pc == Limiting(i) && i !in run.state.feed.keys
    ensures IsRun(longer, first)
    ensures var s := run.state;
            longer.state == State(
              s.feed.(pc := Scanning(i + 1), lastBlock := i, keys := s.feed.keys + {i}, log := Logged(s.feed, i)),
              s.store.(queue := s.store.queue + multiset{i}), s.workers, s.faults)
  {
    longer := ExtendFeed(run, first, run.state.feed.(pc := Marking(i)));
    longer := ExtendKey(longer, first, i);
    longer := ExtendQueue(longer, first, i);
    longer := ExtendLog(longer, first, i);
  }

  /** From a new subscription to the first block in the queue. */
  lemma PublishFirst(run: Run, first: int, height: int) returns (longer: Run)
    requires IsRun(run, first) && height != 0 && first <= height - 2
    requires run.state.feed == FreshFeed({}) && run.state.store.mark == first
    ensures IsRun(longer, first)
    ensures longer.state == State(
              Feed(height, false, false, first, Scanning(first + 1), height, {first}, [(first, height)], [height],
                   Some(first)),
              run.state.store.(queue := run.state.store.queue + multiset{first}), run.state.workers, run.state.faults)
  {
    longer := Receive(run, first, height);
    longer := Wake(longer, first);
    longer := Pass(longer, first, first);
    longer := PublishChecked(longer, first, first);
  }

  /**
   A commit error that is only printed loses a block, wherever the session starts: queue and workers are
   empty, both watermarks name the block, and it is not stored.
   */
  lemma LostCommitLeavesHole(first: int, faults: set<Fault>) returns (run: Run)
    requires first > 0 && LostCommit in faults
    ensures IsRun(run, first) && run.state.faults == faults && Quiet(run.state)
    ensures run.state.feed.log == [(first, first + 2)] && run.state.store.best == run.state.store.mark == first
    ensures first !in run.state.store.stored
  {
    run := PublishedToOne(first, faults);
    run := LoseOne(run, first, 0, first);
  }

  /** One idle worker, and the first block in its queue. */
  lemma PublishedToOne(first: int, faults: set<Fault>) returns (run: Run)
    requires first > 0
    ensures IsRun(run, first) && run.state.faults == faults && run.state.feed.log == [(first, first + 2)]
    ensures run.state.workers == map[0 := Idle] && run.state.store == Store(multiset{first}, map[], {}, 0, first)
  {
    run := Start(State(FreshFeed({}), Store(multiset{}, map[], {}, 0, first), map[0 := Idle], faults));
    run := PublishFirst(run, first, first + 2);
    assert multiset{} + multiset{first} == multiset{first};
  }

  /** So does a fill that panics: its message is not put back. */
  lemma PanicLeavesHole(first: int, faults: set<Fault>) returns (run: Run)
    requires first > 0 && PanickedFill in faults
    ensures IsRun(run, first) && run.state.faults == faults && Quiet(run.state)
    ensures run.state.feed.log == [(first, first + 2)] && first !in run.state.store.stored
  {
    run := PublishedToOne(first, faults);
    run := TakeOne(run, first, 0, first);
    run := Extend(run, first, Work(0, Panic));
  }

  /** A worker takes a message and starts to fill. */
  lemma TakeOne(run: Run, first: int, w: nat, b: int) returns (longer: Run)
    requires IsRun(run, first) && run.state.workers == map[w := Idle]
    requires run.state.store == Store(multiset{b}, map[], {}, 0, first)
    ensures IsRun(longer, first)
    ensures longer.state == State(
              run.state.feed, Store(multiset{}, map[], {}, 0, first), map[w := Filling(b)], run.state.faults)
  {
    longer := Extend(run, first, Work(w, Take(b)));
    longer := Extend(longer, first, Work(w, Proceed(false)));
    assert longer.state.store == Store(multiset{}, map[], {}, 0, first);
  }

  /** A worker takes a message and loses its commit. */
  lemma LoseCommit(run: Run, first: int, w: nat, b: int) returns (longer: Run)
    requires IsRun(run, first) && run.state.workers == map[w := Idle]
    requires run.state.store == Store(multiset{b}, map[], {}, 0, first) && LostCommit in run.state.faults
    ensures IsRun(longer, first)
    ensures longer.state == State(
              run.state.feed, Store(multiset{}, map[], {b}, 0, first), map[w := Committed(b)], run.state.faults)
  {
    longer := TakeOne(run, first, w, b);
    longer := Extend(longer, first, Work(w, Lose));
  }

  /** It moves on to the watermarks as if nothing had happened. */
  lemma LoseOne(run: Run, first: int, w: nat, b: int) returns (longer: Run)
    requires IsRun(run, first) && run.state.workers == map[w := Idle]
    requires run.state.store == Store(multiset{b}, map[], {}, 0, first) && b > 0 && LostCommit in run.state.faults
    ensures IsRun(longer, first) && longer.state.feed == run.state.feed && longer.state.faults == run.state.faults
    ensures longer.state.workers == map[w := Idle]
    ensures longer.state.store == Store(multiset{}, map[], {b}, b, if b > first then b else first)
  {
    longer := LoseCommit(run, first, w, b);
    longer := Extend(longer, first, Work(w, Proceed(false)));
    longer := Extend(longer, first, Work(w, Proceed(false)));
    longer := Extend(longer, first, Work(w, Proceed(false)));
    longer := Extend(longer, first, Work(w, Proceed(false)));
  }

  /** A session that starts from watermark 0 can publish block 0 twice: lastBlock = 0 reads as "nothing published". */
  lemma ZeroWatermarkRepeats(faults: set<Fault>) returns (run: Run)
    ensures IsRun(run, 0) && run.state.faults == faults && run.state.feed.log == [(0, 2), (0, 2)]
  {
    run := Start(State(FreshFeed({}), Store(multiset{}, map[], {}, 0, 0), map[], faults));
    run := PublishFirst(run, 0, 2);
    run := Extend(run, 0, Publish);
    run := Receive(run, 0, 2);
    run := Wake(run, 0);
    run := Pass(run, 0, 0);
    run := PublishKnown(run, 0, 0);
  }

  /** A block whose key is live is taken for published. */
  lemma PublishKnown(run: Run, first: int, i: int) returns (longer: Run)
    requires IsRun(run, first) && run.state.feed.pc == Limiting(i) && i in run.state.feed.keys
    ensures IsRun(longer, first)
    ensures var f := run.state.feed;
            longer.state == run.state.(feed := f.(pc := Scanning(i + 1), lastBlock := i, log := Logged(f, i)))
  {
    longer := ExtendFeed(run, first, run.state.feed.(pc := Published(i)));
    longer := ExtendLog(longer, first, i);
  }

  // ---------- what can always still happen ----------

  /** One block, whether its key is live or not. */
  lemma PublishOne(run: Run, first: int, i: int) returns (longer: Run)
    requires IsRun(run, first) && run.state.feed.pc == Scanning(i) && i <= run.state.feed.finalized - 2
    ensures IsRun(longer, first) && longer.state.workers == run.state.workers && longer.state.faults == run.state.faults
    ensures var f, f' := run.state.feed, longer.state.feed;
            f' == f.(pc := Scanning(i + 1), lastBlock := i, checked := f.finalized, keys := f'.keys,
                     log := f.log + [(i, f.finalized)])
  {
    longer := Pass(run, first, i);
    if i in run.state.feed.keys {
      longer := PublishKnown(longer, first, i);
    } else {
      longer := PublishChecked(longer, first, i);
    }
  }

  /** The rest of the loop, if no other head comes in. */
  lemma {:induction false} PublishRest(run: Run, first: int, i: int) returns (longer: Run)
    requires IsRun(run, first) && run.state.feed.pc == Scanning(i)
    ensures IsRun(longer, first) && longer.state.workers == run.state.workers && longer.state.faults == run.state.faults
    ensures var f, f' := run.state.feed, longer.state.feed;
            && f'.pc.Waiting? && f'.signal == f.signal && f'.sending == f.sending && f'.heads == f.heads
            && f.log <= f'.log
            && if i <= f.finalized - 2
               then f'.lastBlock == f.finalized - 2 && |f'.log| == |f.log| + f.finalized - 1 - i
               else f'.lastBlock == f.lastBlock && f'.log == f.log
    decreases run.state.feed.finalized - i
  {
    if i <= run.state.feed.finalized - 2 {
      longer := PublishOne(run, first, i);
      longer := PublishRest(longer, first, i + 1);
    } else {
      longer := ExtendFeed(run, first, run.state.feed.(pc := Waiting));
    }
  }

  /**
   From every state in which the publisher rests, every height can be received next, and the log can then
   end two blocks below it: it gains the blocks from the next one to n - 2, and none if there are none.
   */
  lemma EveryHeadCanBePublished(run: Run, first: int, n: int) returns (longer: Run)
    requires first > 0 && IsRun(run, first) && n != 0
    requires run.state.feed.pc.Waiting? && !run.state.feed.signal && !run.state.feed.sending
    ensures IsRun(longer, first)
    ensures var f, f' := run.state.feed, longer.state.feed;
            var next := if f.log == [] then run.state.store.mark else f.log[|f.log| - 1].0 + 1;
            && f'.pc.Waiting? && !f'.signal && !f'.sending && f'.heads == f.heads + [n] && f.log <= f'.log
            && if next <= n - 2 then |f'.log| == |f.log| + n - 1 - next && f'.log[|f'.log| - 1].0 == n - 2
               else f'.log == f.log
  {
    RunInv(run, first);
    longer := Receive(run, first, n);
    longer := Wake(longer, first);
    longer := PublishRest(longer, first, longer.state.feed.pc.i);
    RunInv(longer, first);
  }

  /** A head of height 0 can stop the publisher, which never publishes again. */
  lemma ZeroHeadStops(run: Run, first: int) returns (longer: Run)
    requires IsRun(run, first)
    requires run.state.feed.pc.Waiting? && !run.state.feed.signal && !run.state.feed.sending
    ensures IsRun(longer, first) && longer.state.feed.log == run.state.feed.log
    ensures longer.state.feed.pc.Stopped?
    ensures forall s: State, step :: s.feed.pc.Stopped? && Enabled(s, step) ==>
              Apply(s, step).feed.pc.Stopped? && Apply(s, step).feed.log == s.feed.log
  {
    longer := Receive(run, first, 0);
    longer := ExtendFeed(longer, first, longer.state.feed.(signal := false, pc := Woken));
    longer := ExtendFeed(longer, first, longer.state.feed.(pc := Stopped));
  }

  /** How many actions a worker is from idle at most. */
  function Rank(at: Worker): nat {
    match at
    case Idle => 0
    case Requeueing(_) => 1
    case MarkRead(_, _) => 1
    case BestDone(_) => 2
    case BestRead(_, _) => 3
    case Committed(_) => 4
    case Filling(_) => 5
    case Got(_) => 6
  }

  /** A worker finishes its job, and puts back only the message of a job that has failed. */
  lemma {:induction false} FinishJob(run: Run, first: int, w: nat) returns (longer: Run)
    requires IsRun(run, first) && w in run.state.workers
    ensures IsRun(longer, first) && longer.state.feed == run.state.feed && longer.state.faults == run.state.faults
    ensures longer.state.workers == run.state.workers[w := Idle]
    ensures longer.state.store.lost <= run.state.store.lost
    ensures var st, at := run.state.store, run.state.workers[w];
            longer.state.store.queue == if at.Requeueing? then st.queue + multiset{at.b} else st.queue
    decreases Rank(run.state.workers[w])
  {
    longer := run;
    if run.state.workers[w] != Idle {
      longer := Extend(run, first, Work(w, Proceed(false)));
      longer := FinishJob(longer, first, w);
    }
  }

  ghost function BusyWorkers(s: State): set<nat> {
    set w | w in s.workers && s.workers[w] != Idle
  }

  lemma {:induction false} FinishJobs(run: Run, first: int) returns (longer: Run)
    requires IsRun(run, first)
    ensures IsRun(longer, first) && longer.state.feed == run.state.feed && longer.state.faults == run.state.faults
    ensures longer.state.workers.Keys == run.state.workers.Keys && BusyWorkers(longer.state) == {}
    ensures longer.state.store.lost <= run.state.store.lost
    decreases BusyWorkers(run.state)
  {
    longer := run;
    if BusyWorkers(run.state) != {} {
      var w :| w in BusyWorkers(run.state);
      longer := FinishJob(run, first, w);
      assert BusyWorkers(longer.state) == BusyWorkers(run.state) - {w};
      longer := FinishJobs(longer, first);
    }
  }

  lemma NoMessageNoQueue(queue: multiset<int>)
    ensures (forall b :: b !in queue) ==> queue == multiset{}
  {
    if forall b :: b !in queue {
      assert forall b :: queue[b] == multiset{}[b];
    }
  }

  lemma {:induction false} EmptyQueue(run: Run, first: int, w: nat) returns (longer: Run)
    requires IsRun(run, first) && w in run.state.workers && BusyWorkers(run.state) == {}
    ensures IsRun(longer, first) && longer.state.feed == run.state.feed && longer.state.faults == run.state.faults
    ensures Quiet(longer.state) && longer.state.store.lost <= run.state.store.lost
    decreases |run.state.store.queue|
  {
    longer := run;
    assert forall v :: v in run.state.workers ==> v !in BusyWorkers(run.state);
    if run.state.store.queue != multiset{} {
      NoMessageNoQueue(run.state.store.queue);
      var b :| b in run.state.store.queue;
      longer := Extend(run, first, Work(w, Take(b)));
      longer := FinishJob(longer, first, w);
      assert longer.state.workers == run.state.workers;
      longer := EmptyQueue(longer, first, w);
    }
  }

  /**
   From every state with a worker, some run comes to a quiet state in which every published block is
   stored, except those that were lost before.
   */
  lemma EverythingCanBeStored(run: Run, first: int, w: nat) returns (longer: Run)
    requires first > 0 && IsRun(run, first) && w in run.state.workers
    ensures IsRun(longer, first) && longer.state.feed == run.state.feed && Quiet(longer.state)
    ensures forall k :: 0 <= k < |run.state.feed.log| ==>
            run.state.feed.log[k].0 in longer.state.store.stored || run.state.feed.log[k].0 in run.state.store.lost
  {
    longer := FinishJobs(run, first);
    longer := EmptyQueue(longer, first, w);
    RunInv(longer, first);
    forall k | 0 <= k < |run.state.feed.log|
      ensures run.state.feed.log[k].0 in longer.state.store.stored || run.state.feed.log[k].0 in run.state.store.lost
    {
      assert Tracked(longer.state, run.state.feed.log[k].0);
    }
  }

  /**
   A stored block is filled again exactly if its row carries a codec error, and that never goes away: no
   action of a worker changes a stored row.
   */
  lemma RefilledIff(st: Store, b: int)
    requires b in st.stored
    ensures WorkerAfter(st, Got(b), Proceed(false)).Filling? <==> st.stored[b]
    ensures forall at, act :: b in StoreAfter(st, at, act).stored && StoreAfter(st, at, act).stored[b] == st.stored[b]
  {
  }

  /** The codec error is that of the first fill that was committed. */
  lemma FirstFillDecides(st: Store, b: int, codecError: bool)
    requires b !in st.stored
    ensures StoreAfter(st, Filling(b), Proceed(codecError)).stored == st.stored[b := codecError]
    ensures WorkerAfter(st, Got(b), Proceed(codecError)).Filling?
  {
  }
}
