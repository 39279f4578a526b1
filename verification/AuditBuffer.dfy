/** The audit service's batch buffer: any number of writers, one flush worker and one closer,
    interleaved at the granularity of lock, unlock, append, send, receive, swap and write.

    `size` is the configured Buffer.Size, any integer. Channel `flushChan` holds at most one
    token; `closeChan` is closed or not. `appended` and `returned` record history,
    and `promised` how much of it was under way when Close was called. */
module AuditBuffer {

  /** Identity of an audit entry. */
  type Entry = int

  datatype Owner = Free | HeldByWriter(w: nat) | HeldByWorker

  /** Program points of writeEntry; `at` is the position of its entry in the history. */
  datatype WriterPc =
    | Idle
    | Locked(entry: Entry)
    | Appended(at: nat, shouldFlush: bool)
    | Unlocked(at: nat, shouldFlush: bool)

  /** Program points of flushWorker and flush; `last` is set on the path of closeChan. */
  datatype WorkerPc =
    | Select
    | WantLock(last: bool)
    | InFlush(last: bool)
    | Swapped(last: bool)
    | Writing(last: bool)
    | Exited

  datatype CloserPc = Running | Waiting | Waited | StorageClosed

  datatype State = State(
    buffer: seq<Entry>,
    mutex: Owner,
    token: bool,
    writers: map<nat, WriterPc>,
    worker: WorkerPc,
    held: seq<Entry>,
    closer: CloserPc,
    batches: seq<seq<Entry>>,
    appended: seq<Entry>,
    returned: set<nat>,
    promised: nat)

  datatype Label =
    | WriterLock(w: nat, entry: Entry) | WriterAppend(w: nat) | WriterUnlock(w: nat) | WriterFinish(w: nat)
    | Tick | ReceiveToken | ReceiveClose | WorkerLock | EmptyReturn | Swap | WorkerUnlock | WriteBatch
    | CloseChan | WaitDone | CloseStorage

  const Init := State([], Free, false, map[], Select, [], Running, [], [], {}, 0)

  function Pc(s: State, w: nat): WriterPc {
    if w in s.writers then s.writers[w] else Idle
  }

  predicate IsClosed(s: State) { !s.closer.Running? }

  /** Entries appended, and the one whose writer holds the lock but has yet to append it. */
  function UnderWay(s: State): nat {
    |s.appended| + if s.mutex.HeldByWriter? && Pc(s, s.mutex.w).Locked? then 1 else 0
  }

  function AfterFlush(last: bool): WorkerPc { if last then Exited else Select }

  predicate Enabled(s: State, l: Label) {
    match l
    case WriterLock(w, _) => Pc(s, w).Idle? && s.mutex.Free?
    case WriterAppend(w) => Pc(s, w).Locked?
    case WriterUnlock(w) => Pc(s, w).Appended?
    case WriterFinish(w) => Pc(s, w).Unlocked?
    case Tick => s.worker.Select?
    case ReceiveToken => s.worker.Select? && s.token
    case ReceiveClose => s.worker.Select? && IsClosed(s)
    case WorkerLock => s.worker.WantLock? && s.mutex.Free?
    case EmptyReturn => s.worker.InFlush? && s.buffer == []
    case Swap => s.worker.InFlush? && s.buffer != []
    case WorkerUnlock => s.worker.Swapped?
    case WriteBatch => s.worker.Writing?
    case CloseChan => s.closer.Running?
    case WaitDone => s.closer.Waiting? && s.worker.Exited?
    case CloseStorage => s.closer.Waited?
  }

  /** The state after an enabled step. WriterFinish is the non-blocking send, if any, and the
      return of writeEntry; WriteBatch hands the batch over whether or not storage fails. */
  function Apply(size: int, s: State, l: Label): State
    requires Enabled(s, l)
  {
    match l
    case WriterLock(w, entry) => s.(mutex := HeldByWriter(w), writers := s.writers[w := Locked(entry)])
    case WriterAppend(w) =>
      var buffer := s.buffer + [Pc(s, w).entry];
      s.(buffer := buffer, appended := s.appended + [Pc(s, w).entry],
         writers := s.writers[w := Appended(|s.appended|, |buffer| >= size)])
    case WriterUnlock(w) =>
      s.(mutex := Free, writers := s.writers[w := Unlocked(Pc(s, w).at, Pc(s, w).shouldFlush)])
    case WriterFinish(w) =>
      s.(token := s.token || Pc(s, w).shouldFlush, returned := s.returned + {Pc(s, w).at},
         writers := s.writers[w := Idle])
    case Tick => s.(worker := WantLock(false))
    case ReceiveToken => s.(worker := WantLock(false), token := false)
    case ReceiveClose => s.(worker := WantLock(true))
    case WorkerLock => s.(worker := InFlush(s.worker.last), mutex := HeldByWorker)
    case EmptyReturn => s.(worker := AfterFlush(s.worker.last), mutex := Free)
    case Swap => s.(worker := Swapped(s.worker.last), held := s.buffer, buffer := [])
    case WorkerUnlock => s.(worker := Writing(s.worker.last), mutex := Free)
    case WriteBatch =>
      s.(worker := AfterFlush(s.worker.last), batches := s.batches + [s.held], held := [])
    case CloseChan => s.(closer := Waiting, promised := UnderWay(s))
    case WaitDone => s.(closer := Waited)
    case CloseStorage => s.(closer := StorageClosed)
  }

  // ---------------------------------------------------------------- runs

  /** Every label of `ls` is enabled in turn. */
  ghost predicate IsRun(size: int, s: State, ls: seq<Label>)
    decreases |ls|
  {
    ls == [] || (Enabled(s, ls[0]) && IsRun(size, Apply(size, s, ls[0]), ls[1..]))
  }

  ghost function Final(size: int, s: State, ls: seq<Label>): State
    requires IsRun(size, s, ls)
    decreases |ls|
  {
    if ls == [] then s else Final(size, Apply(size, s, ls[0]), ls[1..])
  }

  // ---------------------------------------------------------------- invariant

  ghost function Flatten(bs: seq<seq<Entry>>): seq<Entry> {
    if bs == [] then [] else Flatten(bs[..|bs| - 1]) + bs[|bs| - 1]
  }

  lemma FlattenSnoc(bs: seq<seq<Entry>>, b: seq<Entry>)
    ensures Flatten(bs + [b]) == Flatten(bs) + b
  {
    assert (bs + [b])[..|bs|] == bs;
  }

  /** Everything appended has been handed to storage, is held by the worker, or is buffered,
      in that order. */
  ghost predicate Conserved(s: State) {
    s.appended == Flatten(s.batches) + s.held + s.buffer
  }

  ghost predicate MutualExclusion(s: State) {
    && (forall w: nat :: s.mutex == HeldByWriter(w) <==> Pc(s, w).Locked? || Pc(s, w).Appended?)
    && (s.mutex == HeldByWorker <==> s.worker.InFlush? || s.worker.Swapped?)
  }

  predicate Full(size: int, s: State) { s.buffer != [] && |s.buffer| >= size }

  /** A writer has seen a full buffer and has not sent yet. */
  predicate Pending(s: State, w: nat) {
    (Pc(s, w).Appended? || Pc(s, w).Unlocked?) && Pc(s, w).shouldFlush
  }

  predicate BeforeSwap(s: State) { s.worker.WantLock? || s.worker.InFlush? }

  /** No wake-up is lost: a full buffer is announced by a token, about to be announced by a
      writer, or about to be swapped. */
  ghost predicate WakeUp(size: int, s: State) {
    Full(size, s) ==> s.token || BeforeSwap(s) || exists w: nat :: Pending(s, w)
  }

  /** The worker is past the only swap it makes on the way out. */
  predicate LastSwapDone(s: State) {
    s.worker.Exited? || ((s.worker.Swapped? || s.worker.Writing?) && s.worker.last)
  }

  ghost predicate Shutdown(s: State) {
    && (s.worker.Exited? || (!s.worker.Select? && s.worker.last) ==> IsClosed(s))
    && (s.closer.Waited? || s.closer.StorageClosed? ==> s.worker.Exited?)
    && (s.held != [] <==> s.worker.Swapped? || s.worker.Writing?)
  }

  /** Histories: every call that passed its append has its own position. */
  ghost predicate CallPositions(s: State) {
    && (forall w: nat :: Pc(s, w).Appended? || Pc(s, w).Unlocked? ==> Pc(s, w).at < |s.appended|)
    && (forall i | i in s.returned :: i < |s.appended|)
  }

  /** What was under way at Close still is, or is appended; after the final swap all of it is
      handed over or held. */
  ghost predicate Promise(s: State) {
    && s.promised <= UnderWay(s)
    && (LastSwapDone(s) ==> s.promised <= |Flatten(s.batches)| + |s.held|)
  }

  ghost predicate Inv(size: int, s: State) {
    Conserved(s) && MutualExclusion(s) && WakeUp(size, s) && Shutdown(s) && CallPositions(s) && Promise(s)
  }

  lemma InitInv(size: int)
    ensures Inv(size, Init)
  {}

  lemma KeepsConserved(size: int, s: State, l: Label)
    requires Conserved(s) && Shutdown(s) && Enabled(s, l)
    ensures Conserved(Apply(size, s, l))
  {
    var s' := Apply(size, s, l);
    match l {
      case WriterAppend(w) =>
        assert s.appended + [Pc(s, w).entry] == Flatten(s.batches) + s.held + (s.buffer + [Pc(s, w).entry]);
      case Swap =>
        assert s.held == [] && s'.held + s'.buffer == s.buffer;
        assert Flatten(s.batches) + [] + s.buffer == Flatten(s.batches) + s.buffer + [];
      case WriteBatch =>
        FlattenSnoc(s.batches, s.held);
        assert Flatten(s'.batches) + [] == Flatten(s.batches) + s.held;
      case _ =>
    }
  }

  lemma KeepsMutualExclusion(size: int, s: State, l: Label)
    requires MutualExclusion(s) && Enabled(s, l)
    ensures MutualExclusion(Apply(size, s, l))
  {
    var s' := Apply(size, s, l);
    forall w: nat ensures s'.mutex == HeldByWriter(w) <==> Pc(s', w).Locked? || Pc(s', w).Appended? {
      assert s.mutex == HeldByWriter(w) <==> Pc(s, w).Locked? || Pc(s, w).Appended?;
    }
  }

  lemma KeepsWakeUp(size: int, s: State, l: Label)
    requires MutualExclusion(s) && WakeUp(size, s) && Enabled(s, l)
    ensures WakeUp(size, Apply(size, s, l))
  {
    var s' := Apply(size, s, l);
    if Full(size, s') {
      if l.WriterAppend? {
        assert Pending(s', l.w);
      } else if Full(size, s) && !s.token && !BeforeSwap(s) {
        var w: nat :| Pending(s, w);
        assert Pending(s', w) || s'.token;
      }
    }
  }

  lemma KeepsShutdown(size: int, s: State, l: Label)
    requires Shutdown(s) && Enabled(s, l)
    ensures Shutdown(Apply(size, s, l))
  {}

  lemma KeepsCallPositions(size: int, s: State, l: Label)
    requires CallPositions(s) && Enabled(s, l)
    ensures CallPositions(Apply(size, s, l))
  {
    var s' := Apply(size, s, l);
    forall w: nat | Pc(s', w).Appended? || Pc(s', w).Unlocked? ensures Pc(s', w).at < |s'.appended| {
      assert Pc(s, w).Appended? || Pc(s, w).Unlocked? ==> Pc(s, w).at < |s.appended|;
    }
  }

  lemma UnderWayGrows(size: int, s: State, l: Label)
    requires MutualExclusion(s) && Enabled(s, l)
    ensures UnderWay(s) <= UnderWay(Apply(size, s, l))
  {
    if l.WriterAppend? || l.WriterUnlock? {
      assert s.mutex == HeldByWriter(l.w);
    }
  }

  lemma KeepsPromise(size: int, s: State, l: Label)
    requires Conserved(s) && MutualExclusion(s) && Shutdown(s) && Promise(s) && Enabled(s, l)
    ensures Promise(Apply(size, s, l))
  {
    hide Flatten;
    UnderWayGrows(size, s, l);
    if l.WriteBatch? {
      FlattenSnoc(s.batches, s.held);
    }
  }

  lemma KeepsInv(size: int, s: State, l: Label)
    requires Inv(size, s) && Enabled(s, l)
    ensures Inv(size, Apply(size, s, l))
  {
    hide Apply, Conserved, MutualExclusion, WakeUp, Shutdown, CallPositions, Promise;
    KeepsConserved(size, s, l);
    KeepsMutualExclusion(size, s, l);
    KeepsWakeUp(size, s, l);
    KeepsShutdown(size, s, l);
    KeepsCallPositions(size, s, l);
    KeepsPromise(size, s, l);
  }

  lemma {:induction false} RunKeepsInv(size: int, s: State, ls: seq<Label>)
    requires Inv(size, s) && IsRun(size, s, ls)
    ensures Inv(size, Final(size, s, ls))
    decreases |ls|
  {
    hide Inv;
    if ls != [] {
      KeepsInv(size, s, ls[0]);
      RunKeepsInv(size, Apply(size, s, ls[0]), ls[1..]);
    }
  }

  // ---------------------------------------------------------------- conservation

  /** One step hands over nothing or exactly the batch the worker holds. */
  lemma StepExtends(size: int, s: State, l: Label)
    requires Inv(size, s) && Enabled(s, l)
    ensures var s' := Apply(size, s, l);
      && s.appended <= s'.appended && Flatten(s.batches) <= Flatten(s'.batches)
      && (s'.batches == s.batches || Flatten(s'.batches) == Flatten(s.batches) + s.held)
  {
    if l.WriteBatch? {
      FlattenSnoc(s.batches, s.held);
    }
  }

  /** In every run, what was appended is exactly what was handed to storage, then what the
      worker holds, then the buffer; nothing handed over is ever taken back or reordered. */
  lemma {:induction false} ConservationAndOrder(size: int, s: State, ls: seq<Label>)
    requires Inv(size, s) && IsRun(size, s, ls)
    ensures var s' := Final(size, s, ls);
      && s'.appended == Flatten(s'.batches) + s'.held + s'.buffer
      && s.appended <= s'.appended && Flatten(s.batches) <= Flatten(s'.batches)
    decreases |ls|
  {
    hide Apply, Flatten, MutualExclusion, WakeUp, Shutdown, CallPositions, Promise;
    if ls != [] {
      StepExtends(size, s, ls[0]);
      KeepsInv(size, s, ls[0]);
      ConservationAndOrder(size, Apply(size, s, ls[0]), ls[1..]);
    }
  }

  // ---------------------------------------------------------------- no lost wake-up

  /** No writer holds the lock or is about to send; other writers may be anywhere else. */
  ghost predicate Quiet(s: State) {
    !s.mutex.HeldByWriter? && forall w: nat :: !Pending(s, w)
  }

  predicate IsWorkerLabel(l: Label) {
    l.Tick? || l.ReceiveToken? || l.ReceiveClose? || l.WorkerLock? || l.EmptyReturn? || l.Swap?
    || l.WorkerUnlock? || l.WriteBatch?
  }

  /** Steps left before the worker swaps. */
  function Rank(s: State): nat {
    match s.worker
    case Swapped(_) => 5
    case Writing(_) => 4
    case Select => 3
    case WantLock(_) => 2
    case InFlush(_) => 1
    case Exited => 0
  }

  /** The step the worker can take without waiting for the ticker. */
  function WorkerStep(s: State): Label {
    match s.worker
    case Swapped(_) => WorkerUnlock
    case Writing(_) => WriteBatch
    case Select => ReceiveToken
    case WantLock(_) => WorkerLock
    case InFlush(_) => Swap
    case Exited => Tick
  }

  /** With something buffered and the final swap not yet made, a step of the worker takes out
      the whole buffer or brings the swap nearer; no other step puts it off or takes anything
      out of the buffer. */
  lemma WorkerProgress(size: int, s: State, l: Label)
    requires Inv(size, s) && s.buffer != [] && !LastSwapDone(s) && Enabled(s, l)
    ensures var s' := Apply(size, s, l);
      && (l == Swap ==> s'.buffer == [] && s'.held == s.buffer)
      && (l != Swap ==> s.buffer <= s'.buffer && !LastSwapDone(s'))
      && (l != Swap && IsWorkerLabel(l) ==> Rank(s') < Rank(s))
      && (!IsWorkerLabel(l) ==> Rank(s') == Rank(s))
  {}

  /** Number of steps of the worker in a run. */
  function WorkerSteps(ls: seq<Label>): nat {
    if ls == [] then 0 else (if IsWorkerLabel(ls[0]) then 1 else 0) + WorkerSteps(ls[1..])
  }

  /** Whatever the writers and Close do in between, the worker has swapped by its Rank-th step,
      and the first swap takes out everything buffered now. */
  lemma {:induction false} SwapIsInevitable(size: int, s: State, ls: seq<Label>) returns (i: nat)
    requires Inv(size, s) && s.buffer != [] && !LastSwapDone(s)
    requires IsRun(size, s, ls) && WorkerSteps(ls) >= Rank(s)
    ensures i < |ls| && ls[i] == Swap && WorkerSteps(ls[..i]) < Rank(s)
    ensures IsRun(size, s, ls[..i]) && s.buffer <= Final(size, s, ls[..i]).buffer
    decreases |ls|
  {
    hide Apply, Enabled, Conserved, MutualExclusion, WakeUp, Shutdown, CallPositions, Promise, IsWorkerLabel;
    WorkerProgress(size, s, ls[0]);
    if ls[0] == Swap {
      i := 0;
    } else {
      KeepsInv(size, s, ls[0]);
      var s' := Apply(size, s, ls[0]);
      var j := SwapIsInevitable(size, s', ls[1..]);
      i := j + 1;
      assert ls[..i][1..] == ls[1..][..j];
      assert s.buffer <= s'.buffer <= Final(size, s', ls[1..][..j]).buffer;
    }
  }

  lemma WorkerKeepsQuiet(size: int, s: State, l: Label)
    requires Quiet(s) && Enabled(s, l) && IsWorkerLabel(l)
    ensures Quiet(Apply(size, s, l)) && (l != Swap ==> Apply(size, s, l).buffer == s.buffer)
  {
    var s' := Apply(size, s, l);
    forall w: nat ensures !Pending(s', w) {
      assert !Pending(s, w);
    }
  }

  /** With a full buffer that nobody is about to announce, the worker need not wait for the
      ticker. */
  lemma WorkerCanMove(size: int, s: State)
    requires Inv(size, s) && Full(size, s) && Quiet(s) && !LastSwapDone(s)
    ensures Enabled(s, WorkerStep(s)) && WorkerStep(s) != Tick
  {
    assert !exists w: nat :: Pending(s, w);
  }

  /** Then a few steps of the worker alone, none of them a tick, hand everything to storage. */
  lemma {:induction false} Drains(size: int, s: State) returns (ls: seq<Label>)
    requires Inv(size, s) && Full(size, s) && Quiet(s) && !LastSwapDone(s)
    ensures IsRun(size, s, ls) && |ls| <= Rank(s) + 2
    ensures forall l | l in ls :: IsWorkerLabel(l) && l != Tick
    ensures Final(size, s, ls).buffer == [] && Flatten(Final(size, s, ls).batches) == s.appended
    decreases Rank(s)
  {
    hide Conserved, MutualExclusion, WakeUp, Shutdown, CallPositions, Promise;
    WorkerCanMove(size, s);
    var l := WorkerStep(s);
    var s' := Apply(size, s, l);
    KeepsInv(size, s, l);
    WorkerProgress(size, s, l);
    WorkerKeepsQuiet(size, s, l);
    if l == Swap {
      ls := [Swap, WorkerUnlock, WriteBatch];
      FinishFlush(size, s);
    } else {
      var rest := Drains(size, s');
      ls := [l] + rest;
      assert ls[1..] == rest;
      assert s'.appended == s.appended;
    }
  }

  lemma FinishFlush(size: int, s: State)
    requires Inv(size, s) && Enabled(s, Swap)
    ensures var ls := [Swap, WorkerUnlock, WriteBatch];
      && IsRun(size, s, ls)
      && Final(size, s, ls).buffer == [] && Flatten(Final(size, s, ls).batches) == s.appended
  {
    var ls := [Swap, WorkerUnlock, WriteBatch];
    assert ls[1..] == [WorkerUnlock, WriteBatch] && ls[1..][1..] == [WriteBatch] && ls[1..][1..][1..] == [];
    var s1 := Apply(size, s, Swap);
    var s2 := Apply(size, s1, WorkerUnlock);
    var s3 := Apply(size, s2, WriteBatch);
    assert IsRun(size, s2, [WriteBatch]) && Final(size, s2, [WriteBatch]) == s3;
    assert IsRun(size, s1, [WorkerUnlock, WriteBatch]) && Final(size, s1, [WorkerUnlock, WriteBatch]) == s3;
    FlattenSnoc(s2.batches, s2.held);
    assert s.held == [];
    assert Flatten(s.batches) + [] + s.buffer == Flatten(s.batches) + s.buffer;
  }

  // ---------------------------------------------------------------- no spurious wake-up

  /** Writers that owe a token. */
  ghost function Owing(s: State): set<nat> {
    set w | w in s.writers && Pending(s, w)
  }

  function One(b: bool): nat { if b then 1 else 0 }

  /** Appends of a run after which the buffer had reached its size. */
  ghost function FillingAppends(size: int, s: State, ls: seq<Label>): nat
    requires IsRun(size, s, ls)
    decreases |ls|
  {
    if ls == [] then 0
    else One(ls[0].WriterAppend? && |s.buffer| + 1 >= size) + FillingAppends(size, Apply(size, s, ls[0]), ls[1..])
  }

  function TokensReceived(ls: seq<Label>): nat {
    if ls == [] then 0 else One(ls[0].ReceiveToken?) + TokensReceived(ls[1..])
  }

  lemma AppendTokens(size: int, s: State, w: nat)
    requires Enabled(s, WriterAppend(w))
    ensures var s' := Apply(size, s, WriterAppend(w));
      s'.token == s.token && |Owing(s')| <= One(|s.buffer| + 1 >= size) + |Owing(s)|
  {
    var s' := Apply(size, s, WriterAppend(w));
    forall v | v in Owing(s') && v != w ensures v in Owing(s) {
      assert Pc(s', v) == Pc(s, v);
    }
    if |s.buffer| + 1 >= size {
      assert Owing(s') <= Owing(s) + {w};
      SubsetSize(Owing(s'), Owing(s) + {w});
    } else {
      assert !Pending(s', w);
      SubsetSize(Owing(s'), Owing(s));
    }
  }

  lemma FinishTokens(size: int, s: State, w: nat)
    requires Enabled(s, WriterFinish(w))
    ensures var s' := Apply(size, s, WriterFinish(w));
      One(s'.token) + |Owing(s')| <= One(s.token) + |Owing(s)|
  {
    var s' := Apply(size, s, WriterFinish(w));
    forall v | v in Owing(s') ensures v in Owing(s) - {w} {
      assert Pc(s', v) == Pc(s, v);
    }
    SubsetSize(Owing(s'), Owing(s) - {w});
    if Pc(s, w).shouldFlush {
      assert w in Owing(s);
    }
  }

  lemma OtherTokens(size: int, s: State, l: Label)
    requires Enabled(s, l) && !l.WriterAppend? && !l.WriterFinish?
    ensures var s' := Apply(size, s, l);
      One(l.ReceiveToken?) + One(s'.token) == One(s.token) && |Owing(s')| <= |Owing(s)|
  {
    var s' := Apply(size, s, l);
    forall v | v in Owing(s') ensures v in Owing(s) {
      assert Pending(s', v);
    }
    SubsetSize(Owing(s'), Owing(s));
  }

  /** Tokens in the channel or owed are used up one by one and come from filling appends only. */
  lemma StepTokens(size: int, s: State, l: Label)
    requires Enabled(s, l)
    ensures var s' := Apply(size, s, l);
      One(l.ReceiveToken?) + One(s'.token) + |Owing(s')|
        <= One(l.WriterAppend? && |s.buffer| + 1 >= size) + One(s.token) + |Owing(s)|
  {
    hide Apply, Enabled, Owing;
    if l.WriterAppend? {
      AppendTokens(size, s, l.w);
    } else if l.WriterFinish? {
      FinishTokens(size, s, l.w);
    } else {
      OtherTokens(size, s, l);
    }
  }

  lemma SubsetSize(a: set<nat>, b: set<nat>)
    requires a <= b
    ensures |a| <= |b|
  {
    assert b == a + (b - a);
  }

  /** No spurious wake-up: whatever the interleaving, the worker is woken by a token at most
      once for each append that filled the buffer, besides the tokens under way at the start. */
  lemma {:induction false} NoSpuriousWakeUp(size: int, s: State, ls: seq<Label>)
    requires IsRun(size, s, ls)
    ensures TokensReceived(ls) + One(Final(size, s, ls).token) + |Owing(Final(size, s, ls))|
      <= FillingAppends(size, s, ls) + One(s.token) + |Owing(s)|
    decreases |ls|
  {
    hide Apply, Enabled, Owing, One;
    if ls != [] {
      StepTokens(size, s, ls[0]);
      NoSpuriousWakeUp(size, Apply(size, s, ls[0]), ls[1..]);
    }
  }

  // ---------------------------------------------------------------- the ticker

  /** The ticker makes up for a buffer that is not full: from any state with something
      buffered, the lock not held by a writer and the final swap not made, a few steps of the
      worker alone, a tick among them at most, hand everything to storage. */
  lemma {:induction false} TickDrains(size: int, s: State) returns (ls: seq<Label>)
    requires Inv(size, s) && s.buffer != [] && !s.mutex.HeldByWriter? && !LastSwapDone(s)
    ensures IsRun(size, s, ls) && |ls| <= Rank(s) + 2
    ensures forall l | l in ls :: IsWorkerLabel(l) && l != ReceiveToken
    ensures Final(size, s, ls).buffer == [] && Flatten(Final(size, s, ls).batches) == s.appended
    decreases Rank(s)
  {
    hide Conserved, WakeUp, Shutdown, CallPositions, Promise;
    if s.worker.InFlush? {
      ls := [Swap, WorkerUnlock, WriteBatch];
      FinishFlush(size, s);
    } else {
      var l := if s.worker.Select? then Tick else WorkerStep(s);
      var s' := Apply(size, s, l);
      KeepsInv(size, s, l);
      WorkerProgress(size, s, l);
      var rest := TickDrains(size, s');
      ls := [l] + rest;
      assert ls[1..] == rest;
      assert s'.appended == s.appended;
    }
  }

  // ---------------------------------------------------------------- after the final swap

  lemma StepAfterLastSwap(size: int, s: State, l: Label)
    requires Shutdown(s) && LastSwapDone(s) && Enabled(s, l)
    ensures var s' := Apply(size, s, l);
      && LastSwapDone(s') && s.buffer <= s'.buffer
      && Flatten(s'.batches) + s'.held == Flatten(s.batches) + s.held
  {
    hide Flatten;
    if l.WriteBatch? {
      FlattenSnoc(s.batches, s.held);
      assert Flatten(s.batches) + s.held + [] == Flatten(s.batches) + s.held;
    }
  }

  /** Once the final swap is made the buffer is never handed over again: it only grows. */
  lemma {:induction false} NothingAfterLastSwap(size: int, s: State, ls: seq<Label>)
    requires Shutdown(s) && LastSwapDone(s) && IsRun(size, s, ls)
    ensures var s' := Final(size, s, ls);
      && LastSwapDone(s') && s.buffer <= s'.buffer
      && Flatten(s'.batches) + s'.held == Flatten(s.batches) + s.held
    decreases |ls|
  {
    hide Flatten, Apply, Shutdown, LastSwapDone;
    if ls != [] {
      KeepsShutdown(size, s, ls[0]);
      StepAfterLastSwap(size, s, ls[0]);
      NothingAfterLastSwap(size, Apply(size, s, ls[0]), ls[1..]);
    }
  }

  // ---------------------------------------------------------------- close

  /** Close drains: after a run `pre`, Close, and any run `post` that gets past wg.Wait, storage
      holds all that had been appended when Close was called, position by position, and then
      the entry of the call that held the lock. Calls that had returned are among those. */
  lemma CloseDrains(size: int, pre: seq<Label>, post: seq<Label>)
    requires IsRun(size, Init, pre) && Final(size, Init, pre).closer.Running?
    requires IsRun(size, Apply(size, Final(size, Init, pre), CloseChan), post)
    requires var c := Final(size, Apply(size, Final(size, Init, pre), CloseChan), post).closer;
      c.Waited? || c.StorageClosed?
    ensures var s0 := Final(size, Init, pre);
      var stored := Flatten(Final(size, Apply(size, s0, CloseChan), post).batches);
      && s0.appended <= stored
      && (forall i | i in s0.returned :: i < |s0.appended|)
      && (forall w: nat | Pc(s0, w).Locked? :: s0.appended + [Pc(s0, w).entry] <= stored)
  {
    hide Flatten, IsRun, Final, WakeUp;
    InitInv(size);
    RunKeepsInv(size, Init, pre);
    var s0 := Final(size, Init, pre);
    KeepsInv(size, s0, CloseChan);
    var s1 := Apply(size, s0, CloseChan);
    RunKeepsInv(size, s1, post);
    ConservationAndOrder(size, s1, post);
    PromisedStays(size, s1, post);
    var s := Final(size, s1, post);
    assert |Flatten(s.batches)| >= UnderWay(s0);
    forall w: nat | Pc(s0, w).Locked? ensures s0.appended + [Pc(s0, w).entry] <= Flatten(s.batches) {
      assert s0.mutex == HeldByWriter(w);
      LockedIsNext(size, s1, post, w);
    }
  }

  /** The entry of the call that holds the lock is the next one appended. */
  lemma {:induction false} LockedIsNext(size: int, s: State, ls: seq<Label>, w: nat)
    requires Inv(size, s) && IsRun(size, s, ls) && Pc(s, w).Locked?
    ensures var h := Final(size, s, ls).appended;
      h == s.appended || s.appended + [Pc(s, w).entry] <= h
    decreases |ls|
  {
    hide Flatten, WakeUp, CallPositions, Promise, Conserved;
    if ls != [] {
      assert s.mutex == HeldByWriter(w);
      KeepsInv(size, s, ls[0]);
      var s' := Apply(size, s, ls[0]);
      if ls[0] == WriterAppend(w) {
        ConservationAndOrder(size, s', ls[1..]);
      } else {
        OthersWait(size, s, ls[0], w);
        LockedIsNext(size, s', ls[1..], w);
      }
    }
  }

  lemma OthersWait(size: int, s: State, l: Label, w: nat)
    requires MutualExclusion(s) && Pc(s, w).Locked? && Enabled(s, l) && l != WriterAppend(w)
    ensures Pc(Apply(size, s, l), w) == Pc(s, w) && Apply(size, s, l).appended == s.appended
  {
    assert s.mutex == HeldByWriter(w);
    assert forall v: nat | v != w :: !Pc(s, v).Locked?;
  }

  lemma {:induction false} PromisedStays(size: int, s: State, ls: seq<Label>)
    requires IsRun(size, s, ls) && IsClosed(s)
    ensures Final(size, s, ls).promised == s.promised
    decreases |ls|
  {
    if ls != [] {
      PromisedStays(size, Apply(size, s, ls[0]), ls[1..]);
    }
  }

  /** What reaches storage is exactly what had been appended when the final flush took the
      lock, and nothing appended later. */
  lemma FinalFlushDecides(size: int, s: State, l: Label, post: seq<Label>)
    requires Inv(size, s) && s.worker == InFlush(true) && (l == Swap || l == EmptyReturn) && Enabled(s, l)
    requires IsRun(size, Apply(size, s, l), post) && Final(size, Apply(size, s, l), post).worker.Exited?
    ensures Flatten(Final(size, Apply(size, s, l), post).batches) == s.appended
  {
    hide Flatten, IsRun, Final, WakeUp, MutualExclusion, CallPositions, Promise;
    KeepsShutdown(size, s, l);
    var s1 := Apply(size, s, l);
    assert Flatten(s1.batches) + s1.held == s.appended by {
      assert s.held == [];
      assert Flatten(s.batches) + [] + s.buffer == Flatten(s.batches) + s.buffer;
    }
    NothingAfterLastSwap(size, s1, post);
    RunKeepsShutdown(size, s1, post);
    var s2 := Final(size, s1, post);
    assert Flatten(s2.batches) + [] == Flatten(s2.batches);
  }

  lemma {:induction false} RunKeepsShutdown(size: int, s: State, ls: seq<Label>)
    requires Shutdown(s) && IsRun(size, s, ls)
    ensures Shutdown(Final(size, s, ls))
    decreases |ls|
  {
    hide Shutdown;
    if ls != [] {
      KeepsShutdown(size, s, ls[0]);
      RunKeepsShutdown(size, Apply(size, s, ls[0]), ls[1..]);
    }
  }

  /** Steps left before the worker has exited, with the lock free. */
  function CloseRank(s: State): nat {
    (match s.worker
     case Select => 15
     case Exited => 0
     case WantLock(last) => if last then 12 else 27
     case InFlush(last) => if last then 9 else 24
     case Swapped(last) => if last then 6 else 21
     case Writing(last) => if last then 3 else 18)
    + if !s.mutex.HeldByWriter? then 0 else if Pc(s, s.mutex.w).Locked? then 2 else 1
  }

  /** The next step towards the end of Close: of the writer that holds the lock, or else of
      the worker. */
  function CloseStep(s: State): Label {
    match s.mutex
    case HeldByWriter(w) => if Pc(s, w).Locked? then WriterAppend(w) else WriterUnlock(w)
    case _ =>
      match s.worker
      case Select => ReceiveClose
      case Exited => Tick
      case WantLock(_) => WorkerLock
      case InFlush(_) => if s.buffer == [] then EmptyReturn else Swap
      case Swapped(_) => WorkerUnlock
      case Writing(_) => WriteBatch
  }

  lemma CloseProgress(size: int, s: State)
    requires MutualExclusion(s) && IsClosed(s)
    requires !s.worker.Exited? || s.mutex.HeldByWriter?
    ensures Enabled(s, CloseStep(s))
    ensures var s' := Apply(size, s, CloseStep(s));
      && CloseRank(s') < CloseRank(s) && s'.closer == s.closer && s.appended <= s'.appended
      && forall w: nat | Pc(s, w).Idle? :: Pc(s', w).Idle?
  {
    if s.mutex.HeldByWriter? {
      assert s.mutex == HeldByWriter(s.mutex.w);
    }
  }

  /** Close is never stuck: once it is called, the worker can always exit, with no new call of
      writeEntry and none of the calls before the lock having to move. */
  lemma {:induction false} CloseFinishes(size: int, s: State) returns (ls: seq<Label>)
    requires Inv(size, s) && IsClosed(s)
    ensures IsRun(size, s, ls)
    ensures var s' := Final(size, s, ls);
      && s'.worker.Exited? && s'.mutex.Free? && s'.closer == s.closer && Inv(size, s')
      && s.appended <= s'.appended && forall w: nat | Pc(s, w).Idle? :: Pc(s', w).Idle?
    decreases CloseRank(s)
  {
    hide Apply, Enabled, Conserved, WakeUp, Shutdown, CallPositions, Promise, CloseRank;
    if s.worker.Exited? && !s.mutex.HeldByWriter? {
      ls := [];
    } else {
      var l := CloseStep(s);
      CloseProgress(size, s);
      KeepsInv(size, s, l);
      var rest := CloseFinishes(size, Apply(size, s, l));
      ls := Prepend(size, s, l, rest);
    }
  }

  /** One call of writeEntry from start to return, with the lock free and the worker gone. */
  lemma LateCall(size: int, s: State, w: nat, entry: Entry) returns (ls: seq<Label>)
    requires s.worker.Exited? && s.mutex.Free? && Pc(s, w).Idle?
    ensures IsRun(size, s, ls) && WriterLock(w, entry) in ls && WriterFinish(w) in ls
    ensures var s' := Final(size, s, ls);
      && s'.worker.Exited? && s'.closer == s.closer && s'.batches == s.batches
      && s'.appended == s.appended + [entry] && s'.returned == s.returned + {|s.appended|}
  {
    var s1 := Apply(size, s, WriterLock(w, entry));
    var s2 := Apply(size, s1, WriterAppend(w));
    var s3 := Apply(size, s2, WriterUnlock(w));
    var s4 := Apply(size, s3, WriterFinish(w));
    hide Apply, Enabled;
    ls := Prepend(size, s3, WriterFinish(w), []);
    ls := Prepend(size, s2, WriterUnlock(w), ls);
    ls := Prepend(size, s1, WriterAppend(w), ls);
    ls := Prepend(size, s, WriterLock(w, entry), ls);
  }

  /** The rest of Close once the worker is gone. */
  lemma CloseReturns(size: int, s: State) returns (ls: seq<Label>)
    requires s.worker.Exited? && IsClosed(s)
    ensures IsRun(size, s, ls)
    ensures Final(size, s, ls) == s.(closer := StorageClosed)
  {
    var w := s.(closer := Waited);
    var done := s.(closer := StorageClosed);
    ls := [];
    if !s.closer.StorageClosed? {
      assert Apply(size, w, CloseStorage) == done;
      ls := Prepend(size, w, CloseStorage, ls);
      if s.closer.Waiting? {
        ls := Prepend(size, s, WaitDone, ls);
      } else {
        assert s == w;
      }
    }
  }

  lemma {:induction false} Concat(size: int, s: State, a: seq<Label>, b: seq<Label>)
    requires IsRun(size, s, a) && IsRun(size, Final(size, s, a), b)
    ensures IsRun(size, s, a + b) && Final(size, s, a + b) == Final(size, Final(size, s, a), b)
    decreases |a|
  {
    hide Apply, Enabled;
    if a == [] {
      assert a + b == b;
    } else {
      Concat(size, Apply(size, s, a[0]), a[1..], b);
      assert (a + b)[1..] == a[1..] + b;
    }
  }

  /** CloseDrains is tight. A call of writeEntry that has not taken the lock, at whatever moment
      before, during or after Close, may return normally and still never be stored: some run
      makes the call, finishes Close, and leaves the call's entry out of storage. */
  lemma EntryCanBeLost(size: int, s: State, w: nat, entry: Entry) returns (ls: seq<Label>, i: nat)
    requires Inv(size, s) && Pc(s, w).Idle?
    ensures IsRun(size, s, ls) && WriterLock(w, entry) in ls && WriterFinish(w) in ls
    ensures var s' := Final(size, s, ls);
      && s'.closer.StorageClosed? && s'.worker.Exited?
      && |s.appended| <= i < |s'.appended| && s'.appended[i] == entry && i in s'.returned
      && i >= |Flatten(s'.batches)|
  {
    hide Apply, Flatten, Enabled, WakeUp, MutualExclusion, CallPositions, Promise, IsRun, Final;
    var s0, first := StartClose(size, s);
    var drain := CloseFinishes(size, s0);
    var s1 := Final(size, s0, drain);
    var call := LateCall(size, s1, w, entry);
    var s2 := Final(size, s1, call);
    var rest := CloseReturns(size, s2);
    Concat(size, s1, call, rest);
    Concat(size, s0, drain, call + rest);
    Concat(size, s, first, drain + (call + rest));
    ls := first + (drain + (call + rest));
    i := |s1.appended|;
  }

  lemma StartClose(size: int, s: State) returns (s0: State, ls: seq<Label>)
    requires Inv(size, s)
    ensures IsRun(size, s, ls) && s0 == Final(size, s, ls) && Inv(size, s0) && IsClosed(s0)
    ensures s0.writers == s.writers && s0.appended == s.appended
  {
    hide Inv;
    s0, ls := s, [];
    if s.closer.Running? {
      KeepsInv(size, s, CloseChan);
      s0 := Apply(size, s, CloseChan);
      ls := Prepend(size, s, CloseChan, []);
    }
  }

  lemma Prepend(size: int, s: State, l: Label, ls: seq<Label>) returns (r: seq<Label>)
    requires Enabled(s, l) && IsRun(size, Apply(size, s, l), ls)
    ensures r == [l] + ls
    ensures IsRun(size, s, r) && Final(size, s, r) == Final(size, Apply(size, s, l), ls)
  {
    hide Apply, Enabled;
    r := [l] + ls;
    assert r[1..] == ls;
  }

  /** No batch is swapped out or written after storage is closed, whatever happens next. */
  lemma NoWriteAfterClose(size: int, ls: seq<Label>, more: seq<Label>)
    requires IsRun(size, Init, ls) && Final(size, Init, ls).closer.StorageClosed?
    requires IsRun(size, Final(size, Init, ls), more)
    ensures forall l | l in more :: !l.WriteBatch? && !l.Swap?
  {
    hide Flatten, IsRun, Final;
    InitInv(size);
    RunKeepsInv(size, Init, ls);
    ExitedIsQuiet(size, Final(size, Init, ls), more);
  }

  lemma {:induction false} ExitedIsQuiet(size: int, s: State, ls: seq<Label>)
    requires s.worker.Exited? && IsRun(size, s, ls)
    ensures forall l | l in ls :: !IsWorkerLabel(l)
    decreases |ls|
  {
    if ls != [] {
      ExitedIsQuiet(size, Apply(size, s, ls[0]), ls[1..]);
      assert ls == [ls[0]] + ls[1..];
    }
  }
}
