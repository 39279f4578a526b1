/** The audit service's two operations on the shared buffer as the code runs them, and their
    place in the transition system: run without interference they are its steps in order. */
module AuditService {
  import opened AuditBuffer

  lemma {:induction false} RunOf(size: int, s: State, a: Label, b: Label, ls: seq<Label>)
    requires Enabled(s, a) && Enabled(Apply(size, s, a), b)
    requires IsRun(size, Apply(size, Apply(size, s, a), b), ls)
    ensures IsRun(size, s, [a, b] + ls)
    ensures Final(size, s, [a, b] + ls) == Final(size, Apply(size, Apply(size, s, a), b), ls)
  {
    hide Enabled, Apply;
    assert ([a, b] + ls)[1..] == [b] + ls && ([b] + ls)[1..] == ls;
    assert IsRun(size, Apply(size, s, a), [b] + ls);
  }

  function WriteLabels(w: nat, entry: Entry): seq<Label> {
    [WriterLock(w, entry), WriterAppend(w)] + ([WriterUnlock(w), WriterFinish(w)] + [])
  }

  function FlushLabels(isEmpty: bool): seq<Label> {
    if isEmpty then [WorkerLock, EmptyReturn] + []
    else [WorkerLock, Swap] + ([WorkerUnlock, WriteBatch] + [])
  }

  lemma WriteRuns(size: int, s: State, w: nat, entry: Entry)
    requires s.mutex.Free? && Pc(s, w).Idle?
    ensures IsRun(size, s, WriteLabels(w, entry))
    ensures var s' := Final(size, s, WriteLabels(w, entry));
      && s'.buffer == s.buffer + [entry] && s'.token == (s.token || |s.buffer| + 1 >= size)
      && s'.batches == s.batches && s'.held == s.held
  {
    var s1 := Apply(size, s, WriterLock(w, entry));
    var s2 := Apply(size, s1, WriterAppend(w));
    var s3 := Apply(size, s2, WriterUnlock(w));
    var s4 := Apply(size, s3, WriterFinish(w));
    hide Enabled, Apply;
    RunOf(size, s2, WriterUnlock(w), WriterFinish(w), []);
    RunOf(size, s, WriterLock(w, entry), WriterAppend(w), [WriterUnlock(w), WriterFinish(w)] + []);
  }

  lemma FlushRuns(size: int, s: State)
    requires s.mutex.Free? && s.worker.WantLock? && s.held == []
    ensures IsRun(size, s, FlushLabels(s.buffer == []))
    ensures var s' := Final(size, s, FlushLabels(s.buffer == []));
      && s'.buffer == [] && s'.token == s.token && s'.held == []
      && s'.batches == (if s.buffer == [] then s.batches else s.batches + [s.buffer])
      && s'.worker == AfterFlush(s.worker.last)
  {
    var s1 := Apply(size, s, WorkerLock);
    if s.buffer == [] {
      var s2 := Apply(size, s1, EmptyReturn);
      hide Enabled, Apply;
      RunOf(size, s, WorkerLock, EmptyReturn, []);
    } else {
      var s2 := Apply(size, s1, Swap);
      var s3 := Apply(size, s2, WorkerUnlock);
      var s4 := Apply(size, s3, WriteBatch);
      hide Enabled, Apply;
      RunOf(size, s2, WorkerUnlock, WriteBatch, []);
      RunOf(size, s, WorkerLock, Swap, [WorkerUnlock, WriteBatch] + []);
    }
  }

  class Service {
    const size: int
    var buffer: seq<Entry>
    var flushChan: bool  // whether the one-slot channel holds a token
    var written: seq<seq<Entry>>  // the batches handed to storage

    constructor (size: int)
      ensures this.size == size && Shows(Init)
    {
      this.size := size;
      buffer, flushChan, written := [], false, [];
    }

    /** The shared part of machine state `s` is this object. */
    ghost predicate Shows(s: State)
      reads this
    {
      s.buffer == buffer && s.token == flushChan && s.batches == written
    }

    /** Appends the entry and, when the buffer is full, offers a token without blocking,
        wherever the worker is and whatever batch it holds. */
    method WriteEntry(ghost w: nat, entry: Entry)
      modifies this
      ensures buffer == old(buffer) + [entry] && written == old(written)
      ensures flushChan <==> old(flushChan) || |buffer| >= size
      ensures forall s: State | old(Shows(s)) && s.mutex.Free? && Pc(s, w).Idle? ::
        IsRun(size, s, WriteLabels(w, entry)) && Shows(Final(size, s, WriteLabels(w, entry)))
    {
      buffer := buffer + [entry];
      var shouldFlush := |buffer| >= size;
      if shouldFlush {
        if !flushChan {
          flushChan := true;
        }
      }
      forall s: State | old(Shows(s)) && s.mutex.Free? && Pc(s, w).Idle?
        ensures IsRun(size, s, WriteLabels(w, entry)) && Shows(Final(size, s, WriteLabels(w, entry)))
      {
        WriteRuns(size, s, w, entry);
      }
    }

    /** Takes the whole buffer out and hands it to storage, or does nothing when it is empty.
        The worker holds no batch when it gets here. */
    method Flush()
      modifies this
      ensures buffer == [] && flushChan == old(flushChan)
      ensures written == if old(buffer) == [] then old(written) else old(written) + [old(buffer)]
      ensures forall s: State | old(Shows(s)) && s.mutex.Free? && s.worker.WantLock? && s.held == [] ::
        IsRun(size, s, FlushLabels(s.buffer == [])) && Shows(Final(size, s, FlushLabels(s.buffer == [])))
    {
      if |buffer| != 0 {
        var entries := buffer;
        buffer := [];
        written := written + [entries];
      }
      forall s: State | old(Shows(s)) && s.mutex.Free? && s.worker.WantLock? && s.held == []
        ensures IsRun(size, s, FlushLabels(s.buffer == [])) && Shows(Final(size, s, FlushLabels(s.buffer == [])))
      {
        FlushRuns(size, s);
      }
    }
  }
}
