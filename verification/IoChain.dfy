/**
 The ring of locked pointer slots through which threads hand each other the place to read from and
 to write to, as interleaved steps: a step is one lock operation, one access to a slot, or the work.
 */
module IoChain {
  import opened BitTranspose

  const IOC_SIZE := 33

  // ---------------------------------------------------------------- state

  /**
   What iteration i does next. The slots meant are i % 33 (its own) and (i + 1) % 33 (the next).
   */
  const LOCK_IN := 0         // take the lock of its own input slot
  const LOCK_NEXT_IN := 1    // take the lock of the next input slot
  const LOCK_NEXT_OUT := 2   // take the lock of the next output slot
  const LEAVE := 3           // give the counter's lock back
  const GET_IN := 4          // read its own input slot
  const SET_IN := 5          // write the next input slot
  const FREE_NEXT_IN := 6
  const LOCK_OUT := 7        // take the lock of its own output slot
  const GET_OUT := 8
  const FREE_OUT := 9
  const SET_OUT := 10
  const FREE_NEXT_OUT := 11
  const FREE_IN := 12
  const WORK := 13           // write the block
  const DONE := 14

  /** A lock records which iteration holds it, and whether as its own slot or as the next one. */
  datatype Lock = Free | Held(iter: nat, own: bool)

  datatype Thread = Idle | Running(iter: nat, inp: nat, outp: nat)

  /** How much input the block at a position takes, and the output it gives. */
  type Work = nat -> (nat, seq<Octet>)

  datatype State = State(
    threads: seq<Thread>,
    left: nat,             // loop iterations that no thread has begun
    counterHeld: bool,     // the lock of the counter
    phase: seq<nat>,       // what each iteration begun does next; the counter is its length
    inLock: seq<Lock>, inPtr: seq<nat>,
    outLock: seq<Lock>, outPtr: seq<nat>,
    out: seq<Octet>)

  /** The input and output positions of iteration i when the blocks are done one after the other. */
  ghost function InAt(w: Work, i: nat): nat { if i == 0 then 0 else InAt(w, i - 1) + w(InAt(w, i - 1)).0 }

  ghost function OutAt(w: Work, i: nat): nat { if i == 0 then 0 else OutAt(w, i - 1) + |w(InAt(w, i - 1)).1| }

  /** The output of the first n blocks done one after the other. */
  ghost function Sequential(w: Work, n: nat): seq<Octet> {
    if n == 0 then [] else Sequential(w, n - 1) + w(InAt(w, n - 1)).1
  }

  // ---------------------------------------------------------------- steps

  predicate Shape(s: State) {
    && |s.inLock| == |s.inPtr| == |s.outLock| == |s.outPtr| == IOC_SIZE
    && forall t :: 0 <= t < |s.threads| && s.threads[t].Running? ==>
         s.threads[t].iter < |s.phase| && s.phase[s.threads[t].iter] < DONE
  }

  /** A thread is not waiting for a lock that is held, nor out of work. */
  predicate Enabled(s: State, t: nat)
    requires Shape(s) && t < |s.threads|
  {
    if s.threads[t].Idle? then s.left > 0 && !s.counterHeld
    else
      var i := s.threads[t].iter;
      var p := s.phase[i];
      && (p == LOCK_IN ==> s.inLock[i % IOC_SIZE].Free?)
      && (p == LOCK_NEXT_IN ==> s.inLock[(i + 1) % IOC_SIZE].Free?)
      && (p == LOCK_NEXT_OUT ==> s.outLock[(i + 1) % IOC_SIZE].Free?)
      && (p == LOCK_OUT ==> s.outLock[i % IOC_SIZE].Free?)
      && (p == WORK ==> s.threads[t].outp <= |s.out|)   // so that Step is defined; it always holds
  }

  /** Overwrites out from at on. */
  function Overwrite(out: seq<Octet>, at: nat, b: seq<Octet>): seq<Octet>
    requires at <= |out|
  {
    if at + |b| <= |out| then out[..at] + b + out[at + |b|..] else out[..at] + b
  }

  /** What the thread does when it is scheduled. */
  function Step(s: State, t: nat, w: Work): State
    requires Shape(s) && t < |s.threads| && Enabled(s, t)
  {
    match s.threads[t]
    case Idle =>
      // takes the counter's lock and, holding it, a number
      s.(threads := s.threads[t := Running(|s.phase|, 0, 0)], left := s.left - 1, counterHeld := true, phase := s.phase + [LOCK_IN])
    case Running(i, inp, outp) =>
      var p := s.phase[i];
      var own, next := i % IOC_SIZE, (i + 1) % IOC_SIZE;
      var n := s.(phase := s.phase[i := p + 1]);
      if p == LOCK_IN then n.(inLock := s.inLock[own := Held(i, true)])
      else if p == LOCK_NEXT_IN then n.(inLock := s.inLock[next := Held(i, false)])
      else if p == LOCK_NEXT_OUT then n.(outLock := s.outLock[next := Held(i, false)])
      else if p == LEAVE then n.(counterHeld := false)
      else if p == GET_IN then n.(threads := s.threads[t := Running(i, s.inPtr[own], outp)])
      else if p == SET_IN then n.(inPtr := s.inPtr[next := inp + w(inp).0])
      else if p == FREE_NEXT_IN then n.(inLock := s.inLock[next := Free])
      else if p == LOCK_OUT then n.(outLock := s.outLock[own := Held(i, true)])
      else if p == GET_OUT then n.(threads := s.threads[t := Running(i, inp, s.outPtr[own])])
      else if p == FREE_OUT then n.(outLock := s.outLock[own := Free])
      else if p == SET_OUT then n.(outPtr := s.outPtr[next := outp + |w(inp).1|])
      else if p == FREE_NEXT_OUT then n.(outLock := s.outLock[next := Free])
      else if p == FREE_IN then n.(inLock := s.inLock[own := Free])
      else n.(threads := s.threads[t := Idle], out := Overwrite(s.out, outp, w(inp).1))
  }

  // ---------------------------------------------------------------- what every step keeps

  /** How far iteration i may be ahead of others. */
  ghost predicate Spaced(ph: seq<nat>, i: nat)
    requires i < |ph|
  {
    && ph[i] <= DONE
    // one iteration at a time is numbered and takes its first locks
    && (i + 1 < |ph| ==> ph[i] >= GET_IN)
    // the input slot is taken after the iteration before has filled it
    && (i >= 1 && ph[i] > LOCK_IN ==> ph[i - 1] > FREE_NEXT_IN)
    // the next slot is taken after its reader of 33 iterations before is through with both of its slots
    && (i >= 32 && ph[i] > LOCK_NEXT_IN ==> ph[i - 32] > FREE_IN)
    // the output slot is taken after the iteration before has filled it
    && (i >= 1 && ph[i] > LOCK_OUT ==> ph[i - 1] > FREE_NEXT_OUT)
  }

  ghost predicate Discipline(ph: seq<nat>, counterHeld: bool) {
    && (counterHeld <==> ph != [] && ph[|ph| - 1] <= LEAVE)
    && forall i :: 0 <= i < |ph| ==> Spaced(ph, i)
  }

  /** From which phase to which an iteration holds the lock of its own slot, and of the next. */
  datatype Span = Span(ownFrom: nat, ownTo: nat, nextFrom: nat, nextTo: nat)

  const IN_SPAN := Span(LOCK_IN + 1, FREE_IN, LOCK_NEXT_IN + 1, FREE_NEXT_IN)
  const OUT_SPAN := Span(LOCK_OUT + 1, FREE_OUT, LOCK_NEXT_OUT + 1, FREE_NEXT_OUT)

  /** The locks are held by exactly the iterations that are between taking and freeing them. */
  ghost predicate Tokens(ph: seq<nat>, lock: seq<Lock>, sp: Span) {
    && |lock| == IOC_SIZE
    && (forall i :: 0 <= i < |ph| ==> Holding(ph[i], lock, sp, i))
    && (forall k :: 0 <= k < IOC_SIZE && lock[k].Held? ==> Justified(ph, lock[k], k, sp))
  }

  /** Iteration i, in phase p, has the locks it should have. */
  ghost predicate Holding(p: nat, lock: seq<Lock>, sp: Span, i: nat)
    requires |lock| == IOC_SIZE
  {
    && (sp.ownFrom <= p <= sp.ownTo ==> lock[i % IOC_SIZE] == Held(i, true))
    && (sp.nextFrom <= p <= sp.nextTo ==> lock[(i + 1) % IOC_SIZE] == Held(i, false))
  }

  ghost predicate Justified(ph: seq<nat>, l: Lock, k: nat, sp: Span)
    requires l.Held?
  {
    && l.iter < |ph|
    && if l.own then k == l.iter % IOC_SIZE && sp.ownFrom <= ph[l.iter] <= sp.ownTo
       else k == (l.iter + 1) % IOC_SIZE && sp.nextFrom <= ph[l.iter] <= sp.nextTo
  }

  /** Slot j is filled, and not yet filled again for j + 33. */
  ghost predicate Current(ph: seq<nat>, j: nat, fill: nat) {
    && j <= |ph|
    && (j == 0 || ph[j - 1] > fill)
    && (j + 32 >= |ph| || ph[j + 32] <= fill)
  }

  /** Where a slot is current it holds the sequential position. */
  ghost predicate Pointers(ph: seq<nat>, ptr: seq<nat>, at: nat -> nat, fill: nat) {
    && |ptr| == IOC_SIZE
    && forall j: nat {:trigger Current(ph, j, fill)} :: Current(ph, j, fill) ==> ptr[j % IOC_SIZE] == at(j)
  }

  /** Threads run different iterations, on the positions they have been handed. */
  ghost predicate Threads(s: State, w: Work)
    requires Shape(s)
  {
    && (forall t, u :: 0 <= t < |s.threads| && 0 <= u < |s.threads| && SameIter(s.threads[t], s.threads[u]) ==> t == u)
    && (forall t :: 0 <= t < |s.threads| && s.threads[t].Running? ==> Handed(s.threads[t], s.phase, w))
    && (forall i :: 0 <= i < |s.phase| && s.phase[i] < DONE ==> HasThread(s.threads, i))
  }

  predicate SameIter(a: Thread, b: Thread) { a.Running? && b.Running? && a.iter == b.iter }

  ghost predicate HasThread(threads: seq<Thread>, i: nat) {
    exists t :: 0 <= t < |threads| && threads[t].Running? && threads[t].iter == i
  }

  /** Every iteration is handed the positions that the iterations before it, in order, lead to. */
  ghost predicate Handed(th: Thread, ph: seq<nat>, w: Work)
    requires th.Running? && th.iter < |ph|
  {
    && (ph[th.iter] > GET_IN ==> th.inp == InAt(w, th.iter))
    && (ph[th.iter] > GET_OUT ==> th.outp == OutAt(w, th.iter))
  }

  /** The blocks written so far are in place. */
  ghost predicate Written(s: State, w: Work, total: nat) {
    && |s.phase| + s.left == total && OutAt(w, total) <= |s.out|
    && forall i :: 0 <= i < |s.phase| && s.phase[i] == DONE ==> BlockAt(s.out, w, i)
  }

  ghost predicate BlockAt(out: seq<Octet>, w: Work, i: nat) {
    OutAt(w, i + 1) <= |out| && out[OutAt(w, i)..OutAt(w, i + 1)] == w(InAt(w, i)).1
  }

  ghost predicate Inv(s: State, w: Work, total: nat) {
    && Shape(s)
    && Discipline(s.phase, s.counterHeld)
    && Tokens(s.phase, s.inLock, IN_SPAN) && Tokens(s.phase, s.outLock, OUT_SPAN)
    && Pointers(s.phase, s.inPtr, i => InAt(w, i), SET_IN) && Pointers(s.phase, s.outPtr, i => OutAt(w, i), SET_OUT)
    && Threads(s, w)
    && Written(s, w, total)
  }

  /** After initialization only slot 0 has a pointer; the others hold anything. */
  ghost predicate Init(s: State, w: Work, total: nat) {
    && (forall t :: 0 <= t < |s.threads| ==> s.threads[t].Idle?)
    && s.left == total && !s.counterHeld && s.phase == [] && OutAt(w, total) <= |s.out|
    && |s.inLock| == |s.inPtr| == |s.outLock| == |s.outPtr| == IOC_SIZE
    && (forall k :: 0 <= k < IOC_SIZE ==> s.inLock[k].Free? && s.outLock[k].Free?)
    && s.inPtr[0] == 0 && s.outPtr[0] == 0
  }

  lemma InitHolds(s: State, w: Work, total: nat)
    requires Init(s, w, total)
    ensures Inv(s, w, total)
  {
  }

  // ---------------------------------------------------------------- one phase further

  /** Iteration i goes one phase further, having waited for the locks it takes. */
  ghost predicate Waited(ph: seq<nat>, i: nat)
    requires i < |ph|
  {
    && ph[i] < DONE
    && (ph[i] == LOCK_IN && i >= 1 ==> ph[i - 1] > FREE_NEXT_IN)
    && (ph[i] == LOCK_NEXT_IN && i >= 32 ==> ph[i - 32] > FREE_IN)
    && (ph[i] == LOCK_OUT && i >= 1 ==> ph[i - 1] > FREE_NEXT_OUT)
  }

  lemma DisciplineKept(ph: seq<nat>, held: bool, i: nat)
    requires Discipline(ph, held) && i < |ph| && Waited(ph, i)
    ensures Discipline(ph[i := ph[i] + 1], if ph[i] == LEAVE then false else held)
  {
    var ph1 := ph[i := ph[i] + 1];
    assert Spaced(ph, i);
    forall j | 0 <= j < |ph1|
      ensures Spaced(ph1, j)
    {
      assert Spaced(ph, j);
    }
  }

  /** A lock found free tells that the iterations that use the slot before have gone by. */
  lemma FreeMeansWaited(ph: seq<nat>, held: bool, inLock: seq<Lock>, outLock: seq<Lock>, i: nat)
    requires Discipline(ph, held) && Tokens(ph, inLock, IN_SPAN) && Tokens(ph, outLock, OUT_SPAN)
    requires i < |ph| && ph[i] < DONE
    requires ph[i] == LOCK_IN ==> inLock[i % IOC_SIZE].Free?
    requires ph[i] == LOCK_NEXT_IN ==> inLock[(i + 1) % IOC_SIZE].Free?
    requires ph[i] == LOCK_OUT ==> outLock[i % IOC_SIZE].Free?
    ensures Waited(ph, i)
  {
    assert i >= 1 ==> Spaced(ph, i - 1);
    if i >= 32 {
      assert Spaced(ph, i - 32);
      assert (i - 32) % IOC_SIZE == (i + 1) % IOC_SIZE;
    }
  }

  function LocksAfter(lock: seq<Lock>, i: nat, p: nat, sp: Span): seq<Lock>
    requires |lock| == IOC_SIZE
  {
    if p + 1 == sp.ownFrom then lock[i % IOC_SIZE := Held(i, true)]
    else if p + 1 == sp.nextFrom then lock[(i + 1) % IOC_SIZE := Held(i, false)]
    else if p == sp.ownTo then lock[i % IOC_SIZE := Free]
    else if p == sp.nextTo then lock[(i + 1) % IOC_SIZE := Free]
    else lock
  }

  predicate SpanOk(sp: Span) {
    && sp.ownFrom <= sp.ownTo && sp.nextFrom <= sp.nextTo
    && sp.ownFrom != sp.nextFrom && sp.ownTo != sp.nextTo
    && sp.ownTo + 1 != sp.nextFrom && sp.nextTo + 1 != sp.ownFrom
  }

  lemma TokensKept(ph: seq<nat>, lock: seq<Lock>, sp: Span, i: nat)
    requires Tokens(ph, lock, sp) && SpanOk(sp) && i < |ph|
    requires ph[i] + 1 == sp.ownFrom ==> lock[i % IOC_SIZE].Free?
    requires ph[i] + 1 == sp.nextFrom ==> lock[(i + 1) % IOC_SIZE].Free?
    ensures Tokens(ph[i := ph[i] + 1], LocksAfter(lock, i, ph[i], sp), sp)
  {
    var ph1, lock1 := ph[i := ph[i] + 1], LocksAfter(lock, i, ph[i], sp);
    assert Holding(ph[i], lock, sp, i);
    forall j | 0 <= j < |ph1|
      ensures Holding(ph1[j], lock1, sp, j)
    {
      assert Holding(ph[j], lock, sp, j);
      HoldingKept(ph[i], ph[j], lock, sp, i, j);
    }
    forall k | 0 <= k < IOC_SIZE && lock1[k].Held?
      ensures Justified(ph1, lock1[k], k, sp)
    {
      if lock1[k] == lock[k] {
        assert Justified(ph, lock[k], k, sp);
      }
    }
  }

  /** The step of iteration i leaves the locks of j as they should be. */
  lemma HoldingKept(p: nat, q: nat, lock: seq<Lock>, sp: Span, i: nat, j: nat)
    requires |lock| == IOC_SIZE && SpanOk(sp) && Holding(p, lock, sp, i) && Holding(q, lock, sp, j) && (i == j ==> p == q)
    requires p + 1 == sp.ownFrom ==> lock[i % IOC_SIZE].Free?
    requires p + 1 == sp.nextFrom ==> lock[(i + 1) % IOC_SIZE].Free?
    ensures Holding(if j == i then p + 1 else q, LocksAfter(lock, i, p, sp), sp, j)
  {
  }

  /** Writing a slot: the iteration that wrote it before has long been read. */
  lemma PointersWritten(ph: seq<nat>, held: bool, ptr: seq<nat>, at: nat -> nat, fill: nat, i: nat)
    requires Discipline(ph, held) && Pointers(ph, ptr, at, fill) && i < |ph| && ph[i] == fill
    requires LOCK_NEXT_IN < fill < FREE_IN
    ensures Pointers(ph[i := fill + 1], ptr[(i + 1) % IOC_SIZE := at(i + 1)], at, fill)
  {
    var ph1 := ph[i := fill + 1];
    var ptr1 := ptr[(i + 1) % IOC_SIZE := at(i + 1)];
    forall j: nat | Current(ph1, j, fill)
      ensures ptr1[j % IOC_SIZE] == at(j)
    {
      if j != i + 1 {
        OtherSlot(ph, held, fill, i, j);
        assert Current(ph, j, fill);
      }
    }
  }

  /** An iteration 33 places back, or more, is over. */
  lemma LongGone(ph: seq<nat>, held: bool, m: nat)
    requires Discipline(ph, held)
    ensures m + 33 < |ph| ==> ph[m] > FREE_IN
  {
    assert m + 32 < |ph| ==> Spaced(ph, m + 32);
  }

  lemma GoneBefore(ph: seq<nat>, held: bool, m: nat)
    requires Discipline(ph, held)
    ensures m + 32 < |ph| && ph[m + 32] > LOCK_NEXT_IN ==> ph[m] > FREE_IN
  {
    assert m + 32 < |ph| ==> Spaced(ph, m + 32);
  }

  lemma OtherSlot(ph: seq<nat>, held: bool, fill: nat, i: nat, j: nat)
    requires Discipline(ph, held) && i < |ph| && ph[i] == fill && LOCK_NEXT_IN < fill < FREE_IN
    requires j != i + 1 && Current(ph[i := fill + 1], j, fill)
    ensures j % IOC_SIZE != (i + 1) % IOC_SIZE && j + 32 != i
  {
    LongGone(ph, held, i);
    LongGone(ph, held, j + 32);
  }

  lemma PointersKept(ph: seq<nat>, ptr: seq<nat>, at: nat -> nat, fill: nat, i: nat)
    requires Pointers(ph, ptr, at, fill) && i < |ph| && ph[i] != fill
    ensures Pointers(ph[i := ph[i] + 1], ptr, at, fill)
  {
    var ph1 := ph[i := ph[i] + 1];
    forall j: nat | Current(ph1, j, fill)
      ensures ptr[j % IOC_SIZE] == at(j)
    {
      assert Current(ph, j, fill);
    }
  }

  /** A slot is current when its reader comes to read it. */
  lemma ReaderFindsCurrent(ph: seq<nat>, held: bool, i: nat)
    requires Discipline(ph, held) && i < |ph|
    ensures ph[i] == GET_IN ==> Current(ph, i, SET_IN)
    ensures ph[i] == GET_OUT ==> Current(ph, i, SET_OUT)
  {
    assert Spaced(ph, i);
    GoneBefore(ph, held, i);
  }

  // ---------------------------------------------------------------- safety

  lemma StartKeeps(s: State, t: nat, w: Work, total: nat)
    requires Inv(s, w, total) && t < |s.threads| && s.threads[t].Idle? && Enabled(s, t)
    ensures Inv(Step(s, t, w), w, total)
  {
    StartKeepsLocks(s.phase, s.inLock, IN_SPAN);
    StartKeepsLocks(s.phase, s.outLock, OUT_SPAN);
    StartKeepsDiscipline(s.phase);
    StartKeepsPointers(s.phase, s.inPtr, i => InAt(w, i), SET_IN);
    StartKeepsPointers(s.phase, s.outPtr, i => OutAt(w, i), SET_OUT);
    StartKeepsThreads(s, t, w);
  }

  lemma StartKeepsDiscipline(ph: seq<nat>)
    requires Discipline(ph, false)
    ensures Discipline(ph + [LOCK_IN], true)
  {
    var ph1 := ph + [LOCK_IN];
    forall j | 0 <= j < |ph1|
      ensures Spaced(ph1, j)
    {
      assert j < |ph| ==> Spaced(ph, j);
    }
  }

  lemma StartKeepsLocks(ph: seq<nat>, lock: seq<Lock>, sp: Span)
    requires Tokens(ph, lock, sp) && sp.ownFrom > LOCK_IN && sp.nextFrom > LOCK_IN
    ensures Tokens(ph + [LOCK_IN], lock, sp)
  {
    forall k | 0 <= k < IOC_SIZE && lock[k].Held?
      ensures Justified(ph + [LOCK_IN], lock[k], k, sp)
    {
      assert Justified(ph, lock[k], k, sp);
    }
  }

  lemma StartKeepsPointers(ph: seq<nat>, ptr: seq<nat>, at: nat -> nat, fill: nat)
    requires Pointers(ph, ptr, at, fill)
    ensures Pointers(ph + [LOCK_IN], ptr, at, fill)
  {
    forall j: nat | Current(ph + [LOCK_IN], j, fill)
      ensures ptr[j % IOC_SIZE] == at(j)
    {
      assert Current(ph, j, fill);
    }
  }

  lemma StartKeepsThreads(s: State, t: nat, w: Work)
    requires Shape(s) && Threads(s, w) && t < |s.threads| && s.threads[t].Idle? && Enabled(s, t)
    ensures Threads(Step(s, t, w), w)
  {
    var n := Step(s, t, w);
    forall i | 0 <= i < |n.phase| && n.phase[i] < DONE
      ensures HasThread(n.threads, i)
    {
      if i == |s.phase| {
        assert n.threads[t].Running? && n.threads[t].iter == i;
      } else {
        assert s.phase[i] < DONE;
        var u :| 0 <= u < |s.threads| && s.threads[u].Running? && s.threads[u].iter == i;
        assert n.threads[u] == s.threads[u];
      }
    }
  }

  /** The state after the step of a running thread, part by part. */
  ghost predicate Parts(s: State, n: State, t: nat, w: Work) {
    && Shape(s) && t < |s.threads| && s.threads[t].Running?
    && var i := s.threads[t].iter;
       var p, th := s.phase[i], s.threads[t];
       && n.left == s.left
       && n.phase == s.phase[i := p + 1]
       && n.counterHeld == (if p == LEAVE then false else s.counterHeld)
       && n.inLock == LocksAfter(s.inLock, i, p, IN_SPAN) && n.outLock == LocksAfter(s.outLock, i, p, OUT_SPAN)
       && n.inPtr == (if p == SET_IN then s.inPtr[(i + 1) % IOC_SIZE := th.inp + w(th.inp).0] else s.inPtr)
       && n.outPtr == (if p == SET_OUT then s.outPtr[(i + 1) % IOC_SIZE := th.outp + |w(th.inp).1|] else s.outPtr)
       && n.threads == s.threads[t := if p == GET_IN then Running(i, s.inPtr[i % IOC_SIZE], th.outp)
                                      else if p == GET_OUT then Running(i, th.inp, s.outPtr[i % IOC_SIZE])
                                      else if p == WORK then Idle else th]
       && (p == WORK ==> th.outp <= |s.out|)
       && n.out == (if p == WORK then Overwrite(s.out, th.outp, w(th.inp).1) else s.out)
  }

  lemma StepParts(s: State, t: nat, w: Work)
    requires Shape(s) && t < |s.threads| && Enabled(s, t) && s.threads[t].Running?
    ensures Parts(s, Step(s, t, w), t, w)
  {
  }

  lemma LocksKept(s: State, n: State, t: nat, w: Work)
    requires Parts(s, n, t, w) && Enabled(s, t)
    requires Discipline(s.phase, s.counterHeld) && Tokens(s.phase, s.inLock, IN_SPAN)
    requires Tokens(s.phase, s.outLock, OUT_SPAN)
    ensures Discipline(n.phase, n.counterHeld) && Tokens(n.phase, n.inLock, IN_SPAN)
    ensures Tokens(n.phase, n.outLock, OUT_SPAN)
  {
    PhaseLocksKept(s.phase, s.counterHeld, s.inLock, s.outLock, s.threads[t].iter);
  }

  lemma PhaseLocksKept(ph: seq<nat>, held: bool, inLock: seq<Lock>, outLock: seq<Lock>, i: nat)
    requires Discipline(ph, held) && Tokens(ph, inLock, IN_SPAN) && Tokens(ph, outLock, OUT_SPAN)
    requires i < |ph| && ph[i] < DONE
    requires ph[i] == LOCK_IN ==> inLock[i % IOC_SIZE].Free?
    requires ph[i] == LOCK_NEXT_IN ==> inLock[(i + 1) % IOC_SIZE].Free?
    requires ph[i] == LOCK_NEXT_OUT ==> outLock[(i + 1) % IOC_SIZE].Free?
    requires ph[i] == LOCK_OUT ==> outLock[i % IOC_SIZE].Free?
    ensures
      var ph1 := ph[i := ph[i] + 1];
      && Discipline(ph1, if ph[i] == LEAVE then false else held)
      && Tokens(ph1, LocksAfter(inLock, i, ph[i], IN_SPAN), IN_SPAN)
      && Tokens(ph1, LocksAfter(outLock, i, ph[i], OUT_SPAN), OUT_SPAN)
  {
    FreeMeansWaited(ph, held, inLock, outLock, i);
    DisciplineKept(ph, held, i);
    TokensKept(ph, inLock, IN_SPAN, i);
    TokensKept(ph, outLock, OUT_SPAN, i);
  }

  /** One ring of slots, written or not. */
  lemma RingKept(ph: seq<nat>, held: bool, ptr: seq<nat>, at: nat -> nat, fill: nat, i: nat, v: nat)
    requires Discipline(ph, held) && Pointers(ph, ptr, at, fill) && i < |ph| && LOCK_NEXT_IN < fill < FREE_IN
    requires ph[i] == fill ==> v == at(i + 1)
    ensures Pointers(ph[i := ph[i] + 1], if ph[i] == fill then ptr[(i + 1) % IOC_SIZE := v] else ptr, at, fill)
  {
    if ph[i] == fill {
      PointersWritten(ph, held, ptr, at, fill, i);
    } else {
      PointersKept(ph, ptr, at, fill, i);
    }
  }

  lemma SlotsKept(s: State, n: State, t: nat, w: Work)
    requires Parts(s, n, t, w) && Discipline(s.phase, s.counterHeld) && Handed(s.threads[t], s.phase, w)
    requires Pointers(s.phase, s.inPtr, i => InAt(w, i), SET_IN)
    requires Pointers(s.phase, s.outPtr, i => OutAt(w, i), SET_OUT)
    ensures Pointers(n.phase, n.inPtr, i => InAt(w, i), SET_IN)
    ensures Pointers(n.phase, n.outPtr, i => OutAt(w, i), SET_OUT)
  {
    var th := s.threads[t];
    RingKept(s.phase, s.counterHeld, s.inPtr, i => InAt(w, i), SET_IN, th.iter, th.inp + w(th.inp).0);
    RingKept(s.phase, s.counterHeld, s.outPtr, i => OutAt(w, i), SET_OUT, th.iter, th.outp + |w(th.inp).1|);
  }

  /** The thread that has taken a step goes on with the same iteration, or is idle. */
  lemma SameIterations(s: State, n: State, t: nat, w: Work)
    requires Parts(s, n, t, w)
    ensures |n.threads| == |s.threads| && forall u :: 0 <= u < |s.threads| && u != t ==> n.threads[u] == s.threads[u]
    ensures n.threads[t].Running? <==> s.phase[s.threads[t].iter] != WORK
    ensures n.threads[t].Running? ==> n.threads[t].iter == s.threads[t].iter
  {
  }

  lemma ShapeKept(s: State, n: State, t: nat, w: Work)
    requires Parts(s, n, t, w) && Threads(s, w)
    ensures Shape(n)
  {
    SameIterations(s, n, t, w);
    assert forall u :: 0 <= u < |s.threads| && u != t && s.threads[u].Running? ==> !SameIter(s.threads[u], s.threads[t]);
  }

  lemma ApartKept(s: State, n: State, t: nat, w: Work)
    requires Parts(s, n, t, w) && Threads(s, w)
    ensures forall a, b :: 0 <= a < |n.threads| && 0 <= b < |n.threads| && SameIter(n.threads[a], n.threads[b]) ==> a == b
  {
    SameIterations(s, n, t, w);
    forall a, b | 0 <= a < |n.threads| && 0 <= b < |n.threads| && SameIter(n.threads[a], n.threads[b])
      ensures a == b
    {
      assert SameIter(s.threads[a], s.threads[b]);
    }
  }

  lemma HandedKept(s: State, n: State, t: nat, w: Work, u: nat)
    requires Parts(s, n, t, w) && Discipline(s.phase, s.counterHeld) && Threads(s, w) && Shape(n)
    requires Pointers(s.phase, s.inPtr, i => InAt(w, i), SET_IN)
    requires Pointers(s.phase, s.outPtr, i => OutAt(w, i), SET_OUT)
    requires u < |n.threads| && n.threads[u].Running?
    ensures Handed(n.threads[u], n.phase, w)
  {
    SameIterations(s, n, t, w);
    if u != t {
      assert Handed(s.threads[u], s.phase, w) && !SameIter(s.threads[u], s.threads[t]);
    } else {
      assert Handed(s.threads[t], s.phase, w);
      ReaderFindsCurrent(s.phase, s.counterHeld, s.threads[t].iter);
    }
  }

  lemma HasThreadKept(s: State, n: State, t: nat, w: Work, j: nat)
    requires Parts(s, n, t, w) && Threads(s, w) && j < |n.phase| && n.phase[j] < DONE
    ensures HasThread(n.threads, j)
  {
    SameIterations(s, n, t, w);
    assert HasThread(s.threads, j);
    var u :| 0 <= u < |s.threads| && s.threads[u].Running? && s.threads[u].iter == j;
    assert n.threads[u].Running? && n.threads[u].iter == j;
  }

  lemma ThreadsKept(s: State, n: State, t: nat, w: Work)
    requires Parts(s, n, t, w) && Discipline(s.phase, s.counterHeld) && Threads(s, w)
    requires Pointers(s.phase, s.inPtr, i => InAt(w, i), SET_IN)
    requires Pointers(s.phase, s.outPtr, i => OutAt(w, i), SET_OUT)
    ensures Shape(n) && Threads(n, w)
  {
    ShapeKept(s, n, t, w);
    ApartKept(s, n, t, w);
    forall u | 0 <= u < |n.threads| && n.threads[u].Running?
      ensures Handed(n.threads[u], n.phase, w)
    {
      HandedKept(s, n, t, w, u);
    }
    forall j | 0 <= j < |n.phase| && n.phase[j] < DONE
      ensures HasThread(n.threads, j)
    {
      HasThreadKept(s, n, t, w, j);
    }
  }

  lemma {:induction false} OutAtMonotone(w: Work, i: nat, j: nat)
    requires i <= j
    ensures OutAt(w, i) <= OutAt(w, j)
    decreases j
  {
    if i < j {
      OutAtMonotone(w, i, j - 1);
    }
  }

  /** Blocks are written side by side, so that writing one leaves the others in place. */
  lemma OverwriteKeeps(out: seq<Octet>, w: Work, i: nat, j: nat)
    requires i != j && OutAt(w, i + 1) <= |out| && BlockAt(out, w, j)
    ensures OutAt(w, i) <= OutAt(w, i + 1)
    ensures BlockAt(Overwrite(out, OutAt(w, i), w(InAt(w, i)).1), w, j)
  {
    OutAtMonotone(w, i, i + 1);
    OutAtMonotone(w, j, j + 1);
    var out1 := Overwrite(out, OutAt(w, i), w(InAt(w, i)).1);
    if i < j {
      OutAtMonotone(w, i + 1, j);
    } else {
      OutAtMonotone(w, j + 1, i);
    }
    assert out1[OutAt(w, j)..OutAt(w, j + 1)] == out[OutAt(w, j)..OutAt(w, j + 1)];
  }

  /** Iteration i writes its block. */
  lemma BlocksKept(ph: seq<nat>, out: seq<Octet>, w: Work, i: nat)
    requires i < |ph| && ph[i] == WORK && OutAt(w, i + 1) <= |out| && OutAt(w, i) <= |out|
    requires forall j :: 0 <= j < |ph| && ph[j] == DONE ==> BlockAt(out, w, j)
    ensures
      var out1 := Overwrite(out, OutAt(w, i), w(InAt(w, i)).1);
      |out1| == |out| && forall j :: 0 <= j < |ph| && (j == i || ph[j] == DONE) ==> BlockAt(out1, w, j)
  {
    var out1 := Overwrite(out, OutAt(w, i), w(InAt(w, i)).1);
    forall j | 0 <= j < |ph| && (j == i || ph[j] == DONE)
      ensures BlockAt(out1, w, j)
    {
      if j != i {
        OverwriteKeeps(out, w, i, j);
      }
    }
  }

  lemma WrittenKept(s: State, n: State, t: nat, w: Work, total: nat)
    requires Parts(s, n, t, w) && Handed(s.threads[t], s.phase, w) && Written(s, w, total)
    ensures Written(n, w, total)
  {
    var i := s.threads[t].iter;
    if s.phase[i] == WORK {
      OutAtMonotone(w, i + 1, total);
      OutAtMonotone(w, i, i + 1);
      BlocksKept(s.phase, s.out, w, i);
      WrittenOne(s.phase, n.phase, n.out, w, i);
    }
  }

  lemma WrittenOne(ph: seq<nat>, ph1: seq<nat>, out: seq<Octet>, w: Work, i: nat)
    requires i < |ph| && ph1 == ph[i := DONE]
    requires forall j :: 0 <= j < |ph| && (j == i || ph[j] == DONE) ==> BlockAt(out, w, j)
    ensures forall j :: 0 <= j < |ph1| && ph1[j] == DONE ==> BlockAt(out, w, j)
  {
  }

  lemma RunningKeeps(s: State, n: State, t: nat, w: Work, total: nat)
    requires Inv(s, w, total) && Parts(s, n, t, w) && Enabled(s, t)
    ensures Inv(n, w, total)
  {
    assert Handed(s.threads[t], s.phase, w);
    LocksKept(s, n, t, w);
    SlotsKept(s, n, t, w);
    ThreadsKept(s, n, t, w);
    WrittenKept(s, n, t, w, total);
  }

  /** Whatever thread is scheduled, a step keeps the invariant. */
  lemma StepKeeps(s: State, t: nat, w: Work, total: nat)
    requires Inv(s, w, total) && t < |s.threads| && Enabled(s, t)
    ensures Inv(Step(s, t, w), w, total)
  {
    if s.threads[t].Idle? {
      StartKeeps(s, t, w, total);
    } else {
      StepParts(s, t, w);
      RunningKeeps(s, Step(s, t, w), t, w, total);
    }
  }

  /**
   While iteration i is about to refill a slot, another iteration that has this slot as its own has either
   read it and gone, or is the next one, which waits for it to be filled.
   */
  lemma RefillIsSafe(ph: seq<nat>, held: bool, i: nat, m: nat)
    requires Discipline(ph, held) && i < |ph| && m < |ph| && m % IOC_SIZE == (i + 1) % IOC_SIZE
    ensures ph[i] == SET_IN ==> ph[m] > FREE_IN || (m == i + 1 && ph[m] == LOCK_IN)
    ensures ph[i] == SET_OUT ==> ph[m] > FREE_IN || (m == i + 1 && ph[m] <= LOCK_OUT)
  {
    LongGone(ph, held, i);
    LongGone(ph, held, m);
    assert Spaced(ph, i) && Spaced(ph, m);
  }

  // ---------------------------------------------------------------- progress

  ghost predicate Finished(s: State) {
    s.left == 0 && forall i :: 0 <= i < |s.phase| ==> s.phase[i] == DONE
  }

  ghost predicate CanStep(s: State)
    requires Shape(s)
  {
    exists t :: 0 <= t < |s.threads| && Enabled(s, t)
  }

  /** The earliest iteration under way never has to wait. */
  lemma EarliestCanStep(s: State, w: Work, total: nat, i: nat)
    requires Inv(s, w, total) && i < |s.phase| && s.phase[i] < DONE && forall j :: 0 <= j < i ==> s.phase[j] == DONE
    ensures CanStep(s)
  {
    assert HasThread(s.threads, i);
    var t :| 0 <= t < |s.threads| && s.threads[t].Running? && s.threads[t].iter == i;
    assert Handed(s.threads[t], s.phase, w);
    OutAtMonotone(w, i, total);
    EarliestIsEnabled(s, t);
  }

  lemma EarliestIsEnabled(s: State, t: nat)
    requires Shape(s) && Discipline(s.phase, s.counterHeld)
    requires Tokens(s.phase, s.inLock, IN_SPAN) && Tokens(s.phase, s.outLock, OUT_SPAN)
    requires t < |s.threads| && s.threads[t].Running?
    requires forall j :: 0 <= j < s.threads[t].iter ==> s.phase[j] == DONE
    requires s.phase[s.threads[t].iter] == WORK ==> s.threads[t].outp <= |s.out|
    ensures Enabled(s, t)
  {
    var i := s.threads[t].iter;
    var p := s.phase[i];
    if p == LOCK_IN {
      SlotFree(s.phase, s.counterHeld, s.inLock, IN_SPAN, i, i % IOC_SIZE);
    } else if p == LOCK_NEXT_IN {
      SlotFree(s.phase, s.counterHeld, s.inLock, IN_SPAN, i, (i + 1) % IOC_SIZE);
    } else if p == LOCK_NEXT_OUT {
      SlotFree(s.phase, s.counterHeld, s.outLock, OUT_SPAN, i, (i + 1) % IOC_SIZE);
    } else if p == LOCK_OUT {
      SlotFree(s.phase, s.counterHeld, s.outLock, OUT_SPAN, i, i % IOC_SIZE);
    }
  }

  /** The slot that iteration i waits for, if it waits for one of this span. */
  predicate WaitsFor(ph: seq<nat>, sp: Span, i: nat, k: nat)
    requires i < |ph|
  {
    || (sp == IN_SPAN && ph[i] == LOCK_IN && k == i % IOC_SIZE)
    || (sp == IN_SPAN && ph[i] == LOCK_NEXT_IN && k == (i + 1) % IOC_SIZE)
    || (sp == OUT_SPAN && ph[i] == LOCK_NEXT_OUT && k == (i + 1) % IOC_SIZE)
    || (sp == OUT_SPAN && ph[i] == LOCK_OUT && k == i % IOC_SIZE)
  }

  lemma NoHolder(ph: seq<nat>, held: bool, sp: Span, i: nat, k: nat, l: Lock)
    requires Discipline(ph, held) && l.Held?
    requires i < |ph| && (forall j :: 0 <= j < i ==> ph[j] == DONE) && WaitsFor(ph, sp, i, k)
    ensures !Justified(ph, l, k, sp)
  {
    LongGone(ph, held, i);
    GoneBefore(ph, held, i);
    assert Spaced(ph, i);
  }

  lemma SlotFree(ph: seq<nat>, held: bool, lock: seq<Lock>, sp: Span, i: nat, k: nat)
    requires Discipline(ph, held) && Tokens(ph, lock, sp)
    requires i < |ph| && (forall j :: 0 <= j < i ==> ph[j] == DONE) && WaitsFor(ph, sp, i, k)
    ensures lock[k].Free?
  {
    if lock[k].Held? {
      NoHolder(ph, held, sp, i, k, lock[k]);
      assert false;
    }
  }

  /** Until everything is done, some thread can take a step: there is no deadlock. */
  lemma Progress(s: State, w: Work, total: nat)
    requires Inv(s, w, total) && s.threads != [] && !Finished(s)
    ensures CanStep(s)
  {
    AtMostDone(s.phase, s.counterHeld);
    if forall j :: 0 <= j < |s.phase| ==> s.phase[j] == DONE {
      assert Enabled(s, 0);
    } else {
      var j :| 0 <= j < |s.phase| && s.phase[j] != DONE;
      var i := Earliest(s.phase, j);
      EarliestCanStep(s, w, total, i);
    }
  }

  lemma AtMostDone(ph: seq<nat>, held: bool)
    requires Discipline(ph, held)
    ensures forall k :: 0 <= k < |ph| ==> ph[k] <= DONE
  {
    forall k | 0 <= k < |ph|
      ensures ph[k] <= DONE
    {
      assert Spaced(ph, k);
    }
  }

  lemma Earliest(ph: seq<nat>, j: nat) returns (i: nat)
    requires j < |ph| && ph[j] < DONE && forall k :: 0 <= k < |ph| ==> ph[k] <= DONE
    ensures i <= j && ph[i] < DONE && forall k :: 0 <= k < i ==> ph[k] == DONE
  {
    i := 0;
    while ph[i] == DONE
      invariant i <= j && forall k :: 0 <= k < i ==> ph[k] == DONE
      decreases j - i
    {
      i := i + 1;
    }
  }

  // ---------------------------------------------------------------- whole runs

  /** Steps still to be taken by iterations under way. */
  function Remaining(ph: seq<nat>): nat {
    if ph == [] then 0 else Remaining(ph[..|ph| - 1]) + if ph[|ph| - 1] < DONE then DONE - ph[|ph| - 1] else 0
  }

  function StepsLeft(s: State): nat { s.left * (DONE + 1) + Remaining(s.phase) }

  lemma {:induction false} RemainingAdvance(ph: seq<nat>, i: nat)
    requires i < |ph| && ph[i] < DONE
    ensures Remaining(ph[i := ph[i] + 1]) == Remaining(ph) - 1
    decreases |ph|
  {
    var ph1 := ph[i := ph[i] + 1];
    var m := |ph| - 1;
    if i < m {
      RemainingAdvance(ph[..m], i);
      assert ph1[..m] == ph[..m][i := ph[i] + 1];
    } else {
      assert ph1[..m] == ph[..m];
    }
  }

  /** Every step is one of a number fixed from the start, so that every run ends. */
  lemma StepsDecrease(s: State, t: nat, w: Work)
    requires Shape(s) && t < |s.threads| && Enabled(s, t)
    ensures StepsLeft(Step(s, t, w)) == StepsLeft(s) - 1
  {
    if s.threads[t].Idle? {
      assert (s.phase + [LOCK_IN])[..|s.phase|] == s.phase;
    } else {
      RemainingAdvance(s.phase, s.threads[t].iter);
    }
  }

  /** The threads of the schedule step one after the other, none of them while it has to wait. */
  ghost predicate CanRun(s: State, w: Work, schedule: seq<nat>)
    decreases |schedule|
  {
    schedule == []
    || (Shape(s) && schedule[0] < |s.threads| && Enabled(s, schedule[0]) && CanRun(Step(s, schedule[0], w), w, schedule[1..]))
  }

  ghost function RunOf(s: State, w: Work, schedule: seq<nat>): State
    requires CanRun(s, w, schedule)
    decreases |schedule|
  {
    if schedule == [] then s else RunOf(Step(s, schedule[0], w), w, schedule[1..])
  }

  /** Every step keeps what inv says. */
  ghost predicate Inductive(inv: State -> bool, w: Work) {
    forall s: State, t: nat {:trigger Step(s, t, w)} ::
      inv(s) && Shape(s) && t < |s.threads| && Enabled(s, t) ==> inv(Step(s, t, w))
  }

  lemma {:induction false} RunKeeps(s: State, w: Work, inv: State -> bool, schedule: seq<nat>)
    requires inv(s) && Inductive(inv, w) && CanRun(s, w, schedule)
    ensures inv(RunOf(s, w, schedule)) && |RunOf(s, w, schedule).threads| == |s.threads|
    ensures |schedule| + StepsLeft(RunOf(s, w, schedule)) == StepsLeft(s)
    decreases |schedule|
  {
    if schedule != [] {
      StepsDecrease(s, schedule[0], w);
      RunKeeps(Step(s, schedule[0], w), w, inv, schedule[1..]);
    }
  }

  lemma InvIsInductive(w: Work, total: nat)
    ensures Inductive((s: State) => Inv(s, w, total), w)
  {
    forall s: State, t: nat | Inv(s, w, total) && t < |s.threads| && Enabled(s, t)
      ensures Inv(Step(s, t, w), w, total)
    {
      StepKeeps(s, t, w, total);
    }
  }

  lemma {:induction false} SequentialIs(s: State, w: Work, total: nat, n: nat)
    requires Written(s, w, total) && Finished(s) && n <= total
    ensures OutAt(w, n) <= |s.out| && s.out[..OutAt(w, n)] == Sequential(w, n)
  {
    OutAtMonotone(w, n, total);
    if n > 0 {
      SequentialIs(s, w, total, n - 1);
      OutAtMonotone(w, n - 1, n);
      assert BlockAt(s.out, w, n - 1);
      assert s.out[..OutAt(w, n)] == s.out[..OutAt(w, n - 1)] + s.out[OutAt(w, n - 1)..OutAt(w, n)];
    }
  }

  /**
   However the threads are interleaved, a run is at most 15 steps per iteration long; as long as it is
   shorter some thread can go on; and when it can not, the output is that of the sequential loop.
   */
  lemma EveryRunIsSequential(s: State, w: Work, total: nat, schedule: seq<nat>)
    requires Init(s, w, total) && s.threads != [] && CanRun(s, w, schedule)
    ensures |schedule| <= 15 * total
    ensures Shape(RunOf(s, w, schedule))
    ensures |schedule| < 15 * total <==> CanStep(RunOf(s, w, schedule))
    ensures |schedule| == 15 * total ==> OutAt(w, total) <= |RunOf(s, w, schedule).out|
                                         && RunOf(s, w, schedule).out[..OutAt(w, total)] == Sequential(w, total)
  {
    InitHolds(s, w, total);
    InvIsInductive(w, total);
    RunKeeps(s, w, (s: State) => Inv(s, w, total), schedule);
    var e := RunOf(s, w, schedule);
    if Finished(e) {
      NothingRemains(e.phase);
      SequentialIs(e, w, total, total);
      if t :| 0 <= t < |e.threads| && Enabled(e, t) {
        StepsDecrease(e, t, w);
      }
    } else {
      Progress(e, w, total);
      var t :| 0 <= t < |e.threads| && Enabled(e, t);
      StepsDecrease(e, t, w);
    }
  }

  lemma {:induction false} NothingRemains(ph: seq<nat>)
    requires forall i :: 0 <= i < |ph| ==> ph[i] == DONE
    ensures Remaining(ph) == 0
  {
    if ph != [] {
      NothingRemains(ph[..|ph| - 1]);
    }
  }
}
