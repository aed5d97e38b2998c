/** Any number of threads making system calls, interleaved. The threads share the world;
    each has its own registers, stack and darling_errno. A failing call takes two steps,
    between which other threads may run: the dispatch, and cerror's store. */
module ThreadRuns {
  import opened Words
  import X86
  import opened SyscallTypes
  import Dispatch
  import opened Stubs
  import opened ThreadErrors

  datatype Event =
    // A stub entered in state c runs up to the branch on the carry flag.
    | CallStub(thread: Thread, c: X86.Cpu, stack: Dispatch.StackArgs, number: nat)
    // The thread's cerror stores the error its stub passed on.
    | StoreError(thread: Thread)
    // The thread calls darling_set_cerror itself.
    | SetErrno(thread: Thread, err: Int32)

  type History = seq<Event>

  /** `pending` holds the error of each thread that is between its stub and cerror. */
  datatype State<W> = State(world: W, errnos: map<Thread, Int32>, pending: map<Thread, Int32>)

  function ErrnoOf<W>(s: State<W>, t: Thread): Int32 {
    if t in s.errnos then s.errnos[t] else 0
  }

  predicate Enabled<W>(k: Emulation<W>, s: State<W>, e: Event) {
    match e
    case CallStub(t, c, stack, number) =>
      && t !in s.pending && c.rsp >= 24 && number < 0x100_0000
      && !RunStub(k, c, stack, number, s.world).Crash?
    case StoreError(t) => t in s.pending
    case SetErrno(t, _) => t !in s.pending
  }

  function Next<W>(k: Emulation<W>, s: State<W>, e: Event): State<W>
    requires Enabled(k, s, e)
  {
    match e
    case CallStub(t, c, stack, number) =>
      (match RunStub(k, c, stack, number, s.world)
       case Success(_, _, _, w) => s.(world := w)
       case Failure(error, w) => s.(world := w, pending := s.pending[t := error])
       case Crash => s)
    case StoreError(t) =>
      s.(errnos := s.errnos[t := s.pending[t]], pending := s.pending - {t})
    case SetErrno(t, err) =>
      s.(errnos := s.errnos[t := err])
  }

  /** The state a history leads to from s, if each of its events could happen in its turn. */
  datatype Reached<W> = Stuck | At(s: State<W>)

  function Run<W>(k: Emulation<W>, s: State<W>, history: History): Reached<W>
    decreases |history|
  {
    if history == [] then At(s)
    else
      var last := |history| - 1;
      match Run(k, s, history[..last])
      case Stuck => Stuck
      case At(s') =>
        if Enabled(k, s', history[last]) then At(Next(k, s', history[last])) else Stuck
  }

  /** The world after a history: what its calls, one after the other, make of it. Errnos,
      threads and Run do not appear in this definition. */
  function WorldAfter<W>(k: Emulation<W>, world: W, history: History): W
    decreases |history|
  {
    if history == [] then world
    else
      var last := |history| - 1;
      var w := WorldAfter(k, world, history[..last]);
      match history[last]
      case CallStub(_, c, stack, number) =>
        (match Outcome(k, c, stack, number, w)
         case Crash => w
         case Success(_, _, _, w') => w'
         case Failure(_, w') => w')
      case _ => w
  }

  /** The run of a stub; a call that the machine has no room for crashes. */
  function Outcome<W>(k: Emulation<W>, c: X86.Cpu, stack: Dispatch.StackArgs, number: nat, world: W): StubRun<W> {
    if c.rsp >= 24 && number < 0x100_0000 then RunStub(k, c, stack, number, world) else Crash
  }

  /** Every call of a history runs in the world that the calls before it left. */
  lemma {:induction false} WorldIsShared<W>(k: Emulation<W>, s: State<W>, history: History)
    requires Run(k, s, history).At?
    ensures Run(k, s, history).s.world == WorldAfter(k, s.world, history)
    decreases |history|
  {
    if history != [] {
      WorldIsShared(k, s, history[..|history| - 1]);
    }
  }

  /** What each step does to world, errnos and pending errors. */
  lemma StepEffect<W>(k: Emulation<W>, s: State<W>, e: Event)
    requires Enabled(k, s, e)
    ensures var s' := Next(k, s, e);
            match e
            case CallStub(t, c, stack, number) =>
              var run := RunStub(k, c, stack, number, s.world);
              && s'.world == run.world && s'.errnos == s.errnos
              && s'.pending == if run.Failure? then s.pending[t := run.error] else s.pending
            case StoreError(t) =>
              && s'.world == s.world && s'.errnos == s.errnos[t := s.pending[t]]
              && t !in s'.pending && forall u | u != t ::
                   u in s'.pending <==> u in s.pending && (u in s.pending ==> s'.pending[u] == s.pending[u])
            case SetErrno(t, err) => s' == s.(errnos := s.errnos[t := err])
  {
  }

  /** A call made from s: where it leads, and, if it fails, where the store of its error then
      leads. */
  lemma CallSteps<W>(k: Emulation<W>, s: State<W>, e: Event)
    requires e.CallStub? && e.thread !in s.pending && e.c.rsp >= 24 && e.number < 0x100_0000
    ensures match RunStub(k, e.c, e.stack, e.number, s.world)
            case Crash => Run(k, s, [e]) == Stuck
            case Success(_, _, _, w) => Run(k, s, [e]) == At(s.(world := w))
            case Failure(error, w) =>
              Run(k, s, [e, StoreError(e.thread)]) == At(s.(world := w, errnos := s.errnos[e.thread := error]))
  {
    var call, both := [e], [e, StoreError(e.thread)];
    assert call[..0] == [] && both[..1] == call;
    assert Run(k, s, []) == At(s);
    if RunStub(k, e.c, e.stack, e.number, s.world).Failure? {
      var error := RunStub(k, e.c, e.stack, e.number, s.world).error;
      assert s.pending[e.thread := error] - {e.thread} == s.pending;
    }
  }

  lemma SetStep<W>(k: Emulation<W>, s: State<W>, t: Thread, err: Int32)
    requires t !in s.pending
    ensures Run(k, s, [SetErrno(t, err)]) == At(s.(errnos := s.errnos[t := err]))
  {
    assert [SetErrno(t, err)][..0] == [] && Run(k, s, []) == At(s);
  }

  /** The errno thread t should see: going back through the history, what its latest
      failing call returned or what it set itself, whichever is later. No other thread's
      errors and no cerror step appear in this definition. */
  function LatestError<W>(k: Emulation<W>, s: State<W>, history: History, t: Thread): Int32
    decreases |history|
  {
    if history == [] then ErrnoOf(s, t)
    else
      var last := |history| - 1;
      var earlier := history[..last];
      match history[last]
      case SetErrno(u, err) => if u == t then err else LatestError(k, s, earlier, t)
      case CallStub(u, c, stack, number) =>
        var run := Outcome(k, c, stack, number, WorldAfter(k, s.world, earlier));
        if u == t && run.Failure? then run.error else LatestError(k, s, earlier, t)
      case StoreError(_) => LatestError(k, s, earlier, t)
  }

  /** In every reachable state, whatever the interleaving, the error of thread t is its
      latest error: already stored, or on its way to cerror. */
  lemma {:induction false} ErrnoIsLatestError<W>(k: Emulation<W>, s: State<W>, history: History, t: Thread)
    requires t !in s.pending && Run(k, s, history).At?
    ensures var s' := Run(k, s, history).s;
            LatestError(k, s, history, t) == if t in s'.pending then s'.pending[t] else ErrnoOf(s', t)
    decreases |history|
  {
    if history != [] {
      var last := |history| - 1;
      ErrnoIsLatestError(k, s, history[..last], t);
      WorldIsShared(k, s, history[..last]);
    }
  }

  /** The projection of a history to one thread. */
  function Own(history: History, t: Thread): History
    decreases |history|
  {
    if history == [] then []
    else
      var last := |history| - 1;
      Own(history[..last], t) + if history[last].thread == t then [history[last]] else []
  }

  /** Steps of other threads never change a thread's errno or its pending error. */
  lemma {:induction false} OthersLeaveErrnoAlone<W>(k: Emulation<W>, s: State<W>, history: History, t: Thread)
    requires Run(k, s, history).At? && Own(history, t) == []
    ensures var s' := Run(k, s, history).s;
            && ErrnoOf(s', t) == ErrnoOf(s, t)
            && (t in s'.pending <==> t in s.pending)
            && (t in s.pending ==> s'.pending[t] == s.pending[t])
    decreases |history|
  {
    if history != [] {
      OthersLeaveErrnoAlone(k, s, history[..|history| - 1], t);
    }
  }
}
