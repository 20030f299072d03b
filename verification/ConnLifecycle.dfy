/** One ConnectionState over its lifetimes, as an interleaved step system: the Processing gate with its
    clear-then-recheck tail, the reference count, cancellation, and the reader and writer taken from shared pools
    (pkg/engine/engine.go, pkg/server/server.go).  Each atomic operation is one step; any number of callbacks
    interleave.  Panics are left out. */
module ConnLifecycle {
  import opened Wrappers

  /** Where a goroutine is.  The connection itself is one: it owns a reference from OnPrepare to OnDisconnect. */
  datatype Pc =
    | Owner | OwnerCancelled
    | Entered                                                        // acquired, before the gate
    | SeeReader | NeedReader | SeeWriter | NeedWriter | Serving      // holding the flag
    | Cleared | BufferSeen | Retry                                   // the tail: flag cleared, rechecking
    | Leaving                                                        // about to release
    | PutReader | PutWriter | ResetState | PutState                  // the rest of the last release
    | Gone

  predicate Holding(pc: Pc)
  {
    pc.SeeReader? || pc.NeedReader? || pc.SeeWriter? || pc.NeedWriter? || pc.Serving?
  }

  /** Holding a reference. */
  predicate Counted(pc: Pc)
  {
    Holding(pc) || pc.Owner? || pc.OwnerCancelled? || pc.Entered? || pc.Cleared? || pc.BufferSeen? || pc.Retry?
    || pc.Leaving?
  }

  predicate Finishing(pc: Pc)
  {
    pc.PutReader? || pc.PutWriter? || pc.ResetState? || pc.PutState?
  }

  datatype Channel = NoChannel | Open | Shut

  /** A pool shared with other connections, and this state's part in it. */
  datatype Resource = Resource(
    held: Option<nat>,       // the field: s.Reader or s.Writer
    free: multiset<nat>,     // the pool
    elsewhere: set<nat>,     // with other connections
    issued: nat,             // ids below this exist
    takes: nat, puts: nat)   // by this state, in this lifetime

  datatype State = State(
    threads: map<nat, Pc>,
    pooled: bool,            // back in connectionStatePool
    refCount: int,
    processing: bool,
    reader: Resource, writer: Resource,
    done: Channel, err: bool, closes: nat,
    net: nat, buffered: nat, // bytes in the connection and in the bufio.Reader
    arrived: nat, consumed: nat,
    notified: bool)          // netpoll owes a callback for bytes that arrived

  datatype Step =
    | Prepare(t: nat) | Arrive(n: nat) | Enter(t: nat)
    | Gate(t: nat)
    | LookReader(t: nat) | TakeReader(t: nat, id: nat) | LookWriter(t: nat) | TakeWriter(t: nat, id: nat)
    | Fill(t: nat, n: nat) | Consume(t: nat, n: nat)
    | Clear(t: nat) | ExitEarly(t: nat)
    | RecheckBuffered(t: nat) | RecheckNet(t: nat) | Regate(t: nat)
    | Cancel(t: nat)
    | Release(t: nat)
    | ReturnReader(t: nat) | ReturnWriter(t: nat) | Reset(t: nat) | ReturnState(t: nat)
    | OthersTake(writers: bool, id: nat) | OthersReturn(writers: bool, id: nat)

  const FRESH := Resource(None, multiset{}, {}, 0, 0, 0)

  function Init(): State
  {
    State(map[], true, 0, false, FRESH, FRESH, NoChannel, false, 0, 0, 0, 0, 0, false)
  }

  predicate At(s: State, t: nat, pc: Pc)
  {
    t in s.threads && s.threads[t] == pc
  }

  function Move(s: State, t: nat, pc: Pc): State
  {
    s.(threads := s.threads[t := pc])
  }

  function Who(threads: map<nat, Pc>, p: Pc -> bool): set<nat>
  {
    set t | t in threads && p(threads[t])
  }

  function Owns(pc: Pc): bool
  {
    pc.Owner? || pc.OwnerCancelled?
  }

  /** sync.Pool.Get: any free one, or a new one. */
  predicate CanTake(r: Resource, id: nat)
  {
    id in r.free || id == r.issued
  }

  function Taken(r: Resource, id: nat): Resource
  {
    r.(held := Some(id), free := r.free - multiset{id}, issued := if id == r.issued then id + 1 else r.issued,
       takes := r.takes + 1)
  }

  /** Put, when the field is not nil; the field keeps its value. */
  function Returned(r: Resource): Resource
  {
    if r.held.Some? then r.(free := r.free + multiset{r.held.value}, puts := r.puts + 1) else r
  }

  function Lent(r: Resource, id: nat): Resource
  {
    r.(free := r.free - multiset{id}, elsewhere := r.elsewhere + {id},
       issued := if id == r.issued then id + 1 else r.issued)
  }

  function Unlent(r: Resource, id: nat): Resource
  {
    r.(free := r.free + multiset{id}, elsewhere := r.elsewhere - {id})
  }

  /** Which steps the code and the event loop allow. */
  predicate Enabled(s: State, step: Step)
  {
    match step
    case Prepare(t) => s.pooled && t !in s.threads
    case Arrive(n) => n > 0 && Who(s.threads, Owns) != {}
    case Enter(t) => t !in s.threads && Who(s.threads, Owns) != {}
    case Gate(t) => At(s, t, Entered)
    case LookReader(t) => At(s, t, SeeReader)
    case TakeReader(t, id) => At(s, t, NeedReader) && CanTake(s.reader, id)
    case LookWriter(t) => At(s, t, SeeWriter)
    case TakeWriter(t, id) => At(s, t, NeedWriter) && CanTake(s.writer, id)
    case Fill(t, n) => At(s, t, Serving) && n <= s.net
    case Consume(t, n) => At(s, t, Serving) && n <= s.buffered
    case Clear(t) => At(s, t, Serving) && s.buffered == 0
    case ExitEarly(t) => At(s, t, Serving)
    case RecheckBuffered(t) => At(s, t, Cleared)
    case RecheckNet(t) => At(s, t, BufferSeen)
    case Regate(t) => At(s, t, Retry)
    case Cancel(t) => t in s.threads && Counted(s.threads[t])
    case Release(t) => At(s, t, OwnerCancelled) || At(s, t, Leaving)
    case ReturnReader(t) => At(s, t, PutReader)
    case ReturnWriter(t) => At(s, t, PutWriter)
    case Reset(t) => At(s, t, ResetState)
    case ReturnState(t) => At(s, t, PutState)
    case OthersTake(writers, id) => CanTake(if writers then s.writer else s.reader, id)
    case OthersReturn(writers, id) => id in (if writers then s.writer else s.reader).elsewhere
  }

  function Apply(s: State, step: Step): State
    requires Enabled(s, step)
  {
    match step
    case Prepare(t) => // NewConnectionState
      Move(s, t, Owner).(pooled := false, refCount := 1, done := Open, err := false, closes := 0,
                         net := 0, buffered := 0, arrived := 0, consumed := 0, notified := false,
                         reader := s.reader.(takes := 0, puts := 0), writer := s.writer.(takes := 0, puts := 0))
    case Arrive(n) => s.(net := s.net + n, arrived := s.arrived + n, notified := true)
    case Enter(t) => // AcquireConnectionState
      Move(s, t, Entered).(refCount := s.refCount + 1, notified := false)
    case Gate(t) => // CompareAndSwap(false, true), line 208
      if s.processing then Move(s, t, Leaving) else Move(s, t, SeeReader).(processing := true)
    case LookReader(t) => Move(s, t, if s.reader.held.None? then NeedReader else SeeWriter)
    case TakeReader(t, id) => Move(s, t, SeeWriter).(reader := Taken(s.reader, id))
    case LookWriter(t) => Move(s, t, if s.writer.held.None? then NeedWriter else Serving)
    case TakeWriter(t, id) => Move(s, t, Serving).(writer := Taken(s.writer, id))
    case Fill(t, n) => s.(net := s.net - n, buffered := s.buffered + n)
    case Consume(t, n) => s.(buffered := s.buffered - n, consumed := s.consumed + n)
    case Clear(t) => Move(s, t, Cleared).(processing := false) // line 399
    case ExitEarly(t) => Move(s, t, Leaving).(processing := false)
    case RecheckBuffered(t) => Move(s, t, if s.buffered > 0 then Retry else BufferSeen)
    case RecheckNet(t) => Move(s, t, if s.net > 0 then Retry else Leaving)
    case Regate(t) => // CompareAndSwap(false, true), line 408
      if s.processing then Move(s, t, Leaving) else Move(s, t, Serving).(processing := true)
    case Cancel(t) =>
      var s' := if s.threads[t].Owner? then Move(s, t, OwnerCancelled) else s;
      if s.err then s' else s'.(err := true, done := Shut, closes := s.closes + 1)
    case Release(t) => // AddInt32(-1), and the test for zero
      Move(s, t, if s.refCount == 1 then PutReader else Gone).(refCount := s.refCount - 1)
    case ReturnReader(t) => Move(s, t, PutWriter).(reader := Returned(s.reader))
    case ReturnWriter(t) => Move(s, t, ResetState).(writer := Returned(s.writer))
    case Reset(t) =>
      Move(s, t, PutState).(reader := s.reader.(held := None), writer := s.writer.(held := None),
                            processing := false, refCount := 0, done := NoChannel, err := false)
    case ReturnState(t) => Move(s, t, Gone).(pooled := true)
    case OthersTake(writers, id) =>
      if writers then s.(writer := Lent(s.writer, id)) else s.(reader := Lent(s.reader, id))
    case OthersReturn(writers, id) =>
      if writers then s.(writer := Unlent(s.writer, id)) else s.(reader := Unlent(s.reader, id))
  }

  predicate Legal(s: State, steps: seq<Step>)
    decreases |steps|
  {
    steps != [] ==> Enabled(s, steps[0]) && Legal(Apply(s, steps[0]), steps[1..])
  }

  function Exec(s: State, steps: seq<Step>): State
    requires Legal(s, steps)
    decreases |steps|
  {
    if steps == [] then s else Exec(Apply(s, steps[0]), steps[1..])
  }

  // ----- the invariant

  /** The count is the number of references; the flag is up exactly while one goroutine holds it; after the last
      release exactly one goroutine tidies up, and after that nobody is left. */
  ghost predicate CountInv(s: State)
  {
    && s.refCount == |Who(s.threads, Counted)|
    && |Who(s.threads, Holding)| == (if s.processing then 1 else 0)
    && |Who(s.threads, Finishing)| == (if !s.pooled && s.refCount == 0 then 1 else 0)
    && (s.pooled ==> s.refCount == 0)
  }

  /** Where a reader or writer can be, given what the goroutines are doing. */
  ghost predicate HeldInv(threads: map<nat, Pc>, pooled: bool, refCount: int, reader: Resource, writer: Resource)
  {
    && reader.takes <= 1 && writer.takes <= 1
    && (refCount > 0 ==>
          && reader.puts == 0 && writer.puts == 0
          && reader.takes == (if reader.held.Some? then 1 else 0)
          && writer.takes == (if writer.held.Some? then 1 else 0))
    && (forall t :: t in threads ==> PcOk(threads[t], reader, writer))
    && (pooled ==> Back(reader, true, true) && Back(writer, true, true))
  }

  /** What a goroutine may rely on where it is. */
  ghost predicate PcOk(pc: Pc, reader: Resource, writer: Resource)
  {
    match pc
    case NeedReader => reader.held.None?
    case SeeWriter => reader.held.Some?
    case NeedWriter => reader.held.Some? && writer.held.None?
    case Serving => reader.held.Some? && writer.held.Some?
    case Cleared => reader.held.Some? && writer.held.Some?
    case BufferSeen => reader.held.Some? && writer.held.Some?
    case Retry => reader.held.Some? && writer.held.Some?
    case PutReader => Back(reader, false, false) && Back(writer, false, false)
    case PutWriter => Back(reader, true, false) && Back(writer, false, false)
    case ResetState => Back(reader, true, false) && Back(writer, true, false)
    case PutState => Back(reader, true, true) && Back(writer, true, true)
    case _ => true
  }

  /** Put back or not, and the field cleared or not. */
  ghost predicate Back(r: Resource, put: bool, cleared: bool)
  {
    && (cleared ==> r.held.None? && r.puts == r.takes)
    && (!cleared ==> r.takes == (if r.held.Some? then 1 else 0) && r.puts == if put then r.takes else 0)
  }

  /** Each reader or writer is in one place: the pool, another connection, or here until it is put back. */
  ghost predicate TokenInv(r: Resource)
  {
    forall id: nat :: Places(r, id) == Issued(r, id)
  }

  /** The done channel is open or closed while anyone may use the state, and closed at most once. */
  ghost predicate DoneInv(s: State)
  {
    && s.closes <= 1
    && (s.refCount > 0 ==> s.done == (if s.err then Shut else Open) && s.closes == (if s.err then 1 else 0))
  }

  /** No byte is lost or made up between the connection and the handler. */
  predicate Balanced(s: State)
  {
    s.arrived == s.consumed + s.net + s.buffered
  }

  /** Goroutine t will look at the bytes there are before it leaves.  One that has already seen an empty buffer looks
      only at the connection. */
  predicate Looks(s: State, t: nat)
  {
    && t in s.threads
    && var pc := s.threads[t];
       Holding(pc) || pc.Entered? || pc.Cleared? || pc.Retry? || (pc.BufferSeen? && s.net > 0)
  }

  /** Bytes that nobody will look at: no callback is owed for them and no goroutine is left that will. */
  ghost predicate Stranded(s: State)
  {
    s.arrived > s.consumed && !s.notified && forall t :: !Looks(s, t)
  }

  ghost predicate Inv(s: State)
  {
    && CountInv(s)
    && HeldInv(s.threads, s.pooled, s.refCount, s.reader, s.writer)
    && TokenInv(s.reader) && TokenInv(s.writer)
    && DoneInv(s)
  }

  ghost predicate Reachable(s: State)
  {
    exists steps: seq<Step> :: Legal(Init(), steps) && Exec(Init(), steps) == s
  }

  /** An early exit clears the flag and does not look again.  It is careful when everything is consumed, or a
      callback is owed, or another goroutine will look. */
  ghost predicate Careful(s: State, step: Step)
  {
    step.ExitEarly? ==> s.arrived == s.consumed || s.notified || exists u :: u != step.t && Looks(s, u)
  }

  ghost predicate CarefulRun(s: State, steps: seq<Step>)
    requires Legal(s, steps)
    decreases |steps|
  {
    steps != [] ==> Careful(s, steps[0]) && CarefulRun(Apply(s, steps[0]), steps[1..])
  }

  /** No state the run goes through has stranded bytes. */
  ghost predicate NeverStranded(s: State, steps: seq<Step>)
    requires Legal(s, steps)
    decreases |steps|
  {
    !Stranded(s) && (steps != [] ==> NeverStranded(Apply(s, steps[0]), steps[1..]))
  }

  // ----- counting goroutines

  /** The steps of a callback between its acquire and its release; the others are the connection's, the last
      release's, and the pools'. */
  predicate InPass(step: Step)
  {
    step.Gate? || Setup(step) || step.Fill? || step.Consume? || step.Clear? || step.ExitEarly? || Tail(step)
  }

  predicate Setup(step: Step)
  {
    step.LookReader? || step.TakeReader? || step.LookWriter? || step.TakeWriter?
  }

  predicate Tail(step: Step)
  {
    step.RecheckBuffered? || step.RecheckNet? || step.Regate?
  }

  lemma WhoSet(threads: map<nat, Pc>, t: nat, pc: Pc, p: Pc -> bool)
    ensures Who(threads[t := pc], p) == if p(pc) then Who(threads, p) + {t} else Who(threads, p) - {t}
    ensures t in Who(threads, p) <==> t in threads && p(threads[t])
  {
  }

  lemma WhoMove(threads: map<nat, Pc>, t: nat, pc: Pc, p: Pc -> bool)
    ensures Who(threads[t := pc], p) == if p(pc) then Who(threads, p) + {t} else Who(threads, p) - {t}
    ensures |Who(threads[t := pc], p)|
         == |Who(threads, p)| + (if p(pc) then 1 else 0) - (if t in threads && p(threads[t]) then 1 else 0)
  {
    hide Who;
    WhoSet(threads, t, pc, p);
  }

  lemma One(threads: map<nat, Pc>, t: nat, p: Pc -> bool)
    requires t in threads && p(threads[t])
    ensures t in Who(threads, p) && |Who(threads, p)| >= 1
    ensures |Who(threads, p)| == 1 ==> forall u :: u in threads && p(threads[u]) ==> u == t
  {
    var w := Who(threads, p);
    assert t in w && |w - {t}| == |w| - 1;
    assert forall u :: u in threads && p(threads[u]) && u != t ==> u in w - {t};
  }

  /** What moving one goroutine does to the three counts. */
  lemma Counts(threads: map<nat, Pc>, t: nat, pc: Pc)
    ensures var was := t in threads;
            && |Who(threads[t := pc], Counted)|
               == |Who(threads, Counted)| + (if Counted(pc) then 1 else 0) - (if was && Counted(threads[t]) then 1 else 0)
            && |Who(threads[t := pc], Holding)|
               == |Who(threads, Holding)| + (if Holding(pc) then 1 else 0) - (if was && Holding(threads[t]) then 1 else 0)
            && |Who(threads[t := pc], Finishing)|
               == |Who(threads, Finishing)| + (if Finishing(pc) then 1 else 0) - (if was && Finishing(threads[t]) then 1 else 0)
  {
    WhoMove(threads, t, pc, Counted);
    WhoMove(threads, t, pc, Holding);
    WhoMove(threads, t, pc, Finishing);
  }

  lemma HoldersAreCounted(threads: map<nat, Pc>)
    ensures |Who(threads, Holding)| <= |Who(threads, Counted)|
    ensures Who(threads, Owns) != {} ==> |Who(threads, Counted)| >= 1
  {
    SubsetSize(Who(threads, Holding), Who(threads, Counted));
    SubsetSize(Who(threads, Owns), Who(threads, Counted));
  }

  lemma {:induction false} SubsetSize(a: set<nat>, b: set<nat>)
    requires a <= b
    ensures |a| <= |b|
  {
    assert b == a + (b - a);
  }

  /** The goroutine a step belongs to. */
  function Actor(step: Step): Option<nat>
  {
    match step
    case Arrive(_) => None
    case OthersTake(_, _) => None
    case OthersReturn(_, _) => None
    case _ => Some(step.t)
  }

  /** The standing of the goroutine that takes a step, in numbers. */
  lemma ActorStanding(s: State, step: Step)
    requires CountInv(s) && Enabled(s, step) && Actor(step).Some? && Actor(step).value in s.threads
    ensures var pc := s.threads[Actor(step).value];
            && (Counted(pc) ==> s.refCount >= 1 && !s.pooled)
            && (Holding(pc) ==> s.processing)
            && (Finishing(pc) ==> s.refCount == 0 && !s.pooled && !s.processing)
  {
    var t := Actor(step).value;
    HoldersAreCounted(s.threads);
    if Counted(s.threads[t]) {
      One(s.threads, t, Counted);
    }
    if Holding(s.threads[t]) {
      One(s.threads, t, Holding);
    }
    if Finishing(s.threads[t]) {
      One(s.threads, t, Finishing);
    }
  }

  lemma CountKeptInPass(s: State, step: Step)
    requires CountInv(s) && Enabled(s, step) && InPass(step)
    ensures CountInv(Apply(s, step))
  {
    hide Who, Taken, Returned, Lent, Unlent, CanTake;
    var s' := Apply(s, step);
    var t, pc := step.t, s'.threads[step.t];
    assert s'.threads == s.threads[t := pc] && s'.refCount == s.refCount && s'.pooled == s.pooled;
    Counts(s.threads, t, pc);
    ActorStanding(s, step);
  }

  lemma CountKept(s: State, step: Step)
    requires CountInv(s) && Enabled(s, step)
    ensures CountInv(Apply(s, step))
  {
    hide Who, Taken, Returned, Lent, Unlent, CanTake;
    if InPass(step) {
      CountKeptInPass(s, step);
    } else {
      HoldersAreCounted(s.threads);
      if Actor(step).Some? {
        Counts(s.threads, step.t, Apply(s, step).threads[step.t]);
        if step.t in s.threads {
          ActorStanding(s, step);
        }
      }
    }
  }

  // ----- the other parts

  /** How many places hold a token. */
  function Places(r: Resource, id: nat): nat
  {
    r.free[id] + (if id in r.elsewhere then 1 else 0) + (if r.held == Some(id) && r.puts == 0 then 1 else 0)
  }

  lemma ResourceSteps(r: Resource, id: nat)
    requires TokenInv(r)
    ensures CanTake(r, id) && r.held.None? && r.puts == 0 ==> TokenInv(Taken(r, id))
    ensures r.puts == 0 ==> TokenInv(Returned(r))
    ensures r.held.None? || r.puts > 0 ==> TokenInv(r.(held := None))
    ensures r.held.None? ==> TokenInv(r.(takes := 0, puts := 0))
    ensures CanTake(r, id) ==> TokenInv(Lent(r, id))
    ensures id in r.elsewhere ==> TokenInv(Unlent(r, id))
  {
    forall k: nat
      ensures Places(r, k) == Issued(r, k)
      ensures CanTake(r, id) && r.held.None? && r.puts == 0 ==> Places(Taken(r, id), k) == Issued(Taken(r, id), k)
      ensures r.puts == 0 ==> Places(Returned(r), k) == Issued(r, k)
      ensures r.held.None? || r.puts > 0 ==> Places(r.(held := None), k) == Issued(r, k)
      ensures r.held.None? ==> Places(r.(takes := 0, puts := 0), k) == Issued(r, k)
      ensures CanTake(r, id) ==> Places(Lent(r, id), k) == Issued(Lent(r, id), k)
      ensures id in r.elsewhere ==> Places(Unlent(r, id), k) == Issued(r, k)
    {
      assert Places(r, id) == Issued(r, id);
    }
  }

  function Issued(r: Resource, id: nat): nat
  {
    if id < r.issued then 1 else 0
  }

  lemma TokensKeptInPass(s: State, step: Step)
    requires CountInv(s) && HeldInv(s.threads, s.pooled, s.refCount, s.reader, s.writer) && Enabled(s, step)
    requires TokenInv(s.reader) && TokenInv(s.writer) && InPass(step)
    ensures TokenInv(Apply(s, step).reader) && TokenInv(Apply(s, step).writer)
  {
    hide Who, TokenInv;
    ActorStanding(s, step);
    if step.TakeReader? {
      ResourceSteps(s.reader, step.id);
    } else if step.TakeWriter? {
      ResourceSteps(s.writer, step.id);
    }
  }

  lemma TokensKept(s: State, step: Step)
    requires CountInv(s) && HeldInv(s.threads, s.pooled, s.refCount, s.reader, s.writer) && Enabled(s, step)
    requires TokenInv(s.reader) && TokenInv(s.writer)
    ensures TokenInv(Apply(s, step).reader) && TokenInv(Apply(s, step).writer)
  {
    hide Who, TokenInv, CountInv, Taken, Returned, Lent, Unlent;
    if InPass(step) {
      TokensKeptInPass(s, step);
    } else {
      var id := if step.OthersTake? || step.OthersReturn? then step.id else 0;
      ResourceSteps(s.reader, id);
      ResourceSteps(s.writer, id);
    }
  }

  lemma DoneKept(s: State, step: Step)
    requires CountInv(s) && DoneInv(s) && Enabled(s, step)
    ensures DoneInv(Apply(s, step))
  {
    hide Who, Taken, Returned, Lent, Unlent, CanTake;
    HoldersAreCounted(s.threads);
    if Actor(step).Some? && Actor(step).value in s.threads {
      ActorStanding(s, step);
    }
  }

  lemma HeldKeptInPass(s: State, step: Step)
    requires CountInv(s) && HeldInv(s.threads, s.pooled, s.refCount, s.reader, s.writer) && Enabled(s, step)
    requires InPass(step)
    ensures var s' := Apply(s, step); HeldInv(s'.threads, s'.pooled, s'.refCount, s'.reader, s'.writer)
  {
    hide Who, CountInv, Returned, Lent, Unlent, CanTake;
    var s' := Apply(s, step);
    ActorStanding(s, step);
    Alone(s, step.t);
    forall u | u in s'.threads
      ensures PcOk(s'.threads[u], s'.reader, s'.writer)
    {
      assert u in s.threads && PcOk(s.threads[u], s.reader, s.writer);
    }
  }

  lemma HeldKeptLast(s: State, step: Step)
    requires CountInv(s) && HeldInv(s.threads, s.pooled, s.refCount, s.reader, s.writer) && Enabled(s, step)
    requires step.Release? || step.ReturnReader? || step.ReturnWriter? || step.Reset? || step.ReturnState?
    ensures var s' := Apply(s, step); HeldInv(s'.threads, s'.pooled, s'.refCount, s'.reader, s'.writer)
  {
    hide Who, CountInv, Taken, Lent, Unlent, CanTake;
    var s' := Apply(s, step);
    ActorStanding(s, step);
    Alone(s, step.t);
    forall u | u in s'.threads
      ensures PcOk(s'.threads[u], s'.reader, s'.writer)
    {
      assert u in s.threads && PcOk(s.threads[u], s.reader, s.writer);
    }
  }

  /** Only the field and the two counters of a resource matter to HeldInv. */
  lemma HeldFrame(threads: map<nat, Pc>, pooled: bool, refCount: int, reader: Resource, writer: Resource,
                  reader': Resource, writer': Resource)
    requires HeldInv(threads, pooled, refCount, reader, writer)
    requires reader'.held == reader.held && reader'.takes == reader.takes && reader'.puts == reader.puts
    requires writer'.held == writer.held && writer'.takes == writer.takes && writer'.puts == writer.puts
    ensures HeldInv(threads, pooled, refCount, reader', writer')
  {
    forall u | u in threads
      ensures PcOk(threads[u], reader', writer')
    {
      assert PcOk(threads[u], reader, writer);
    }
  }

  /** A goroutine that relies on nothing may come or move. */
  lemma HeldMove(threads: map<nat, Pc>, t: nat, pc: Pc, pooled: bool, refCount: int, refCount': int,
                 reader: Resource, writer: Resource)
    requires HeldInv(threads, pooled, refCount, reader, writer) && PcOk(pc, reader, writer)
    requires refCount' > 0 ==> refCount > 0
    ensures HeldInv(threads[t := pc], pooled, refCount', reader, writer)
  {
  }

  lemma HeldKeptOutside(s: State, step: Step)
    requires CountInv(s) && HeldInv(s.threads, s.pooled, s.refCount, s.reader, s.writer) && Enabled(s, step)
    requires step.Arrive? || step.Enter? || step.Cancel? || step.OthersTake? || step.OthersReturn?
    ensures var s' := Apply(s, step); HeldInv(s'.threads, s'.pooled, s'.refCount, s'.reader, s'.writer)
  {
    hide Who, CountInv, CanTake, HeldInv;
    if step.Enter? || step.Cancel? {
      HeldKeptComing(s, step.t);
    } else {
      var s' := Apply(s, step);
      HeldFrame(s.threads, s.pooled, s.refCount, s.reader, s.writer, s'.reader, s'.writer);
    }
  }

  lemma HeldKeptComing(s: State, t: nat)
    requires CountInv(s) && HeldInv(s.threads, s.pooled, s.refCount, s.reader, s.writer)
    ensures Enabled(s, Enter(t)) ==> var s' := Apply(s, Enter(t));
              HeldInv(s'.threads, s'.pooled, s'.refCount, s'.reader, s'.writer)
    ensures Enabled(s, Cancel(t)) ==> var s' := Apply(s, Cancel(t));
              HeldInv(s'.threads, s'.pooled, s'.refCount, s'.reader, s'.writer)
  {
    hide Who, CountInv, HeldInv;
    OwnersCount(s);
    if Enabled(s, Enter(t)) {
      HeldMove(s.threads, t, Entered, s.pooled, s.refCount, s.refCount + 1, s.reader, s.writer);
    }
    HeldMove(s.threads, t, OwnerCancelled, s.pooled, s.refCount, s.refCount, s.reader, s.writer);
  }

  lemma HeldKeptPrepare(s: State, t: nat)
    requires CountInv(s) && HeldInv(s.threads, s.pooled, s.refCount, s.reader, s.writer) && Enabled(s, Prepare(t))
    ensures var s' := Apply(s, Prepare(t)); HeldInv(s'.threads, s'.pooled, s'.refCount, s'.reader, s'.writer)
  {
    hide Who, CountInv;
    NobodyLeft(s);
  }

  lemma OwnersCount(s: State)
    requires CountInv(s)
    ensures Who(s.threads, Owns) != {} ==> s.refCount >= 1 && !s.pooled
  {
    hide Who;
    HoldersAreCounted(s.threads);
  }

  /** No goroutine but the one that holds the flag, or the one that tidies up, changes what the fields hold. */
  lemma HeldKept(s: State, step: Step)
    requires CountInv(s) && HeldInv(s.threads, s.pooled, s.refCount, s.reader, s.writer) && Enabled(s, step)
    ensures var s' := Apply(s, step); HeldInv(s'.threads, s'.pooled, s'.refCount, s'.reader, s'.writer)
  {
    if InPass(step) {
      HeldKeptInPass(s, step);
    } else if step.Release? || step.ReturnReader? || step.ReturnWriter? || step.Reset? || step.ReturnState? {
      HeldKeptLast(s, step);
    } else if step.Prepare? {
      HeldKeptPrepare(s, step.t);
    } else {
      HeldKeptOutside(s, step);
    }
  }

  /** The holder of the flag is the only one; so is the goroutine that tidies up, and then nobody holds a
      reference. */
  lemma Alone(s: State, t: nat)
    requires CountInv(s) && t in s.threads
    ensures Holding(s.threads[t]) ==> forall u :: u in s.threads && Holding(s.threads[u]) ==> u == t
    ensures Finishing(s.threads[t]) ==> forall u :: u in s.threads && Finishing(s.threads[u]) ==> u == t
    ensures Finishing(s.threads[t]) ==> forall u :: u in s.threads ==> !Counted(s.threads[u])
    ensures Counted(s.threads[t]) ==> forall u :: u in s.threads ==> !Finishing(s.threads[u])
    ensures Counted(s.threads[t]) && s.refCount == 1 ==> forall u :: u in s.threads && Counted(s.threads[u]) ==> u == t
  {
    if Holding(s.threads[t]) {
      One(s.threads, t, Holding);
    }
    if Finishing(s.threads[t]) {
      One(s.threads, t, Finishing);
      forall u | u in s.threads
        ensures !Counted(s.threads[u])
      {
        assert u in Who(s.threads, Counted) <==> Counted(s.threads[u]);
      }
    }
    if Counted(s.threads[t]) {
      One(s.threads, t, Counted);
      forall u | u in s.threads
        ensures !Finishing(s.threads[u])
      {
        assert u in Who(s.threads, Finishing) <==> Finishing(s.threads[u]);
      }
    }
  }

  lemma NobodyLeft(s: State)
    requires CountInv(s) && s.pooled
    ensures forall u :: u in s.threads ==> s.threads[u] == Gone
  {
    forall u | u in s.threads
      ensures s.threads[u] == Gone
    {
      assert u in Who(s.threads, Counted) <==> Counted(s.threads[u]);
      assert u in Who(s.threads, Finishing) <==> Finishing(s.threads[u]);
    }
  }

  lemma BalanceKept(s: State, step: Step)
    requires Balanced(s) && Enabled(s, step)
    ensures Balanced(Apply(s, step))
  {
    hide Who, Taken, Returned, Lent, Unlent, CanTake;
  }

  /** When the flag is up, its holder will look. */
  lemma HolderLooks(s: State)
    requires CountInv(s) && s.processing
    ensures exists u :: Looks(s, u) && Holding(s.threads[u])
  {
    var u :| u in Who(s.threads, Holding);
    assert Looks(s, u);
  }

  /** Inside the serving region the goroutine itself still looks. */
  lemma ServingLooks(s: State, step: Step)
    requires Enabled(s, step) && (Setup(step) || step.Fill? || step.Consume? || step.Clear?)
    ensures Looks(Apply(s, step), step.t)
  {
    hide Taken, CanTake;
  }

  /** Whoever the gate turns away leaves the holder behind. */
  lemma GateLooks(s: State, t: nat)
    requires CountInv(s) && (Enabled(s, Gate(t)) || Enabled(s, Regate(t)))
    ensures Enabled(s, Gate(t)) ==> !Stranded(Apply(s, Gate(t)))
    ensures Enabled(s, Regate(t)) ==> !Stranded(Apply(s, Regate(t)))
  {
    hide CountInv;
    if s.processing {
      HolderLooks(s);
      var u :| Looks(s, u) && Holding(s.threads[u]);
      assert Enabled(s, Gate(t)) ==> Looks(Apply(s, Gate(t)), u);
      assert Enabled(s, Regate(t)) ==> Looks(Apply(s, Regate(t)), u);
    } else {
      assert Enabled(s, Gate(t)) ==> Looks(Apply(s, Gate(t)), t);
      assert Enabled(s, Regate(t)) ==> Looks(Apply(s, Regate(t)), t);
    }
  }

  /** The recheck misses nothing: whoever leaves has seen an empty buffer and then an empty connection, and what was
      buffered in between is another's. */
  lemma RecheckLooks(s: State, t: nat)
    requires Balanced(s) && !Stranded(s)
    ensures Enabled(s, RecheckBuffered(t)) ==> !Stranded(Apply(s, RecheckBuffered(t)))
    ensures Enabled(s, RecheckNet(t)) ==> !Stranded(Apply(s, RecheckNet(t)))
  {
    if Enabled(s, RecheckBuffered(t)) {
      var s' := Apply(s, RecheckBuffered(t));
      assert s.arrived > s.consumed ==> Looks(s', t);
    } else if Enabled(s, RecheckNet(t)) {
      var s' := Apply(s, RecheckNet(t));
      if s.arrived > s.consumed && !s.notified {
        var u :| Looks(s, u);
        assert Looks(s', u);
      }
    }
  }

  lemma NotStrandedInPass(s: State, step: Step)
    requires CountInv(s) && Balanced(s) && Enabled(s, step) && InPass(step) && !step.ExitEarly? && !Stranded(s)
    ensures !Stranded(Apply(s, step))
  {
    hide CountInv, Balanced, Apply, Enabled, Looks;
    if step.Gate? || step.Regate? {
      GateLooks(s, step.t);
    } else if step.RecheckBuffered? || step.RecheckNet? {
      RecheckLooks(s, step.t);
    } else {
      ServingLooks(s, step);
    }
  }

  /** The steps outside a pass leave every looker where it was, or bring a new one, or a callback is owed. */
  lemma NotStrandedOutside(s: State, step: Step)
    requires Enabled(s, step) && !InPass(step) && !Stranded(s)
    ensures !Stranded(Apply(s, step))
  {
    hide Who, Taken, Returned, Lent, Unlent, CanTake;
    var s' := Apply(s, step);
    if step.Enter? {
      assert Looks(s', step.t);
    } else if s'.arrived > s'.consumed && !s'.notified {
      var u :| Looks(s, u);
      assert Looks(s', u);
    }
  }

  /** Only an early exit strands bytes, and exactly when it is not careful. */
  lemma StrandedByStep(s: State, step: Step)
    requires CountInv(s) && Balanced(s) && !Stranded(s) && Enabled(s, step)
    ensures Stranded(Apply(s, step)) <==> !Careful(s, step)
  {
    hide CountInv, Stranded, Apply, Enabled;
    if step.ExitEarly? {
      EarlyExitStrandsIff(s, step.t);
    } else if InPass(step) {
      NotStrandedInPass(s, step);
    } else {
      NotStrandedOutside(s, step);
    }
  }

  /** An early exit strands bytes exactly when some are not consumed, no callback is owed, and nobody else will
      look. */
  lemma EarlyExitStrandsIff(s: State, t: nat)
    requires Enabled(s, ExitEarly(t))
    ensures Stranded(Apply(s, ExitEarly(t)))
       <==> s.arrived > s.consumed && !s.notified && forall u :: u != t ==> !Looks(s, u)
    ensures Balanced(s) ==> (Stranded(Apply(s, ExitEarly(t))) <==> !Careful(s, ExitEarly(t)))
  {
    var s' := Apply(s, ExitEarly(t));
    assert !Looks(s', t);
    assert forall u :: u != t ==> (Looks(s', u) <==> Looks(s, u));
  }

  /** Of the steps of a pass, only the last look at an empty connection is left when bytes are stranded. */
  lemma StrandedPass(s: State, step: Step)
    requires Stranded(s) && Enabled(s, step) && InPass(step)
    ensures step.RecheckNet? && s.net == 0
  {
    hide Apply, Who, CanTake;
    assert !Looks(s, step.t);
  }

  lemma StrandedRecheck(s: State, t: nat)
    requires Stranded(s) && Enabled(s, RecheckNet(t)) && s.net == 0
    ensures Stranded(Apply(s, RecheckNet(t)))
  {
    var s' := Apply(s, RecheckNet(t));
    forall u
      ensures !Looks(s', u)
    {
      assert !Looks(s, u);
    }
  }

  /** Stranded bytes stay stranded until more arrive or a callback starts. */
  lemma StrandedStays(s: State, step: Step)
    requires Stranded(s) && Enabled(s, step) && !step.Arrive? && !step.Enter? && !step.Prepare?
    ensures Stranded(Apply(s, step))
  {
    hide Who, Taken, Returned, Lent, Unlent, CanTake;
    if InPass(step) {
      StrandedPass(s, step);
      StrandedRecheck(s, step.t);
    } else {
      var s' := Apply(s, step);
      forall u
        ensures !Looks(s', u)
      {
        assert !Looks(s, u);
      }
    }
  }

  // ----- every run

  lemma InvKept(s: State, step: Step)
    requires Inv(s) && Enabled(s, step)
    ensures Inv(Apply(s, step))
  {
    hide CountInv, HeldInv, TokenInv, DoneInv, Apply, Enabled;
    CountKept(s, step);
    HeldKept(s, step);
    TokensKept(s, step);
    DoneKept(s, step);
  }

  lemma {:induction false} InvAlong(s: State, steps: seq<Step>)
    requires Inv(s) && Legal(s, steps)
    ensures Inv(Exec(s, steps))
    decreases |steps|
  {
    hide Inv, Apply, Enabled;
    if steps != [] {
      InvKept(s, steps[0]);
      InvAlong(Apply(s, steps[0]), steps[1..]);
    }
  }

  lemma InitIsFine()
    ensures Inv(Init()) && Balanced(Init()) && !Stranded(Init())
  {
    var none: map<nat, Pc> := map[];
    assert Who(none, Counted) == {} && Who(none, Holding) == {} && Who(none, Finishing) == {};
  }

  lemma ReachableInv(s: State)
    requires Reachable(s)
    ensures Inv(s)
  {
    hide Inv, Apply, Enabled, Init, Legal, Exec;
    InitIsFine();
    var steps :| Legal(Init(), steps) && Exec(Init(), steps) == s;
    InvAlong(Init(), steps);
  }

  lemma {:induction false} StrandedAlong(s: State, steps: seq<Step>)
    requires Inv(s) && Balanced(s) && !Stranded(s) && Legal(s, steps)
    ensures NeverStranded(s, steps) <==> CarefulRun(s, steps)
    decreases |steps|
  {
    hide CountInv, HeldInv, TokenInv, DoneInv, Balanced, Stranded, Careful, Apply, Enabled;
    if steps != [] {
      var s' := Apply(s, steps[0]);
      InvKept(s, steps[0]);
      BalanceKept(s, steps[0]);
      StrandedByStep(s, steps[0]);
      if Stranded(s') {
        assert !NeverStranded(s', steps[1..]);
      } else {
        StrandedAlong(s', steps[1..]);
      }
    }
  }

  /** The flag is up exactly when some goroutine is inside the serving region, and only one ever is. */
  lemma GateExcludes(s: State, t: nat, u: nat)
    requires Reachable(s)
    ensures s.processing <==> exists v :: v in s.threads && Holding(s.threads[v])
    ensures t in s.threads && u in s.threads && Holding(s.threads[t]) && Holding(s.threads[u]) ==> t == u
  {
    ReachableInv(s);
    if t in s.threads && Holding(s.threads[t]) {
      Alone(s, t);
    }
    if s.processing {
      var v :| v in Who(s.threads, Holding);
    } else if v :| v in s.threads && Holding(s.threads[v]) {
      One(s.threads, v, Holding);
    }
  }

  /** The count is the number of goroutines that hold a reference, the connection's own included. */
  lemma CountIsReferences(s: State)
    requires Reachable(s)
    ensures s.refCount == |set t | t in s.threads && Counted(s.threads[t])|
    ensures s.pooled ==> forall t :: t in s.threads ==> s.threads[t].Gone?
  {
    ReachableInv(s);
    assert (set t | t in s.threads && Counted(s.threads[t])) == Who(s.threads, Counted);
    if s.pooled {
      NobodyLeft(s);
    }
  }

  /** The steps that do not touch this connection's state: reusing it, and what others do with the pools. */
  predicate Foreign(step: Step)
  {
    step.Prepare? || step.OthersTake? || step.OthersReturn?
  }

  /** No goroutine touches the state once it is back in the pool; and while one tidies up, all others are done. */
  lemma NothingTouchesAReturnedState(s: State, step: Step, t: nat, u: nat)
    requires Reachable(s) && Enabled(s, step)
    ensures !Foreign(step) ==> !s.pooled
    ensures t in s.threads && Finishing(s.threads[t]) && u in s.threads && u != t ==> s.threads[u].Gone?
  {
    hide Apply, HeldInv, TokenInv, DoneInv, CanTake, Who;
    ReachableInv(s);
    if !Foreign(step) {
      OwnersCount(s);
      if Actor(step).Some? && Actor(step).value in s.threads {
        ActorStanding(s, step);
      }
    }
    if t in s.threads && Finishing(s.threads[t]) {
      Alone(s, t);
    }
  }

  /** The reader, and the writer alike, goes back to its pool when and only when the last reference is released:
      once, and not already there; nobody uses it afterwards. */
  lemma ReturnedExactlyOnce(s: State)
    requires Reachable(s)
    ensures s.reader.puts <= s.reader.takes <= 1 && s.writer.puts <= s.writer.takes <= 1
    ensures s.refCount > 0 ==> s.reader.puts == 0 && s.writer.puts == 0
    ensures s.pooled ==> s.reader.puts == s.reader.takes && s.writer.puts == s.writer.takes
    ensures forall t :: t in s.threads && s.threads[t].PutReader? && s.reader.held.Some? ==>
              s.reader.puts == 0 && Private(s.reader)
    ensures forall t :: t in s.threads && s.threads[t].PutWriter? && s.writer.held.Some? ==>
              s.writer.puts == 0 && Private(s.writer)
    ensures forall t :: t in s.threads && s.threads[t].Serving? ==>
              s.reader.held.Some? && Private(s.reader) && s.writer.held.Some? && Private(s.writer)
  {
    hide Exec, Legal, Who;
    ReachableInv(s);
    PutsBounded(s);
    if s.reader.held.Some? && s.reader.puts == 0 {
      assert Places(s.reader, s.reader.held.value) == Issued(s.reader, s.reader.held.value);
    }
    if s.writer.held.Some? && s.writer.puts == 0 {
      assert Places(s.writer, s.writer.held.value) == Issued(s.writer, s.writer.held.value);
    }
    forall t | t in s.threads && Counted(s.threads[t])
      ensures s.refCount > 0
    {
      One(s.threads, t, Counted);
    }
    assert forall t :: t in s.threads ==> PcOk(s.threads[t], s.reader, s.writer);
  }

  /** In no pool and with nobody else. */
  predicate Private(r: Resource)
  {
    r.held.Some? && r.held.value !in r.free && r.held.value !in r.elsewhere
  }

  lemma PutsBounded(s: State)
    requires Inv(s)
    ensures s.reader.puts <= s.reader.takes && s.writer.puts <= s.writer.takes
  {
    if s.refCount == 0 && !s.pooled {
      var t :| t in Who(s.threads, Finishing);
      assert PcOk(s.threads[t], s.reader, s.writer);
    } else {
      assert s.refCount >= 0;
    }
  }

  /** The done channel is closed at most once in a lifetime, and never when it is nil or already closed. */
  lemma DoneClosedOnce(s: State, t: nat)
    requires Reachable(s)
    ensures s.closes <= 1
    ensures Enabled(s, Cancel(t)) && !s.err ==> s.done == Open && s.closes == 0
    ensures Enabled(s, Cancel(t)) ==> var s' := Apply(s, Cancel(t)); s'.err && s'.done == Shut && s'.closes == 1
  {
    hide Exec, Legal, Who, HeldInv, TokenInv;
    ReachableInv(s);
    if Enabled(s, Cancel(t)) {
      ActorStanding(s, Cancel(t));
    }
  }

  /** A run never strands a byte exactly when its early exits are careful; passes that end through the tail need no
      condition at all. */
  lemma NoCallbackIsLostIff(steps: seq<Step>)
    requires Legal(Init(), steps)
    ensures NeverStranded(Init(), steps) <==> CarefulRun(Init(), steps)
    ensures (forall i :: 0 <= i < |steps| ==> !steps[i].ExitEarly?) ==> NeverStranded(Init(), steps)
  {
    hide Inv, Balanced, Stranded, Init, Legal, CarefulRun, NeverStranded;
    InitIsFine();
    StrandedAlong(Init(), steps);
    if forall i :: 0 <= i < |steps| ==> !steps[i].ExitEarly? {
      TailsAreCareful(Init(), steps);
    }
  }

  lemma {:induction false} TailsAreCareful(s: State, steps: seq<Step>)
    requires Legal(s, steps) && forall i :: 0 <= i < |steps| ==> !steps[i].ExitEarly?
    ensures CarefulRun(s, steps)
    decreases |steps|
  {
    hide Apply, Enabled;
    if steps != [] {
      assert forall i :: 0 <= i < |steps| - 1 ==> steps[1..][i] == steps[i + 1];
      TailsAreCareful(Apply(s, steps[0]), steps[1..]);
    }
  }

  /** Where a run has stranded nothing and everything is quiet, all that arrived has been consumed. */
  lemma {:induction false} QuietMeansConsumed(s: State, steps: seq<Step>)
    requires Legal(s, steps) && NeverStranded(s, steps)
    ensures var s' := Exec(s, steps);
            !s'.notified && (forall t :: !Looks(s', t)) ==> s'.arrived <= s'.consumed
    decreases |steps|
  {
    hide Apply, Enabled, Looks;
    if steps != [] {
      QuietMeansConsumed(Apply(s, steps[0]), steps[1..]);
    }
  }

  /** An early exit that is not careful can strand bytes: they arrive while one callback serves, the gate turns
      their own callback away, and the first one leaves without looking. */
  lemma EarlyExitCanLose()
    ensures exists s: State :: Reachable(s) && Stranded(s)
  {
    hide Reachable, Who;
    ServingIsReachable();
    var g := OneServing();
    OwnerThere(g, 0);
    Take(g, Arrive(5));
    var h := Apply(g, Arrive(5));
    OwnerThere(h, 0);
    Take(h, Enter(2));
    var i := Apply(h, Enter(2));
    Take(i, Gate(2));
    var j := Apply(i, Gate(2));
    Take(j, ExitEarly(1));
    assert Stranded(Apply(j, ExitEarly(1)));
  }

  /** The connection is open and its first callback serves, with nothing read yet. */
  function OneServing(): State
  {
    State(map[0 := Owner, 1 := Serving], false, 2, true, USED, USED, Open, false, 0, 0, 0, 0, 0, false)
  }

  const USED := Resource(Some(0), multiset{}, {}, 1, 1, 0)

  lemma ServingIsReachable()
    ensures Reachable(OneServing())
  {
    hide Reachable, Who;
    NoSteps();
    Take(Init(), Prepare(0));
    var a := Apply(Init(), Prepare(0));
    OwnerThere(a, 0);
    Take(a, Enter(1));
    var b := Apply(a, Enter(1));
    Take(b, Gate(1));
    var c := Apply(b, Gate(1));
    Take(c, LookReader(1));
    var d := Apply(c, LookReader(1));
    Take(d, TakeReader(1, 0));
    var e := Apply(d, TakeReader(1, 0));
    Take(e, LookWriter(1));
    var f := Apply(e, LookWriter(1));
    Take(f, TakeWriter(1, 0));
    assert Apply(f, TakeWriter(1, 0)) == OneServing();
  }

  lemma OwnerThere(s: State, t: nat)
    requires At(s, t, Owner)
    ensures Who(s.threads, Owns) != {}
  {
    assert t in Who(s.threads, Owns);
  }

  lemma NoSteps()
    ensures Reachable(Init())
  {
    assert Legal(Init(), []);
  }

  lemma Take(s: State, step: Step)
    requires Reachable(s) && Enabled(s, step)
    ensures Reachable(Apply(s, step))
  {
    hide Enabled, Apply, Init;
    var steps: seq<Step> :| Legal(Init(), steps) && Exec(Init(), steps) == s;
    Longer(Init(), steps, step);
  }

  lemma {:induction false} Longer(s: State, steps: seq<Step>, step: Step)
    requires Legal(s, steps) && Enabled(Exec(s, steps), step)
    ensures Legal(s, steps + [step]) && Exec(s, steps + [step]) == Apply(Exec(s, steps), step)
    decreases |steps|
  {
    hide Enabled, Apply;
    if steps == [] {
      assert steps + [step] == [step];
    } else {
      Longer(Apply(s, steps[0]), steps[1..], step);
      assert (steps + [step])[1..] == steps[1..] + [step];
    }
  }
}
