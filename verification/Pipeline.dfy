/**
 * The fetch, parse and write threads of a sync run as a transition system. One step is one
 * lock-holding queue section, one outside call, or one read of the stop flag; any thread may be
 * scheduled at any time and the stop flag may be raised at any time.
 */
module Pipeline {
  import opened Bytes
  import opened BoundedQueues

  datatype Fetch =
    | Loop(h: nat) | Rpc(h: nat) | PushRaw(h: nat, waited: bool)
    | Catch(e: Error) | CloseRaw | FetchFailRaw(e: Error) | FetchFailFx(e: Error) | FetchDone

  datatype Parse =
    | PopRaw(waited: bool) | Work(h: nat) | PushFx(h: nat, waited: bool)
    | CloseFx | ParseFail(e: Error) | ParseDone

  datatype Write =
    | PopFx(waited: bool) | Apply(h: nat)
    | WriteFailRaw(e: Error) | WriteFailFx(e: Error) | WriteDone

  datatype State = State(
    first: nat, tip: nat, raw: Queue<nat>, fx: Queue<nat>, fetch: Fetch, parse: Parse, write: Write,
    stop: bool, workerErr: Option<Error>, applied: seq<nat>)

  // Which thread moves, and whether the outside call it may be making throws.
  datatype Step = Stop | FetchMoves(call: Option<Error>) | ParseMoves(call: Option<Error>) | WriteMoves(call: Option<Error>)

  const INTERRUPTED := Btk("interrupted")
  const RAW_MAX := 8
  const FX_MAX := 100

  function Init(first: nat, tip: nat): State {
    State(first, tip, Queue(RAW_MAX, [], false, None), Queue(FX_MAX, [], false, None),
          Loop(first), PopRaw(false), PopFx(false), false, None, [])
  }

  function AfterPush(h: nat, tip: nat): Fetch { if h == tip then CloseRaw else Loop(h + 1) }

  function NextFetch(s: State, call: Option<Error>): State {
    match s.fetch
    case Loop(h) => s.(fetch := if h > s.tip || s.stop then CloseRaw else Rpc(h))
    case Rpc(h) => s.(fetch := if call.Some? then Catch(call.value) else PushRaw(h, false))
    case PushRaw(h, waited) =>
      var (r, q) := Push(s.raw, h, waited, s.stop);
      (match r
       case PushWait => s.(fetch := PushRaw(h, true))
       case PushThrew(e) => s.(fetch := Catch(e))
       case _ => s.(raw := q, fetch := AfterPush(h, s.tip)))
    case Catch(e) => s.(fetch := if e.Btk? && (s.stop || e == INTERRUPTED) then CloseRaw else FetchFailRaw(e))
    case CloseRaw => s.(raw := Close(s.raw), fetch := FetchDone)
    case FetchFailRaw(e) => s.(raw := Fail(s.raw, e), fetch := FetchFailFx(e))
    case FetchFailFx(e) => s.(fx := Fail(s.fx, e), fetch := FetchDone)
    case FetchDone => s
  }

  function NextParse(s: State, call: Option<Error>): State {
    match s.parse
    case PopRaw(waited) =>
      var (r, q) := Pop(s.raw, waited, s.stop);
      (match r
       case PopWait => s.(parse := PopRaw(true))
       case PopThrew(e) => s.(parse := ParseFail(e))
       case End => s.(raw := q, parse := CloseFx)
       case Item(h) => s.(raw := q, parse := Work(h)))
    case Work(h) => s.(parse := if call.Some? then ParseFail(call.value) else PushFx(h, false))
    case PushFx(h, waited) =>
      var (r, q) := Push(s.fx, h, waited, s.stop);
      (match r
       case PushWait => s.(parse := PushFx(h, true))
       case PushThrew(e) => s.(parse := ParseFail(e))
       case _ => s.(fx := q, parse := PopRaw(false)))
    case CloseFx => s.(fx := Close(s.fx), parse := ParseDone)
    case ParseFail(e) => s.(fx := Fail(s.fx, e), parse := ParseDone)
    case ParseDone => s
  }

  function NextWrite(s: State, call: Option<Error>): State {
    match s.write
    case PopFx(waited) =>
      var (r, q) := Pop(s.fx, waited, s.stop);
      (match r
       case PopWait => s.(write := PopFx(true))
       case PopThrew(e) => s.(write := WriteFailRaw(e), workerErr := Some(e))
       case End => s.(fx := q, write := WriteDone)
       case Item(h) => s.(fx := q, write := Apply(h)))
    case Apply(h) =>
      if call.Some? then s.(write := WriteFailRaw(call.value), workerErr := call)
      else s.(write := PopFx(false), applied := s.applied + [h])
    case WriteFailRaw(e) => s.(raw := Fail(s.raw, e), write := WriteFailFx(e))
    case WriteFailFx(e) => s.(fx := Fail(s.fx, e), write := WriteDone)
    case WriteDone => s
  }

  function Next(s: State, step: Step): State {
    match step
    case Stop => s.(stop := true)
    case FetchMoves(call) => NextFetch(s, call)
    case ParseMoves(call) => NextParse(s, call)
    case WriteMoves(call) => NextWrite(s, call)
  }

  /** An RPC call says "interrupted" only after it has seen the stop flag (src/net/jsonrpc.cpp). */
  predicate Allowed(s: State, step: Step) {
    step == FetchMoves(Some(INTERRUPTED)) && s.fetch.Rpc? ==> s.stop
  }

  /** The state a schedule leads to. */
  function Run(s: State, steps: seq<Step>): State
    decreases |steps|
  {
    if steps == [] then s else Run(Next(s, steps[0]), steps[1..])
  }

  ghost predicate AllAllowed(s: State, steps: seq<Step>)
    decreases |steps|
  {
    steps == [] || (Allowed(s, steps[0]) && AllAllowed(Next(s, steps[0]), steps[1..]))
  }

  predicate Finished(s: State) { s.fetch.FetchDone? && s.parse.ParseDone? && s.write.WriteDone? }

  // How walk_rpc_blocks ends once the threads are joined.
  datatype Ending = Raised(e: Error) | Interrupted | Returned

  function EndOf(s: State): Ending {
    if s.workerErr.Some? then Raised(s.workerErr.value) else if s.stop then Interrupted else Returned
  }

  // ----- Which heights are where -----

  predicate Contiguous(s: seq<nat>, from: nat) { forall i :: 0 <= i < |s| ==> s[i] == from + i }

  /** The height after those applied and being applied; where fx's contents must start. */
  function FxStart(s: State): nat { s.first + |s.applied| + (if s.write.Apply? then 1 else 0) }

  function ParseStart(s: State): nat { FxStart(s) + |s.fx.items| }

  predicate Holding(p: Parse) { p.Work? || p.PushFx? }

  function RawStart(s: State): nat { ParseStart(s) + (if Holding(s.parse) then 1 else 0) }

  function FetchStart(s: State): nat { RawStart(s) + |s.raw.items| }

  predicate Fetching(f: Fetch) { f.Loop? || f.Rpc? || f.PushRaw? }

  /** The writer may still apply what is queued. */
  predicate Writing(s: State) { s.write.PopFx? || s.write.Apply? }

  /** The parser may still hand on what it takes. */
  predicate Flowing(s: State) { Writing(s) && !s.fx.closed && !s.parse.ParseFail? && !s.parse.ParseDone? }

  ghost predicate Ordered(s: State) {
    && Contiguous(s.applied, s.first)
    && (s.write.Apply? ==> s.write.h == s.first + |s.applied|)
    && (Writing(s) ==> Contiguous(s.fx.items, FxStart(s)))
    && (Flowing(s) ==>
        && (Holding(s.parse) ==> s.parse.h == ParseStart(s))
        && Contiguous(s.raw.items, RawStart(s))
        && (Fetching(s.fetch) && !s.raw.closed ==> s.fetch.h == FetchStart(s)))
  }

  // ----- Why a queue is closed and a thread is done -----

  predicate Signals(s: State) {
    && (s.raw.err.Some? ==> s.raw.closed) && (s.fx.err.Some? ==> s.fx.closed)
    && (s.fetch.FetchDone? || s.fetch.FetchFailFx? ==> s.raw.closed)
    && (s.parse.CloseFx? ==> s.raw.closed)
    && (s.parse.ParseDone? ==> s.fx.closed && (s.raw.closed || s.fx.err.Some?))
    && (s.fx.closed ==> s.stop || s.fx.err.Some? || s.parse.ParseDone?)
    && (s.write.WriteFailFx? ==> s.raw.closed)
    && (s.write.WriteDone? ==> s.fx.closed && (s.raw.closed || s.stop))
    && (s.write.WriteFailRaw? || s.write.WriteFailFx? ==> s.workerErr.Some?)
  }

  predicate Bounded(s: State) {
    && s.raw.max == RAW_MAX && s.fx.max == FX_MAX
    && |s.raw.items| <= RAW_MAX && |s.fx.items| <= FX_MAX
    && (Fetching(s.fetch) ==> s.fetch.h <= s.tip + 1)
    && (s.fetch.Rpc? || s.fetch.PushRaw? ==> s.fetch.h <= s.tip)
    && s.first <= s.tip
    && |s.applied| <= Total(s)
    && (Writing(s) ==> ParseStart(s) <= s.tip + 1)
    && (Flowing(s) ==> FetchStart(s) <= s.tip + 1)
  }

  function Total(s: State): int { s.tip + 1 - s.first }

  /** No stop request and no failure has reached the writer. */
  predicate Quiet(s: State) { !s.stop && s.workerErr.None? }

  predicate RawEnded(s: State) { s.raw.closed && s.raw.err.None? }

  predicate FxEnded(s: State) { s.fx.closed && s.fx.err.None? }

  /** In a quiet run a queue that ended without an error has carried everything. */
  predicate Accounted(s: State) {
    && (s.fetch.Catch? && s.fetch.e == INTERRUPTED ==> !Quiet(s))
    && (Quiet(s) ==>
        && (s.raw.err.Some? ==> s.fetch.FetchFailFx? || s.fetch.FetchDone?)
        && (RawEnded(s) ==> s.fetch.FetchDone?)
        && (s.fetch.FetchFailFx? ==> s.raw.err.Some?)
        && ((RawEnded(s) || s.fetch.CloseRaw?) && Flowing(s) ==> FetchStart(s) == s.tip + 1)
        && (s.parse.CloseFx? ==> RawEnded(s) && s.raw.items == [])
        && (FxEnded(s) ==> s.parse.ParseDone? && RawEnded(s))
        && (FxEnded(s) && Writing(s) ==> ParseStart(s) == s.tip + 1)
        && (s.write.WriteDone? ==> FxEnded(s) && |s.applied| == Total(s)))
  }

  ghost predicate Inv(s: State) { Ordered(s) && Signals(s) && Bounded(s) && Accounted(s) }

  lemma InitInv(first: nat, tip: nat)
    requires first <= tip
    ensures Inv(Init(first, tip))
  {
  }

  lemma ContiguousGrows(s: seq<nat>, from: nat, h: nat)
    requires Contiguous(s, from)
    ensures h == from + |s| ==> Contiguous(s + [h], from)
    ensures s != [] ==> s[0] == from && Contiguous(s[1..], from + 1) && |s[1..]| == |s| - 1
    ensures |s + [h]| == |s| + 1
  {
  }

  lemma FetchKeepsOrdered(s: State, call: Option<Error>)
    requires Inv(s) && Allowed(s, FetchMoves(call))
    ensures Ordered(NextFetch(s, call))
  {
    hide Bounded, Accounted, Contiguous;
    if Fetching(s.fetch) && Contiguous(s.raw.items, RawStart(s)) {
      ContiguousGrows(s.raw.items, RawStart(s), s.fetch.h);
    }
  }

  lemma FetchKeepsSignals(s: State, call: Option<Error>)
    requires Inv(s) && Allowed(s, FetchMoves(call))
    ensures Signals(NextFetch(s, call))
  {
    hide Ordered, Bounded, Accounted;
  }

  lemma FetchKeepsBounded(s: State, call: Option<Error>)
    requires Inv(s) && Allowed(s, FetchMoves(call))
    ensures Bounded(NextFetch(s, call))
  {
    hide Contiguous, Signals, Accounted;
  }

  lemma FetchKeepsAccounted(s: State, call: Option<Error>)
    requires Inv(s) && Allowed(s, FetchMoves(call))
    ensures Accounted(NextFetch(s, call))
  {
    hide Contiguous;
  }

  lemma FetchKeeps(s: State, call: Option<Error>)
    requires Inv(s) && Allowed(s, FetchMoves(call))
    ensures Inv(NextFetch(s, call))
  {
    hide Ordered, Signals, Bounded, Accounted, NextFetch;
    FetchKeepsOrdered(s, call);
    FetchKeepsSignals(s, call);
    FetchKeepsBounded(s, call);
    FetchKeepsAccounted(s, call);
  }

  lemma ParseKeepsOrdered(s: State, call: Option<Error>)
    requires Inv(s)
    ensures Ordered(NextParse(s, call))
  {
    hide Bounded, Accounted, Contiguous;
    if Holding(s.parse) && Contiguous(s.fx.items, FxStart(s)) {
      ContiguousGrows(s.fx.items, FxStart(s), s.parse.h);
    }
    if Contiguous(s.raw.items, RawStart(s)) {
      ContiguousGrows(s.raw.items, RawStart(s), 0);
    }
  }

  lemma ParseKeepsSignals(s: State, call: Option<Error>)
    requires Inv(s)
    ensures Signals(NextParse(s, call))
  {
    hide Ordered, Bounded, Accounted;
  }

  lemma ParseKeepsBounded(s: State, call: Option<Error>)
    requires Inv(s)
    ensures Bounded(NextParse(s, call))
  {
    hide Contiguous, Signals, Accounted;
  }

  lemma ParseKeepsAccounted(s: State, call: Option<Error>)
    requires Inv(s)
    ensures Accounted(NextParse(s, call))
  {
    hide Contiguous;
  }

  lemma ParseKeeps(s: State, call: Option<Error>)
    requires Inv(s)
    ensures Inv(NextParse(s, call))
  {
    hide Ordered, Signals, Bounded, Accounted, NextParse;
    ParseKeepsOrdered(s, call);
    ParseKeepsSignals(s, call);
    ParseKeepsBounded(s, call);
    ParseKeepsAccounted(s, call);
  }

  lemma WriteKeepsOrdered(s: State, call: Option<Error>)
    requires Inv(s)
    ensures Ordered(NextWrite(s, call))
  {
    hide Bounded, Accounted, Contiguous;
    if s.write.Apply? {
      ContiguousGrows(s.applied, s.first, s.write.h);
    }
    if Contiguous(s.fx.items, FxStart(s)) {
      ContiguousGrows(s.fx.items, FxStart(s), 0);
    }
  }

  lemma WriteKeepsSignals(s: State, call: Option<Error>)
    requires Inv(s)
    ensures Signals(NextWrite(s, call))
  {
    hide Ordered, Bounded, Accounted;
  }

  lemma WriteKeepsBounded(s: State, call: Option<Error>)
    requires Inv(s)
    ensures Bounded(NextWrite(s, call))
  {
    hide Contiguous, Signals, Accounted;
  }

  lemma WriteKeepsAccounted(s: State, call: Option<Error>)
    requires Inv(s)
    ensures Accounted(NextWrite(s, call))
  {
    hide Contiguous;
  }

  lemma WriteKeeps(s: State, call: Option<Error>)
    requires Inv(s)
    ensures Inv(NextWrite(s, call))
  {
    hide Ordered, Signals, Bounded, Accounted, NextWrite;
    WriteKeepsOrdered(s, call);
    WriteKeepsSignals(s, call);
    WriteKeepsBounded(s, call);
    WriteKeepsAccounted(s, call);
  }

  lemma StopKeeps(s: State)
    requires Inv(s)
    ensures Inv(s.(stop := true))
  {
  }

  lemma StepKeeps(s: State, step: Step)
    requires Inv(s) && Allowed(s, step)
    ensures Inv(Next(s, step)) && Next(s, step).first == s.first && Next(s, step).tip == s.tip
  {
    hide Inv;
    match step
    case Stop => StopKeeps(s);
    case FetchMoves(call) => FetchKeeps(s, call);
    case ParseMoves(call) => ParseKeeps(s, call);
    case WriteMoves(call) => WriteKeeps(s, call);
  }

  lemma {:induction false} RunKeeps(s: State, steps: seq<Step>)
    requires Inv(s) && AllAllowed(s, steps)
    ensures Inv(Run(s, steps)) && Run(s, steps).first == s.first && Run(s, steps).tip == s.tip
    decreases |steps|
  {
    hide Inv, Next, Allowed;
    if steps != [] {
      StepKeeps(s, steps[0]);
      RunKeeps(Next(s, steps[0]), steps[1..]);
    }
  }

  // ----- Safety -----

  function Heights(first: nat, n: nat): (s: seq<nat>)
    ensures |s| == n
  {
    seq(n, i => first + i)
  }

  /**
   * Under every schedule, stop request and failure the heights applied are first, first + 1, ... without
   * gap, repetition or reordering, never past tip; and a normal return has applied every one of them.
   */
  lemma Delivery(first: nat, tip: nat, steps: seq<Step>)
    requires first <= tip && AllAllowed(Init(first, tip), steps)
    ensures var s := Run(Init(first, tip), steps);
      && s.applied == Heights(first, |s.applied|)
      && |s.applied| <= tip + 1 - first
      && |s.raw.items| <= 8 && |s.fx.items| <= 100
      && (Finished(s) && EndOf(s) == Returned ==> s.applied == Heights(first, tip + 1 - first))
  {
    hide Run, AllAllowed, Init;
    InitInv(first, tip);
    InitRange(first, tip);
    RunKeeps(Init(first, tip), steps);
  }

  /** A run starts with nothing fetched and room for 8 raw blocks and 100 indexed ones. */
  lemma InitRange(first: nat, tip: nat)
    ensures Init(first, tip).first == first && Init(first, tip).tip == tip
    ensures Init(first, tip).raw == Queue(8, [], false, None) && Init(first, tip).fx == Queue(100, [], false, None)
  {
  }

  /** Closed is for good and the first error stays, so a push dropped once is dropped for ever. */
  lemma ClosedForGood(s: State, step: Step)
    ensures var t := Next(s, step);
      && (s.raw.closed ==> t.raw.closed) && (s.fx.closed ==> t.fx.closed)
      && (s.raw.err.Some? ==> t.raw.err == s.raw.err) && (s.fx.err.Some? ==> t.fx.err == s.fx.err)
      && (s.stop ==> t.stop)
      && s.applied <= t.applied
  {
  }

  /** Blocks applied and the one the writer has taken. */
  function Taken(s: State): nat { |s.applied| + (if s.write.Apply? then 1 else 0) }

  lemma TakesNoMore(s: State, step: Step)
    requires s.fx.err.Some?
    ensures Next(s, step).fx.err.Some? && Taken(Next(s, step)) <= Taken(s)
  {
  }

  /** An error overtakes what is queued: once it is set, at most the block the writer already holds is applied. */
  lemma {:induction false} ErrorStops(s: State, steps: seq<Step>)
    requires s.fx.err.Some?
    ensures |Run(s, steps).applied| <= |s.applied| + (if s.write.Apply? then 1 else 0)
    ensures Taken(Run(s, steps)) <= Taken(s)
    decreases |steps|
  {
    hide Next;
    if steps != [] {
      TakesNoMore(s, steps[0]);
      ErrorStops(Next(s, steps[0]), steps[1..]);
    }
  }

  // ----- Where errors come from -----

  predicate From(e: Error, thrown: set<Error>) { e in thrown }

  /** Every error in the state is one that an outside call threw. */
  predicate ErrorsFrom(s: State, thrown: set<Error>) {
    && (s.raw.err.Some? ==> From(s.raw.err.value, thrown)) && (s.fx.err.Some? ==> From(s.fx.err.value, thrown))
    && (s.workerErr.Some? ==> From(s.workerErr.value, thrown))
    && (s.fetch.Catch? || s.fetch.FetchFailRaw? || s.fetch.FetchFailFx? ==> From(s.fetch.e, thrown))
    && (s.parse.ParseFail? ==> From(s.parse.e, thrown))
    && (s.write.WriteFailRaw? || s.write.WriteFailFx? ==> From(s.write.e, thrown))
  }

  function Throws(step: Step): set<Error> {
    if !step.Stop? && step.call.Some? then {step.call.value} else {}
  }

  function Thrown(steps: seq<Step>): set<Error> {
    if steps == [] then {} else Throws(steps[0]) + Thrown(steps[1..])
  }

  lemma FetchErrors(s: State, call: Option<Error>, thrown: set<Error>)
    requires ErrorsFrom(s, thrown) && (call.Some? ==> From(call.value, thrown))
    ensures ErrorsFrom(NextFetch(s, call), thrown)
  {
    hide From;
  }

  lemma ParseErrors(s: State, call: Option<Error>, thrown: set<Error>)
    requires ErrorsFrom(s, thrown) && (call.Some? ==> From(call.value, thrown))
    ensures ErrorsFrom(NextParse(s, call), thrown)
  {
    hide From;
  }

  lemma WriteErrors(s: State, call: Option<Error>, thrown: set<Error>)
    requires ErrorsFrom(s, thrown) && (call.Some? ==> From(call.value, thrown))
    ensures ErrorsFrom(NextWrite(s, call), thrown)
  {
    hide From;
  }

  lemma StepErrors(s: State, step: Step, thrown: set<Error>)
    requires ErrorsFrom(s, thrown) && Throws(step) <= thrown
    ensures ErrorsFrom(Next(s, step), thrown)
  {
    hide From, NextFetch, NextParse, NextWrite;
    if !step.Stop? && step.call.Some? {
      assert step.call.value in Throws(step);
      IsFrom(step.call.value, thrown);
    }
    match step
    case Stop =>
    case FetchMoves(call) => FetchErrors(s, call, thrown);
    case ParseMoves(call) => ParseErrors(s, call, thrown);
    case WriteMoves(call) => WriteErrors(s, call, thrown);
  }

  lemma IsFrom(e: Error, thrown: set<Error>)
    requires e in thrown
    ensures From(e, thrown)
  {
  }

  lemma {:induction false} RunErrors(s: State, steps: seq<Step>, thrown: set<Error>)
    requires ErrorsFrom(s, thrown) && Thrown(steps) <= thrown
    ensures ErrorsFrom(Run(s, steps), thrown)
    ensures Stop !in steps ==> Run(s, steps).stop == s.stop
    decreases |steps|
  {
    hide ErrorsFrom, Next;
    if steps != [] {
      StepErrors(s, steps[0], thrown);
      StopOnly(s, steps[0]);
      assert Stop !in steps ==> Stop != steps[0] && Stop !in steps[1..];
      RunErrors(Next(s, steps[0]), steps[1..], thrown);
    }
  }

  lemma StopOnly(s: State, step: Step)
    ensures step != Stop ==> Next(s, step).stop == s.stop
  {
  }

  /** An error in the raw queue is in the other queue too, or the thread that set it is about to put it there. */
  predicate Travelling(s: State) {
    s.raw.err.Some? ==> s.fx.err.Some? || s.fetch.FetchFailFx? || s.write.WriteFailFx?
  }

  lemma TravelsOn(s: State, step: Step)
    requires Travelling(s)
    ensures Travelling(Next(s, step))
  {
  }

  /** Whoever fails the raw queue fails the other one as well: once the threads are done no error has stayed behind. */
  lemma {:induction false} ErrorsTravel(s: State, steps: seq<Step>)
    requires Travelling(s)
    ensures var t := Run(s, steps); Travelling(t) && (Finished(t) && t.raw.err.Some? ==> t.fx.err.Some?)
    decreases |steps|
  {
    hide Next, Travelling;
    if steps != [] {
      TravelsOn(s, steps[0]);
      ErrorsTravel(Next(s, steps[0]), steps[1..]);
    } else {
      hide Finished;
      NoneBehind(s);
    }
  }

  lemma NoneBehind(s: State)
    requires Travelling(s)
    ensures Finished(s) && s.raw.err.Some? ==> s.fx.err.Some?
  {
  }

  predicate Failing(s: State, e: Error) {
    s.workerErr == Some(e) && (s.write.WriteFailRaw? || s.write.WriteFailFx? || s.write.WriteDone?)
  }

  lemma FailsOn(s: State, e: Error, step: Step)
    requires Failing(s, e)
    ensures Failing(Next(s, step), e)
  {
  }

  lemma {:induction false} KeepsFailing(s: State, e: Error, steps: seq<Step>)
    requires Failing(s, e)
    ensures Failing(Run(s, steps), e)
    decreases |steps|
  {
    hide Next, Failing;
    if steps != [] {
      FailsOn(s, e, steps[0]);
      KeepsFailing(Next(s, steps[0]), e, steps[1..]);
    }
  }

  /** An error of apply is what the run raises, whatever happens next and even if stop is requested. */
  lemma ApplyErrorRaised(s: State, e: Error, steps: seq<Step>)
    requires s.write.Apply?
    ensures EndOf(Run(Next(s, WriteMoves(Some(e))), steps)) == Raised(e)
  {
    hide Run;
    KeepsFailing(Next(s, WriteMoves(Some(e))), e, steps);
  }

  /** Stop was requested before anything failed; a fetch error may be on its way to being swallowed. */
  predicate Hushed(s: State) {
    && s.stop && s.raw.err.None? && s.fx.err.None? && s.workerErr.None?
    && !s.fetch.FetchFailRaw? && !s.fetch.FetchFailFx? && (s.fetch.Catch? ==> s.fetch.e.Btk?)
    && !s.parse.ParseFail? && (s.write.PopFx? || s.write.Apply? || s.write.WriteDone?)
  }

  /** A step whose outside call, if it throws, is an RPC call throwing one of the program's own errors. */
  predicate RpcOnly(step: Step) { step.Stop? || step.call.None? || (step.FetchMoves? && step.call.value.Btk?) }

  lemma StaysHushed(s: State, step: Step)
    requires Hushed(s) && RpcOnly(step)
    ensures Hushed(Next(s, step))
  {
  }

  /** After a stop request the errors of interrupted RPC calls are not reported: the run ends as interrupted. */
  lemma {:induction false} StopSilencesFetch(s: State, steps: seq<Step>)
    requires Hushed(s) && forall step :: step in steps ==> RpcOnly(step)
    ensures EndOf(Run(s, steps)) == Interrupted
    ensures Hushed(Run(s, steps))
    decreases |steps|
  {
    hide Next, RpcOnly;
    if steps != [] {
      StaysHushed(s, steps[0]);
      StopSilencesFetch(Next(s, steps[0]), steps[1..]);
    }
  }

  /** What is raised was thrown by some call; a run with no throw and no stop request returns, complete. */
  lemma EndingExplained(first: nat, tip: nat, steps: seq<Step>)
    requires first <= tip && AllAllowed(Init(first, tip), steps) && Finished(Run(Init(first, tip), steps))
    ensures var s := Run(Init(first, tip), steps);
      && (EndOf(s).Raised? ==> EndOf(s).e in Thrown(steps))
      && (Thrown(steps) == {} && Stop !in steps ==> EndOf(s) == Returned && s.applied == Heights(first, tip + 1 - first))
  {
    hide Run, AllAllowed;
    RunErrors(Init(first, tip), steps, Thrown(steps));
    Delivery(first, tip, steps);
  }

  lemma FetchApart(s: State, call: Option<Error>)
    ensures var t := NextFetch(s, call);
      && t == s.(raw := t.raw, fx := t.fx, fetch := t.fetch)
      && t.fx.items == s.fx.items && (s.fetch.FetchFailFx? || t.fx == s.fx)
  {
  }

  lemma ParseApart(s: State, call: Option<Error>)
    ensures var t := NextParse(s, call); t == s.(raw := t.raw, fx := t.fx, parse := t.parse) && t.raw.err == s.raw.err
  {
  }

  lemma WriteApart(s: State, call: Option<Error>)
    ensures var t := NextWrite(s, call);
      && t == s.(raw := t.raw, fx := t.fx, write := t.write, workerErr := t.workerErr, applied := t.applied)
      && t.raw.items == s.raw.items && (s.write.WriteFailRaw? || t.raw == s.raw)
  {
  }

  /** What each thread leaves alone: parsing never fails the raw queue, and only the writer applies or raises. */
  lemma ThreadsApart(s: State, call: Option<Error>)
    ensures var t := NextFetch(s, call);
      && t.parse == s.parse && t.write == s.write && t.applied == s.applied && t.workerErr == s.workerErr
      && t.fx.items == s.fx.items && (s.fetch.FetchFailFx? || t.fx == s.fx)
    ensures var t := NextParse(s, call);
      && t.fetch == s.fetch && t.write == s.write && t.applied == s.applied && t.workerErr == s.workerErr
      && t.raw.err == s.raw.err
    ensures var t := NextWrite(s, call);
      && t.fetch == s.fetch && t.parse == s.parse
      && t.raw.items == s.raw.items && (s.write.WriteFailRaw? || t.raw == s.raw)
    ensures NextFetch(s, call).stop == NextParse(s, call).stop == NextWrite(s, call).stop == s.stop
  {
    hide *;
    FetchApart(s, call);
    ParseApart(s, call);
    WriteApart(s, call);
  }

  /** A failed call of the fetch thread is reported exactly if it is not one of the program's own after a stop. */
  lemma FetchReportsIff(s: State, e: Error, later: Option<Error>)
    requires s.fetch.Rpc? && s.raw.err.None?
    ensures var t := NextFetch(NextFetch(NextFetch(s, Some(e)), later), later);
      && t.raw.closed && t.raw.items == s.raw.items
      && t.raw.err == (if e.Btk? && (s.stop || e.message == "interrupted") then None else Some(e))
  {
  }

  lemma StartsNoCall(s: State, step: Step)
    requires s.stop && !s.fetch.Rpc?
    ensures Next(s, step).stop && !Next(s, step).fetch.Rpc?
  {
  }

  /** After a stop request no new block is asked for. */
  lemma {:induction false} NoCallAfterStop(s: State, steps: seq<Step>)
    requires s.stop && !s.fetch.Rpc?
    ensures !Run(s, steps).fetch.Rpc?
    decreases |steps|
  {
    hide Next;
    if steps != [] {
      StartsNoCall(s, steps[0]);
      NoCallAfterStop(Next(s, steps[0]), steps[1..]);
    }
  }

  // ----- Liveness -----

  /** While a thread is unfinished, some thread changes the state whatever its outside call does. */
  lemma NoDeadlock(s: State, f: Option<Error>, p: Option<Error>, w: Option<Error>)
    requires Inv(s) && !Finished(s)
    ensures NextFetch(s, f) != s || NextParse(s, p) != s || NextWrite(s, w) != s
  {
    hide Contiguous, Accounted, NextFetch, NextParse, NextWrite;
    if NextFetch(s, f) == s && NextParse(s, p) == s && NextWrite(s, w) == s {
      WriteStuck(s, w);
      ParseStuck(s, p);
      FetchStuck(s, f);
    }
  }

  predicate Waits<T>(q: Queue<T>, stop: bool) { !stop && !q.closed && q.err.None? }

  lemma FetchStuck(s: State, call: Option<Error>)
    requires NextFetch(s, call) == s
    ensures s.fetch.FetchDone? || (Waits(s.raw, s.stop) && |s.raw.items| >= s.raw.max)
  {
  }

  lemma ParseStuck(s: State, call: Option<Error>)
    requires NextParse(s, call) == s
    ensures s.parse.ParseDone? || (Waits(s.raw, s.stop) && s.raw.items == [])
                               || (Waits(s.fx, s.stop) && |s.fx.items| >= s.fx.max)
  {
  }

  lemma WriteStuck(s: State, call: Option<Error>)
    requires NextWrite(s, call) == s
    ensures s.write.WriteDone? || (Waits(s.fx, s.stop) && s.fx.items == [])
  {
  }

  /** After a stop request no thread waits for another: each unfinished one moves when it is scheduled. */
  lemma StopUnblocks(s: State, call: Option<Error>)
    requires s.stop
    ensures !s.fetch.FetchDone? ==> NextFetch(s, call) != s
    ensures !s.parse.ParseDone? ==> NextParse(s, call) != s
    ensures !s.write.WriteDone? ==> NextWrite(s, call) != s
  {
  }

  function FetchWork(f: Fetch, tip: nat): nat {
    match f
    case FetchDone => 0
    case FetchFailFx(_) => 1
    case CloseRaw => 1
    case FetchFailRaw(_) => 2
    case Catch(_) => 3
    case Loop(h) => 4 + 12 * Left(h, tip)
    case Rpc(h) => 3 + 12 * Left(h, tip)
    case PushRaw(h, waited) => (if waited then 1 else 2) + 12 * Left(h, tip)
  }

  function Left(h: nat, tip: nat): nat { if h <= tip then tip + 1 - h else 0 }

  function ParseWork(p: Parse): nat {
    match p
    case ParseDone => 0
    case ParseFail(_) => 1
    case CloseFx => 1
    case PopRaw(waited) => if waited then 2 else 3
    case PushFx(_, waited) => if waited then 7 else 8
    case Work(_) => 9
  }

  function WriteWork(w: Write): nat {
    match w
    case WriteDone => 0
    case WriteFailFx(_) => 1
    case WriteFailRaw(_) => 2
    case PopFx(waited) => if waited then 3 else 4
    case Apply(_) => 5
  }

  /** How much is left to do: threads weighted by what they will still cause, and queued items. */
  function Measure(s: State): nat {
    FetchWork(s.fetch, s.tip) + 8 * |s.raw.items| + ParseWork(s.parse) + 3 * |s.fx.items| + WriteWork(s.write)
    + (if s.stop then 0 else 1)
  }

  lemma FetchProgress(s: State, call: Option<Error>)
    requires Bounded(s)
    ensures NextFetch(s, call) == s || Measure(NextFetch(s, call)) < Measure(s)
  {
  }

  lemma ParseProgress(s: State, call: Option<Error>)
    requires Bounded(s)
    ensures NextParse(s, call) == s || Measure(NextParse(s, call)) < Measure(s)
  {
  }

  lemma WriteProgress(s: State, call: Option<Error>)
    requires Bounded(s)
    ensures NextWrite(s, call) == s || Measure(NextWrite(s, call)) < Measure(s)
  {
  }

  /** Every step that changes the state brings the end nearer. */
  lemma Progress(s: State, step: Step)
    requires Bounded(s)
    ensures Next(s, step) == s || Measure(Next(s, step)) < Measure(s)
  {
    hide NextFetch, NextParse, NextWrite;
    match step
    case Stop =>
    case FetchMoves(call) => FetchProgress(s, call);
    case ParseMoves(call) => ParseProgress(s, call);
    case WriteMoves(call) => WriteProgress(s, call);
  }

  /** The steps of a schedule that change the state. */
  function Changes(s: State, steps: seq<Step>): nat
    decreases |steps|
  {
    if steps == [] then 0
    else (if Next(s, steps[0]) == s then 0 else 1) + Changes(Next(s, steps[0]), steps[1..])
  }

  lemma {:induction false} ChangesBounded(s: State, steps: seq<Step>)
    requires Inv(s) && AllAllowed(s, steps)
    ensures Changes(s, steps) + Measure(Run(s, steps)) <= Measure(s)
    decreases |steps|
  {
    hide Measure, Next, Inv, Allowed;
    if steps != [] {
      InvBounded(s);
      Progress(s, steps[0]);
      StepKeeps(s, steps[0]);
      ChangesBounded(Next(s, steps[0]), steps[1..]);
    }
  }

  lemma InvBounded(s: State)
    requires Inv(s)
    ensures Bounded(s)
  {
  }

  predicate Fair(block: seq<Step>) {
    && (exists i :: 0 <= i < |block| && block[i].FetchMoves?)
    && (exists i :: 0 <= i < |block| && block[i].ParseMoves?)
    && (exists i :: 0 <= i < |block| && block[i].WriteMoves?)
  }

  function Joined(blocks: seq<seq<Step>>): seq<Step> {
    if blocks == [] then [] else blocks[0] + Joined(blocks[1..])
  }

  lemma {:induction false} RunConcat(s: State, a: seq<Step>, b: seq<Step>)
    ensures Run(s, a + b) == Run(Run(s, a), b)
    ensures AllAllowed(s, a + b) ==> AllAllowed(s, a) && AllAllowed(Run(s, a), b)
    decreases |a|
  {
    hide Next, Allowed;
    if a == [] {
      assert a + b == b;
    } else {
      RunConcat(Next(s, a[0]), a[1..], b);
      assert (a + b)[1..] == a[1..] + b;
    }
  }

  lemma {:induction false} Stutters(s: State, steps: seq<Step>)
    ensures Changes(s, steps) == 0 ==> forall step :: step in steps ==> Next(s, step) == s
    decreases |steps|
  {
    hide Next;
    if steps != [] {
      Stutters(Next(s, steps[0]), steps[1..]);
    }
  }

  lemma {:induction false} FinishedStays(s: State, steps: seq<Step>)
    requires Finished(s)
    ensures Finished(Run(s, steps))
    decreases |steps|
  {
    if steps != [] {
      FinishedStays(Next(s, steps[0]), steps[1..]);
    }
  }

  lemma FairBlock(s: State, block: seq<Step>)
    requires Inv(s) && AllAllowed(s, block) && Fair(block)
    ensures Finished(s) || Measure(Run(s, block)) < Measure(s)
  {
    hide Inv, AllAllowed, Measure, Finished, NextFetch, NextParse, NextWrite, Run, Changes;
    if !Finished(s) {
      ChangesBounded(s, block);
      Stutters(s, block);
      var f :| 0 <= f < |block| && block[f].FetchMoves?;
      var p :| 0 <= p < |block| && block[p].ParseMoves?;
      var w :| 0 <= w < |block| && block[w].WriteMoves?;
      NoDeadlock(s, block[f].call, block[p].call, block[w].call);
      if Changes(s, block) == 0 {
        assert Next(s, block[f]) == s && Next(s, block[p]) == s && Next(s, block[w]) == s;
      }
    }
  }

  lemma {:induction false} FairRun(s: State, blocks: seq<seq<Step>>)
    requires Inv(s) && AllAllowed(s, Joined(blocks))
    requires forall b :: b in blocks ==> Fair(b)
    requires |blocks| > Measure(s) || Finished(s)
    ensures Finished(Run(s, Joined(blocks)))
    decreases |blocks|
  {
    hide Inv, AllAllowed, Measure, Finished, Run, Fair;
    if Finished(s) {
      FinishedStays(s, Joined(blocks));
    } else {
      var b, rest := blocks[0], Joined(blocks[1..]);
      RunConcat(s, b, rest);
      RunKeeps(s, b);
      FairBlock(s, b);
      FairRun(Run(s, b), blocks[1..]);
    }
  }

  /**
   * The run ends: whatever the outside calls do and whenever stop is requested, once every thread has been
   * scheduled often enough (a bound linear in the number of blocks) all three have finished.
   */
  lemma Termination(first: nat, tip: nat, blocks: seq<seq<Step>>)
    requires first <= tip && AllAllowed(Init(first, tip), Joined(blocks))
    requires forall b :: b in blocks ==> Fair(b)
    requires |blocks| > 12 * (tip + 1 - first) + 12
    ensures Finished(Run(Init(first, tip), Joined(blocks)))
  {
    hide AllAllowed, Fair, Run, Joined, Finished;
    InitInv(first, tip);
    FairRun(Init(first, tip), blocks);
  }
}
