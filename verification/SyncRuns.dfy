/** Sync commands over the life of an index: fresh, resumed, refused, forced, and cut off at any step. */
module SyncRuns {
  import opened Bytes
  import opened BoundedQueues
  import opened Pipeline
  import opened Utxo
  import opened Audit

  // The index directory. A database that opens is known by the ledger it spells out.
  datatype Index = Missing | NotDirectory | EmptyDirectory | Unopenable | Database(ledger: Ledger)

  datatype IndexState = StateMissing | StateEmpty | StateValid | StateJunk

  function Inspect(index: Index): IndexState {
    match index
    case Missing => StateMissing
    case NotDirectory => StateJunk
    case EmptyDirectory => StateEmpty
    case Unopenable => StateJunk
    case Database(l) => if l.tip.Some? then StateValid else StateJunk
  }

  const REORG := Btk("reorg detected; rebuild with --sync --force")
  const EXISTS := Btk("balance database exists; rebuild with --sync --force")

  // What happens during one command: the tip the node reports (or the error of an early call), the schedule
  // of the three threads, possibly cut short by the process dying.
  datatype Session = Session(force: bool, early: Option<Error>, tip: nat, steps: seq<Step>)

  datatype Outcome = Died | Ended(ending: Ending)

  /** The chain the node serves: block k at height k. */
  predicate Chain(chain: seq<BlockEffects>) { forall k :: 0 <= k < |chain| ==> chain[k].height == k }

  predicate Within(heights: seq<nat>, n: nat) { forall i :: 0 <= i < |heights| ==> heights[i] < n }

  function ApplyHeights(chain: seq<BlockEffects>, l: Ledger, heights: seq<nat>): Ledger
    requires Within(heights, |chain|)
  {
    if heights == [] then l
    else
      var n := |heights| - 1;
      SnapApply(ApplyHeights(chain, l, heights[..n]), chain[heights[n]])
  }

  // What walk_rpc_blocks decides before it starts its threads.
  datatype Start = Refuse(e: Error) | UpToDate | From(first: nat)

  function StartOf(chain: seq<BlockEffects>, resume: Option<(uint32, Hash256)>, session: Session): Start
    requires session.tip < |chain|
  {
    if session.early.Some? then Refuse(session.early.value)
    else match resume
      case None => From(0)
      case Some((height, hash)) =>
        if height > session.tip then Refuse(REORG)
        else if chain[height].hash != hash then Refuse(REORG)
        else if height == session.tip then UpToDate
        else From(height + 1)
  }

  function Applied(first: nat, session: Session): seq<nat> { Run(Init(first, session.tip), session.steps).applied }

  /** The schedule is one that can happen, and what it applies the node has. */
  ghost predicate Possible(chain: seq<BlockEffects>, resume: Option<(uint32, Hash256)>, session: Session) {
    && session.tip < |chain|
    && (StartOf(chain, resume, session).From? ==>
        AllAllowed(Init(StartOf(chain, resume, session).first, session.tip), session.steps))
  }

  lemma AppliedWithin(chain: seq<BlockEffects>, resume: Option<(uint32, Hash256)>, session: Session)
    requires Possible(chain, resume, session) && StartOf(chain, resume, session).From?
    ensures var first := StartOf(chain, resume, session).first;
      && first <= session.tip
      && Applied(first, session) == Heights(first, |Applied(first, session)|)
      && first + |Applied(first, session)| <= session.tip + 1
      && Within(Applied(first, session), |chain|)
  {
    hide Run, AllAllowed, Init, Heights;
    var first := StartOf(chain, resume, session).first;
    Delivery(first, session.tip, session.steps);
    HeightsWithin(first, |Applied(first, session)|, |chain|);
  }

  lemma HeightsWithin(first: nat, n: nat, bound: nat)
    requires first + n <= bound
    ensures Within(Heights(first, n), bound)
  {
  }

  ghost function Walk(chain: seq<BlockEffects>, l: Ledger, resume: Option<(uint32, Hash256)>, session: Session)
    : (Outcome, Ledger)
    requires Possible(chain, resume, session)
  {
    match StartOf(chain, resume, session)
    case Refuse(e) => (Ended(Raised(e)), l)
    case UpToDate => (Ended(Returned), l)
    case From(first) =>
      AppliedWithin(chain, resume, session);
      var s := Run(Init(first, session.tip), session.steps);
      (if Finished(s) then Ended(EndOf(s)) else Died, ApplyHeights(chain, l, s.applied))
  }

  /** Where a command resumes: only a valid index that is not to be destroyed has a place. */
  function ResumeAt(index: Index, session: Session): Option<(uint32, Hash256)> {
    if !session.force && Inspect(index) == StateValid then index.ledger.tip else None
  }

  /** do_sync: force destroys and starts over, a valid index is extended, junk is refused, else a fresh index. */
  ghost function Synced(chain: seq<BlockEffects>, index: Index, session: Session): (Outcome, Index)
    requires Possible(chain, ResumeAt(index, session), session)
  {
    if session.force then
      var (r, l) := Walk(chain, EMPTY, None, session);
      (r, Database(l))
    else
      match Inspect(index)
      case StateValid =>
        var (r, l) := Walk(chain, index.ledger, index.ledger.tip, session);
        (r, Database(l))
      case StateJunk => (Ended(Raised(EXISTS)), index)
      case _ =>
        var (r, l) := Walk(chain, EMPTY, None, session);
        (r, Database(l))
  }

  // ----- Every reachable index -----

  /** Nothing yet, or exactly the blocks 0 .. Mheight with Mtip the hash of block Mheight. */
  predicate Sound(chain: seq<BlockEffects>, index: Index) {
    match index
    case Missing => true
    case EmptyDirectory => true
    case Database(l) => SoundLedger(chain, l)
    case _ => false
  }

  predicate SoundLedger(chain: seq<BlockEffects>, l: Ledger) {
    match l.tip
    case None => l == EMPTY
    case Some((height, hash)) => height < |chain| && l == SnapRun(chain[..height + 1]) && hash == chain[height].hash
  }

  lemma RunTip(chain: seq<BlockEffects>, n: nat)
    requires Chain(chain) && 0 < n <= |chain|
    ensures SnapRun(chain[..n]).tip == Some((n - 1, chain[n - 1].hash))
  {
    assert chain[..n][n - 1] == chain[n - 1];
  }

  lemma RunIsSound(chain: seq<BlockEffects>, n: nat)
    requires Chain(chain) && n <= |chain|
    ensures SoundLedger(chain, SnapRun(chain[..n]))
  {
    hide SnapRun;
    if n == 0 {
      NoBlocks(chain);
    } else {
      RunTip(chain, n);
    }
  }

  lemma NoBlocks(chain: seq<BlockEffects>)
    ensures SnapRun(chain[..0]) == EMPTY
  {
  }

  lemma {:induction false} Extends(chain: seq<BlockEffects>, first: nat, n: nat)
    requires first + n <= |chain| && Within(Heights(first, n), |chain|)
    ensures ApplyHeights(chain, SnapRun(chain[..first]), Heights(first, n)) == SnapRun(chain[..first + n])
  {
    hide SnapApply;
    if n > 0 {
      assert Heights(first, n)[..n - 1] == Heights(first, n - 1);
      Extends(chain, first, n - 1);
      var all := chain[..first + n];
      assert all[..|all| - 1] == chain[..first + n - 1];
    }
  }

  /** Where a walk may begin: at block 0 of nothing, or after the block the ledger ends with. */
  lemma WalkStep(chain: seq<BlockEffects>, l: Ledger, session: Session)
    requires Chain(chain) && SoundLedger(chain, l) && Possible(chain, l.tip, session)
    ensures var (r, after) := Walk(chain, l, l.tip, session);
      && SoundLedger(chain, after)
      && (r == Ended(Returned) ==> after == SnapRun(chain[..session.tip + 1]))
      && (l.tip.Some? ==> after.tip.Some? && after.tip.value.0 >= l.tip.value.0)
  {
    hide Run, AllAllowed, Init, Heights, SnapRun, Finished, Within;
    if StartOf(chain, l.tip, session).From? {
      var first := StartOf(chain, l.tip, session).first;
      var s := Run(Init(first, session.tip), session.steps);
      AppliedWithin(chain, l.tip, session);
      Delivery(first, session.tip, session.steps);
      NoBlocks(chain);
      assert l == SnapRun(chain[..first]);
      var n := |s.applied|;
      Extends(chain, first, n);
      RunIsSound(chain, first + n);
      if first + n > 0 {
        RunTip(chain, first + n);
      }
      if Finished(s) && EndOf(s) == Returned {
        HeightsLength(first, session.tip + 1 - first);
      }
    }
  }

  lemma HeightsLength(first: nat, n: nat)
    ensures |Heights(first, n)| == n
  {
  }

  /** One command, however it goes, leaves a sound index; one that returns leaves all blocks up to the tip. */
  lemma SyncStep(chain: seq<BlockEffects>, index: Index, session: Session)
    requires Chain(chain) && Sound(chain, index) && Possible(chain, ResumeAt(index, session), session)
    ensures var (r, after) := Synced(chain, index, session);
      && Sound(chain, after)
      && (r == Ended(Returned) ==> after == Database(SnapRun(chain[..session.tip + 1])))
  {
    hide Walk, SoundLedger, SnapRun, Possible;
    EmptyIsSound(chain);
    if ResumeAt(index, session).Some? {
      WalkStep(chain, index.ledger, session);
    } else {
      WalkStep(chain, EMPTY, session);
    }
  }

  lemma EmptyIsSound(chain: seq<BlockEffects>)
    ensures SoundLedger(chain, EMPTY) && EMPTY.tip == None
  {
  }

  /** The index after a sequence of commands. */
  ghost function History(chain: seq<BlockEffects>, index: Index, sessions: seq<Session>): Index
    requires AllPossible(chain, index, sessions)
    decreases |sessions|
  {
    if sessions == [] then index
    else History(chain, Synced(chain, index, sessions[0]).1, sessions[1..])
  }

  ghost predicate AllPossible(chain: seq<BlockEffects>, index: Index, sessions: seq<Session>)
    decreases |sessions|
  {
    sessions == []
    || (Possible(chain, ResumeAt(index, sessions[0]), sessions[0])
        && AllPossible(chain, Synced(chain, index, sessions[0]).1, sessions[1..]))
  }

  /**
   * Whatever sequence of commands, each stopped, failed, killed or completed at any step: the index is
   * empty without metadata or holds exactly blocks 0 .. Mheight, Mtip being the hash of block Mheight.
   */
  lemma {:induction false} EveryReachableIndexIsSound(chain: seq<BlockEffects>, index: Index, sessions: seq<Session>)
    requires Chain(chain) && Sound(chain, index) && AllPossible(chain, index, sessions)
    ensures Sound(chain, History(chain, index, sessions))
    decreases |sessions|
  {
    hide Sound, Synced, Possible;
    if sessions != [] {
      SyncStep(chain, index, sessions[0]);
      EveryReachableIndexIsSound(chain, Synced(chain, index, sessions[0]).1, sessions[1..]);
    }
  }

  /** A command that returns after any history leaves what one uninterrupted fresh sync would have left. */
  lemma ResumedEqualsUninterrupted(chain: seq<BlockEffects>, sessions: seq<Session>, last: Session, whole: Session)
    requires Chain(chain) && AllPossible(chain, Missing, sessions) && last.tip == whole.tip && !whole.force
    requires var index := History(chain, Missing, sessions);
      Possible(chain, ResumeAt(index, last), last) && Synced(chain, index, last).0 == Ended(Returned)
    requires Possible(chain, None, whole) && Synced(chain, Missing, whole).0 == Ended(Returned)
    ensures Synced(chain, History(chain, Missing, sessions), last).1 == Synced(chain, Missing, whole).1
  {
    hide Synced, History, AllPossible, Possible;
    EveryReachableIndexIsSound(chain, Missing, sessions);
    SyncStep(chain, History(chain, Missing, sessions), last);
    SyncStep(chain, Missing, whole);
  }

  /** Without --force no command ever loses a block. */
  lemma NeverGoesBack(chain: seq<BlockEffects>, index: Index, session: Session)
    requires Chain(chain) && Sound(chain, index) && Possible(chain, ResumeAt(index, session), session)
    requires !session.force && Inspect(index) == StateValid
    ensures var (_, after) := Synced(chain, index, session);
      && Inspect(after) == StateValid
      && after.ledger.tip.value.0 >= index.ledger.tip.value.0
  {
    hide Walk, SoundLedger, Possible;
    WalkStep(chain, index.ledger, session);
  }

  /** Whether a command builds the index anew: it is forced, or there is none yet. */
  predicate StartsOver(index: Index, session: Session) {
    session.force || index == Missing || index == EmptyDirectory
  }

  /**
   * A reachable index is refused by a plain sync exactly when it is a database without metadata. That is what a
   * command that starts over, forced ones that have just destroyed a good index included, leaves behind exactly
   * when an early call failed or no block was applied. Only --force helps then.
   */
  lemma RefusedIffCutBeforeFirstBlock(chain: seq<BlockEffects>, index: Index, session: Session)
    requires Chain(chain) && Sound(chain, index) && Possible(chain, ResumeAt(index, session), session)
    ensures Inspect(index) == StateJunk <==> index == Database(EMPTY)
    ensures index == Database(EMPTY) && !session.force ==>
      Synced(chain, index, session) == (Ended(Raised(EXISTS)), index)
    ensures StartsOver(index, session) ==>
      (Synced(chain, index, session).1 == Database(EMPTY) <==> session.early.Some? || Applied(0, session) == [])
  {
    hide Run, AllAllowed, Init, Finished, SnapRun, Heights;
    EmptyIsSound(chain);
    if StartsOver(index, session) && StartOf(chain, None, session).From? {
      WalkStep(chain, EMPTY, session);
      AppliedWithin(chain, None, session);
      AnyBlockLeavesMetadata(chain, EMPTY, Applied(0, session));
    }
  }

  lemma AnyBlockLeavesMetadata(chain: seq<BlockEffects>, l: Ledger, heights: seq<nat>)
    requires Within(heights, |chain|)
    ensures heights != [] ==> ApplyHeights(chain, l, heights).tip.Some?
    ensures heights == [] ==> ApplyHeights(chain, l, heights) == l
  {
  }

  /** A node whose chain does not contain the index's tip is always noticed, and the index is left alone. */
  lemma ReorgDetected(chain: seq<BlockEffects>, index: Index, session: Session)
    requires Possible(chain, ResumeAt(index, session), session)
    requires !session.force && session.early.None? && Inspect(index) == StateValid
    ensures var (height, hash) := index.ledger.tip.value;
      var lost := height > session.tip || chain[height].hash != hash;
      && (lost ==> Synced(chain, index, session)
                   == (Ended(Raised(Btk("reorg detected; rebuild with --sync --force"))), index))
      && (!lost ==> !StartOf(chain, index.ledger.tip, session).Refuse?)
  {
    hide Run, AllAllowed;
  }
  /** A plain sync leaves alone what is no index: a file in its place, or a directory that does not open as one. */
  lemma JunkUntouched(chain: seq<BlockEffects>, index: Index, session: Session)
    requires Possible(chain, ResumeAt(index, session), session)
    requires !session.force && (index == NotDirectory || index == Unopenable || (index.Database? && index.ledger.tip.None?))
    ensures Synced(chain, index, session)
         == (Ended(Raised(Btk("balance database exists; rebuild with --sync --force"))), index)
  {
  }

  /** A forced sync does what a fresh one does, whatever was there before. */
  lemma ForceForgets(chain: seq<BlockEffects>, index: Index, session: Session)
    requires session.force && Possible(chain, ResumeAt(index, session), session)
    ensures Synced(chain, index, session) == Synced(chain, Missing, session.(force := false))
  {
    hide Run, AllAllowed, ApplyHeights, Finished;
  }

  /** An index at the node's tip is left as it is, without any thread's help. */
  lemma UpToDateUnchanged(chain: seq<BlockEffects>, index: Index, session: Session)
    requires Possible(chain, ResumeAt(index, session), session)
    requires !session.force && session.early.None? && Inspect(index) == StateValid
    requires index.ledger.tip == Some((session.tip, chain[session.tip].hash))
    ensures Synced(chain, index, session) == (Ended(Returned), index)
  {
    hide Run, AllAllowed;
  }

  /** A walk adds to the blocks that were there exactly those its writer applied. */
  lemma GrowsByApplied(chain: seq<BlockEffects>, index: Index, session: Session)
    requires Chain(chain) && Sound(chain, index) && Possible(chain, ResumeAt(index, session), session)
    requires session.early.None? && (session.force || Inspect(index) != StateJunk)
    requires StartOf(chain, ResumeAt(index, session), session).From?
    ensures var had := if session.force || Inspect(index) != StateValid then 0 else index.ledger.tip.value.0 + 1;
      var n := |Applied(had, session)|;
      had + n <= |chain| && Synced(chain, index, session).1 == Database(SnapRun(chain[..had + n]))
  {
    hide Run, AllAllowed, Init, Heights, Finished, Within, SnapRun;
    var resume := ResumeAt(index, session);
    var first := StartOf(chain, resume, session).first;
    AppliedWithin(chain, resume, session);
    NoBlocks(chain);
    Extends(chain, first, |Applied(first, session)|);
  }
}
