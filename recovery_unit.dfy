/**
 * OntapKVRecoveryUnit of ontapkv_recovery_unit_mock.cpp: no transactions,
 * only three flags guarded by invariants. Each operation is a step of a
 * small state machine, whose failed invariant is None.
 */
module RecoveryUnitMock {
  import opened KvTypes

  datatype UnitState = UnitState(inUnitOfWork: bool, active: bool, everStartedWrite: bool)

  datatype UnitOp = Begin | Commit | Abort | RegisterChange | WaitUntilDurable | AbandonSnapshot

  /** A new recovery unit: all three flags false. */
  const INITIAL: UnitState := UnitState(false, false, false)

  /**
   * One operation: beginUnitOfWork needs write units of work not banned and
   * none open, and opens one, remembering that a write started; commit and
   * abort need one open and close it; registerChange needs one open;
   * waitUntilDurable needs none open; abandonSnapshot does nothing.
   */
  function Step(banned: bool, st: UnitState, op: UnitOp): Option<UnitState>
  {
    match op
    case Begin =>
      if banned || st.inUnitOfWork then None
      else Some(st.(inUnitOfWork := true, everStartedWrite := true))
    case Commit => if !st.inUnitOfWork then None else Some(st.(inUnitOfWork := false))
    case Abort => if !st.inUnitOfWork then None else Some(st.(inUnitOfWork := false))
    case RegisterChange => if !st.inUnitOfWork then None else Some(st)
    case WaitUntilDurable => if st.inUnitOfWork then None else Some(st)
    case AbandonSnapshot => Some(st)
  }

  /** A series of operations, stopping at the first failed invariant. */
  function Run(banned: bool, st: UnitState, ops: seq<UnitOp>): Option<UnitState>
    decreases |ops|
  {
    if |ops| == 0 then Some(st)
    else
      match Step(banned, st, ops[0])
      case None => None
      case Some(st') => Run(banned, st', ops[1..])
  }

  /** How many units of work the operations open, and how many they close. */
  function Opened(ops: seq<UnitOp>): nat
    decreases |ops|
  {
    if |ops| == 0 then 0 else (if ops[0] == Begin then 1 else 0) + Opened(ops[1..])
  }

  function Closed(ops: seq<UnitOp>): nat
    decreases |ops|
  {
    if |ops| == 0 then 0 else (if ops[0] == Commit || ops[0] == Abort then 1 else 0) + Closed(ops[1..])
  }

  /**
   * Once a write has started the flag stays set, and the active flag is
   * never touched, whatever operations follow.
   */
  lemma {:induction false} EverStartedWriteSticky(banned: bool, st: UnitState, ops: seq<UnitOp>)
    requires Run(banned, st, ops).Some?
    ensures st.everStartedWrite ==> Run(banned, st, ops).value.everStartedWrite
    ensures Run(banned, st, ops).value.active == st.active
    decreases |ops|
  {
    if |ops| > 0 {
      EverStartedWriteSticky(banned, Step(banned, st, ops[0]).value, ops[1..]);
    }
  }

  /**
   * From any state, a run that succeeds has the write flag set exactly when
   * it was set before or some beginUnitOfWork took place.
   */
  lemma {:induction false} EverStartedWriteIffBegan(banned: bool, st: UnitState, ops: seq<UnitOp>)
    requires Run(banned, st, ops).Some?
    ensures Run(banned, st, ops).value.everStartedWrite <==> st.everStartedWrite || Begin in ops
    decreases |ops|
  {
    if |ops| > 0 {
      var st' := Step(banned, st, ops[0]).value;
      EverStartedWriteIffBegan(banned, st', ops[1..]);
      assert Begin in ops <==> ops[0] == Begin || Begin in ops[1..] by {
        assert ops == [ops[0]] + ops[1..];
      }
    }
  }

  /**
   * Units of work strictly alternate: a run that succeeds opened as many
   * units as it closed, plus one if the unit it leaves is open.
   */
  lemma {:induction false} UnitsAlternate(banned: bool, st: UnitState, ops: seq<UnitOp>)
    requires Run(banned, st, ops).Some?
    ensures (if st.inUnitOfWork then 1 else 0) + Opened(ops)
         == Closed(ops) + (if Run(banned, st, ops).value.inUnitOfWork then 1 else 0)
    decreases |ops|
  {
    if |ops| > 0 {
      UnitsAlternate(banned, Step(banned, st, ops[0]).value, ops[1..]);
    }
  }

  /** From a new unit: the write flag is set iff a unit of work was begun. */
  lemma NewUnitStartedWriteIffBegan(banned: bool, ops: seq<UnitOp>)
    requires Run(banned, INITIAL, ops).Some?
    ensures Run(banned, INITIAL, ops).value.everStartedWrite <==> Begin in ops
    ensures !Run(banned, INITIAL, ops).value.active
  {
    EverStartedWriteIffBegan(banned, INITIAL, ops);
    EverStartedWriteSticky(banned, INITIAL, ops);
  }

  /** With write units of work banned, any run that contains a begin fails. */
  lemma {:induction false} BannedNeverBegins(st: UnitState, ops: seq<UnitOp>)
    requires Begin in ops
    ensures Run(true, st, ops).None?
    decreases |ops|
  {
    if ops[0] != Begin {
      assert Begin in ops[1..] by {
        assert ops == [ops[0]] + ops[1..];
      }
      var next := Step(true, st, ops[0]);
      if next.Some? {
        BannedNeverBegins(next.value, ops[1..]);
      }
    }
  }

  class RecoveryUnit {
    /** _areWriteUnitOfWorksBanned, kept by the base class. */
    const writeUnitOfWorksBanned: bool
    var inUnitOfWork: bool
    var active: bool
    var everStartedWrite: bool

    function State(): UnitState
      reads this
    {
      UnitState(inUnitOfWork, active, everStartedWrite)
    }

    constructor (banned: bool)
      ensures writeUnitOfWorksBanned == banned && State() == INITIAL
    {
      writeUnitOfWorksBanned := banned;
      inUnitOfWork := false;
      active := false;
      everStartedWrite := false;
    }

    method BeginUnitOfWork()
      requires !writeUnitOfWorksBanned && !inUnitOfWork
      modifies this
      ensures Step(writeUnitOfWorksBanned, old(State()), Begin) == Some(State())
    {
      inUnitOfWork := true;
      everStartedWrite := true;
    }

    method CommitUnitOfWork()
      requires inUnitOfWork
      modifies this
      ensures Step(writeUnitOfWorksBanned, old(State()), Commit) == Some(State())
    {
      inUnitOfWork := false;
    }

    method AbortUnitOfWork()
      requires inUnitOfWork
      modifies this
      ensures Step(writeUnitOfWorksBanned, old(State()), Abort) == Some(State())
    {
      inUnitOfWork := false;
    }

    /** registerChange: the change is not recorded. */
    method RegisterChange()
      requires inUnitOfWork
      ensures Step(writeUnitOfWorksBanned, State(), UnitOp.RegisterChange) == Some(State())
    {
    }

    /** waitUntilDurable: nothing is ever made durable, so the answer is false. */
    method WaitUntilDurable() returns (durable: bool)
      requires !inUnitOfWork
      ensures !durable && Step(writeUnitOfWorksBanned, State(), UnitOp.WaitUntilDurable) == Some(State())
    {
      durable := false;
    }

    /** The destructor: no unit of work may be left open. */
    method Release()
      requires !inUnitOfWork
    {
    }
  }

  /** A unit that begins and commits has started a write, is closed, and cannot be made durable. */
  method BeginCommitWait() returns (u: RecoveryUnit, durable: bool)
    ensures !u.inUnitOfWork && u.everStartedWrite && !u.active && !durable
  {
    u := new RecoveryUnit(false);
    u.BeginUnitOfWork();
    u.RegisterChange();
    u.CommitUnitOfWork();
    durable := u.WaitUntilDurable();
  }
}
