/** The table-driven state machine (src/State/StateInit.c,
    src/State/StateExec.c).

    A handle holds the current state and a table of transitions; Exec feeds
    it an event, runs the first row that matches (state, event), and moves to
    the row's candidate next state when that candidate is one of the row's
    MLIB_STATE_NEXT_NUM permitted successors. A row's task is foreign code:
    its result for the call is a parameter of Exec. */
module State {
  import opened MLibTypes

  /** MLIB_STATE_NEXT_NUM: length of a row's successor list. */
  const NEXT_NUM: nat := 20

  /** MLIB_STATE_NULL: the invalid state number. */
  const STATE_NULL: uint32 := 0

  /** sizeof(MLibStateTransition_t) on LP64: state and event (4 + 4), the
      task pointer (8), and 20 successor numbers (80). */
  const ROW_SIZE: nat := 96

  /** MLIB_STATE_ERR_NONE, _PARAM, _NO_TRANS, _TRANS (0 .. 3). */
  datatype StateErr = StateErrNone | StateErrParam | StateErrNoTrans | StateErrTrans

  /** The address of a state transition task. */
  datatype Task = Task(address: nat)

  /** MLibStateTransition_t: one row of the table. */
  datatype Transition = Transition(state: uint32, event: uint32, task: Ptr<Task>, next: seq<uint32>)

  /** MLibStateHandle_t. */
  datatype Handle = Handle(state: uint32, table: Ptr<seq<Transition>>, transitionNum: size_t)

  /** The handle's first transitionNum rows exist and each has its full
      successor list. */
  predicate Readable(h: Handle)
  {
    && h.table.Points? && h.transitionNum <= |h.table.to|
    && forall i :: 0 <= i < h.transitionNum ==> |h.table.to[i].next| == NEXT_NUM
  }

  // ---------------------------------------------------------------------
  // Init

  /** Result of Init: return code, the handle contents, error number. */
  datatype InitResult = InitResult(ret: Ret, handle: Ptr<Handle>, err: Ptr<StateErr>)

  /** The checks MLibStateInit makes on the table, its size and the
      initial state. */
  predicate Acceptable(pTable: Ptr<seq<Transition>>, tableSize: size_t, state: uint32)
  {
    pTable.Points? && tableSize % ROW_SIZE == 0 && state != STATE_NULL
  }

  /** MLibStateInit(pHandle, pTable, tableSize, state, pErrNo) as written:
      a NULL handle is reported as MLIB_STATE_ERR_PARAM but the call returns
      MLIB_SUCCESS. */
  function InitAsWritten(pHandle: Ptr<Handle>, pTable: Ptr<seq<Transition>>, tableSize: size_t,
                         state: uint32, pErrNo: Ptr<StateErr>): (r: InitResult)
    ensures pHandle.Null? ==> r.ret == Success && r.handle == pHandle && r.err == Set(pErrNo, StateErrParam)
    ensures pHandle.Points? ==> (r.ret == Success <==> Acceptable(pTable, tableSize, state))
    ensures pHandle.Points? && r.ret == Failure ==> r.handle == pHandle && r.err == Set(pErrNo, StateErrParam)
    ensures pHandle.Points? && r.ret == Success ==>
      && r.err == Set(pErrNo, StateErrNone)
      && r.handle.Points? && r.handle.to.state == state && r.handle.to.table == pTable
  {
    if pHandle.Null? then InitResult(Success, pHandle, Set(pErrNo, StateErrParam))
    else Init(pHandle, pTable, tableSize, state, pErrNo)
  }

  /** MLibStateInit with a NULL handle reported as MLIB_FAILURE, like every
      other rejected parameter. The handle is written only after every check
      has passed. */
  function Init(pHandle: Ptr<Handle>, pTable: Ptr<seq<Transition>>, tableSize: size_t,
                state: uint32, pErrNo: Ptr<StateErr>): (r: InitResult)
    ensures r.ret == Success <==> pHandle.Points? && Acceptable(pTable, tableSize, state)
    ensures r.ret == Failure ==> r.handle == pHandle && r.err == Set(pErrNo, StateErrParam)
    ensures r.ret == Success ==>
      && r.err == Set(pErrNo, StateErrNone)
      && r.handle.Points? && r.handle.to.state == state && r.handle.to.table == pTable
      && r.handle.to.transitionNum * ROW_SIZE == tableSize
  {
    if pHandle.Null? || pTable.Null? || tableSize % ROW_SIZE != 0 || state == STATE_NULL then
      InitResult(Failure, pHandle, Set(pErrNo, StateErrParam))
    else
      assert tableSize == (tableSize / ROW_SIZE) * ROW_SIZE + tableSize % ROW_SIZE;
      InitResult(Success, Points(Handle(state, pTable, tableSize / ROW_SIZE)), Set(pErrNo, StateErrNone))
  }

  /** With a NULL handle the call as written returns success together with
      a parameter error; the corrected Init reports failure. */
  lemma NullHandleSucceeds(pTable: Ptr<seq<Transition>>, tableSize: size_t, state: uint32)
    ensures var r := InitAsWritten(Null, pTable, tableSize, state, Points(StateErrNone));
            r.ret == Success && r.err == Points(StateErrParam)
    ensures Init(Null, pTable, tableSize, state, Points(StateErrNone)).ret == Failure
  {
  }

  /** A table of well-formed rows whose byte size is passed as tableSize
      yields a handle Exec can read, over all of its rows. */
  lemma InitReadable(pHandle: Ptr<Handle>, rows: seq<Transition>, state: uint32, pErrNo: Ptr<StateErr>)
    requires pHandle.Points? && state != STATE_NULL && |rows| * ROW_SIZE < SIZE_MOD
    requires forall i :: 0 <= i < |rows| ==> |rows[i].next| == NEXT_NUM
    ensures var r := Init(pHandle, Points(rows), |rows| * ROW_SIZE, state, pErrNo);
            r.ret == Success && Readable(r.handle.to) && r.handle.to.transitionNum == |rows|
  {
  }

  // ---------------------------------------------------------------------
  // Exec

  /** Row t applies to (state, event). */
  predicate Matches(t: Transition, state: uint32, event: uint32)
  {
    t.state == state && t.event == event
  }

  /** Which row a lookup selects. */
  datatype Match = NoMatch | Row(index: nat)

  /** The lowest row in [from, n) matching (state, event). */
  function FirstFrom(rows: seq<Transition>, from: nat, n: nat, state: uint32, event: uint32): (m: Match)
    requires n <= |rows|
    ensures m.Row? ==> from <= m.index < n && Matches(rows[m.index], state, event)
    ensures m.Row? ==> forall j :: from <= j < m.index ==> !Matches(rows[j], state, event)
    ensures m.NoMatch? ==> forall j :: from <= j < n ==> !Matches(rows[j], state, event)
    decreases n - from
  {
    if from >= n then NoMatch
    else if Matches(rows[from], state, event) then Row(from)
    else FirstFrom(rows, from + 1, n, state, event)
  }

  /** The state a row proposes: next[0] without a task, else the task's
      result. */
  function Candidate(t: Transition, taskResult: uint32): (s: uint32)
    requires |t.next| > 0
    ensures t.task.Null? ==> s == t.next[0]
    ensures t.task.Points? ==> s == taskResult
  {
    if t.task.Null? then t.next[0] else taskResult
  }

  /** ExecTask(pHandle, pTransition, pArg, pNextState, pErrNo): take the
      row's candidate and accept it exactly when it is among the row's
      successors. */
  method ExecTask(h: Handle, t: Transition, pNextState: Ptr<uint32>, pErrNo: Ptr<StateErr>, taskResult: uint32)
    returns (ret: Ret, handle: Handle, next: Ptr<uint32>, err: Ptr<StateErr>)
    requires |t.next| == NEXT_NUM
    ensures var cand := Candidate(t, taskResult);
      && (ret == Success <==> cand in t.next)
      && (ret == Success ==>
            handle == h.(state := cand) && next == Set(pNextState, cand) && err == Set(pErrNo, StateErrNone))
      && (ret == Failure ==>
            handle == h && next == pNextState && err == Set(pErrNo, StateErrTrans))
  {
    err := Set(pErrNo, StateErrNone);
    var state := if t.task.Null? then t.next[0] else taskResult;
    var idx := 0;
    while idx < NEXT_NUM
      invariant idx <= NEXT_NUM
      invariant forall j :: 0 <= j < idx ==> t.next[j] != state
    {
      if t.next[idx] == state {
        return Success, h.(state := state), Set(pNextState, state), err;
      }
      idx := idx + 1;
    }
    return Failure, h, pNextState, Set(pErrNo, StateErrTrans);
  }

  /** MLibStateExec(pHandle, event, pArg, pPrevState, pNextState, pErrNo):
      report the current state, find the first row for (state, event) among
      the transitionNum rows, and run it. */
  method Exec(pHandle: Ptr<Handle>, event: uint32, pPrevState: Ptr<uint32>, pNextState: Ptr<uint32>,
              pErrNo: Ptr<StateErr>, taskResult: uint32)
    returns (ret: Ret, handle: Ptr<Handle>, prev: Ptr<uint32>, next: Ptr<uint32>, err: Ptr<StateErr>)
    requires pHandle.Points? ==> Readable(pHandle.to)
    ensures pHandle.Null? ==>
      ret == Failure && handle == pHandle && prev == pPrevState && next == pNextState
      && err == Set(pErrNo, StateErrParam)
    ensures pHandle.Points? ==>
      var h := pHandle.to;
      && prev == Set(pPrevState, h.state)
      && match FirstFrom(h.table.to, 0, h.transitionNum, h.state, event)
         case NoMatch =>
           ret == Failure && handle == pHandle && next == pNextState && err == Set(pErrNo, StateErrNoTrans)
         case Row(i) =>
           var cand := Candidate(h.table.to[i], taskResult);
           && (ret == Success <==> cand in h.table.to[i].next)
           && (ret == Success ==>
                 handle == Points(h.(state := cand)) && next == Set(pNextState, cand)
                 && err == Set(pErrNo, StateErrNone))
           && (ret == Failure ==>
                 handle == pHandle && next == pNextState && err == Set(pErrNo, StateErrTrans))
  {
    err := Set(pErrNo, StateErrNone);
    if pHandle.Null? {
      return Failure, pHandle, pPrevState, pNextState, Set(pErrNo, StateErrParam);
    }
    var h := pHandle.to;
    var rows := h.table.to;
    prev := Set(pPrevState, h.state);
    var idx := 0;
    while idx < h.transitionNum
      invariant idx <= h.transitionNum
      invariant FirstFrom(rows, idx, h.transitionNum, h.state, event) == FirstFrom(rows, 0, h.transitionNum, h.state, event)
    {
      if Matches(rows[idx], h.state, event) {
        var h';
        ret, h', next, err := ExecTask(h, rows[idx], pNextState, pErrNo, taskResult);
        return ret, Points(h'), prev, next, err;
      }
      idx := idx + 1;
    }
    return Failure, pHandle, prev, pNextState, Set(pErrNo, StateErrNoTrans);
  }

  /** Rows after the first match for (state, event) are never consulted:
      appending or changing rows past it does not change the selection. */
  lemma {:induction false} FirstFromPrefix(rows: seq<Transition>, rows': seq<Transition>, from: nat, n: nat,
                                          state: uint32, event: uint32)
    requires n <= |rows| && n <= |rows'|
    requires FirstFrom(rows, from, n, state, event).Row?
    requires forall j :: from <= j <= FirstFrom(rows, from, n, state, event).index ==> rows'[j] == rows[j]
    ensures FirstFrom(rows', from, n, state, event) == FirstFrom(rows, from, n, state, event)
    decreases n - from
  {
    if from < n && !Matches(rows[from], state, event) {
      FirstFromPrefix(rows, rows', from + 1, n, state, event);
    }
  }
}
