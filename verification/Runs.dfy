/** Sequences of keyring operations, and what it means that they form a run of an abstract map. */
module Runs {
  import opened Bytes

  datatype Entry = Entry(key: bytes, data: bytes)

  datatype Op<D> = SetOp(item: D) | GetOp(key: bytes) | RemoveOp(key: bytes) | KeysOp
  datatype Outcome<D> = Done | Failed | Data(data: D) | Names(names: seq<bytes>)

  /** Each operation takes one state to the next. */
  ghost predicate IsRun<S, O, R>(step: (S, O, R, S) -> bool, states: seq<S>, ops: seq<O>, outs: seq<R>) {
    && |states| == |ops| + 1 && |outs| == |ops|
    && forall i | 0 <= i < |ops| :: step(states[i], ops[i], outs[i], states[i + 1])
  }

  lemma EmptyRun<S, O, R>(step: (S, O, R, S) -> bool, s: S)
    ensures IsRun<S, O, R>(step, [s], [], [])
  {
  }

  lemma RunExtends<S, O, R>(step: (S, O, R, S) -> bool, states: seq<S>, ops: seq<O>, outs: seq<R>, op: O, out: R, s: S)
    requires IsRun(step, states, ops, outs) && step(states[|ops|], op, out, s)
    ensures IsRun(step, states + [s], ops + [op], outs + [out])
  {
  }
}
