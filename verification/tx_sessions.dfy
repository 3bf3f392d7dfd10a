/**
  Sequences of mutating calls on one store, and what a transaction scope
  guarantees about everything outside it: calls made while a transaction is
  open never touch the base or the overlays below it, so rolling that
  transaction back restores the store exactly as it was at `begin`.
 */
module TxSessions {
  import opened TxStore

  /** A mutating call on the store. */
  datatype Op<V> = SetOp(k: string, v: V) | DeleteOp(k: string) | BeginOp | CommitOp | RollbackOp | ClearOp

  function Step<V>(s: Store<V>, op: Op<V>): Result<Store<V>> {
    match op
    case SetOp(k, v) => Ok(Set(s, k, v))
    case DeleteOp(k) => Ok(Delete(s, k))
    case BeginOp => Ok(Begin(s))
    case CommitOp => Commit(s)
    case RollbackOp => Rollback(s)
    case ClearOp => Ok(Clear(s))
  }

  /** Runs the calls in order on one shared store. A call that fails leaves
      the store as it was and the session goes on with the next call. */
  function Run<V>(s: Store<V>, ops: seq<Op<V>>): Store<V>
    decreases |ops|
  {
    if |ops| == 0 then
      s
    else
      match Step(s, ops[0])
      case Ok(t) => Run(t, ops[1..])
      case Err(_) => Run(s, ops[1..])
  }

  /** Every store the calls pass through keeps more than `d` transactions
      open: none of them commits or rolls back the transaction at depth
      `d + 1` or anything below it. */
  ghost predicate StaysAbove<V>(s: Store<V>, ops: seq<Op<V>>, d: nat)
    decreases |ops|
  {
    0 < |ops| ==>
      match Step(s, ops[0])
      case Ok(t) => d < Depth(t) && StaysAbove(t, ops[1..], d)
      case Err(_) => StaysAbove(s, ops[1..], d)
  }

  /** The base and the `d` outermost overlays. */
  ghost predicate SameBelow<V>(s: Store<V>, t: Store<V>, d: nat) {
    && t.base == s.base
    && d <= |s.stack| && d <= |t.stack|
    && t.stack[..d] == s.stack[..d]
  }

  /** One call that starts and ends above depth `d` leaves the base and the
      `d` outermost overlays alone. */
  lemma StepKeepsOuterState<V>(s: Store<V>, op: Op<V>, d: nat)
    requires d < Depth(s)
    requires Step(s, op).Ok? && d < Depth(Step(s, op).value)
    ensures SameBelow(s, Step(s, op).value, d)
  {
  }

  lemma {:induction false} RunKeepsOuterState<V>(s: Store<V>, ops: seq<Op<V>>, d: nat)
    requires d < Depth(s)
    requires StaysAbove(s, ops, d)
    ensures SameBelow(s, Run(s, ops), d)
    decreases |ops|
  {
    if 0 < |ops| {
      match Step(s, ops[0])
      case Ok(t) =>
        StepKeepsOuterState(s, ops[0], d);
        RunKeepsOuterState(t, ops[1..], d);
      case Err(_) =>
        RunKeepsOuterState(s, ops[1..], d);
    }
  }

  /** `begin`, then any calls that stay inside that transaction and close
      every transaction they open, then `rollback`: the store is exactly the
      one before `begin`, so every lookup answers as it did then. */
  lemma RollbackIsExactUndo<V>(s: Store<V>, ops: seq<Op<V>>)
    requires StaysAbove(Begin(s), ops, Depth(s))
    requires Depth(Run(Begin(s), ops)) == Depth(s) + 1
    ensures Rollback(Run(Begin(s), ops)) == Ok(s)
    ensures forall k :: Get(Rollback(Run(Begin(s), ops)).value, k) == Get(s, k)
  {
    RunKeepsOuterState(Begin(s), ops, Depth(s));
    assert Begin(s).stack[..Depth(s)] == s.stack;
  }

  /** A value set inside a transaction is the one seen after it commits. */
  lemma CommitLastWriteWins<V>(s: Store<V>, k: string, v: V)
    ensures Commit(Set(Begin(s), k, v)).Ok?
    ensures Get(Commit(Set(Begin(s), k, v)).value, k) == Ok(v)
  {
  }

  /** A key deleted inside a transaction is hidden until the transaction is
      rolled back, which brings back whatever was visible before. */
  lemma DeleteShadowsUntilRollback<V>(s: Store<V>, k: string)
    ensures !Exists(Delete(Begin(s), k), k)
    ensures Rollback(Delete(Begin(s), k)) == Ok(s)
  {
  }
}
