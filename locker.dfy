/**
 * Locker: a counter of nested locks; a locker reference reads as true while
 * it is locked more often than unlocked.
 */
module Helpers {

  class Locker {
    var Value: int

    /** A new locker holds 0 and so reads as unlocked. */
    constructor ()
      ensures Value == 0 && !Locked()
    {
      Value := 0;
    }

    method Lock()
      modifies this
      ensures Value == old(Value) + 1
    {
      Value := Value + 1;
    }

    /** Unlock has no lower bound: the counter can go negative. */
    method Unlock()
      modifies this
      ensures Value == old(Value) - 1
    {
      Value := Value - 1;
    }

    predicate Locked()
      reads this
    {
      Value > 0
    }

    /** Runs a sequence of Lock and Unlock calls in order. */
    method Run(ops: seq<LockOp>)
      modifies this
      ensures Value == Apply(old(Value), ops)
    {
      var i := 0;
      while i < |ops|
        invariant 0 <= i <= |ops|
        invariant Value == Apply(old(Value), ops[..i])
      {
        ApplySnoc(old(Value), ops[..i], ops[i]);
        assert ops[..i + 1] == ops[..i] + [ops[i]];
        if ops[i].LockCall? {
          Lock();
        } else {
          Unlock();
        }
        i := i + 1;
      }
      assert ops[..i] == ops;
    }
  }

  /** The implicit bool conversion: a non-null locker that is locked. */
  predicate AsBool(locker: Locker?)
    reads locker
  {
    locker != null && locker.Locked()
  }

  lemma {:induction false} AsBoolMeaning(locker: Locker?)
    ensures AsBool(locker) <==> locker != null && locker.Value > 0
  {
  }

  datatype LockOp = LockCall | UnlockCall

  /** The counter after a sequence of calls. */
  function Apply(value: int, ops: seq<LockOp>): int
    decreases |ops|
  {
    if |ops| == 0 then value
    else Apply(if ops[0].LockCall? then value + 1 else value - 1, ops[1..])
  }

  /** The counter moves by the number of locks minus the number of unlocks. */
  function Net(ops: seq<LockOp>): int {
    if |ops| == 0 then 0 else (if ops[0].LockCall? then 1 else -1) + Net(ops[1..])
  }

  lemma {:induction false} ApplyNet(value: int, ops: seq<LockOp>)
    ensures Apply(value, ops) == value + Net(ops)
    decreases |ops|
  {
    if |ops| > 0 {
      ApplyNet(if ops[0].LockCall? then value + 1 else value - 1, ops[1..]);
    }
  }

  lemma {:induction false} NetAppend(a: seq<LockOp>, b: seq<LockOp>)
    ensures Net(a + b) == Net(a) + Net(b)
  {
    if |a| > 0 {
      assert (a + b)[0] == a[0];
      assert (a + b)[1..] == a[1..] + b;
      NetAppend(a[1..], b);
    } else {
      assert a + b == b;
    }
  }

  lemma {:induction false} ApplySnoc(value: int, ops: seq<LockOp>, op: LockOp)
    ensures Apply(value, ops + [op]) == if op.LockCall? then Apply(value, ops) + 1 else Apply(value, ops) - 1
  {
    ApplyNet(value, ops + [op]);
    ApplyNet(value, ops);
    NetAppend(ops, [op]);
    assert [op][1..] == [];
  }

  function Repeat(op: LockOp, k: nat): seq<LockOp> {
    if k == 0 then [] else [op] + Repeat(op, k - 1)
  }

  lemma {:induction false} NetRepeat(op: LockOp, k: nat)
    ensures Net(Repeat(op, k)) == if op.LockCall? then k as int else -(k as int)
  {
    if k > 0 {
      assert Repeat(op, k)[1..] == Repeat(op, k - 1);
      NetRepeat(op, k - 1);
    }
  }

  /** k locks followed by k unlocks restore the counter, and with it the lock state. */
  lemma {:induction false} LockUnlockRestores(value: int, k: nat)
    ensures Apply(value, Repeat(LockCall, k) + Repeat(UnlockCall, k)) == value
  {
    ApplyNet(value, Repeat(LockCall, k) + Repeat(UnlockCall, k));
    NetAppend(Repeat(LockCall, k), Repeat(UnlockCall, k));
    NetRepeat(LockCall, k);
    NetRepeat(UnlockCall, k);
  }

  /** After one unlock too many, a fresh locker reads as locked only after two locks. */
  lemma {:induction false} ExtraUnlockNeedsExtraLock(k: nat)
    ensures Apply(0, [UnlockCall] + Repeat(LockCall, k)) > 0 <==> k >= 2
  {
    ApplyNet(0, [UnlockCall] + Repeat(LockCall, k));
    NetAppend([UnlockCall], Repeat(LockCall, k));
    NetRepeat(LockCall, k);
    assert Net([UnlockCall]) == -1 by {
      assert [UnlockCall][1..] == [];
    }
  }
}
