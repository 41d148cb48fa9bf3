/** Cached process and thread ids across `fork` (src/StrUtil.cc:323-363). A run follows
    the child at every fork; in the parent the handler does nothing, so a run there is
    the same run without the fork. */
module Ids {
  import opened Numerals

  datatype Op = GetPid | GetTid | Fork(pid: nat, tid: nat)

  /** The kernel's ids, and the static and thread-local variables; `hooked` says that
      the once-function ran, which also registered the fork handler. */
  datatype State = State(pid: nat, tid: nat, hooked: bool, pidStr: string, cachedTid: nat, tidStr: string)

  function Begin(pid: nat, tid: nat): State { State(pid, tid, false, "", 0, "") }

  function Step(s: State, op: Op): State {
    match op
    case GetPid => if s.hooked then s else s.(hooked := true, pidStr := Decimal(s.pid))
    case GetTid => if s.cachedTid != 0 then s else s.(cachedTid := s.tid, tidStr := Decimal(s.tid))
    case Fork(pid, tid) =>
      if s.hooked then State(pid, tid, true, Decimal(pid), tid, Decimal(tid))
      else s.(pid := pid, tid := tid)
  }

  function Run(s: State, ops: seq<Op>): State {
    if ops == [] then s else Step(Run(s, ops[..|ops| - 1]), ops[|ops| - 1])
  }

  function PidAnswer(s: State): string { Step(s, GetPid).pidStr }

  function TidAnswer(s: State): string { Step(s, GetTid).tidStr }

  /** Thread ids are positive, and no two processes of a run share one. */
  ghost predicate Fresh(tid: nat, ops: seq<Op>) {
    && tid > 0
    && (forall op <- ops :: op.Fork? ==> op.tid > 0 && op.tid != tid)
    && (forall i, j | 0 <= i < j < |ops| && ops[i].Fork? && ops[j].Fork? :: ops[i].tid != ops[j].tid)
  }

  ghost predicate Positive(tid: nat, ops: seq<Op>) {
    tid > 0 && forall op <- ops :: op.Fork? ==> op.tid > 0
  }

  /** At the last fork, if there was one, the handler was registered or no id was cached. */
  ghost predicate Repaired(ops: seq<Op>) {
    forall f | 0 <= f < |ops| && ops[f].Fork? && (forall g | f < g < |ops| :: !ops[g].Fork?) ::
      GetPid in ops[..f] || GetTid !in ops[..f]
  }

  /** `GetPidStr` is right after every run. */
  lemma {:induction false} PidIsCurrent(pid: nat, tid: nat, ops: seq<Op>)
    ensures Run(Begin(pid, tid), ops).hooked <==> GetPid in ops
    ensures PidAnswer(Run(Begin(pid, tid), ops)) == Decimal(Run(Begin(pid, tid), ops).pid)
    decreases |ops|
  {
    if ops != [] {
      var n := |ops| - 1;
      PidIsCurrent(pid, tid, ops[..n]);
      assert ops == ops[..n] + [ops[n]];
    }
  }

  lemma {:induction false} CachedTid(pid: nat, tid: nat, ops: seq<Op>)
    requires Positive(tid, ops)
    ensures var s := Run(Begin(pid, tid), ops);
      && s.tid > 0 && (s.cachedTid != 0 ==> s.tidStr == Decimal(s.cachedTid))
      && (GetPid !in ops ==> (s.cachedTid != 0 <==> GetTid in ops))
    decreases |ops|
  {
    if ops != [] {
      var n := |ops| - 1;
      CachedTid(pid, tid, ops[..n]);
      PidIsCurrent(pid, tid, ops[..n]);
      assert ops == ops[..n] + [ops[n]];
    }
  }

  lemma RepairedNext(ops: seq<Op>, op: Op)
    ensures !op.Fork? ==> (Repaired(ops + [op]) <==> Repaired(ops))
    ensures op.Fork? ==> (Repaired(ops + [op]) <==> GetPid in ops || GetTid !in ops)
  {
    var all, n := ops + [op], |ops|;
    assert all[n] == op && all[..n] == ops;
    assert forall f | 0 <= f < n :: all[f] == ops[f] && all[..f] == ops[..f];
  }

  /** When the cached id is the current one. */
  lemma {:induction false} CachedExactly(pid: nat, tid: nat, ops: seq<Op>)
    requires Fresh(tid, ops)
    ensures var s := Run(Begin(pid, tid), ops);
      && (s.tid == tid || exists op <- ops :: op.Fork? && op.tid == s.tid)
      && (s.cachedTid == 0 || s.cachedTid == tid || exists op <- ops :: op.Fork? && op.tid == s.cachedTid)
      && (s.cachedTid == 0 || s.cachedTid == s.tid <==> Repaired(ops))
    decreases |ops|
  {
    if ops != [] {
      var n := |ops| - 1;
      var front, op := ops[..n], ops[n];
      assert ops == front + [op];
      CachedExactly(pid, tid, front);
      CachedTid(pid, tid, front);
      PidIsCurrent(pid, tid, front);
      RepairedNext(front, op);
    }
  }

  /** `GetTidStr` is right after a run exactly when the run repaired the cache. */
  lemma TidExactly(pid: nat, tid: nat, ops: seq<Op>)
    requires Fresh(tid, ops)
    ensures TidAnswer(Run(Begin(pid, tid), ops)) == Decimal(Run(Begin(pid, tid), ops).tid) <==> Repaired(ops)
  {
    var s := Run(Begin(pid, tid), ops);
    CachedExactly(pid, tid, ops);
    CachedTid(pid, tid, ops);
    DecimalInjective(s.cachedTid, s.tid);
  }

  /** `GetPidStr` ran before any fork that follows a `GetTidStr` call. */
  ghost predicate HookedInTime(ops: seq<Op>) {
    forall f | 0 <= f < |ops| && ops[f].Fork? && GetTid in ops[..f] :: GetPid in ops[..f]
  }

  lemma HookedNext(ops: seq<Op>, op: Op)
    requires HookedInTime(ops + [op])
    ensures HookedInTime(ops) && (op.Fork? && GetTid in ops ==> GetPid in ops)
  {
    var all, n := ops + [op], |ops|;
    assert all[n] == op && all[..n] == ops;
    assert forall f | 0 <= f < n :: all[f] == ops[f] && all[..f] == ops[..f];
  }

  /** That is enough, even where ids are reused. */
  lemma {:induction false} TidAfterHook(pid: nat, tid: nat, ops: seq<Op>)
    requires Positive(tid, ops) && HookedInTime(ops)
    ensures var s := Run(Begin(pid, tid), ops); s.cachedTid == 0 || s.cachedTid == s.tid
    ensures var s := Run(Begin(pid, tid), ops); TidAnswer(s) == Decimal(s.tid)
    decreases |ops|
  {
    CachedTid(pid, tid, ops);
    if ops != [] {
      hide HookedInTime, Decimal;
      var n := |ops| - 1;
      var front := ops[..n];
      assert ops == front + [ops[n]];
      HookedNext(front, ops[n]);
      TidAfterHook(pid, tid, front);
      CachedTid(pid, tid, front);
      PidIsCurrent(pid, tid, front);
    }
  }

  /** The smallest stale run: an id cached, then a fork, with no handler registered. */
  lemma StaleTid(pid: nat, tid: nat, child: nat, childTid: nat)
    requires tid > 0 && childTid > 0 && childTid != tid
    ensures var s := Run(Begin(pid, tid), [GetTid, Fork(child, childTid)]);
      s.tid == childTid && TidAnswer(s) == Decimal(tid) != Decimal(childTid)
  {
    var ops := [GetTid, Fork(child, childTid)];
    assert ops[..1] == [GetTid] && [GetTid][..0] == [];
    assert Run(Begin(pid, tid), [GetTid]) == Step(Begin(pid, tid), GetTid);
    DecimalInjective(tid, childTid);
  }

  class IdStrings {
    var hooked: bool
    var pidStr: string
    var cachedTid: nat
    var tidStr: string

    /** The variables together with the ids the kernel would answer. */
    ghost function With(pid: nat, tid: nat): State
      reads this
    {
      State(pid, tid, hooked, pidStr, cachedTid, tidStr)
    }

    constructor ()
      ensures forall pid, tid :: With(pid, tid) == Begin(pid, tid)
    {
      hooked, pidStr, cachedTid, tidStr := false, "", 0, "";
    }

    method GetPidStr(pid: nat, ghost tid: nat) returns (s: string)
      modifies this
      ensures With(pid, tid) == Step(old(With(pid, tid)), GetPid)
      ensures s == PidAnswer(old(With(pid, tid)))
    {
      if !hooked {
        pidStr := Decimal(pid);
        hooked := true;
      }
      s := pidStr;
    }

    method GetTidStr(ghost pid: nat, tid: nat) returns (s: string)
      modifies this
      ensures With(pid, tid) == Step(old(With(pid, tid)), GetTid)
      ensures s == TidAnswer(old(With(pid, tid)))
    {
      if cachedTid != 0 {
        return tidStr;
      }
      cachedTid := tid;
      tidStr := Decimal(tid);
      s := tidStr;
    }

    /** `fork`, seen in the child: the handler runs if it was registered. */
    method ForkChild(ghost pid: nat, ghost tid: nat, childPid: nat, childTid: nat)
      modifies this
      ensures With(childPid, childTid) == Step(old(With(pid, tid)), Fork(childPid, childTid))
    {
      if hooked {
        pidStr := Decimal(childPid);
        cachedTid := childTid;
        tidStr := Decimal(childTid);
      }
    }
  }
}
