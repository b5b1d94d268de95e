/** The counters of all the workers, merged field by field into atomics that the statistics thread takes field by
    field: nothing is counted twice and nothing is lost, in whatever order the steps of the threads fall. */
module CounterMerge {
  /** The fields in the order in which they are merged and reported: total, trash, no_req, inv, inv_sign, success. */
  const FIELDS: nat := 6

  type Fields = seq<int>

  predicate IsFields(c: Fields) {
    |c| == FIELDS
  }

  function Zeros(): (z: Fields)
    ensures IsFields(z) && forall f | 0 <= f < FIELDS :: z[f] == 0
  {
    [0, 0, 0, 0, 0, 0]
  }

  /** A worker: its counters, and how many of them the merge under way has added to the global ones.  While it merges,
      it runs no callbacks. */
  datatype Local = Local(counters: Fields, merged: MergeState)

  datatype MergeState = Idle | Merging(done: nat)

  /** All the threads.  `reported` is what the statistics thread has taken, `events` all that ever happened. */
  datatype System = System(locals: seq<Local>, global: Fields, reported: Fields, events: Fields)

  datatype Step =
    | Count(thread: nat, amounts: Fields)
    | BeginMerge(thread: nat)
    | MergeField(thread: nat)
    | Clear(thread: nat)
    | Exchange(field: nat)

  predicate Valid(s: System) {
    && IsFields(s.global) && IsFields(s.reported) && IsFields(s.events)
    && forall t | 0 <= t < |s.locals| ::
         IsFields(s.locals[t].counters) && (s.locals[t].merged.Merging? ==> s.locals[t].merged.done <= FIELDS)
  }

  function Add(a: Fields, b: Fields): (c: Fields)
    requires IsFields(a) && IsFields(b)
    ensures IsFields(c) && forall f | 0 <= f < FIELDS :: c[f] == a[f] + b[f]
  {
    seq(FIELDS, f requires 0 <= f < FIELDS => a[f] + b[f])
  }

  predicate Enabled(s: System, step: Step) {
    match step
    case Count(t, amounts) => t < |s.locals| && IsFields(amounts) && s.locals[t].merged == Idle
    case BeginMerge(t) => t < |s.locals| && s.locals[t].merged == Idle
    case MergeField(t) => t < |s.locals| && s.locals[t].merged.Merging? && s.locals[t].merged.done < FIELDS
    case Clear(t) => t < |s.locals| && s.locals[t].merged == Merging(FIELDS)
    case Exchange(f) => f < FIELDS
  }

  function SetLocal(s: System, t: nat, l: Local): System
    requires t < |s.locals|
  {
    s.(locals := s.locals[t := l])
  }

  function Next(s: System, step: Step): System
    requires Valid(s) && Enabled(s, step)
  {
    match step
    case Count(t, amounts) =>
      SetLocal(s, t, s.locals[t].(counters := Add(s.locals[t].counters, amounts))).(events := Add(s.events, amounts))
    case BeginMerge(t) => SetLocal(s, t, s.locals[t].(merged := Merging(0)))
    case MergeField(t) =>
      var f := s.locals[t].merged.done;
      SetLocal(s, t, s.locals[t].(merged := Merging(f + 1))).(global := s.global[f := s.global[f] + s.locals[t].counters[f]])
    case Clear(t) => SetLocal(s, t, Local(Zeros(), Idle))
    case Exchange(f) => s.(reported := s.reported[f := s.reported[f] + s.global[f]], global := s.global[f := 0])
  }

  /** What a worker still holds of a field. */
  function Pending(l: Local, f: nat): int
    requires IsFields(l.counters) && f < FIELDS
  {
    if l.merged.Merging? && f < l.merged.done then 0 else l.counters[f]
  }

  predicate AllFields(locals: seq<Local>) {
    forall t | 0 <= t < |locals| :: IsFields(locals[t].counters)
  }

  function PendingIn(locals: seq<Local>, f: nat): int
    requires f < FIELDS && AllFields(locals)
  {
    if locals == [] then 0 else assert IsFields(locals[0].counters); Pending(locals[0], f) + PendingIn(locals[1..], f)
  }

  /** Whatever was counted is in a worker, in the global counters or reported. */
  ghost predicate Conserved(s: System)
    requires Valid(s)
  {
    forall f: nat | f < FIELDS :: FieldConserved(s, f)
  }

  predicate FieldConserved(s: System, f: nat)
    requires Valid(s) && f < FIELDS
  {
    s.events[f] == PendingIn(s.locals, f) + s.global[f] + s.reported[f]
  }

  lemma {:induction false} PendingChanged(locals: seq<Local>, t: nat, l: Local, f: nat)
    requires f < FIELDS && t < |locals| && IsFields(l.counters)
    requires AllFields(locals)
    ensures PendingIn(locals[t := l], f) == PendingIn(locals, f) - Pending(locals[t], f) + Pending(l, f)
    decreases |locals|
  {
    if t == 0 {
      assert locals[0 := l][1..] == locals[1..];
    } else {
      assert locals[t := l][1..] == locals[1..][t - 1 := l];
      PendingChanged(locals[1..], t - 1, l, f);
    }
  }

  lemma NextConserves(s: System, step: Step)
    requires Valid(s) && Enabled(s, step) && Conserved(s)
    ensures Valid(Next(s, step)) && Conserved(Next(s, step))
  {
    var r := Next(s, step);
    assert Valid(r);
    forall f: nat | f < FIELDS
      ensures FieldConserved(r, f)
    {
      assert FieldConserved(s, f);
      match step
      case Count(t, amounts) => PendingChanged(s.locals, t, r.locals[t], f);
      case BeginMerge(t) => PendingChanged(s.locals, t, r.locals[t], f);
      case MergeField(t) => PendingChanged(s.locals, t, r.locals[t], f);
      case Clear(t) => PendingChanged(s.locals, t, r.locals[t], f);
      case Exchange(_) =>
    }
  }

  function Initial(threads: nat): System {
    System(seq(threads, _ => Local(Zeros(), Idle)), Zeros(), Zeros(), Zeros())
  }

  ghost predicate ReachedBy(s: System, threads: nat, steps: seq<Step>)
    decreases |steps|
  {
    if steps == [] then s == Initial(threads)
    else
      var step := steps[|steps| - 1];
      exists before: System :: ReachedBy(before, threads, steps[..|steps| - 1]) && Valid(before) && Enabled(before, step)
                               && s == Next(before, step)
  }

  lemma {:induction false} NothingPending(locals: seq<Local>, f: nat)
    requires f < FIELDS && forall t | 0 <= t < |locals| :: locals[t] == Local(Zeros(), Idle)
    ensures AllFields(locals) && PendingIn(locals, f) == 0
    decreases |locals|
  {
    if locals != [] {
      assert locals[0] == Local(Zeros(), Idle);
      NothingPending(locals[1..], f);
    }
  }

  /** In every interleaving of the workers and the statistics thread. */
  lemma {:induction false} AlwaysConserved(s: System, threads: nat, steps: seq<Step>)
    requires ReachedBy(s, threads, steps)
    ensures Valid(s) && Conserved(s)
    decreases |steps|
  {
    if steps == [] {
      forall f: nat | f < FIELDS
        ensures FieldConserved(s, f)
      {
        NothingPending(s.locals, f);
      }
    } else {
      var step, init := steps[|steps| - 1], steps[..|steps| - 1];
      var before: System :| ReachedBy(before, threads, init) && Valid(before) && Enabled(before, step) && s == Next(before, step);
      AlwaysConserved(before, threads, init);
      NextConserves(before, step);
    }
  }

  /** The sum of a field over the workers. */
  function SumOf(locals: seq<Local>, f: nat): int
    requires f < FIELDS && AllFields(locals)
  {
    if locals == [] then 0 else assert IsFields(locals[0].counters); locals[0].counters[f] + SumOf(locals[1..], f)
  }

  lemma {:induction false} PendingIsSum(locals: seq<Local>, f: nat)
    requires f < FIELDS && AllFields(locals) && forall t | 0 <= t < |locals| :: locals[t].merged == Idle
    ensures PendingIn(locals, f) == SumOf(locals, f)
    decreases |locals|
  {
    if locals != [] {
      PendingIsSum(locals[1..], f);
    }
  }

  /** Outside merges, the events are those in the workers' counters, in the global ones and already reported. */
  lemma EventsAreSomewhere(s: System, threads: nat, steps: seq<Step>, f: nat)
    requires ReachedBy(s, threads, steps) && f < FIELDS && forall t | 0 <= t < |s.locals| :: s.locals[t].merged == Idle
    ensures Valid(s) && s.events[f] == SumOf(s.locals, f) + s.global[f] + s.reported[f]
  {
    AlwaysConserved(s, threads, steps);
    assert FieldConserved(s, f);
    PendingIsSum(s.locals, f);
  }

  // ----- the functions

  /** `LocalCounters` */
  class LocalCounters {
    var total: int
    var trash: int
    var noReq: int
    var inv: int
    var invSign: int
    var success: int

    function Values(): (c: Fields)
      reads this
      ensures IsFields(c)
    {
      [total, trash, noReq, inv, invSign, success]
    }

    /** `clear_counters` */
    method Clear()
      modifies this
      ensures Values() == Zeros()
    {
      total, trash, noReq, inv, invSign, success := 0, 0, 0, 0, 0, 0;
    }
  }

  /** `GlobalCounters`: each field an atomic. */
  class GlobalCounters {
    var total: int
    var trash: int
    var noReq: int
    var inv: int
    var invSign: int
    var success: int

    function Values(): (c: Fields)
      reads this
      ensures IsFields(c)
    {
      [total, trash, noReq, inv, invSign, success]
    }

    /** `merge_counters`, when no other thread steps in between: what the six steps of a merge come to. */
    method Merge(local: LocalCounters)
      modifies this
      ensures Values() == Add(old(Values()), local.Values())
    {
      total := total + local.total;
      trash := trash + local.trash;
      noReq := noReq + local.noReq;
      inv := inv + local.inv;
      invSign := invSign + local.invSign;
      success := success + local.success;
    }
  }
}
