/** A worker of the proxy: the callbacks and timers that share its counters and its queue of requests to send again.
    What the HTTP client, the parsers and the signature checks answer is chosen by the environment. */
module Proxy {
  datatype ErrorCode =
    | Ok
    | EmptyPostData
    | JsonParseError
    | UnsupportedVersion
    | GetInfo
    | UnsupportedMethod
    | UnsupportedParamsType
    | NoRequiredParams
    | InvalidTransaction
    | VerificationFailed
    | OtherError

  /** `LocalCounters` */
  datatype Counters = Counters(total: int, trash: int, noReq: int, inv: int, invSign: int, success: int, queue: int)

  const ZERO := Counters(0, 0, 0, 0, 0, 0, 0)

  /** `process_error_code`: the counter an error goes to. */
  function Counted(c: Counters, ec: ErrorCode): Counters {
    match ec
    case EmptyPostData => c.(trash := c.trash + 1)
    case JsonParseError => c.(trash := c.trash + 1)
    case UnsupportedVersion => c.(trash := c.trash + 1)
    case GetInfo => c.(trash := c.trash + 1)
    case UnsupportedMethod => c.(inv := c.inv + 1)
    case UnsupportedParamsType => c.(noReq := c.noReq + 1)
    case NoRequiredParams => c.(noReq := c.noReq + 1)
    case InvalidTransaction => c.(inv := c.inv + 1)
    case VerificationFailed => c.(invSign := c.invSign + 1)
    case _ => c.(trash := c.trash + 1)
  }

  /** Exactly one of the counters of errors goes up, by one; the other counters stay. */
  predicate CountsOneError(c: Counters, d: Counters) {
    && d.total == c.total && d.success == c.success && d.queue == c.queue
    && d.trash >= c.trash && d.noReq >= c.noReq && d.inv >= c.inv && d.invSign >= c.invSign
    && d.trash + d.noReq + d.inv + d.invSign == c.trash + c.noReq + c.inv + c.invSign + 1
  }

  /** A transaction on its way: every one that is sent for the first time gets a number of its own. */
  type Tx = nat

  /** The worker's counters and queue, and what has become of the transactions sent so far.  `rejected` counts the
      requests refused as too many since the counters were last cleared, `merged` is all that has been handed over. */
  datatype State = State(
    counters: Counters,
    outQueue: seq<Tx>,
    inFlight: set<Tx>,
    delivered: set<Tx>,
    dropped: set<Tx>,
    sent: nat,
    rejected: nat,
    merged: Counters)

  const INITIAL := State(ZERO, [], {}, {}, {}, 0, 0, ZERO)

  /** The sums of the counters, but for the queue, which is never handed over. */
  function Sum(a: Counters, b: Counters): Counters {
    Counters(a.total + b.total, a.trash + b.trash, a.noReq + b.noReq, a.inv + b.inv, a.invSign + b.invSign,
             a.success + b.success, a.queue)
  }

  /** What is found out about a request: the error in it, or that it is good, and perhaps a test. */
  datatype Finding = Faulty(ec: ErrorCode) | Good(isTest: bool)

  /** One turn of the event loop: a request comes in, a reply comes back, or a timer fires.  `sends` are the answers of
      the client when it is given a request. */
  datatype Action =
    | Request(finding: Finding, sends: bool)
    | Reply(tx: Tx, ok: bool, again: bool, sends: bool)
    | SendBacklog(answers: seq<bool>)
    | MergeCounters

  /** The queue limit; zero is none. */
  predicate TooMany(s: State, limit: nat) {
    limit > 0 && s.counters.queue + |s.outQueue| > limit
  }

  // ----- what the callbacks do

  function OnRequest(s: State, limit: nat, finding: Finding, sends: bool): State {
    var c := s.counters.(total := s.counters.total + 1);
    if TooMany(s, limit) then s.(counters := c, rejected := s.rejected + 1)
    else
      match finding
      case Faulty(ec) => s.(counters := Counted(c, ec))
      case Good(isTest) =>
        var c' := c.(success := c.success + 1);
        if !isTest && sends then
          s.(counters := c'.(queue := c'.queue + 1), inFlight := s.inFlight + {s.sent}, sent := s.sent + 1)
        else s.(counters := c')
  }

  /** A reply: delivered, sent again at once, dropped when that fails, or kept for later. */
  function OnReply(s: State, tx: Tx, ok: bool, again: bool, sends: bool): State {
    var done := s.(counters := s.counters.(queue := s.counters.queue - 1), inFlight := s.inFlight - {tx});
    if ok then done.(delivered := s.delivered + {tx})
    else if !again then done.(outQueue := s.outQueue + [tx])
    else if sends then s
    else done.(dropped := s.dropped + {tx})
  }

  /** The first request of the backlog, sent or dropped. */
  function SendFront(s: State, sends: bool): State
    requires s.outQueue != []
  {
    var tx, rest := s.outQueue[0], s.outQueue[1..];
    if sends then s.(counters := s.counters.(queue := s.counters.queue + 1), inFlight := s.inFlight + {tx}, outQueue := rest)
    else s.(dropped := s.dropped + {tx}, outQueue := rest)
  }

  /** The first `n` requests of the backlog, in their order. */
  function SendMany(s: State, n: nat, answers: seq<bool>): (r: State)
    requires n <= |s.outQueue| && n <= |answers|
    ensures r.outQueue == s.outQueue[n..]
    decreases n
  {
    if n == 0 then s else SendFront(SendMany(s, n - 1, answers), answers[n - 1])
  }

  /** How many requests one tick of the timer takes: the loop's bound shrinks with the queue. */
  function TickSize(n: nat): (k: nat)
    ensures k <= n && k <= 200 && (n > 0 ==> k > 0)
  {
    var half := (n + 1) / 2;
    if half < 200 then half else 200
  }

  /** The growing counter meets the shrinking queue after as many turns. */
  lemma TickBound(n: nat, i: nat)
    requires i <= TickSize(n)
    ensures i < (if n - i < 200 then n - i else 200) <==> i < TickSize(n)
  {
  }

  function OnMerge(s: State): State {
    if s.counters.total == 0 then s
    else s.(counters := ZERO.(queue := s.counters.queue), rejected := 0, merged := Sum(s.merged, s.counters))
  }

  /** Replies come only for requests that are in flight; the client answers as often as it is asked. */
  predicate Enabled(s: State, a: Action) {
    match a
    case Reply(tx, _, _, _) => tx in s.inFlight
    case SendBacklog(answers) => |answers| == TickSize(|s.outQueue|)
    case _ => true
  }

  function Next(s: State, limit: nat, a: Action): State
    requires Enabled(s, a)
  {
    match a
    case Request(finding, sends) => OnRequest(s, limit, finding, sends)
    case Reply(tx, ok, again, sends) => OnReply(s, tx, ok, again, sends)
    case SendBacklog(answers) => SendMany(s, |answers|, answers)
    case MergeCounters => OnMerge(s)
  }

  // ----- what every step keeps

  predicate NoRepeats(q: seq<Tx>) {
    forall i, j | 0 <= i < j < |q| :: q[i] != q[j]
  }

  /** Every transaction sent so far is in flight, waiting, delivered or dropped, and only one of these. */
  ghost predicate EachInOnePlace(s: State) {
    && NoRepeats(s.outQueue)
    && s.inFlight !! s.delivered && s.inFlight !! s.dropped && s.delivered !! s.dropped
    && (forall tx | tx in s.outQueue :: tx !in s.inFlight && tx !in s.delivered && tx !in s.dropped)
    && forall tx: Tx :: tx < s.sent <==> tx in s.inFlight || tx in s.delivered || tx in s.dropped || tx in s.outQueue
  }

  /** The total is what the other counters and the refusals add up to. */
  predicate TotalsAdd(s: State) {
    var c := s.counters;
    && c.trash >= 0 && c.noReq >= 0 && c.inv >= 0 && c.invSign >= 0 && c.success >= 0
    && c.total == c.trash + c.noReq + c.inv + c.invSign + c.success + s.rejected
  }

  predicate WithinLimit(s: State, limit: nat) {
    limit > 0 ==> s.counters.queue + |s.outQueue| <= limit + 1
  }

  ghost predicate Holds(s: State, limit: nat) {
    s.counters.queue == |s.inFlight| && EachInOnePlace(s) && TotalsAdd(s) && WithinLimit(s, limit)
  }

  lemma RequestKeeps(s: State, limit: nat, finding: Finding, sends: bool)
    requires Holds(s, limit)
    ensures Holds(OnRequest(s, limit, finding, sends), limit)
  {
    hide EachInOnePlace;
    SentKeepsPlaces(s);
    var r := OnRequest(s, limit, finding, sends);
    if r.sent == s.sent {
      SamePlaces(s, r);
    } else {
      SamePlaces(s.(inFlight := s.inFlight + {s.sent}, sent := s.sent + 1), r);
    }
  }

  /** A transaction that is sent for the first time. */
  lemma SentKeepsPlaces(s: State)
    requires EachInOnePlace(s)
    ensures EachInOnePlace(s.(inFlight := s.inFlight + {s.sent}, sent := s.sent + 1)) && s.sent !in s.inFlight
  {
    assert s.sent !in s.inFlight && s.sent !in s.outQueue;
  }

  /** The counters have no part in where the transactions are. */
  lemma SamePlaces(s: State, r: State)
    requires EachInOnePlace(s) && r.inFlight == s.inFlight && r.outQueue == s.outQueue && r.delivered == s.delivered
    requires r.dropped == s.dropped && r.sent == s.sent
    ensures EachInOnePlace(r)
  {
  }

  lemma ReplyKeeps(s: State, limit: nat, tx: Tx, ok: bool, again: bool, sends: bool)
    requires Holds(s, limit) && tx in s.inFlight
    ensures Holds(OnReply(s, tx, ok, again, sends), limit)
  {
    var r := OnReply(s, tx, ok, again, sends);
    assert tx !in s.outQueue;
    if !ok && !again {
      assert forall t: Tx :: t in r.outQueue <==> t in s.outQueue || t == tx;
    }
  }

  lemma SendFrontKeeps(s: State, limit: nat, sends: bool)
    requires Holds(s, limit) && s.outQueue != []
    ensures Holds(SendFront(s, sends), limit)
  {
    var tx, rest := s.outQueue[0], s.outQueue[1..];
    assert s.outQueue == [tx] + rest;
    assert forall t: Tx :: t in s.outQueue <==> t in rest || t == tx;
  }

  lemma {:induction false} SendManyKeeps(s: State, limit: nat, n: nat, answers: seq<bool>)
    requires Holds(s, limit) && n <= |s.outQueue| && n <= |answers|
    ensures Holds(SendMany(s, n, answers), limit)
    decreases n
  {
    if n > 0 {
      SendManyKeeps(s, limit, n - 1, answers);
      SendFrontKeeps(SendMany(s, n - 1, answers), limit, answers[n - 1]);
    }
  }

  /** A run of the worker: any actions, in any order. */
  ghost predicate ReachedBy(s: State, limit: nat, actions: seq<Action>)
    decreases |actions|
  {
    if actions == [] then s == INITIAL
    else
      var a := actions[|actions| - 1];
      exists before: State :: ReachedBy(before, limit, actions[..|actions| - 1]) && Enabled(before, a) && s == Next(before, limit, a)
  }

  /** In every run: the counter is the number of requests in flight, and so not negative; no transaction is lost or
      doubled; the limit is exceeded by one at most; and the counters add up. */
  lemma {:induction false} AlwaysHolds(s: State, limit: nat, actions: seq<Action>)
    requires ReachedBy(s, limit, actions)
    ensures Holds(s, limit)
    decreases |actions|
  {
    if actions != [] {
      var a, init := actions[|actions| - 1], actions[..|actions| - 1];
      var before: State :| ReachedBy(before, limit, init) && Enabled(before, a) && s == Next(before, limit, a);
      AlwaysHolds(before, limit, init);
      match a
      case Request(finding, sends) => RequestKeeps(before, limit, finding, sends);
      case Reply(tx, ok, again, sends) => ReplyKeeps(before, limit, tx, ok, again, sends);
      case SendBacklog(answers) => SendManyKeeps(before, limit, |answers|, answers);
      case MergeCounters =>
    }
  }

  /** Merging only when there has been a request forgets nothing. */
  lemma NothingToMerge(s: State, limit: nat)
    requires Holds(s, limit) && s.counters.total == 0
    ensures s.counters == ZERO.(queue := s.counters.queue)
  {
  }

  // ----- the backlog

  /** The length of the backlog after `k` ticks in which nothing is added to it. */
  function AfterTicks(n: nat, k: nat): nat
    decreases k
  {
    if k == 0 then n else AfterTicks(n - TickSize(n), k - 1)
  }

  /** With nothing added, a backlog empties: half of it goes in a tick, but no more than two hundred. */
  lemma {:induction false} BacklogEmpties(n: nat, k: nat)
    requires n / 200 + 9 <= k
    ensures AfterTicks(n, k) == 0
    decreases k
  {
    var m := n - TickSize(n);
    if n == 0 {
      StaysEmpty(k);
    } else if n >= 400 {
      assert m / 200 + 1 == n / 200;
      BacklogEmpties(m, k - 1);
    } else {
      assert Two(9) == 512;
      HalvesAway(n, k, 9);
    }
  }

  lemma {:induction false} StaysEmpty(k: nat)
    ensures AfterTicks(0, k) == 0
    decreases k
  {
    if k > 0 {
      StaysEmpty(k - 1);
    }
  }

  function Two(k: nat): nat {
    if k == 0 then 1 else 2 * Two(k - 1)
  }

  lemma {:induction false} HalvesAway(n: nat, k: nat, j: nat)
    requires n < 400 && n < Two(j) && j <= k
    ensures AfterTicks(n, k) == 0
    decreases k
  {
    if j == 0 {
      StaysEmpty(k);
    } else {
      HalvesAway(n - TickSize(n), k - 1, j - 1);
    }
  }

  /** Ticks one after the other; the client answers each as often as it is asked. */
  function Ticks(s: State, rounds: seq<seq<bool>>): State
    requires forall k | 0 <= k < |rounds| :: |rounds[k]| >= 200
    decreases |rounds|
  {
    if rounds == [] then s else Ticks(SendMany(s, TickSize(|s.outQueue|), rounds[0]), rounds[1..])
  }

  lemma {:induction false} TicksLength(s: State, rounds: seq<seq<bool>>)
    requires forall k | 0 <= k < |rounds| :: |rounds[k]| >= 200
    ensures |Ticks(s, rounds).outQueue| == AfterTicks(|s.outQueue|, |rounds|)
    decreases |rounds|
  {
    hide SendMany, TickSize;
    if rounds != [] {
      var n := |s.outQueue|;
      var r := SendMany(s, TickSize(n), rounds[0]);
      assert |r.outQueue| == n - TickSize(n);
      TicksLength(r, rounds[1..]);
    }
  }

  /** The worker's backlog empties, whatever the client answers. */
  lemma TicksEmpty(s: State, rounds: seq<seq<bool>>)
    requires |rounds| >= |s.outQueue| / 200 + 9 && forall k | 0 <= k < |rounds| :: |rounds[k]| >= 200
    ensures Ticks(s, rounds).outQueue == []
  {
    hide Ticks, AfterTicks;
    TicksLength(s, rounds);
    BacklogEmpties(|s.outQueue|, |rounds|);
  }

  /** The first `n` transactions of a backlog that the client answered so. */
  function Answered(q: seq<Tx>, n: nat, answers: seq<bool>, answer: bool): set<Tx>
    requires n <= |q| && n <= |answers|
  {
    set i | 0 <= i < n && answers[i] == answer :: q[i]
  }

  /** A tick takes requests from the front of the backlog in their order, each to where the client's answer to it says;
      the others keep their order, and nothing else moves. */
  lemma {:induction false} TickTakesTheFront(s: State, n: nat, answers: seq<bool>)
    requires n <= |s.outQueue| && n <= |answers|
    ensures var r := SendMany(s, n, answers);
            && r.outQueue == s.outQueue[n..] && r.delivered == s.delivered && r.sent == s.sent && r.rejected == s.rejected
            && r.merged == s.merged
            && r.counters == s.counters.(queue := r.counters.queue)
            && r.inFlight == s.inFlight + Answered(s.outQueue, n, answers, true)
            && r.dropped == s.dropped + Answered(s.outQueue, n, answers, false)
    decreases n
  {
    if n > 0 {
      var q, before := s.outQueue, SendMany(s, n - 1, answers);
      TickTakesTheFront(s, n - 1, answers);
      assert before.outQueue[0] == q[n - 1];
      AnsweredMore(q, n, answers);
    }
  }

  lemma AnsweredMore(q: seq<Tx>, n: nat, answers: seq<bool>)
    requires 0 < n <= |q| && n <= |answers|
    ensures Answered(q, n, answers, answers[n - 1]) == Answered(q, n - 1, answers, answers[n - 1]) + {q[n - 1]}
    ensures Answered(q, n, answers, !answers[n - 1]) == Answered(q, n - 1, answers, !answers[n - 1])
  {
  }

  // ----- runs, step by step

  /** The states of a run, one before each action and one after the last. */
  predicate IsRun(states: seq<State>, actions: seq<Action>, limit: nat) {
    |states| == |actions| + 1 && states[0] == INITIAL && forall k | 0 <= k < |actions| :: LeadsOn(states, actions, limit, k)
  }

  predicate LeadsOn(states: seq<State>, actions: seq<Action>, limit: nat, k: nat)
    requires |states| == |actions| + 1 && k < |actions|
  {
    Enabled(states[k], actions[k]) && states[k + 1] == Next(states[k], limit, actions[k])
  }

  lemma {:induction false} RunIsReached(states: seq<State>, actions: seq<Action>, limit: nat)
    requires IsRun(states, actions, limit)
    ensures ReachedBy(states[|actions|], limit, actions)
    decreases |actions|
  {
    if actions != [] {
      var n := |actions| - 1;
      RunBefore(states, actions, limit);
      RunIsReached(states[..n + 1], actions[..n], limit);
      hide Next, Enabled, IsRun;
    }
  }

  lemma RunHolds(states: seq<State>, actions: seq<Action>, limit: nat)
    requires IsRun(states, actions, limit)
    ensures Holds(states[|actions|], limit)
  {
    RunIsReached(states, actions, limit);
    AlwaysHolds(states[|actions|], limit, actions);
    hide ReachedBy, Holds;
  }

  lemma RunBegins(states: seq<State>, actions: seq<Action>, limit: nat)
    requires IsRun(states, actions, limit)
    ensures |states| == |actions| + 1 && states[0] == INITIAL
  {
  }

  /** A run without its last action. */
  lemma RunBefore(states: seq<State>, actions: seq<Action>, limit: nat)
    requires IsRun(states, actions, limit) && actions != []
    ensures var n := |actions| - 1;
            && |states| == n + 2 && IsRun(states[..n + 1], actions[..n], limit) && states[..n + 1][n] == states[n]
            && Enabled(states[n], actions[n]) && states[n + 1] == Next(states[n], limit, actions[n])
  {
    hide Next, Enabled;
    var n := |actions| - 1;
    var before, init := states[..n + 1], actions[..n];
    assert LeadsOn(states, actions, limit, n);
    forall k | 0 <= k < n
      ensures LeadsOn(before, init, limit, k)
    {
      assert LeadsOn(states, actions, limit, k);
    }
  }

  // ----- what becomes of a transaction

  predicate RepliesTo(a: Action, tx: Tx) {
    a.Reply? && a.tx == tx
  }

  /** A reply with code 200. */
  predicate Delivers(a: Action, tx: Tx) {
    RepliesTo(a, tx) && a.ok
  }

  /** A reply with another code, after the last retry. */
  predicate Postpones(a: Action, tx: Tx) {
    RepliesTo(a, tx) && !a.ok && !a.again
  }

  /** A tick takes the transaction from the backlog, to which it gets this answer. */
  predicate Takes(s: State, a: Action, tx: Tx, answer: bool) {
    a.SendBacklog? && exists i :: 0 <= i < |a.answers| && i < |s.outQueue| && s.outQueue[i] == tx && a.answers[i] == answer
  }

  /** The client refuses to send the transaction once more: at once after a reply, or in a tick. */
  predicate Refuses(s: State, a: Action, tx: Tx) {
    (RepliesTo(a, tx) && !a.ok && a.again && !a.sends) || Takes(s, a, tx, false)
  }

  ghost predicate WasDelivered(actions: seq<Action>, tx: Tx) {
    exists k :: 0 <= k < |actions| && Delivers(actions[k], tx)
  }

  ghost predicate WasRefused(states: seq<State>, actions: seq<Action>, tx: Tx)
    requires |states| == |actions| + 1
  {
    exists k :: 0 <= k < |actions| && Refuses(states[k], actions[k], tx)
  }

  /** From `k` on there has been no reply to the transaction, and no tick has taken it. */
  predicate LeftAloneFrom(states: seq<State>, actions: seq<Action>, tx: Tx, k: nat)
    requires |states| == |actions| + 1
  {
    forall j | k <= j < |actions| ::
      !RepliesTo(actions[j], tx) && !Takes(states[j], actions[j], tx, true) && !Takes(states[j], actions[j], tx, false)
  }

  /** The last reply came after the last retry, and no tick has taken the transaction since. */
  ghost predicate WasPostponed(states: seq<State>, actions: seq<Action>, tx: Tx)
    requires |states| == |actions| + 1
  {
    exists k :: 0 <= k < |actions| && Postpones(actions[k], tx) && LeftAloneFrom(states, actions, tx, k + 1)
  }

  /** What one action does to a transaction. */
  lemma FateOfOne(s: State, limit: nat, a: Action, tx: Tx)
    requires Enabled(s, a) && Holds(s, limit)
    ensures var r := Next(s, limit, a);
            && (tx in r.delivered <==> tx in s.delivered || Delivers(a, tx))
            && (tx in r.dropped <==> tx in s.dropped || Refuses(s, a, tx))
            && (tx in r.outQueue <==> Postpones(a, tx) || (tx in s.outQueue && !Takes(s, a, tx, true) && !Takes(s, a, tx, false)))
    ensures tx in s.outQueue ==> !RepliesTo(a, tx)
  {
    match a
    case Request(_, _) =>
    case Reply(_, _, _, _) =>
    case SendBacklog(answers) => TickFate(s, answers, tx);
    case MergeCounters =>
  }

  lemma TickFate(s: State, answers: seq<bool>, tx: Tx)
    requires |answers| == TickSize(|s.outQueue|) && NoRepeats(s.outQueue)
    ensures var r, a := SendMany(s, |answers|, answers), SendBacklog(answers);
            && r.delivered == s.delivered
            && (tx in r.dropped <==> tx in s.dropped || Takes(s, a, tx, false))
            && (tx in r.outQueue <==> tx in s.outQueue && !Takes(s, a, tx, true) && !Takes(s, a, tx, false))
  {
    hide SendMany, TickSize;
    TickTakesTheFront(s, |answers|, answers);
    TakenIsAnswered(s, answers, tx);
    TakenOrLeft(s, answers, tx);
    hide Takes, Answered, NoRepeats;
  }

  lemma TakenIsAnswered(s: State, answers: seq<bool>, tx: Tx)
    requires |answers| <= |s.outQueue|
    ensures tx in Answered(s.outQueue, |answers|, answers, false) <==> Takes(s, SendBacklog(answers), tx, false)
  {
  }

  lemma TakenOrLeft(s: State, answers: seq<bool>, tx: Tx)
    requires |answers| <= |s.outQueue| && NoRepeats(s.outQueue)
    ensures var a := SendBacklog(answers);
            tx in s.outQueue[|answers|..] <==> tx in s.outQueue && !Takes(s, a, tx, true) && !Takes(s, a, tx, false)
  {
    var q, n := s.outQueue, |answers|;
    if tx in q {
      var i :| 0 <= i < |q| && q[i] == tx;
      if i < n {
        assert Takes(s, SendBacklog(answers), tx, answers[i]);
      } else {
        assert q[n..][i - n] == tx;
      }
    }
  }

  lemma WasMore(states: seq<State>, actions: seq<Action>, tx: Tx)
    requires |states| == |actions| + 1 && actions != []
    ensures var n := |actions| - 1; var a := actions[n];
            && (WasDelivered(actions, tx) <==> WasDelivered(actions[..n], tx) || Delivers(a, tx))
            && (WasRefused(states, actions, tx) <==> WasRefused(states[..n + 1], actions[..n], tx) || Refuses(states[n], a, tx))
  {
    hide Delivers, Refuses;
    var n := |actions| - 1;
    if WasDelivered(actions[..n], tx) {
      var k :| 0 <= k < n && Delivers(actions[..n][k], tx);
      assert Delivers(actions[k], tx);
    }
    if WasDelivered(actions, tx) && !Delivers(actions[n], tx) {
      var k :| 0 <= k < |actions| && Delivers(actions[k], tx);
      assert Delivers(actions[..n][k], tx);
    }
    if WasRefused(states[..n + 1], actions[..n], tx) {
      var k :| 0 <= k < n && Refuses(states[..n + 1][k], actions[..n][k], tx);
      assert Refuses(states[k], actions[k], tx);
    }
    if WasRefused(states, actions, tx) && !Refuses(states[n], actions[n], tx) {
      var k :| 0 <= k < |actions| && Refuses(states[k], actions[k], tx);
      assert Refuses(states[..n + 1][k], actions[..n][k], tx);
    }
  }

  lemma PostponedMore(states: seq<State>, actions: seq<Action>, tx: Tx)
    requires |states| == |actions| + 1 && actions != []
    ensures var n := |actions| - 1; var s, a := states[n], actions[n];
            WasPostponed(states, actions, tx)
            <==> || Postpones(a, tx)
                 || (WasPostponed(states[..n + 1], actions[..n], tx)
                     && !RepliesTo(a, tx) && !Takes(s, a, tx, true) && !Takes(s, a, tx, false))
  {
    hide Takes, RepliesTo, Postpones;
    var n := |actions| - 1;
    var before, init := states[..n + 1], actions[..n];
    if Postpones(actions[n], tx) {
      assert LeftAloneFrom(states, actions, tx, n + 1);
    } else if WasPostponed(states, actions, tx) {
      var k :| 0 <= k < |actions| && Postpones(actions[k], tx) && LeftAloneFrom(states, actions, tx, k + 1);
      assert Postpones(init[k], tx) && LeftAloneFrom(before, init, tx, k + 1);
    }
    if WasPostponed(before, init, tx)
       && !RepliesTo(actions[n], tx) && !Takes(states[n], actions[n], tx, true) && !Takes(states[n], actions[n], tx, false) {
      var k :| 0 <= k < n && Postpones(init[k], tx) && LeftAloneFrom(before, init, tx, k + 1);
      assert LeftAloneFrom(states, actions, tx, k + 1) by {
        forall j | k + 1 <= j < |actions|
          ensures !RepliesTo(actions[j], tx) && !Takes(states[j], actions[j], tx, true) && !Takes(states[j], actions[j], tx, false)
        {
          if j < n {
            assert init[j] == actions[j] && before[j] == states[j];
          }
        }
      }
      assert Postpones(actions[k], tx);
    }
  }

  /** What has become of a transaction, in every run, from what has been done: it is delivered exactly if there was a
      reply to it with code 200; dropped exactly if the client refused to send it once more; and it waits exactly if
      the last reply to it came after the last retry and no tick has taken it since. */
  lemma {:induction false} FateOfTransaction(states: seq<State>, actions: seq<Action>, limit: nat, tx: Tx)
    requires IsRun(states, actions, limit)
    ensures var s := states[|actions|];
            && (tx in s.delivered <==> WasDelivered(actions, tx))
            && (tx in s.dropped <==> WasRefused(states, actions, tx))
            && (tx in s.outQueue <==> WasPostponed(states, actions, tx))
    decreases |actions|
  {
    if actions != [] {
      hide *;
      RunBefore(states, actions, limit);
      var n := |actions| - 1;
      FateOfTransaction(states[..n + 1], actions[..n], limit, tx);
      RunHolds(states[..n + 1], actions[..n], limit);
      FateOfOne(states[n], limit, actions[n], tx);
      WasMore(states, actions, tx);
      PostponedMore(states, actions, tx);
    }
  }

  // ----- what the counters count

  /** A request is refused: as many are unfinished, in flight or waiting, that the limit is exceeded already. */
  predicate IsRefused(s: State, limit: nat) {
    limit > 0 && |s.inFlight| + |s.outQueue| > limit
  }

  /** The test of the callback is about the requests that are unfinished. */
  lemma TooManyMeansUnfinished(s: State, limit: nat)
    requires Holds(s, limit)
    ensures TooMany(s, limit) <==> IsRefused(s, limit)
  {
  }

  /** Requests of a kind: any; those that are not refused, with one of these errors or good; and the good ones that are
      no test and that the client sends on. */
  datatype Kind = AnyRequest | FaultyRequest(codes: set<ErrorCode>) | GoodRequest | SentRequest

  predicate IsOfKind(s: State, limit: nat, a: Action, kind: Kind) {
    a.Request? &&
    match kind
    case AnyRequest => true
    case FaultyRequest(codes) => !IsRefused(s, limit) && a.finding.Faulty? && a.finding.ec in codes
    case GoodRequest => !IsRefused(s, limit) && a.finding.Good?
    case SentRequest => !IsRefused(s, limit) && a.finding == Good(false) && a.sends
  }

  /** How many actions of a run are requests of a kind, in the states they come in. */
  function Number(states: seq<State>, actions: seq<Action>, limit: nat, kind: Kind): nat
    requires |states| == |actions| + 1
    decreases |actions|
  {
    if actions == [] then 0
    else
      var n := |actions| - 1;
      Number(states[..n + 1], actions[..n], limit, kind) + if IsOfKind(states[n], limit, actions[n], kind) then 1 else 0
  }

  const TRASH: set<ErrorCode> := {EmptyPostData, JsonParseError, UnsupportedVersion, GetInfo, OtherError, Ok}
  const NO_REQ: set<ErrorCode> := {UnsupportedParamsType, NoRequiredParams}
  const INV: set<ErrorCode> := {UnsupportedMethod, InvalidTransaction}
  const INV_SIGN: set<ErrorCode> := {VerificationFailed}

  /** What one action does to the counters, held and handed over together. */
  lemma CountsOne(s: State, limit: nat, a: Action)
    requires Enabled(s, a) && Holds(s, limit)
    ensures var r := Next(s, limit, a);
            var c, d := Sum(s.merged, s.counters), Sum(r.merged, r.counters);
            && d.total == c.total + (if IsOfKind(s, limit, a, AnyRequest) then 1 else 0)
            && d.success == c.success + (if IsOfKind(s, limit, a, GoodRequest) then 1 else 0)
            && d.trash == c.trash + (if IsOfKind(s, limit, a, FaultyRequest(TRASH)) then 1 else 0)
            && d.noReq == c.noReq + (if IsOfKind(s, limit, a, FaultyRequest(NO_REQ)) then 1 else 0)
            && d.inv == c.inv + (if IsOfKind(s, limit, a, FaultyRequest(INV)) then 1 else 0)
            && d.invSign == c.invSign + (if IsOfKind(s, limit, a, FaultyRequest(INV_SIGN)) then 1 else 0)
            && r.sent == s.sent + (if IsOfKind(s, limit, a, SentRequest) then 1 else 0)
  {
    TooManyMeansUnfinished(s, limit);
    match a
    case Request(_, _) =>
      hide IsRefused, TooMany;
    case Reply(_, _, _, _) =>
    case SendBacklog(answers) =>
      TickTakesTheFront(s, |answers|, answers);
      hide SendMany;
    case MergeCounters =>
  }

  /** In every run, what has been handed over and what is held still add up to what has come in: all requests; the good
      ones; those with each group of errors; and each good one that is no test is sent, if the client takes it. */
  lemma {:induction false} CountersCount(states: seq<State>, actions: seq<Action>, limit: nat)
    requires IsRun(states, actions, limit)
    ensures var c := Sum(states[|actions|].merged, states[|actions|].counters);
            && c.total == Number(states, actions, limit, AnyRequest)
            && c.success == Number(states, actions, limit, GoodRequest)
            && c.trash == Number(states, actions, limit, FaultyRequest(TRASH))
            && c.noReq == Number(states, actions, limit, FaultyRequest(NO_REQ))
            && c.inv == Number(states, actions, limit, FaultyRequest(INV))
            && c.invSign == Number(states, actions, limit, FaultyRequest(INV_SIGN))
    ensures states[|actions|].sent == Number(states, actions, limit, SentRequest)
    decreases |actions|
  {
    hide *;
    if actions == [] {
      RunBegins(states, actions, limit);
      NothingYet(states[0]);
      SumOfZeros(states[0].merged, states[0].counters);
      NoneCounted(states, actions, limit, AnyRequest);
      NoneCounted(states, actions, limit, GoodRequest);
      NoneCounted(states, actions, limit, FaultyRequest(TRASH));
      NoneCounted(states, actions, limit, FaultyRequest(NO_REQ));
      NoneCounted(states, actions, limit, FaultyRequest(INV));
      NoneCounted(states, actions, limit, FaultyRequest(INV_SIGN));
      NoneCounted(states, actions, limit, SentRequest);
    } else {
      RunBefore(states, actions, limit);
      var n := |actions| - 1;
      CountersCount(states[..n + 1], actions[..n], limit);
      RunHolds(states[..n + 1], actions[..n], limit);
      CountsOne(states[n], limit, actions[n]);
      NumberMore(states, actions, limit, AnyRequest);
      NumberMore(states, actions, limit, GoodRequest);
      NumberMore(states, actions, limit, FaultyRequest(TRASH));
      NumberMore(states, actions, limit, FaultyRequest(NO_REQ));
      NumberMore(states, actions, limit, FaultyRequest(INV));
      NumberMore(states, actions, limit, FaultyRequest(INV_SIGN));
      NumberMore(states, actions, limit, SentRequest);
    }
  }

  lemma NothingYet(s: State)
    requires s == INITIAL
    ensures s.sent == 0 && s.merged == ZERO && s.counters == ZERO
  {
  }

  lemma SumOfZeros(c: Counters, d: Counters)
    requires c == ZERO && d == ZERO
    ensures var e := Sum(c, d);
            e.total == 0 && e.trash == 0 && e.noReq == 0 && e.inv == 0 && e.invSign == 0 && e.success == 0
  {
  }

  lemma NoneCounted(states: seq<State>, actions: seq<Action>, limit: nat, kind: Kind)
    requires |states| == 1 && actions == []
    ensures Number(states, actions, limit, kind) == 0
  {
    hide IsOfKind;
  }

  lemma NumberMore(states: seq<State>, actions: seq<Action>, limit: nat, kind: Kind)
    requires |states| == |actions| + 1 && actions != []
    ensures var n := |actions| - 1;
            Number(states, actions, limit, kind)
            == Number(states[..n + 1], actions[..n], limit, kind) + if IsOfKind(states[n], limit, actions[n], kind) then 1 else 0
  {
  }

  // ----- the worker

  /** The worker thread: `counters` and `out_queue` are what its callbacks capture. */
  class Worker {
    const limit: nat
    var total: int
    var trash: int
    var noReq: int
    var inv: int
    var invSign: int
    var success: int
    var queue: int
    var outQueue: seq<Tx>
    ghost var inFlight: set<Tx>
    ghost var delivered: set<Tx>
    ghost var dropped: set<Tx>
    var sent: nat
    ghost var rejected: nat
    ghost var handedOver: Counters

    constructor (threadQueueSize: nat)
      ensures View() == INITIAL && limit == threadQueueSize
    {
      limit := threadQueueSize;
      total, trash, noReq, inv, invSign, success, queue := 0, 0, 0, 0, 0, 0, 0;
      outQueue, inFlight, delivered, dropped, sent, rejected, handedOver := [], {}, {}, {}, 0, 0, ZERO;
    }

    ghost function View(): State
      reads this
    {
      State(Counters(total, trash, noReq, inv, invSign, success, queue), outQueue, inFlight, delivered, dropped, sent, rejected,
            handedOver)
    }

    method ProcessErrorCode(ec: ErrorCode)
      modifies this`trash, this`noReq, this`inv, this`invSign
      ensures View() == old(View()).(counters := Counted(old(View()).counters, ec))
      ensures CountsOneError(old(View()).counters, View().counters)
    {
      match ec
      case EmptyPostData => trash := trash + 1;
      case JsonParseError => trash := trash + 1;
      case UnsupportedVersion => trash := trash + 1;
      case GetInfo => trash := trash + 1;
      case UnsupportedMethod => inv := inv + 1;
      case UnsupportedParamsType => noReq := noReq + 1;
      case NoRequiredParams => noReq := noReq + 1;
      case InvalidTransaction => inv := inv + 1;
      case VerificationFailed => invSign := invSign + 1;
      case _ => trash := trash + 1;
    }

    /** The callback of the server. */
    method CbRequest(finding: Finding, sends: bool) returns (tooMany: bool)
      modifies this
      ensures View() == OnRequest(old(View()), limit, finding, sends) && tooMany == TooMany(old(View()), limit)
    {
      tooMany := false;
      total := total + 1;
      if limit != 0 && queue + |outQueue| > limit {
        rejected := rejected + 1;
        return true;
      }
      match finding
      case Faulty(ec) =>
        ProcessErrorCode(ec);
      case Good(isTest) =>
        success := success + 1;
        if !isTest {
          if sends {
            queue := queue + 1;
            inFlight, sent := inFlight + {sent}, sent + 1;
          }
        }
    }

    /** The callback of the client, for a request that has been tried `generation` times. */
    method CbReply(tx: Tx, code: int, generation: nat, retries: nat, sends: bool)
      modifies this
      ensures View() == OnReply(old(View()), tx, code == 200, generation < retries, sends)
    {
      if code != 200 {
        if generation < retries {
          if sends {
            return;
          }
          dropped := dropped + {tx};
        } else {
          outQueue := outQueue + [tx];
        }
      } else {
        delivered := delivered + {tx};
      }
      inFlight := inFlight - {tx};
      queue := queue - 1;
    }

    /** `timer_out_queue`: sends from the front of the queue, in order; its loop compares a growing counter with the
        shrinking queue. */
    method TimerOutQueue(answers: seq<bool>)
      requires |answers| >= TickSize(|outQueue|)
      modifies this
      ensures View() == SendMany(old(View()), TickSize(old(|outQueue|)), answers)
    {
      if outQueue == [] {
        return;
      }
      hide SendFront, TickSize;
      ghost var s, n := View(), |outQueue|;
      var i: nat := 0;
      while i < (if |outQueue| < 200 then |outQueue| else 200)
        invariant i <= TickSize(n) && |outQueue| == n - i && View() == SendMany(s, i, answers)
        decreases n - i
      {
        TickBound(n, i);
        SendFirst(answers[i]);
        i := i + 1;
      }
      TickBound(n, i);
    }

    /** One turn of that loop. */
    method SendFirst(sends: bool)
      requires outQueue != []
      modifies this
      ensures View() == SendFront(old(View()), sends)
    {
      var tx := outQueue[0];
      if sends {
        queue := queue + 1;
        inFlight := inFlight + {tx};
      } else {
        dropped := dropped + {tx};
      }
      outQueue := outQueue[1..];
    }

    /** `timer_update_counters`: what is merged into the global counters, and the size that is published. */
    method TimerUpdateCounters() returns (published: int, merged: Counters)
      modifies this
      ensures published == old(queue) + |old(outQueue)| && View() == OnMerge(old(View()))
      ensures merged == if old(total) == 0 then ZERO else old(View()).counters.(queue := 0)
      ensures View().merged == Sum(old(View()).merged, merged)
    {
      published, merged := queue + |outQueue|, ZERO;
      if total != 0 {
        merged := Counters(total, trash, noReq, inv, invSign, success, 0);
        total, trash, noReq, inv, invSign, success := 0, 0, 0, 0, 0, 0;
        rejected, handedOver := 0, Sum(handedOver, merged);
      }
    }
  }
}
