/** Batched historical replay: payloads go to the execution engine one by one, and every few
    blocks a fork-choice update publishes the chain so far. */
module Replay {
  import opened Arithmetic
  import opened Hashing

  datatype Payload = Payload(number: nat, hash: Hash, parent: Hash)

  /** An authenticated plan: the payloads, and the ends that were verified for it. */
  datatype Plan = Plan(firstParent: Hash, lastHash: Hash, payloads: seq<Payload>)

  datatype Call = NewPayload(payload: Payload) | ForkChoice(hash: Hash)

  /** All calls made so far, the latest on the outside. */
  datatype Log = Nothing | Sent(earlier: Log, call: Call)

  datatype Status = Status(valid: bool, latestValid: Option<Hash>)

  /** The execution engine: its answer to the latest call may depend on all earlier ones. `None` is
      a failed call. */
  type Engine = Log -> Option<Status>

  /** `historical_replay_fcu_interval`, for the setting found in the environment. */
  function Interval(setting: Option<nat>): (k: nat)
    ensures 1 <= k <= 16
    ensures setting.None? ==> k == 4
    ensures setting.Some? ==> k == setting.value || k == 1 > setting.value || k == 16 < setting.value
  {
    var k := if setting.Some? then setting.value else 4;
    if k < 1 then 1 else if k > 16 then 16 else k
  }

  /** How far `i` is past the last multiple of `k`, counted step by step. */
  function Past(i: nat, k: nat): (r: nat)
    requires k > 0
    ensures r < k && r <= i
  {
    if i == 0 || Past(i - 1, k) + 1 == k then 0 else Past(i - 1, k) + 1
  }

  /** After this many payloads the chain so far is published. */
  predicate Due(position: nat, total: nat, k: nat)
    requires k > 0
  {
    Past(position, k) == 0 || position == total
  }

  /** It is the test of the code: a multiple of the interval, or the end. */
  lemma {:induction false} DueExact(position: nat, total: nat, k: nat)
    requires k > 0
    ensures Due(position, total, k) <==> position % k == 0 || position == total
  {
    PastIsRemainder(position, k);
  }

  /** `historical_replay_checkpoint_due`. */
  method CheckpointDue(position: nat, total: nat, k: nat) returns (due: bool)
    requires k > 0
    ensures due == Due(position, total, k)
  {
    DueExact(position, total, k);
    due := position % k == 0 || position == total;
  }

  lemma {:induction false} PastIsRemainder(i: nat, k: nat)
    requires k > 0
    ensures Past(i, k) == i % k
  {
    var q := WholeIntervals(i, k);
    MultipleIs(q, k);
    QuotientIs(i, k, q, Past(i, k));
  }

  /** `q` times `k`, counted step by step. */
  function Multiple(q: nat, k: nat): nat {
    if q == 0 then 0 else Multiple(q - 1, k) + k
  }

  lemma {:induction false} MultipleIs(q: nat, k: nat)
    ensures Multiple(q, k) == q * k
  {
    if q > 0 {
      MultipleIs(q - 1, k);
      MulSub(q, 1, k);
    }
  }

  lemma {:induction false} WholeIntervals(i: nat, k: nat) returns (q: nat)
    requires k > 0
    ensures i == Multiple(q, k) + Past(i, k)
  {
    q := 0;
    if i > 0 {
      q := WholeIntervals(i - 1, k);
      if Past(i, k) == 0 {
        q := q + 1;
      }
    }
  }

  function HashOf(c: Call): Hash {
    match c
    case NewPayload(p) => p.hash
    case ForkChoice(h) => h
  }

  /** The engine took the latest call: valid, and valid at the very block it was sent. */
  predicate Took(engine: Engine, log: Log)
    requires log.Sent?
  {
    engine(log) == Some(Status(true, Some(HashOf(log.call))))
  }

  // --------------------------------------------------------------- specification

  /** The head after the first `i` payloads. */
  function HeadAt(plan: Plan, i: nat): Hash
    requires i <= |plan.payloads|
  {
    if i == 0 then plan.firstParent else plan.payloads[i - 1].hash
  }

  /** The calls for the first `i` payloads. */
  function Calls(plan: Plan, k: nat, i: nat): Log
    requires i <= |plan.payloads| && k > 0
  {
    if i == 0 then Nothing
    else
      var p := plan.payloads[i - 1];
      var log := Sent(Calls(plan, k, i - 1), NewPayload(p));
      if Due(i, |plan.payloads|, k) then Sent(log, ForkChoice(p.hash)) else log
  }

  /** Each of the first `i` payloads names the head before it as its parent. */
  ghost predicate Linked(plan: Plan, i: nat)
    requires i <= |plan.payloads|
  {
    i == 0 || (Linked(plan, i - 1) && plan.payloads[i - 1].parent == HeadAt(plan, i - 1))
  }

  ghost predicate AllTaken(engine: Engine, log: Log) {
    log.Sent? ==> Took(engine, log) && AllTaken(engine, log.earlier)
  }

  datatype Outcome =
    | Done(head: Hash)
    | WrongEnd(head: Hash)
    | BrokenLink(i: nat)
    | PayloadRefused(i: nat)
    | PublishRefused(i: nat)

  /** What each outcome says about the plan and about the calls that were made. */
  ghost predicate Explains(engine: Engine, plan: Plan, k: nat, out: Outcome, log: Log)
    requires k > 0
  {
    var n := |plan.payloads|;
    match out
    case Done(head) =>
      && log == Calls(plan, k, n) && AllTaken(engine, log) && Linked(plan, n)
      && head == HeadAt(plan, n) == plan.lastHash
    case WrongEnd(head) =>
      && log == Calls(plan, k, n) && AllTaken(engine, log) && Linked(plan, n)
      && head == HeadAt(plan, n) != plan.lastHash
    case BrokenLink(i) =>
      && i < n && log == Calls(plan, k, i) && AllTaken(engine, log)
      && Linked(plan, i) && plan.payloads[i].parent != HeadAt(plan, i)
    case PayloadRefused(i) =>
      && i < n && log == Sent(Calls(plan, k, i), NewPayload(plan.payloads[i])) && Linked(plan, i + 1)
      && AllTaken(engine, log.earlier) && !Took(engine, log)
    case PublishRefused(i) =>
      && i < n && Due(i + 1, n, k) && log == Calls(plan, k, i + 1) && Linked(plan, i + 1)
      && AllTaken(engine, log.earlier) && !Took(engine, log)
  }

  // --------------------------------------------------------------------- import

  /** `import_authenticated_replay_plan`, against an arbitrary engine. */
  method Import(engine: Engine, plan: Plan, setting: Option<nat>) returns (out: Outcome, log: Log, batches: nat)
    ensures Explains(engine, plan, Interval(setting), out, log)
    ensures batches == |Published(engine, log)|
  {
    var k, n := Interval(setting), |plan.payloads|;
    var head := plan.firstParent;
    log, batches := Nothing, 0;
    for i := 0 to n
      invariant log == Calls(plan, k, i) && AllTaken(engine, log)
      invariant Linked(plan, i) && head == HeadAt(plan, i)
      invariant batches == |Published(engine, log)|
    {
      var payload := plan.payloads[i];
      if payload.parent != head {
        return BrokenLink(i), log, batches;
      }
      log := Sent(log, NewPayload(payload));
      var status := engine(log);
      if status.None? || !status.value.valid || status.value.latestValid != Some(payload.hash) {
        return PayloadRefused(i), log, batches;
      }
      assert Took(engine, log);
      head := payload.hash;
      var due := CheckpointDue(i + 1, n, k);
      if due {
        log := Sent(log, ForkChoice(head));
        status := engine(log);
        if status.None? || !status.value.valid || status.value.latestValid != Some(head) {
          return PublishRefused(i), log, batches;
        }
        assert Took(engine, log);
        batches := batches + 1;
      }
    }
    if head != plan.lastHash {
      return WrongEnd(head), log, batches;
    }
    return Done(head), log, batches;
  }

  /** The outcome and the calls are determined: nothing else explains the same plan and engine. */
  lemma {:induction false} OutcomeUnique(
    engine: Engine, plan: Plan, k: nat, out: Outcome, log: Log, out': Outcome, log': Log)
    requires k > 0 && Explains(engine, plan, k, out, log) && Explains(engine, plan, k, out', log')
    ensures out == out' && log == log'
  {
    if Through(plan, out) < Through(plan, out') {
      CannotGoOn(engine, plan, k, out, log, Through(plan, out'));
      WentThrough(engine, plan, k, out', log');
      assert false;
    } else if Through(plan, out') < Through(plan, out) {
      CannotGoOn(engine, plan, k, out', log', Through(plan, out));
      WentThrough(engine, plan, k, out, log);
      assert false;
    }
  }

  /** How many payloads went all the way through. */
  function Through(plan: Plan, out: Outcome): nat {
    match out
    case Done(_) => |plan.payloads|
    case WrongEnd(_) => |plan.payloads|
    case BrokenLink(i) => i
    case PayloadRefused(i) => i
    case PublishRefused(i) => i
  }

  lemma {:induction false} WentThrough(engine: Engine, plan: Plan, k: nat, out: Outcome, log: Log)
    requires k > 0 && Explains(engine, plan, k, out, log)
    ensures var i := Through(plan, out);
            i <= |plan.payloads| && AllTaken(engine, Calls(plan, k, i)) && Linked(plan, i)
  {
  }

  /** An engine that stopped the replay at one payload would have stopped any longer one there. */
  lemma {:induction false} CannotGoOn(engine: Engine, plan: Plan, k: nat, out: Outcome, log: Log, j: nat)
    requires k > 0 && Explains(engine, plan, k, out, log) && Through(plan, out) < j <= |plan.payloads|
    ensures !(AllTaken(engine, Calls(plan, k, j)) && Linked(plan, j))
  {
    if Through(plan, out) + 1 < j {
      CannotGoOn(engine, plan, k, out, log, j - 1);
    }
  }

  // --------------------------------------------------------- what the engine said

  /** `past` is what had been called at some point of `log`. */
  predicate Within(past: Log, log: Log) {
    past == log || (log.Sent? && Within(past, log.earlier))
  }

  /** The reply to every call of `log` is: valid, and valid up to the very block of that call. */
  ghost predicate Confirmed(engine: Engine, log: Log) {
    && (forall past :: Within(past, log) && past.Sent? && past.call.NewPayload? ==>
          engine(past) == Some(Status(true, Some(past.call.payload.hash))))
    && (forall past :: Within(past, log) && past.Sent? && past.call.ForkChoice? ==>
          engine(past) == Some(Status(true, Some(past.call.hash))))
  }

  lemma {:induction false} TakenIsConfirmed(engine: Engine, log: Log)
    ensures AllTaken(engine, log) <==> Confirmed(engine, log)
  {
    if log.Sent? {
      TakenIsConfirmed(engine, log.earlier);
      assert Within(log, log) && forall past :: Within(past, log.earlier) ==> Within(past, log);
    }
  }

  /** The replay goes through exactly if the plan is linked, ends where it should, and the engine
      confirms every call. */
  lemma {:induction false} DoneExactly(engine: Engine, plan: Plan, k: nat, out: Outcome, log: Log)
    requires k > 0 && Explains(engine, plan, k, out, log)
    ensures
      var n := |plan.payloads|;
      out == Done(plan.lastHash) <==>
        Linked(plan, n) && HeadAt(plan, n) == plan.lastHash && Confirmed(engine, Calls(plan, k, n))
    ensures out.Done? ==> out == Done(plan.lastHash) && log == Calls(plan, k, |plan.payloads|)
  {
    var n := |plan.payloads|;
    TakenIsConfirmed(engine, Calls(plan, k, n));
    if Linked(plan, n) && HeadAt(plan, n) == plan.lastHash && Confirmed(engine, Calls(plan, k, n)) {
      OutcomeUnique(engine, plan, k, out, log, Done(plan.lastHash), Calls(plan, k, n));
    }
  }

  /** It ends at payload `i`, which is then the last call, exactly if the engine confirms every call
      before it and answers it with anything else: a failure, an invalid status, another block or none. */
  lemma {:induction false} PayloadRefusedExactly(engine: Engine, plan: Plan, k: nat, out: Outcome, log: Log, i: nat)
    requires k > 0 && Explains(engine, plan, k, out, log) && i < |plan.payloads|
    ensures
      var p, before := plan.payloads[i], Calls(plan, k, i);
      out == PayloadRefused(i) <==>
        && Linked(plan, i + 1) && Confirmed(engine, before)
        && engine(Sent(before, NewPayload(p))) != Some(Status(true, Some(p.hash)))
    ensures out == PayloadRefused(i) ==> log == Sent(Calls(plan, k, i), NewPayload(plan.payloads[i]))
  {
    var p, before := plan.payloads[i], Calls(plan, k, i);
    TakenIsConfirmed(engine, before);
    if Linked(plan, i + 1) && Confirmed(engine, before)
       && engine(Sent(before, NewPayload(p))) != Some(Status(true, Some(p.hash))) {
      OutcomeUnique(engine, plan, k, out, log, PayloadRefused(i), Sent(before, NewPayload(p)));
    }
  }

  /** The same for the publication after payload `i`. */
  lemma {:induction false} PublishRefusedExactly(engine: Engine, plan: Plan, k: nat, out: Outcome, log: Log, i: nat)
    requires k > 0 && Explains(engine, plan, k, out, log) && i < |plan.payloads|
    ensures
      var p, executed := plan.payloads[i], Sent(Calls(plan, k, i), NewPayload(plan.payloads[i]));
      out == PublishRefused(i) <==>
        && ((i + 1) % k == 0 || i + 1 == |plan.payloads|) && Linked(plan, i + 1) && Confirmed(engine, executed)
        && engine(Sent(executed, ForkChoice(p.hash))) != Some(Status(true, Some(p.hash)))
    ensures out == PublishRefused(i) ==>
              log == Sent(Sent(Calls(plan, k, i), NewPayload(plan.payloads[i])), ForkChoice(plan.payloads[i].hash))
  {
    var p, executed := plan.payloads[i], Sent(Calls(plan, k, i), NewPayload(plan.payloads[i]));
    DueExact(i + 1, |plan.payloads|, k);
    TakenIsConfirmed(engine, executed);
    if ((i + 1) % k == 0 || i + 1 == |plan.payloads|) && Linked(plan, i + 1) && Confirmed(engine, executed)
       && engine(Sent(executed, ForkChoice(p.hash))) != Some(Status(true, Some(p.hash))) {
      OutcomeUnique(engine, plan, k, out, log, PublishRefused(i), Calls(plan, k, i + 1));
    }
  }

  // ------------------------------------------------------------- what was called

  /** The blocks sent for publication, in order. */
  function Updates(log: Log): seq<Hash> {
    if log.Nothing? then [] else Updates(log.earlier) + if log.call.ForkChoice? then [log.call.hash] else []
  }

  /** The payloads sent for execution, in order. */
  function Payloads(log: Log): seq<Payload> {
    if log.Nothing? then [] else Payloads(log.earlier) + if log.call.NewPayload? then [log.call.payload] else []
  }

  /** How many of the first `i` blocks the calls for them have published. */
  function PublishedBlocks(n: nat, k: nat, i: nat): (m: nat)
    requires i <= n && k > 0
    ensures m <= i < m + k && (i == n ==> m == n)
  {
    if i == n then n else i - Past(i, k)
  }

  /** The last block of a list of publications, or where the replay started. */
  function LastOf(plan: Plan, updates: seq<Hash>): Hash {
    if updates == [] then plan.firstParent else updates[|updates| - 1]
  }

  /** The calls for the first `i` payloads execute exactly these payloads, in order, and publish up
      to the last checkpoint among them. */
  lemma {:induction false} CallsDone(plan: Plan, k: nat, i: nat)
    requires i <= |plan.payloads| && k > 0
    ensures Payloads(Calls(plan, k, i)) == plan.payloads[..i]
    ensures LastOf(plan, Updates(Calls(plan, k, i))) == HeadAt(plan, PublishedBlocks(|plan.payloads|, k, i))
  {
    if i > 0 {
      CallsDone(plan, k, i - 1);
    }
  }

  lemma {:induction false} UpdateCount(plan: Plan, k: nat, i: nat)
    requires i < |plan.payloads| && k > 0
    ensures Multiple(|Updates(Calls(plan, k, i))|, k) == i - Past(i, k)
  {
    if i > 0 {
      UpdateCount(plan, k, i - 1);
    }
  }

  /** A whole replay publishes the number of blocks over the interval, rounded up. */
  lemma {:induction false} BatchCount(plan: Plan, k: nat)
    requires k > 0
    ensures |Updates(Calls(plan, k, |plan.payloads|))| == (|plan.payloads| + k - 1) / k
  {
    var n := |plan.payloads|;
    if n == 0 {
      QuotientIs(k - 1, k, 0, k - 1);
    } else {
      UpdateCount(plan, k, n - 1);
      var u := |Updates(Calls(plan, k, n - 1))|;
      MultipleIs(u + 1, k);
      QuotientIs(n + k - 1, k, u + 1, Past(n - 1, k));
    }
  }

  // ------------------------------------------------------------ what was achieved

  /** The payloads that the engine took. */
  ghost function Accepted(engine: Engine, log: Log): seq<Payload> {
    if log.Nothing? then []
    else
      Accepted(engine, log.earlier)
      + if log.call.NewPayload? && Took(engine, log) then [log.call.payload] else []
  }

  /** The blocks that the engine published. */
  ghost function Published(engine: Engine, log: Log): seq<Hash> {
    if log.Nothing? then []
    else
      Published(engine, log.earlier)
      + if log.call.ForkChoice? && Took(engine, log) then [log.call.hash] else []
  }

  lemma {:induction false} TakenIsSent(engine: Engine, log: Log)
    requires AllTaken(engine, log)
    ensures Accepted(engine, log) == Payloads(log) && Published(engine, log) == Updates(log)
  {
    if log.Sent? {
      TakenIsSent(engine, log.earlier);
    }
  }

  /** Accepted payloads since the last publication. */
  ghost function Unpublished(engine: Engine, log: Log): nat {
    if log.Nothing? then 0
    else if !Took(engine, log) then Unpublished(engine, log.earlier)
    else if log.call.ForkChoice? then 0
    else Unpublished(engine, log.earlier) + 1
  }

  lemma {:induction false} CallsOpen(engine: Engine, plan: Plan, k: nat, i: nat)
    requires k > 0 && i <= |plan.payloads| && AllTaken(engine, Calls(plan, k, i))
    ensures Unpublished(engine, Calls(plan, k, i)) == i - PublishedBlocks(|plan.payloads|, k, i)
  {
    if i > 0 {
      CallsOpen(engine, plan, k, i - 1);
    }
  }

  /** At every iteration boundary fewer than an interval of accepted blocks is unpublished. */
  lemma {:induction false} Boundary(engine: Engine, plan: Plan, k: nat, i: nat) returns (m: nat)
    requires k > 0 && i <= |plan.payloads| && AllTaken(engine, Calls(plan, k, i))
    ensures m == PublishedBlocks(|plan.payloads|, k, i) && m <= i < m + k && (i == |plan.payloads| ==> m == i)
    ensures Accepted(engine, Calls(plan, k, i)) == plan.payloads[..i]
    ensures LastOf(plan, Published(engine, Calls(plan, k, i))) == HeadAt(plan, m)
    ensures Unpublished(engine, Calls(plan, k, i)) == i - m
  {
    m := PublishedBlocks(|plan.payloads|, k, i);
    CallsDone(plan, k, i);
    CallsOpen(engine, plan, k, i);
    TakenIsSent(engine, Calls(plan, k, i));
  }

  /** The engine takes everything up to a checkpoint at a multiple of the interval, and refuses to
      publish that checkpoint. */
  ghost predicate FullBatchRefused(engine: Engine, plan: Plan, k: nat, j: nat)
    requires k > 0
  {
    && 0 < j <= |plan.payloads| && Past(j, k) == 0 && Linked(plan, j)
    && AllTaken(engine, Calls(plan, k, j).earlier) && !Took(engine, Calls(plan, k, j))
  }

  /** However the replay ends: the engine has accepted the first `a` payloads of the plan and
      published the first `m`. Nothing is open after all payloads went through. A whole interval
      is open exactly when the publication of a full batch was refused, and otherwise less. */
  lemma {:induction false} HowFar(engine: Engine, plan: Plan, k: nat, out: Outcome, log: Log) returns (a: nat, m: nat)
    requires k > 0 && Explains(engine, plan, k, out, log)
    ensures m <= a <= |plan.payloads| && Unpublished(engine, log) == a - m <= k
    ensures Accepted(engine, log) == plan.payloads[..a]
    ensures LastOf(plan, Published(engine, log)) == HeadAt(plan, m)
    ensures out.Done? || out.WrongEnd? ==> a == m == |plan.payloads|
    ensures a - m == k <==> out.PublishRefused? && Past(out.i + 1, k) == 0
  {
    var i := Through(plan, out);
    m := Boundary(engine, plan, k, i);
    a := if out.PublishRefused? then i + 1 else i;
    if out.PublishRefused? {
      assert log.earlier == Sent(Calls(plan, k, i), NewPayload(plan.payloads[i]));
    }
  }

  /** The same without the outcome: plan and engine alone say whether a whole interval stays open. */
  lemma {:induction false} ReworkExact(engine: Engine, plan: Plan, k: nat, out: Outcome, log: Log)
    requires k > 0 && Explains(engine, plan, k, out, log)
    ensures Unpublished(engine, log) <= k
    ensures Unpublished(engine, log) == k <==> exists j: nat :: FullBatchRefused(engine, plan, k, j)
  {
    var a, m := HowFar(engine, plan, k, out, log);
    if a - m == k {
      assert FullBatchRefused(engine, plan, k, out.i + 1);
    }
    forall j: nat | FullBatchRefused(engine, plan, k, j) ensures a - m == k {
      assert Explains(engine, plan, k, PublishRefused(j - 1), Calls(plan, k, j));
      OutcomeUnique(engine, plan, k, out, log, PublishRefused(j - 1), Calls(plan, k, j));
    }
  }

  // ------------------------------------------------------- a whole interval open

  /** Four blocks in a row. */
  function FourBlocks(): Plan {
    var h := (i: byte) => EMPTY_HASH[0 := i];
    Plan(h(1), h(5), [Payload(1, h(2), h(1)), Payload(2, h(3), h(2)), Payload(3, h(4), h(3)), Payload(4, h(5), h(4))])
  }

  /** An engine that executes everything and publishes nothing. */
  function ExecuteOnly(log: Log): Option<Status> {
    if log.Sent? && log.call.NewPayload? then Some(Status(true, Some(log.call.payload.hash))) else None
  }

  lemma {:induction false} FourPositions()
    ensures Past(1, 4) == 1 && Past(2, 4) == 2 && Past(3, 4) == 3 && Past(4, 4) == 0
  {
    assert Past(1, 4) == 1;
    assert Past(2, 4) == 2;
    assert Past(3, 4) == 3;
  }

  /** The log of all four payloads. */
  function FourSent(p: seq<Payload>): Log
    requires |p| == 4
  {
    Sent(Sent(Sent(Sent(Nothing, NewPayload(p[0])), NewPayload(p[1])), NewPayload(p[2])), NewPayload(p[3]))
  }

  lemma {:induction false} FourCalls(plan: Plan)
    requires |plan.payloads| == 4
    ensures Calls(plan, 4, 4) == Sent(FourSent(plan.payloads), ForkChoice(plan.payloads[3].hash))
  {
    FourPositions();
    assert Calls(plan, 4, 1) == Sent(Nothing, NewPayload(plan.payloads[0]));
    assert Calls(plan, 4, 2) == Sent(Calls(plan, 4, 1), NewPayload(plan.payloads[1]));
    assert Calls(plan, 4, 3) == Sent(Calls(plan, 4, 2), NewPayload(plan.payloads[2]));
  }

  lemma {:induction false} FourTaken(p: seq<Payload>)
    requires |p| == 4
    ensures AllTaken(ExecuteOnly, FourSent(p))
  {
    var two := Sent(Sent(Nothing, NewPayload(p[0])), NewPayload(p[1]));
    assert AllTaken(ExecuteOnly, two);
    assert AllTaken(ExecuteOnly, Sent(two, NewPayload(p[2])));
  }

  lemma {:induction false} FourLinked()
    ensures Linked(FourBlocks(), 4)
  {
    assert Linked(FourBlocks(), 2);
  }

  /** With the default interval of four, all four blocks are accepted and none is published. */
  lemma {:induction false} WholeIntervalOpen()
    ensures FullBatchRefused(ExecuteOnly, FourBlocks(), Interval(None), 4)
    ensures forall out, log :: Explains(ExecuteOnly, FourBlocks(), Interval(None), out, log) ==>
              out == PublishRefused(3) && Unpublished(ExecuteOnly, log) == 4
  {
    var plan := FourBlocks();
    var all := Calls(plan, 4, 4);
    FourPositions();
    FourLinked();
    FourCalls(plan);
    FourTaken(plan.payloads);
    assert FullBatchRefused(ExecuteOnly, plan, 4, 4);
    assert Explains(ExecuteOnly, plan, 4, PublishRefused(3), all);
    forall out, log | Explains(ExecuteOnly, plan, 4, out, log)
      ensures out == PublishRefused(3) && Unpublished(ExecuteOnly, log) == 4
    {
      OutcomeUnique(ExecuteOnly, plan, 4, out, log, PublishRefused(3), all);
      ReworkExact(ExecuteOnly, plan, 4, out, log);
    }
  }
}
