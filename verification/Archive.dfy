/** The archive of the decision relay: any number of evaluators of one request, each with its own
    reply from the model, share two files that are created by hard link and never replaced. */
module Archive {
  import opened Hashing
  import Decimal
  import Distribution
  import Reread

  /** A JSON value. */
  type Value = string

  type Answers = seq<Distribution.Answer>

  /** The job, and the code around it: `write` and `read` are the JSON codec, `validate` checks a
      response against the template, `pack` puts request and response into one value. Nothing is
      taken for granted about any of them. */
  datatype Env = Env(
    write: Value -> seq<byte>, read: seq<byte> -> Option<Value>,
    validate: Value -> Option<Answers>, pack: Value -> Value)

  datatype Disk = Disk(response: Option<seq<byte>>, evidence: Option<seq<byte>>)

  /** Where an evaluator stands. */
  datatype Stage =
    | Started
    | Calling
    | Received(value: Value)
    | Found
    | Outrun
    | Have(value: Value)
    | Checked(value: Value, answers: Answers)
    | EvidenceOutrun(value: Value, answers: Answers)
    | Archived(value: Value, answers: Answers)
    | Signed(value: Value, answers: Answers, evidence: seq<byte>)
    | Failed

  datatype Action =
    | Look | Reply(value: Value) | Store | Reread | Validate | StoreEvidence | Compare | Sign | Crash

  /** Reading a response file, after `path.exists()` or after losing the race to create it. */
  function ReadBack(env: Env, file: Option<seq<byte>>, refuseEmpty: bool): Stage {
    if file.None? || (refuseEmpty && file.value == []) then Failed
    else
      var v := env.read(file.value);
      if v.None? then Failed else Have(v.value)
  }

  /** One atomic step of `evaluate`; an action that does not fit the stage does nothing. */
  function Act(env: Env, d: Disk, p: Stage, a: Action): (Disk, Stage) {
    match (p, a)
    case (Started, Look) => (d, if d.response.Some? then Found else Calling)
    case (Calling, Reply(v)) => (d, Received(v))
    case (Received(v), Store) =>
      if d.response.None? then (d.(response := Some(env.write(v))), Have(v)) else (d, Outrun)
    case (Found, Reread) => (d, ReadBack(env, d.response, false))
    case (Outrun, Reread) => (d, ReadBack(env, d.response, true))
    case (Have(v), Validate) =>
      var answers := env.validate(v);
      (d, if answers.None? then Failed else Checked(v, answers.value))
    case (Checked(v, answers), StoreEvidence) =>
      if d.evidence.None? then (d.(evidence := Some(env.write(env.pack(v)))), Archived(v, answers))
      else (d, EvidenceOutrun(v, answers))
    case (EvidenceOutrun(v, answers), Compare) =>
      (d, if ReadBack(env, d.evidence, true) == Have(env.pack(v)) then Archived(v, answers) else Failed)
    case (Archived(v, answers), Sign) => (d, if d.evidence.Some? then Signed(v, answers, d.evidence.value) else Failed)
    case (Signed(_, _, _), _) => (d, p)
    case (_, Crash) => (d, Failed)
    case (_, _) => (d, p)
  }

  // ------------------------------------------------------------- one evaluator

  /** The two files, and `evaluate` with nobody else around. */
  class Directory {
    const env: Env
    var disk: Disk

    constructor (env: Env)
      ensures this.env == env && disk == Disk(None, None)
    {
      this.env, disk := env, Disk(None, None);
    }

    /** `store_first_response` on the response file: the first value stays, whoever comes later. */
    method StoreFirst(v: Value) returns (kept: Option<Value>)
      modifies this
      ensures old(disk).response.None? ==> disk == old(disk).(response := Some(env.write(v))) && kept == Some(v)
      ensures old(disk).response.Some? ==> disk == old(disk)
      ensures old(disk).response.Some? ==>
                kept == if old(disk).response.value == [] then None else env.read(old(disk).response.value)
    {
      if disk.response.None? {
        disk := disk.(response := Some(env.write(v)));
        return Some(v);
      }
      var existing := disk.response.value;
      return if existing == [] then None else env.read(existing);
    }

    /** `store_first_response` on the evidence file, compared with what was offered. */
    method StoreEvidence(evidence: Value) returns (same: bool)
      modifies this
      ensures old(disk).evidence.None? ==> disk == old(disk).(evidence := Some(env.write(evidence))) && same
      ensures old(disk).evidence.Some? ==> disk == old(disk)
      ensures old(disk).evidence.Some? ==>
                (same <==> old(disk).evidence.value != [] && env.read(old(disk).evidence.value) == Some(evidence))
    {
      if disk.evidence.None? {
        disk := disk.(evidence := Some(env.write(evidence)));
        return true;
      }
      var existing := disk.evidence.value;
      return existing != [] && env.read(existing) == Some(evidence);
    }

    /** `evaluate`, with `reply` for the call of the model: the steps of the protocol, in order. */
    method Evaluate(reply: Value) returns (signed: Option<(Answers, seq<byte>)>)
      modifies this
      ensures (disk, signed) == Alone(env, old(disk), reply)
    {
      var response;
      if disk.response.Some? {
        response := env.read(disk.response.value);
      } else {
        response := StoreFirst(reply);
      }
      if response.None? {
        return None;
      }
      var answers := env.validate(response.value);
      if answers.None? {
        return None;
      }
      var same := StoreEvidence(env.pack(response.value));
      if !same {
        return None;
      }
      return Some((answers.value, disk.evidence.value));
    }
  }

  /** An evaluator that takes its steps without interruption. */
  function Alone(env: Env, d: Disk, reply: Value): (Disk, Option<(Answers, seq<byte>)>) {
    var (d, p) := Act(env, d, Started, Look);
    var (d, p) := Act(env, d, p, Reply(reply));
    var (d, p) := Act(env, d, p, Store);
    var (d, p) := Act(env, d, p, Reread);
    var (d, p) := Act(env, d, p, Validate);
    var (d, p) := Act(env, d, p, Action.StoreEvidence);
    var (d, p) := Act(env, d, p, Compare);
    var (d, p) := Act(env, d, p, Sign);
    (d, if p.Signed? then Some((p.answers, p.evidence)) else None)
  }

  // ----------------------------------------------------------- many evaluators

  /** All evaluators ever started. `first` and `firstEvidence` only record whose value was linked;
      no step looks at them. */
  datatype State = State(
    disk: Disk, stages: map<nat, Stage>, first: Option<Value>, firstEvidence: Option<Value>)

  datatype Event = Start(i: nat) | Do(i: nat, action: Action)

  function After(env: Env, s: State, e: Event): State {
    match e
    case Start(i) => if i in s.stages then s else s.(stages := s.stages[i := Started])
    case Do(i, a) =>
      if i !in s.stages then s
      else
        var (d, p) := Act(env, s.disk, s.stages[i], a);
        State(d, s.stages[i := p],
              if s.disk.response.None? && d.response.Some? then Some(p.value) else s.first,
              if s.disk.evidence.None? && d.evidence.Some? then Some(p.value) else s.firstEvidence)
  }

  const EMPTY := State(Disk(None, None), map[], None, None)

  /** Any interleaving, with new evaluators and crashes at any point. */
  ghost function AfterRun(env: Env, run: seq<Event>): State {
    if run == [] then EMPTY else After(env, AfterRun(env, run[..|run| - 1]), run[|run| - 1])
  }

  ghost predicate Reachable(env: Env, s: State) {
    exists run :: AfterRun(env, run) == s
  }

  lemma {:induction false} Extend(env: Env, s: State, e: Event)
    requires Reachable(env, s)
    ensures Reachable(env, After(env, s, e))
  {
    var run :| AfterRun(env, run) == s;
    assert (run + [e])[..|run|] == run;
    assert AfterRun(env, run + [e]) == After(env, s, e);
  }

  // ------------------------------------------------------------------ invariant

  /** `v` is the response that was linked first, as its writer or as a reader knows it. */
  ghost predicate IsFirst(env: Env, s: State, v: Value) {
    s.first.Some? && (v == s.first.value || env.read(env.write(s.first.value)) == Some(v))
  }

  /** How a value comes back from a file that must not be empty. */
  function Again(env: Env, v: Value): Option<Value> {
    if env.write(v) == [] then None else env.read(env.write(v))
  }

  ghost predicate MatchesEvidence(env: Env, s: State, v: Value) {
    && s.firstEvidence.Some?
    && (v == s.firstEvidence.value || Again(env, env.pack(s.firstEvidence.value)) == Some(env.pack(v)))
  }

  ghost predicate Fits(env: Env, s: State, p: Stage) {
    && (p.Found? || p.Outrun? ==> s.first.Some?)
    && (p.Have? || p.Checked? || p.EvidenceOutrun? || p.Archived? || p.Signed? ==> IsFirst(env, s, p.value))
    && (p.Checked? || p.EvidenceOutrun? || p.Archived? || p.Signed? ==> env.validate(p.value) == Some(p.answers))
    && (p.EvidenceOutrun? ==> s.firstEvidence.Some?)
    && (p.Archived? || p.Signed? ==> MatchesEvidence(env, s, p.value))
    && (p.Signed? ==> s.disk.evidence == Some(p.evidence))
  }

  ghost predicate Inv(env: Env, s: State) {
    && s.disk.response == (if s.first.None? then None else Some(env.write(s.first.value)))
    && s.disk.evidence == (if s.firstEvidence.None? then None else Some(env.write(env.pack(s.firstEvidence.value))))
    && (s.firstEvidence.Some? ==> IsFirst(env, s, s.firstEvidence.value))
    && forall i :: i in s.stages ==> Fits(env, s, s.stages[i])
  }

  /** Neither file ever changes once it exists. */
  ghost predicate Kept(s: State, s': State) {
    && (s.first.Some? ==> s'.first == s.first && s'.disk.response == s.disk.response)
    && (s.firstEvidence.Some? ==> s'.firstEvidence == s.firstEvidence && s'.disk.evidence == s.disk.evidence)
  }

  /** What one evaluator does keeps the files and fits its own stage. */
  lemma {:induction false} ActFits(env: Env, s: State, i: nat, a: Action)
    requires Inv(env, s) && i in s.stages
    ensures var s' := After(env, s, Do(i, a));
            && Kept(s, s') && Fits(env, s', s'.stages[i])
            && s'.disk.response == (if s'.first.None? then None else Some(env.write(s'.first.value)))
            && s'.disk.evidence == (if s'.firstEvidence.None? then None
                                    else Some(env.write(env.pack(s'.firstEvidence.value))))
            && (s'.firstEvidence.Some? ==> IsFirst(env, s', s'.firstEvidence.value))
  {
    assert Fits(env, s, s.stages[i]);
  }

  lemma {:induction false} FitsStays(env: Env, s: State, s': State, p: Stage)
    requires Fits(env, s, p) && Kept(s, s')
    requires p.Signed? ==> s.firstEvidence.Some?
    ensures Fits(env, s', p)
  {
  }

  lemma {:induction false} StepKeeps(env: Env, s: State, e: Event)
    requires Inv(env, s)
    ensures Inv(env, After(env, s, e)) && Kept(s, After(env, s, e))
    ensures forall i :: i in s.stages && s.stages[i].Signed? ==>
              i in After(env, s, e).stages && After(env, s, e).stages[i] == s.stages[i]
  {
    var s' := After(env, s, e);
    if e.Do? && e.i in s.stages {
      ActFits(env, s, e.i, e.action);
    }
    forall i | i in s'.stages ensures Fits(env, s', s'.stages[i]) {
      if i in s.stages && !(e.Do? && e.i == i) { FitsStays(env, s, s', s.stages[i]); }
    }
  }

  lemma {:induction false} RunKeeps(env: Env, run: seq<Event>)
    ensures Inv(env, AfterRun(env, run))
  {
    if run != [] {
      RunKeeps(env, run[..|run| - 1]);
      StepKeeps(env, AfterRun(env, run[..|run| - 1]), run[|run| - 1]);
    }
  }

  /** From any point of any run on: the files that exist stay as they are, and so does every
      attestation. */
  lemma {:induction false} FilesNeverChange(env: Env, run: seq<Event>, later: seq<Event>)
    ensures Kept(AfterRun(env, run), AfterRun(env, run + later))
    ensures forall i :: i in AfterRun(env, run).stages && AfterRun(env, run).stages[i].Signed? ==>
              && i in AfterRun(env, run + later).stages
              && AfterRun(env, run + later).stages[i] == AfterRun(env, run).stages[i]
  {
    if later == [] {
      assert run + later == run;
    } else {
      var before := later[..|later| - 1];
      FilesNeverChange(env, run, before);
      assert (run + later)[..|run + later| - 1] == run + before;
      RunKeeps(env, run + before);
      StepKeeps(env, AfterRun(env, run + before), later[|later| - 1]);
    }
  }

  // ------------------------------------------------------------------ agreement

  /** All attestations are over one evidence file, and over the first response. */
  lemma {:induction false} SameEvidence(env: Env, s: State, i: nat, j: nat)
    requires Reachable(env, s)
    requires i in s.stages && j in s.stages && s.stages[i].Signed? && s.stages[j].Signed?
    ensures s.stages[i].evidence == s.stages[j].evidence
    ensures IsFirst(env, s, s.stages[i].value) && env.validate(s.stages[i].value) == Some(s.stages[i].answers)
  {
    var run :| AfterRun(env, run) == s;
    RunKeeps(env, run);
    assert Fits(env, s, s.stages[i]) && Fits(env, s, s.stages[j]);
  }

  ghost predicate Agreed(s: State) {
    forall i, j :: i in s.stages && j in s.stages && s.stages[i].Signed? && s.stages[j].Signed? ==>
      s.stages[i].answers == s.stages[j].answers && s.stages[i].evidence == s.stages[j].evidence
  }

  /** A response that its writer and its readers answer differently, while the evidence written for
      the one reads back as the evidence of the other. */
  ghost predicate Splits(env: Env, v: Value, w: Value) {
    && env.read(env.write(v)) == Some(w)
    && env.validate(v).Some? && env.validate(w).Some? && env.validate(v) != env.validate(w)
    && (Again(env, env.pack(v)) == Some(env.pack(w)) || Again(env, env.pack(w)) == Some(env.pack(v)))
  }

  /** Every attestation ever signed carries the same answers and the same evidence, in every
      interleaving, exactly when the codec splits no response. */
  lemma {:induction false} AgreementExact(env: Env)
    ensures (forall s :: Reachable(env, s) ==> Agreed(s)) <==> (forall v, w :: !Splits(env, v, w))
  {
    if forall v, w :: !Splits(env, v, w) {
      forall s | Reachable(env, s) ensures Agreed(s) { UnsplitAgree(env, s); }
    } else {
      var v, w :| Splits(env, v, w);
      var s := SplitDisagrees(env, v, w);
    }
  }

  lemma {:induction false} UnsplitAgree(env: Env, s: State)
    requires Reachable(env, s) && forall v, w :: !Splits(env, v, w)
    ensures Agreed(s)
  {
    var run :| AfterRun(env, run) == s;
    RunKeeps(env, run);
    forall i, j | i in s.stages && j in s.stages && s.stages[i].Signed? && s.stages[j].Signed?
      ensures s.stages[i].answers == s.stages[j].answers && s.stages[i].evidence == s.stages[j].evidence
    {
      var p, q := s.stages[i], s.stages[j];
      assert Fits(env, s, p) && Fits(env, s, q);
      SignersUnsplit(env, s, p, q);
    }
  }

  lemma {:induction false} SignersUnsplit(env: Env, s: State, p: Stage, q: Stage)
    requires p.Signed? && q.Signed? && Fits(env, s, p) && Fits(env, s, q)
    requires s.firstEvidence.Some? ==> IsFirst(env, s, s.firstEvidence.value)
    requires !Splits(env, p.value, q.value) && !Splits(env, q.value, p.value)
    ensures p.answers == q.answers && p.evidence == q.evidence
  {
  }

  /** A codec that gives back what it wrote splits nothing. */
  lemma {:induction false} RoundTripAgrees(env: Env, s: State)
    requires Reachable(env, s) && forall v :: env.read(env.write(v)) == Some(v)
    ensures Agreed(s)
  {
    UnsplitAgree(env, s);
  }

  /** The run behind a split: evaluator 0 writes the response, evaluator 1 reads it, and the one
      whose evidence reads back as the other's archives it first. */
  lemma {:induction false} SplitDisagrees(env: Env, v: Value, w: Value) returns (s: State)
    requires Splits(env, v, w)
    ensures Reachable(env, s) && !Agreed(s)
  {
    s := TwoResponses(env, v, w);
    if Again(env, env.pack(v)) == Some(env.pack(w)) {
      s := SignFirst(env, s, 0);
      s := SignSecond(env, s, 1, v);
    } else {
      s := SignFirst(env, s, 1);
      s := SignSecond(env, s, 0, w);
    }
    assert s.stages[0].answers != s.stages[1].answers;
  }

  lemma {:induction false} TwoResponses(env: Env, v: Value, w: Value) returns (s: State)
    requires Splits(env, v, w)
    ensures Reachable(env, s) && s.disk.evidence.None?
    ensures 0 in s.stages && s.stages[0] == Have(v) && 1 in s.stages && s.stages[1] == Have(w)
  {
    s := EMPTY;
    assert AfterRun(env, []) == EMPTY;
    s := Next(env, s, Start(0));
    s := Next(env, s, Do(0, Look));
    s := Next(env, s, Do(0, Reply(v)));
    s := Next(env, s, Do(0, Store));
    s := Next(env, s, Start(1));
    s := Next(env, s, Do(1, Look));
    s := Next(env, s, Do(1, Reread));
  }

  lemma {:induction false} Next(env: Env, s: State, e: Event) returns (s': State)
    requires Reachable(env, s)
    ensures s' == After(env, s, e) && Reachable(env, s')
  {
    Extend(env, s, e);
    s' := After(env, s, e);
  }

  lemma {:induction false} Move(env: Env, s: State, i: nat, a: Action) returns (s': State)
    requires Reachable(env, s) && i in s.stages
    ensures Reachable(env, s') && s'.disk == Act(env, s.disk, s.stages[i], a).0
    ensures s'.stages == s.stages[i := Act(env, s.disk, s.stages[i], a).1]
  {
    s' := Next(env, s, Do(i, a));
  }

  lemma {:induction false} SignFirst(env: Env, s: State, i: nat) returns (s': State)
    requires Reachable(env, s) && s.disk.evidence.None?
    requires i in s.stages && s.stages[i].Have? && env.validate(s.stages[i].value).Some?
    ensures Reachable(env, s') && s'.disk.evidence == Some(env.write(env.pack(s.stages[i].value)))
    ensures i in s'.stages && s'.stages[i].Signed? && Some(s'.stages[i].answers) == env.validate(s.stages[i].value)
    ensures forall j :: j in s.stages && j != i ==> j in s'.stages && s'.stages[j] == s.stages[j]
  {
    s' := Move(env, s, i, Validate);
    s' := Move(env, s', i, Action.StoreEvidence);
    s' := Move(env, s', i, Sign);
  }

  lemma {:induction false} SignSecond(env: Env, s: State, i: nat, other: Value) returns (s': State)
    requires Reachable(env, s) && s.disk.evidence == Some(env.write(env.pack(other)))
    requires i in s.stages && s.stages[i].Have? && env.validate(s.stages[i].value).Some?
    requires Again(env, env.pack(other)) == Some(env.pack(s.stages[i].value))
    ensures Reachable(env, s')
    ensures i in s'.stages && s'.stages[i].Signed? && Some(s'.stages[i].answers) == env.validate(s.stages[i].value)
    ensures forall j :: j in s.stages && j != i ==> j in s'.stages && s'.stages[j] == s.stages[j]
  {
    s' := Move(env, s, i, Validate);
    s' := Move(env, s', i, Action.StoreEvidence);
    s' := Move(env, s', i, Compare);
    s' := Move(env, s', i, Sign);
  }

  // ------------------------------------------------------------- a split response

  function Bytes(v: Value): seq<byte> {
    seq(|v|, i requires 0 <= i < |v| => v[i] as int % 256)
  }

  function Chars(b: seq<byte>): Value {
    seq(|b|, i requires 0 <= i < |b| => b[i] as char)
  }

  predicate OneByteEach(v: Value) {
    forall i :: 0 <= i < |v| ==> v[i] as int < 256
  }

  lemma {:induction false} CharsInvertBytes(v: Value)
    requires OneByteEach(v)
    ensures Chars(Bytes(v)) == v
  {
  }

  const PREFIX := "{\"request\":{},\"response\":"

  /** The evidence around a response. */
  function Pack(v: Value): Value {
    PREFIX + v + "}"
  }

  predicate Packed(t: Value) {
    |t| > |PREFIX| && t[..|PREFIX|] == PREFIX && t[|t| - 1] == '}'
  }

  /** A request with one noul question, whose answer is the number `v`. */
  function NoulAnswers(v: Value): Option<Answers> {
    var a := Distribution.NoulOf(v);
    if a.None? then None else Some([a.value])
  }

  /** The parser that rounds digits to doubles, on a number alone or in the evidence. */
  function ReadRounding(b: seq<byte>): Option<Value> {
    var t := Chars(b);
    Some(if Packed(t) then Pack(Reread.Again(t[|PREFIX|..|t| - 1])) else Reread.Again(t))
  }

  lemma {:induction false} ReadsNumber(low: Value, high: Value)
    requires OneByteEach(low) && Reread.IsFraction(low) && Reread.Again(low) == high
    ensures ReadRounding(Bytes(low)) == Some(high) && ReadRounding(Bytes(Pack(low))) == Some(Pack(high))
  {
    CharsInvertBytes(low);
    assert low[0] == low[..2][0] == '0';
    assert PREFIX[0] == '{';
    var t := Pack(low);
    assert OneByteEach(t) by { assert OneByteEach(PREFIX); }
    CharsInvertBytes(t);
    assert t[..|PREFIX|] == PREFIX && t[|PREFIX|..|t| - 1] == low;
  }

  lemma {:induction false} LowComesBack(low: Value, high: Value)
    requires low == Decimal.Text(Distribution.JustBelow()) && high == Decimal.Text(Distribution.JustThere())
    ensures OneByteEach(low) && Reread.IsFraction(low) && Reread.Again(low) == high
  {
    var f := "00010099999999999999";
    Distribution.JustBelowDigits();
    assert low == "0." + f && low[2..] == f && high == "0.000101";
    assert OneByteEach(f) by { assert forall i :: 0 <= i < |f| ==> f[i] in f; }
    Reread.ComesBackHigher(low, 10099999999999999);
    assert "0." + "000101" == high;
  }

  /** With that parser the response `0.00010099999999999999` is split: its writer quantizes it to
      100, everybody else to 101, and the evidence of the one passes for that of the other. */
  lemma {:induction false} SplitExists()
    ensures
      var env := Env(Bytes, ReadRounding, NoulAnswers, Pack);
      Splits(env, Decimal.Text(Distribution.JustBelow()), Decimal.Text(Distribution.JustThere()))
  {
    var low, high := Decimal.Text(Distribution.JustBelow()), Decimal.Text(Distribution.JustThere());
    Distribution.NeighboursDiffer();
    assert NoulAnswers(low) != NoulAnswers(high);
    LowComesBack(low, high);
    ReadsNumber(low, high);
    assert |Bytes(Pack(low))| > 0;
  }
}
