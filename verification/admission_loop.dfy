/**
 The host that stands between a model and the solver: it proposes an answer, stops for a person to
 admit it, and only then continues the evaluation. `log` is everything the server issued and the
 host called.
 */
module AdmissionLoop {
  import opened Results
  import opened Text

  datatype Task = Task(questionId: string, options: seq<string>)

  /** A decoded tool result. `Ended` carries a report or an error envelope; `EmptyObject` carries nothing at all. */
  datatype Payload = Continue(session: string, task: Task) | Ended | EmptyObject | Failure

  datatype Proposed = Proposed(questionId: string, options: seq<string>, value: Option<string>)

  datatype Decision = Decision(admit: bool, rejected: bool, value: Option<string>, provenance: Option<string>)

  datatype Admission = Admitted | Rejected | Cancelled | Invalid

  datatype Node = Bootstrap | Propose | Admit | Evaluate | Done | Failed

  datatype Entry =
    | Issued(session: string, task: Task)
    | Decided(proposal: Proposed, outcome: Admission, option: string, provenance: string)
    | Called(session: string, questionId: string, option: string, provenance: string)

  datatype State = State(
    node: Node,
    session: Option<string>,
    openTask: Option<Task>,
    proposal: Option<Proposed>,
    option: string,
    provenance: string,
    log: seq<Entry>)

  const INITIAL := State(Bootstrap, None, None, None, "", "", [])

  /** What reaches the host from outside: a server payload, a model's value, a person's decision. */
  datatype Event = Started(payload: Payload) | Suggested(value: Option<string>) | Resumed(decision: Decision) | Replied(payload: Payload)

  /** After a payload: go on with its task, end, or, when it says neither, propose again on the task there is. */
  function Receive(s: State, p: Payload): State {
    match p
    case Continue(session, task) =>
      s.(node := Propose, session := Some(session), openTask := Some(task), log := s.log + [Issued(session, task)])
    case Ended => s.(node := Done)
    case EmptyObject => s.(node := Propose)
    case Failure => s.(node := Failed)
  }

  function Judge(p: Proposed, d: Decision): (Admission, string, string) {
    if !d.admit then (if d.rejected then Rejected else Cancelled, "", "")
    else
      var provenance := Strip(if d.provenance.Some? then d.provenance.value else "");
      if d.value.None? || d.value.value !in p.options || provenance == "" then (Invalid, "", "")
      else (Admitted, d.value.value, provenance)
  }

  function Step(s: State, e: Event): State {
    match s.node
    case Bootstrap => if e.Started? then Receive(s, e.payload) else s
    case Propose =>
      if !e.Suggested? then s
      else if s.openTask.None? then s.(node := Failed)
      else
        var task := s.openTask.value;
        var value := if e.value.Some? && e.value.value in task.options then e.value else None;
        s.(node := Admit, proposal := Some(Proposed(task.questionId, task.options, value)))
    case Admit =>
      if !e.Resumed? || s.proposal.None? then s
      else
        var (outcome, option, provenance) := Judge(s.proposal.value, e.decision);
        var decided := s.(log := s.log + [Decided(s.proposal.value, outcome, option, provenance)]);
        if outcome == Admitted then decided.(node := Evaluate, option := option, provenance := provenance)
        else decided.(node := Propose)
    case Evaluate =>
      if !e.Replied? || s.session.None? || s.proposal.None? then s
      else
        var call := Called(s.session.value, s.proposal.value.questionId, s.option, s.provenance);
        Receive(s.(log := s.log + [call]), e.payload)
    case _ => s
  }

  function Run(s: State, events: seq<Event>): State {
    if events == [] then s else Step(Run(s, events[..|events| - 1]), events[|events| - 1])
  }

  // What the log of every run satisfies.

  /** The task and session the server issued last. */
  function LastIssued(log: seq<Entry>): Option<(string, Task)> {
    if log == [] then None
    else
      var last := log[|log| - 1];
      if last.Issued? then Some((last.session, last.task)) else LastIssued(log[..|log| - 1])
  }

  /** A call right after the admission of a proposal on the last issued task, with one of its options and a provenance. */
  predicate CallOk(log: seq<Entry>, i: nat) {
    i < |log| && log[i].Called? ==>
      && i > 0 && log[i - 1].Decided? && log[i - 1].outcome == Admitted
      && log[i - 1].option == log[i].option && log[i - 1].provenance == log[i].provenance
      && !Blank(log[i].provenance)
      && LastIssued(log[..i]).Some?
      && var (session, task) := LastIssued(log[..i]).value;
      log[i].session == session && log[i].questionId == task.questionId && log[i].option in task.options
      && log[i - 1].proposal.questionId == task.questionId && log[i - 1].proposal.options == task.options
  }

  predicate CallsOk(log: seq<Entry>) {
    forall i :: 0 <= i < |log| ==> CallOk(log, i)
  }

  predicate Inv(s: State) {
    && CallsOk(s.log)
    && (if s.openTask.Some? && s.session.Some? then LastIssued(s.log) == Some((s.session.value, s.openTask.value))
        else s.openTask.None? && s.session.None? && LastIssued(s.log).None?)
    && (s.node == Admit || s.node == Evaluate ==>
          && s.openTask.Some? && s.proposal.Some?
          && s.proposal.value.questionId == s.openTask.value.questionId && s.proposal.value.options == s.openTask.value.options)
    && (s.node == Evaluate ==>
          && s.log != [] && s.log[|s.log| - 1] == Decided(s.proposal.value, Admitted, s.option, s.provenance)
          && s.option in s.openTask.value.options && !Blank(s.provenance))
  }

  lemma AppendKeepsCalls(log: seq<Entry>, e: Entry)
    requires CallsOk(log) && CallOk(log + [e], |log|)
    ensures CallsOk(log + [e])
    ensures LastIssued(log + [e]) == if e.Issued? then Some((e.session, e.task)) else LastIssued(log)
  {
    hide LastIssued;
    var longer := log + [e];
    forall i | 0 <= i < |log| ensures CallOk(longer, i) {
      assert longer[..i] == log[..i] && CallOk(log, i);
      assert longer[i] == log[i] && (i > 0 ==> longer[i - 1] == log[i - 1]);
    }
    LastOfAppend(log, e);
  }

  lemma LastOfAppend(log: seq<Entry>, e: Entry)
    ensures LastIssued(log + [e]) == if e.Issued? then Some((e.session, e.task)) else LastIssued(log)
  {
  }

  lemma StrippedIsNotBlank(s: string)
    ensures Strip(s) != "" ==> !Blank(Strip(s))
  {
    StripIdempotent(s);
  }

  lemma ReceiveKeepsInv(s: State, p: Payload)
    requires CallsOk(s.log)
    requires if s.openTask.Some? && s.session.Some? then LastIssued(s.log) == Some((s.session.value, s.openTask.value))
             else s.openTask.None? && s.session.None? && LastIssued(s.log).None?
    ensures Inv(Receive(s, p))
  {
    hide CallsOk, LastIssued;
    if p.Continue? {
      AppendKeepsCalls(s.log, Issued(p.session, p.task));
    }
  }

  lemma StepKeepsInv(s: State, e: Event)
    requires Inv(s)
    ensures Inv(Step(s, e))
  {
    hide CallsOk, LastIssued;
    match s.node
    case Bootstrap =>
      if e.Started? {
        ReceiveKeepsInv(s, e.payload);
      }
    case Admit =>
      if e.Resumed? {
        var (outcome, option, provenance) := Judge(s.proposal.value, e.decision);
        StrippedIsNotBlank(if e.decision.provenance.Some? then e.decision.provenance.value else "");
        AppendKeepsCalls(s.log, Decided(s.proposal.value, outcome, option, provenance));
      }
    case Evaluate =>
      if e.Replied? && s.session.Some? {
        var call := Called(s.session.value, s.proposal.value.questionId, s.option, s.provenance);
        var n := |s.log|;
        assert (s.log + [call])[..n] == s.log;
        AppendKeepsCalls(s.log, call);
        ReceiveKeepsInv(s.(log := s.log + [call]), e.payload);
      }
    case _ =>
  }

  lemma {:induction false} RunKeepsInv(events: seq<Event>)
    ensures Inv(Run(INITIAL, events))
  {
    hide Step, Inv;
    if events == [] {
      InitialIsOk();
    } else {
      RunKeepsInv(events[..|events| - 1]);
      StepKeepsInv(Run(INITIAL, events[..|events| - 1]), events[|events| - 1]);
    }
  }

  lemma InitialIsOk()
    ensures Inv(INITIAL)
  {
  }

  /** Over every run, every call follows at once the admission of the current proposal, as `CallOk` says. */
  lemma EveryCallIsAdmitted(events: seq<Event>, i: nat)
    requires i < |Run(INITIAL, events).log| && Run(INITIAL, events).log[i].Called?
    ensures CallOk(Run(INITIAL, events).log, i)
  {
    hide Run, CallOk;
    RunKeepsInv(events);
  }

  /** After a reply the host proposes again with nothing newly issued exactly when the reply is an empty object. */
  lemma ReproposesIff(s: State, p: Payload)
    requires s.node == Evaluate && s.session.Some? && s.proposal.Some?
    ensures var s' := Step(s, Replied(p));
      && (s'.node == Propose && LastIssued(s'.log) == LastIssued(s.log) && Issues(s'.log) == Issues(s.log) <==> p.EmptyObject?)
      && (p.EmptyObject? ==> s'.openTask == s.openTask && s'.session == s.session)
  {
    hide LastIssued, Issues;
    var call := Called(s.session.value, s.proposal.value.questionId, s.option, s.provenance);
    CountIssues(s.log, call);
    if p.Continue? {
      CountIssues(s.log + [call], Issued(p.session, p.task));
    }
  }

  /**
   One round: on an open task, a suggestion, an admission of one of its options under a provenance,
   and a reply with the next task lead back to a proposal on that task, with exactly the decision,
   the call and the new task added to the log. An option that the task does not offer is not proposed.
   */
  lemma RoundAdvances(s: State, suggestion: Option<string>, d: Decision, session: string, next: Task)
    requires s.node == Propose && s.openTask.Some? && s.session.Some?
    requires d.admit && d.value.Some? && d.value.value in s.openTask.value.options && d.provenance.Some? && !Blank(d.provenance.value)
    ensures var task, z := s.openTask.value, Run(s, [Suggested(suggestion), Resumed(d), Replied(Continue(session, next))]);
      var kept := if suggestion.Some? && suggestion.value in task.options then suggestion else None;
      && z.node == Propose && z.session == Some(session) && z.openTask == Some(next)
      && z.log == s.log + [
           Decided(Proposed(task.questionId, task.options, kept), Admitted, d.value.value, Strip(d.provenance.value)),
           Called(s.session.value, task.questionId, d.value.value, Strip(d.provenance.value)),
           Issued(session, next)]
  {
    hide Strip;
    var e0, e1, e2 := Suggested(suggestion), Resumed(d), Replied(Continue(session, next));
    assert [e0, e1, e2][..2] == [e0, e1] && [e0, e1][..1] == [e0] && [e0][..0] == [];
    assert Run(s, [e0]) == Step(s, e0) && Run(s, [e0, e1]) == Step(Step(s, e0), e1);
  }

  /** A run ends only by what reaches the host: a final result, a failure, or a proposal asked for without a task. */
  lemma EndsIff(s: State, e: Event)
    requires s.node == Bootstrap || s.node == Propose || s.node == Admit || s.node == Evaluate
    requires Inv(s)
    ensures Step(s, e).node == Done <==> (s.node == Bootstrap && e == Started(Ended)) || (s.node == Evaluate && e == Replied(Ended))
    ensures Step(s, e).node == Failed <==>
      || (s.node == Bootstrap && e == Started(Failure)) || (s.node == Evaluate && e == Replied(Failure))
      || (s.node == Propose && e.Suggested? && s.openTask.None?)
    ensures s.node == Bootstrap && e.Started? && e.payload.Continue? ==>
      Step(s, e).node == Propose && Step(s, e).openTask == Some(e.payload.task) && Step(s, e).session == Some(e.payload.session)
  {
  }

  function Issues(log: seq<Entry>): nat {
    if log == [] then 0 else Issues(log[..|log| - 1]) + (if log[|log| - 1].Issued? then 1 else 0)
  }

  lemma CountIssues(log: seq<Entry>, e: Entry)
    ensures Issues(log + [e]) == Issues(log) + (if e.Issued? then 1 else 0)
    ensures LastIssued(log + [e]) == if e.Issued? then Some((e.session, e.task)) else LastIssued(log)
  {
    LastOfAppend(log, e);
    assert (log + [e])[..|log|] == log;
  }

  function Calls(log: seq<Entry>): nat {
    if log == [] then 0 else Calls(log[..|log| - 1]) + (if log[|log| - 1].Called? then 1 else 0)
  }

  function Admissions(log: seq<Entry>): nat {
    if log == [] then 0
    else Admissions(log[..|log| - 1]) + (if log[|log| - 1].Decided? && log[|log| - 1].outcome == Admitted then 1 else 0)
  }

  /** A decision that admits nothing makes no call, leaves the task as it was, and asks for a proposal again. */
  lemma RefusalChangesNothing(s: State, d: Decision)
    requires s.node == Admit && s.proposal.Some? && Judge(s.proposal.value, d).0 != Admitted
    ensures var s' := Step(s, Resumed(d));
      && s'.node == Propose && s'.openTask == s.openTask && s'.session == s.session
      && Calls(s'.log) == Calls(s.log) && LastIssued(s'.log) == LastIssued(s.log)
  {
  }

  /** No admission is used twice and none is skipped: the calls made are the admissions given, but for one still waiting. */
  lemma {:induction false} OneCallPerAdmission(events: seq<Event>)
    ensures var z := Run(INITIAL, events);
      Admissions(z.log) == Calls(z.log) + (if z.node == Evaluate then 1 else 0)
  {
    hide Step, Inv;
    if events != [] {
      var before, e := events[..|events| - 1], events[|events| - 1];
      OneCallPerAdmission(before);
      RunKeepsInv(before);
      CountStep(Run(INITIAL, before), e);
    }
  }

  lemma CountAppend(log: seq<Entry>, e: Entry)
    ensures Calls(log + [e]) == Calls(log) + (if e.Called? then 1 else 0)
    ensures Admissions(log + [e]) == Admissions(log) + (if e.Decided? && e.outcome == Admitted then 1 else 0)
  {
  }

  lemma CountReceive(s: State, p: Payload)
    ensures Calls(Receive(s, p).log) == Calls(s.log) && Admissions(Receive(s, p).log) == Admissions(s.log)
    ensures Receive(s, p).node != Evaluate
  {
  }

  lemma CountStep(s: State, e: Event)
    requires Inv(s) && Admissions(s.log) == Calls(s.log) + (if s.node == Evaluate then 1 else 0)
    ensures var s' := Step(s, e); Admissions(s'.log) == Calls(s'.log) + (if s'.node == Evaluate then 1 else 0)
  {
    hide Calls, Admissions, CallsOk, LastIssued;
    match s.node
    case Bootstrap =>
      if e.Started? {
        CountReceive(s, e.payload);
      }
    case Admit =>
      if e.Resumed? {
        var (outcome, option, provenance) := Judge(s.proposal.value, e.decision);
        CountAppend(s.log, Decided(s.proposal.value, outcome, option, provenance));
      }
    case Evaluate =>
      if e.Replied? && s.session.Some? {
        var call := Called(s.session.value, s.proposal.value.questionId, s.option, s.provenance);
        CountAppend(s.log, call);
        CountReceive(s.(log := s.log + [call]), e.payload);
      }
    case _ =>
  }
}
