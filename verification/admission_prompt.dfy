/** The operator's prompts that produce an admission decision. `lines` is what the operator types. */
module AdmissionPrompt {
  import opened Results
  import opened Text
  import opened AdmissionLoop

  /** `lower` stands for `str.lower`, `number` for `int`, absent where it raises. */
  datatype Reader = Reader(lower: string -> string, number: string -> Option<int>)

  datatype NoInput = EndOfInput

  const REJECTED := "__rejected__"

  function OptionAt(reader: Reader, options: seq<string>, raw: string): Option<string> {
    var n := reader.number(raw);
    if n.Some? && 1 <= n.value <= |options| then Some(options[n.value - 1]) else None
  }

  /** What one line selects: nothing yet, a cancellation, the rejection mark, or an option. */
  function Selects(reader: Reader, options: seq<string>, allowReject: bool, line: string): Option<Option<string>> {
    var raw := reader.lower(Strip(line));
    if allowReject && raw == "r" then Some(Some(REJECTED))
    else if !allowReject && raw == "c" then Some(None)
    else
      var chosen := OptionAt(reader, options, raw);
      if chosen.Some? then Some(chosen) else None
  }

  // What a list of lines decides, and which lines are left.

  function FirstSelection(reader: Reader, options: seq<string>, allowReject: bool, lines: seq<string>)
    : Result<(Option<string>, seq<string>), NoInput>
  {
    if lines == [] then Err(EndOfInput)
    else
      var selected := Selects(reader, options, allowReject, lines[0]);
      if selected.Some? then Ok((selected.value, lines[1..])) else FirstSelection(reader, options, allowReject, lines[1..])
  }

  function FirstProvenance(reader: Reader, lines: seq<string>): Result<Option<string>, NoInput> {
    if lines == [] then Err(EndOfInput)
    else if Blank(lines[0]) then FirstProvenance(reader, lines[1..])
    else Ok(if reader.lower(Strip(lines[0])) == "c" then None else Some(Strip(lines[0])))
  }

  datatype Action = AdmitProposal | EditOption | RejectProposal

  function ActionOf(reader: Reader, line: string): Option<Action> {
    var raw := reader.lower(Strip(line));
    if raw == "r" then Some(RejectProposal)
    else if raw == "a" then Some(AdmitProposal)
    else if raw == "e" then Some(EditOption)
    else None
  }

  function FirstAction(reader: Reader, lines: seq<string>): Result<(Action, seq<string>), NoInput> {
    if lines == [] then Err(EndOfInput)
    else
      var action := ActionOf(reader, lines[0]);
      if action.Some? then Ok((action.value, lines[1..])) else FirstAction(reader, lines[1..])
  }

  const CANCEL := Decision(false, false, None, None)
  const REJECT := Decision(false, true, None, None)

  predicate HasProposal(p: Proposed) {
    p.value.Some? && p.value.value in p.options
  }

  /** An option admitted with its provenance, asked for where it is still missing. */
  function Sourced(reader: Reader, option: string, provenance: string, lines: seq<string>): Result<Decision, NoInput> {
    if provenance != "" then Ok(Decision(true, false, Some(option), Some(provenance)))
    else
      var id :- FirstProvenance(reader, lines);
      Ok(if id.None? then CANCEL else Decision(true, false, Some(option), id))
  }

  function Dialogue(reader: Reader, p: Proposed, sourceId: Option<string>, lines: seq<string>): Result<Decision, NoInput> {
    if HasProposal(p) then
      var (action, rest) :- FirstAction(reader, lines);
      match action
      case RejectProposal => Ok(REJECT)
      case AdmitProposal => Sourced(reader, p.value.value, Strip(if sourceId.Some? then sourceId.value else ""), rest)
      case EditOption =>
        var (selected, left) :- FirstSelection(reader, p.options, false, rest);
        if selected.None? then Ok(CANCEL) else Sourced(reader, selected.value, "", left)
    else
      var (selected, rest) :- FirstSelection(reader, p.options, true, lines);
      if selected == Some(REJECTED) then Ok(REJECT)
      else if selected.None? then Ok(CANCEL)
      else Sourced(reader, selected.value, "", rest)
  }

  // The prompts.

  /** The first line that selects something decides. */
  method PromptOption(reader: Reader, options: seq<string>, allowReject: bool, lines: seq<string>, from: nat)
    returns (r: Result<Option<string>, NoInput>, next: nat)
    requires from <= |lines|
    ensures from <= next <= |lines|
    ensures match r
      case Err(_) => forall k :: from <= k < |lines| ==> Selects(reader, options, allowReject, lines[k]).None?
      case Ok(selected) =>
        && from < next && Selects(reader, options, allowReject, lines[next - 1]) == Some(selected)
        && forall k :: from <= k < next - 1 ==> Selects(reader, options, allowReject, lines[k]).None?
    ensures FirstSelection(reader, options, allowReject, lines[from..])
      == if r.Ok? then Ok((r.value, lines[next..])) else Err(EndOfInput)
  {
    hide Selects;
    next := from;
    while next < |lines|
      invariant from <= next <= |lines|
      invariant forall k :: from <= k < next ==> Selects(reader, options, allowReject, lines[k]).None?
      invariant FirstSelection(reader, options, allowReject, lines[from..]) == FirstSelection(reader, options, allowReject, lines[next..])
    {
      assert lines[next..][1..] == lines[next + 1..];
      var selected := Selects(reader, options, allowReject, lines[next]);
      next := next + 1;
      if selected.Some? {
        return Ok(selected.value), next;
      }
    }
    return Err(EndOfInput), next;
  }

  /** The first line that is not blank: a cancellation, or the provenance id. */
  method PromptProvenance(reader: Reader, lines: seq<string>, from: nat) returns (r: Result<Option<string>, NoInput>, next: nat)
    requires from <= |lines|
    ensures from <= next <= |lines|
    ensures match r
      case Err(_) => forall k :: from <= k < |lines| ==> Blank(lines[k])
      case Ok(id) =>
        && from < next && !Blank(lines[next - 1])
        && (forall k :: from <= k < next - 1 ==> Blank(lines[k]))
        && id == (if reader.lower(Strip(lines[next - 1])) == "c" then None else Some(Strip(lines[next - 1])))
    ensures r == FirstProvenance(reader, lines[from..])
  {
    hide Strip;
    next := from;
    while next < |lines|
      invariant from <= next <= |lines|
      invariant forall k :: from <= k < next ==> Blank(lines[k])
      invariant FirstProvenance(reader, lines[from..]) == FirstProvenance(reader, lines[next..])
    {
      assert lines[next..][1..] == lines[next + 1..];
      var id := Strip(lines[next]);
      next := next + 1;
      if id != "" {
        return Ok(if reader.lower(id) == "c" then None else Some(id)), next;
      }
    }
    return Err(EndOfInput), next;
  }

  method PromptAction(reader: Reader, lines: seq<string>) returns (r: Result<Action, NoInput>, next: nat)
    ensures next <= |lines|
    ensures FirstAction(reader, lines) == if r.Ok? then Ok((r.value, lines[next..])) else Err(EndOfInput)
  {
    hide ActionOf;
    next := 0;
    while next < |lines|
      invariant next <= |lines|
      invariant FirstAction(reader, lines) == FirstAction(reader, lines[next..])
    {
      assert lines[next..][1..] == lines[next + 1..];
      var action := ActionOf(reader, lines[next]);
      next := next + 1;
      if action.Some? {
        return Ok(action.value), next;
      }
    }
    return Err(EndOfInput), next;
  }

  /** The whole dialogue decides what `Dialogue` reads off the lines. */
  method PromptAdmission(reader: Reader, p: Proposed, sourceId: Option<string>, lines: seq<string>) returns (r: Result<Decision, NoInput>)
    ensures r == Dialogue(reader, p, sourceId, lines)
  {
    hide FirstAction, FirstSelection, FirstProvenance;
    var next, selected, provenance := 0, "", "";
    if p.value.Some? && p.value.value in p.options {
      var action;
      action, next := PromptAction(reader, lines);
      if action.Err? {
        return Err(EndOfInput);
      }
      if action.value.RejectProposal? {
        return Ok(REJECT);
      }
      if action.value.AdmitProposal? {
        selected := p.value.value;
        provenance := Strip(if sourceId.Some? then sourceId.value else "");
      } else {
        var choice;
        choice, next := PromptOption(reader, p.options, false, lines, next);
        if choice.Err? {
          return Err(EndOfInput);
        }
        if choice.value.None? {
          return Ok(CANCEL);
        }
        selected := choice.value.value;
      }
    } else {
      var choice;
      choice, next := PromptOption(reader, p.options, true, lines, 0);
      assert lines[0..] == lines;
      if choice.Err? {
        return Err(EndOfInput);
      }
      if choice.value == Some(REJECTED) {
        return Ok(REJECT);
      }
      if choice.value.None? {
        return Ok(CANCEL);
      }
      selected := choice.value.value;
    }
    assert Dialogue(reader, p, sourceId, lines) == Sourced(reader, selected, provenance, lines[next..]);
    if provenance == "" {
      var id;
      id, next := PromptProvenance(reader, lines, next);
      if id.Err? {
        return Err(id.error);
      }
      if id.value.None? {
        return Ok(CANCEL);
      }
      provenance := id.value.value;
    }
    return Ok(Decision(true, false, Some(selected), Some(provenance)));
  }

  // What the dialogue guarantees.

  lemma {:induction false} SelectionIsOffered(reader: Reader, options: seq<string>, allowReject: bool, lines: seq<string>)
    ensures var r := FirstSelection(reader, options, allowReject, lines);
      r.Ok? && r.value.0.Some? ==> r.value.0.value in options || (allowReject && r.value.0.value == REJECTED)
  {
    if lines != [] {
      SelectionIsOffered(reader, options, allowReject, lines[1..]);
    }
  }

  lemma {:induction false} ProvenanceIsTrimmed(reader: Reader, lines: seq<string>)
    ensures var r := FirstProvenance(reader, lines); r.Ok? && r.value.Some? ==> !Blank(r.value.value) && Strip(r.value.value) == r.value.value
  {
    if lines != [] {
      if Blank(lines[0]) {
        ProvenanceIsTrimmed(reader, lines[1..]);
      } else {
        StripIdempotent(lines[0]);
      }
    }
  }

  /** What it decides, the gate decides too: it never admits an invalid option or provenance. */
  lemma DialogueMeetsGate(reader: Reader, p: Proposed, sourceId: Option<string>, lines: seq<string>)
    ensures var r := Dialogue(reader, p, sourceId, lines);
      r.Ok? ==>
        if r.value.admit then r.value.value.Some? && r.value.provenance.Some? && Judge(p, r.value) == (Admitted, r.value.value.value, r.value.provenance.value)
        else Judge(p, r.value).0 == (if r.value.rejected then Rejected else Cancelled)
  {
    hide FirstAction, FirstSelection, FirstProvenance, Strip;
    StripIdempotent(if sourceId.Some? then sourceId.value else "");
    if HasProposal(p) {
      var first := FirstAction(reader, lines);
      if first.Ok? {
        ProvenanceIsTrimmed(reader, first.value.1);
        SelectionIsOffered(reader, p.options, false, first.value.1);
        var second := FirstSelection(reader, p.options, false, first.value.1);
        if second.Ok? {
          ProvenanceIsTrimmed(reader, second.value.1);
        }
      }
    } else {
      SelectionIsOffered(reader, p.options, true, lines);
      var first := FirstSelection(reader, p.options, true, lines);
      if first.Ok? {
        ProvenanceIsTrimmed(reader, first.value.1);
      }
    }
  }

  // The lines that decide, told from the lines alone.

  function Raw(reader: Reader, line: string): string {
    reader.lower(Strip(line))
  }

  predicate IsAction(raw: string) {
    raw == "r" || raw == "a" || raw == "e"
  }

  /** The number shown beside option `k`. */
  predicate Numbers(reader: Reader, raw: string, k: nat) {
    reader.number(raw) == Some(k + 1)
  }

  /** The number shown beside an option, or the letter that rejects or cancels. */
  predicate IsChoice(reader: Reader, options: seq<string>, allowReject: bool, raw: string) {
    raw == (if allowReject then "r" else "c") || exists k: nat :: k < |options| && Numbers(reader, raw, k)
  }

  /** Line `k` is the first that makes a choice. */
  predicate Decides(reader: Reader, options: seq<string>, allowReject: bool, lines: seq<string>, k: nat) {
    && k < |lines| && IsChoice(reader, options, allowReject, Raw(reader, lines[k]))
    && forall j :: 0 <= j < k ==> !IsChoice(reader, options, allowReject, Raw(reader, lines[j]))
  }

  /** Line `k` is the first that names an action. */
  predicate Acts(reader: Reader, lines: seq<string>, k: nat) {
    && k < |lines| && IsAction(Raw(reader, lines[k]))
    && forall j :: 0 <= j < k ==> !IsAction(Raw(reader, lines[j]))
  }

  /** Line `k` is the first that is not blank. */
  predicate Names(lines: seq<string>, k: nat) {
    k < |lines| && !Blank(lines[k]) && forall j :: 0 <= j < k ==> Blank(lines[j])
  }

  /** An operator picks by the number shown: one to the number of options, each its own option, and no other line picks one. */
  lemma PickedByNumber(reader: Reader, options: seq<string>, raw: string)
    ensures forall k: nat :: k < |options| && Numbers(reader, raw, k) ==> OptionAt(reader, options, raw) == Some(options[k])
    ensures OptionAt(reader, options, raw).Some? <==> exists k: nat :: k < |options| && Numbers(reader, raw, k)
  {
    if OptionAt(reader, options, raw).Some? {
      var k: nat := reader.number(raw).value - 1;
      assert Numbers(reader, raw, k);
    }
  }

  lemma ChoiceSelects(reader: Reader, options: seq<string>, allowReject: bool, line: string)
    ensures Selects(reader, options, allowReject, line).Some? <==> IsChoice(reader, options, allowReject, Raw(reader, line))
    ensures var raw := Raw(reader, line);
      IsChoice(reader, options, allowReject, raw) ==>
        Selects(reader, options, allowReject, line)
        == Some(if raw == "r" && allowReject then Some(REJECTED) else if raw == "c" && !allowReject then None else OptionAt(reader, options, raw))
  {
    hide Strip, OptionAt;
    PickedByNumber(reader, options, Raw(reader, line));
  }

  lemma {:induction false} SelectionDecides(reader: Reader, options: seq<string>, allowReject: bool, lines: seq<string>, k: nat)
    requires Decides(reader, options, allowReject, lines, k)
    ensures Selects(reader, options, allowReject, lines[k]).Some?
    ensures FirstSelection(reader, options, allowReject, lines) == Ok((Selects(reader, options, allowReject, lines[k]).value, lines[k + 1..]))
  {
    hide Selects, IsChoice, Raw;
    ChoiceSelects(reader, options, allowReject, lines[k]);
    if k > 0 {
      ChoiceSelects(reader, options, allowReject, lines[0]);
      assert forall j :: 0 <= j < k ==> lines[1..][j] == lines[j + 1];
      SelectionDecides(reader, options, allowReject, lines[1..], k - 1);
      assert lines[1..][k..] == lines[k + 1..];
    }
  }

  lemma {:induction false} ActionDecides(reader: Reader, lines: seq<string>, k: nat)
    requires Acts(reader, lines, k)
    ensures var raw := Raw(reader, lines[k]);
      FirstAction(reader, lines)
      == Ok((if raw == "r" then RejectProposal else if raw == "a" then AdmitProposal else EditOption, lines[k + 1..]))
  {
    hide Strip;
    if k > 0 {
      assert forall j :: 0 <= j < k ==> lines[1..][j] == lines[j + 1];
      ActionDecides(reader, lines[1..], k - 1);
      assert lines[1..][k..] == lines[k + 1..];
    }
  }

  lemma {:induction false} ProvenanceDecides(reader: Reader, lines: seq<string>, k: nat)
    requires Names(lines, k)
    ensures FirstProvenance(reader, lines) == Ok(if Raw(reader, lines[k]) == "c" then None else Some(Strip(lines[k])))
  {
    hide Blank, Strip;
    if k > 0 {
      assert forall j :: 0 <= j < k ==> lines[1..][j] == lines[j + 1];
      ProvenanceDecides(reader, lines[1..], k - 1);
    }
  }

  /** What admits an option once the line that names its provenance is read. */
  function Named(reader: Reader, option: Option<string>, line: string): Decision {
    if Raw(reader, line) == "c" then CANCEL else Decision(true, false, option, Some(Strip(line)))
  }

  /**
   On a proposal the first action decides: "r" rejects it, and "a" admits its own option under its
   own source or, where that is blank, under the first line typed then that is not.
   */
  lemma ActionSettlesProposal(reader: Reader, p: Proposed, sourceId: Option<string>, lines: seq<string>, k: nat, n: nat)
    requires HasProposal(p) && Acts(reader, lines, k)
    ensures var r, raw := Dialogue(reader, p, sourceId, lines), Raw(reader, lines[k]);
      && (r == Ok(REJECT) <==> raw == "r")
      && (raw == "a" && sourceId.Some? && !Blank(sourceId.value) ==> r == Ok(Decision(true, false, p.value, Some(Strip(sourceId.value)))))
      && (raw == "a" && (sourceId.None? || Blank(sourceId.value)) && Names(lines[k + 1..], n) ==>
            r == Ok(Named(reader, p.value, lines[k + 1..][n])))
  {
    hide FirstAction, FirstSelection, FirstProvenance;
    ActionDecides(reader, lines, k);
    if Names(lines[k + 1..], n) {
      ProvenanceDecides(reader, lines[k + 1..], n);
    }
  }

  /**
   Editing a proposal sets its option and source aside: of the lines after the "e", the first that
   makes a choice cancels by "c" or picks the option, and then the first that is not blank cancels
   by "c" or is the provenance admitted.
   */
  lemma EditReplacesProposal(reader: Reader, p: Proposed, sourceId: Option<string>, lines: seq<string>, e: nat, k: nat, n: nat)
    requires HasProposal(p) && Acts(reader, lines, e) && Raw(reader, lines[e]) == "e"
    requires Decides(reader, p.options, false, lines[e + 1..], k) && Names(lines[e + 1..][k + 1..], n)
    ensures var picked := Raw(reader, lines[e + 1..][k]);
      Dialogue(reader, p, sourceId, lines)
      == Ok(if picked == "c" then CANCEL else Named(reader, OptionAt(reader, p.options, picked), lines[e + 1..][k + 1..][n]))
  {
    hide FirstAction, FirstSelection, FirstProvenance, Strip, Selects;
    ActionDecides(reader, lines, e);
    ChoiceSelects(reader, p.options, false, lines[e + 1..][k]);
    PickedByNumber(reader, p.options, Raw(reader, lines[e + 1..][k]));
    SelectionDecides(reader, p.options, false, lines[e + 1..], k);
    ProvenanceDecides(reader, lines[e + 1..][k + 1..], n);
  }

  /**
   Without a proposal, the first choice decides: it rejects exactly when it reads "r" or picks an
   option labelled like the rejection mark, and otherwise its option is admitted under the first
   line after it that is not blank.
   */
  lemma SelectionSettlesChoice(reader: Reader, p: Proposed, sourceId: Option<string>, lines: seq<string>, k: nat, n: nat)
    requires !HasProposal(p) && Decides(reader, p.options, true, lines, k)
    ensures var r, raw := Dialogue(reader, p, sourceId, lines), Raw(reader, lines[k]);
      && (r == Ok(REJECT) <==> raw == "r" || OptionAt(reader, p.options, raw) == Some(REJECTED))
      && (r != Ok(REJECT) && Names(lines[k + 1..], n) ==>
            r == Ok(Named(reader, OptionAt(reader, p.options, raw), lines[k + 1..][n])))
  {
    hide FirstSelection, FirstProvenance, Strip, Selects;
    ChoiceSelects(reader, p.options, true, lines[k]);
    PickedByNumber(reader, p.options, Raw(reader, lines[k]));
    SelectionDecides(reader, p.options, true, lines, k);
    if Names(lines[k + 1..], n) {
      ProvenanceDecides(reader, lines[k + 1..], n);
    }
  }

  /** Lines that name no action, or make no choice, decide nothing: the prompt waits for more. */
  lemma {:induction false} OtherLinesDecideNothing(reader: Reader, options: seq<string>, allowReject: bool, lines: seq<string>)
    ensures (forall k :: 0 <= k < |lines| ==> !IsAction(Raw(reader, lines[k]))) ==> FirstAction(reader, lines) == Err(EndOfInput)
    ensures (forall k :: 0 <= k < |lines| ==> !IsChoice(reader, options, allowReject, Raw(reader, lines[k]))) ==>
      FirstSelection(reader, options, allowReject, lines) == Err(EndOfInput)
  {
    hide Selects, Strip, IsChoice;
    if lines != [] {
      ChoiceSelects(reader, options, allowReject, lines[0]);
      assert forall j :: 0 <= j < |lines| - 1 ==> lines[1..][j] == lines[j + 1];
      OtherLinesDecideNothing(reader, options, allowReject, lines[1..]);
    }
  }
}
