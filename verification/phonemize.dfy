/** The espeak backend as a whole, with the engine call abstracted: building a
    backend from its arguments, turning one raw engine line into an output line
    and an alignment table, folding that over the lines of a text while the
    language-switch report is threaded through, and the warnings the run ends
    with. */
module Phonemize {
  import opened Wrappers
  import opened PyText
  import opened Normalisation
  import opened LangSwitch
  import opened Alignment
  import opened Sampa
  import opened Words

  /** The state a backend keeps between calls, engine paths and command-line
      flags aside. */
  datatype Backend = Backend(language: string, policy: Policy, withStress: bool, sampa: Option<Mapping>)

  /** `__init__` (espeak.py lines 63-64 and 79-86), given the lines of the
      `sampa_<language>.txt` file when `use_sampa` is set and the file exists.
      The SAMPA table is loaded before the `language_switch` argument is
      checked, so a malformed table is reported even when the argument is also
      wrong. */
  function NewBackend(language: string, useSampa: bool, sampaFile: Option<seq<string>>,
                      languageSwitch: string, withStress: bool): (r: Result<Backend, Error>)
    ensures r.Success? <==>
      && (useSampa && sampaFile.Some? ==> AllWellFormed(sampaFile.value))
      && languageSwitch in {"keep-flags", "remove-flags", "remove-utterance"}
    ensures useSampa && sampaFile.Some? && !AllWellFormed(sampaFile.value) ==> r.Failure? && r.error.BadSampaLine?
    ensures r.Failure? && !r.error.BadSampaLine? ==> r.error == InvalidLanguageSwitch(languageSwitch)
    ensures r.Success? ==> && PolicyName(r.value.policy) == languageSwitch
                           && r.value.language == language && r.value.withStress == withStress
                           && (r.value.sampa.Some? <==> useSampa && sampaFile.Some?)
    ensures r.Success? && useSampa && sampaFile.Some? ==> LoadSampa(sampaFile.value) == Success(r.value.sampa.value)
    ensures useSampa && sampaFile.Some? && LoadSampa(sampaFile.value).Failure? ==> r == Failure(LoadSampa(sampaFile.value).error)
  {
    var table :=
      if useSampa && sampaFile.Some? then
        match LoadSampa(sampaFile.value)
        case Failure(e) => Failure(e)
        case Success(m) => Success(Some(m))
      else Success(None);
    match table
    case Failure(e) => Failure(e)
    case Success(sampa) =>
      match ParsePolicy(languageSwitch)
      case Failure(e) => Failure(e)
      case Success(policy) => Success(Backend(language, policy, withStress, sampa))
  }

  // ---------------------------------------------------------------------------
  // One line (espeak.py lines 256-338).
  // ---------------------------------------------------------------------------

  /** What one input line adds to the run. */
  datatype LineResult =
      /** dropped by the policy or empty: nothing is appended */
    | Skipped
      /** one output line and its alignment table */
    | Emitted(line: string, table: seq<Entry>)
      /** the `IndexError` of a malformed alignment segment */
    | Failed(error: Error)

  /** The outcome of one line, and whether a language switch was recorded. */
  datatype Step = Step(detected: bool, result: LineResult)

  /** The text a line carries past the language-switch policy, if any. */
  function Kept(policy: Policy, raw: string, order: SetOrder): (r: Option<string>)
    ensures r.Some? ==> r.value != ""
    ensures policy == KeepFlags ==> r == (if AllSpace(raw) then None else Some(Normalise(raw)))
    ensures policy == RemoveUtterance ==>
      r == (if AllSpace(raw) || HasFlag(Normalise(raw)) then None else Some(Normalise(raw)))
    ensures policy == RemoveFlags && !HasFlag(Normalise(raw)) ==>
      r == (if AllSpace(raw) then None else Some(Normalise(raw)))
    ensures policy == RemoveFlags && HasFlag(Normalise(raw)) ==>
      var u := Normalise(raw);
      var cut := RemoveEach(u, Iteration(order, FindFlags(u)));
      && r == (if cut == "" then None else Some(cut))
      && |cut| < |u|
      && CutOutInTurn(u, cut, Iteration(order, FindFlags(u)))
  {
    var s := ProcessLangSwitch(policy, Normalise(raw), order);
    if s.kept.Some? && s.kept.value != "" then s.kept else None
  }

  /** The processing of raw engine line number n. The line number is recorded
      exactly when the normalised line holds a flag, whatever happens next. A
      line the policy leaves empty adds nothing. Otherwise the alignment table
      is parsed, a malformed segment stopping the run with line n named, and
      the phonemized text after the table is assembled into the output line. */
  function ProcessLine(b: Backend, n: nat, raw: string, order: SetOrder, sep: Separator, strip: bool): (r: Step)
    ensures r.detected <==> HasFlag(Normalise(raw))
    ensures r.result.Skipped? <==> Kept(b.policy, raw, order).None?
    ensures r.result.Failed? <==>
      Kept(b.policy, raw, order).Some? && ParseLine(Kept(b.policy, raw, order).value).Failure?
    ensures r.result.Failed? ==>
      && r.result.error == AlignmentIndexError(n, ParseLine(Kept(b.policy, raw, order).value).error)
      && ParseEntry(r.result.error.segment).None?
    ensures r.result.Emitted? ==>
      var p := ParseLine(Kept(b.policy, raw, order).value);
      && p.Success? && r.result.table == p.value.table
      && r.result.line == AssembleLine(p.value.text, b.withStress, b.sampa, sep, strip)
  {
    var s := ProcessLangSwitch(b.policy, Normalise(raw), order);
    match Kept(b.policy, raw, order)
    case None => Step(s.detected, Skipped)
    case Some(text) =>
      match ParseLine(text)
      case Failure(segment) => Step(s.detected, Failed(AlignmentIndexError(n, segment)))
      case Success(parsed) =>
        Step(s.detected, Emitted(AssembleLine(parsed.text, b.withStress, b.sampa, sep, strip), parsed.table))
  }

  // ---------------------------------------------------------------------------
  // The run (espeak.py lines 228-338).
  // ---------------------------------------------------------------------------

  /** The lists built so far and the language-switch report. */
  datatype RunState = RunState(output: seq<string>, tables: seq<seq<Entry>>, report: seq<nat>)

  /** A run either processes every line, or stops at the first exception; the
      report keeps what was recorded up to then, since it lives on the backend. */
  datatype RunOutcome = Done(state: RunState) | Stopped(error: Error, report: seq<nat>)

  /** The numbers, from 1, of the first k positions that are marked. */
  function Marked(marks: seq<bool>, k: nat): (r: seq<nat>)
    requires k <= |marks|
    decreases k
  {
    if k == 0 then [] else Marked(marks, k - 1) + (if marks[k - 1] then [k] else [])
  }

  /** Which raw lines hold a flag once normalised. */
  ghost function Flagged(raws: seq<string>): (r: seq<bool>)
    ensures |r| == |raws|
    decreases |raws|
  {
    if |raws| == 0 then []
    else Flagged(raws[..|raws| - 1]) + [HasFlag(Normalise(raws[|raws| - 1]))]
  }

  /** The numbers of the raw lines holding a flag: the reference for what the
      report gains. */
  ghost function SwitchLines(raws: seq<string>): seq<nat>
  {
    Marked(Flagged(raws), |raws|)
  }

  /** The number of raw lines among the first k that are not blank. */
  function NonBlank(raws: seq<string>, k: nat): nat
    requires k <= |raws|
    decreases k
  {
    if k == 0 then 0 else NonBlank(raws, k - 1) + (if AllSpace(raws[k - 1]) then 0 else 1)
  }

  /** Appending what one line produced to the state of the run. */
  function Advance(st: RunState, step: Step, n: nat): (r: RunOutcome)
    ensures r.Stopped? <==> step.result.Failed?
    ensures r.Stopped? ==> r.error == step.result.error && r.report == st.report + (if step.detected then [n] else [])
    ensures r.Done? ==> r.state.report == st.report + (if step.detected then [n] else [])
    ensures r.Done? ==> && |r.state.output| == |st.output| + (if step.result.Emitted? then 1 else 0)
                        && |r.state.tables| == |st.tables| + (if step.result.Emitted? then 1 else 0)
  {
    var report := st.report + (if step.detected then [n] else []);
    match step.result
    case Failed(e) => Stopped(e, report)
    case Skipped => Done(RunState(st.output, st.tables, report))
    case Emitted(line, table) => Done(RunState(st.output + [line], st.tables + [table], report))
  }

  /** Every raw line processed on its own, line i + 1 from raws[i]: the
      reference the run is compared with. */
  function Steps(b: Backend, raws: seq<string>, order: SetOrder, sep: Separator, strip: bool): (r: seq<Step>)
    ensures |r| == |raws|
    decreases |raws|
  {
    if |raws| == 0 then []
    else Steps(b, raws[..|raws| - 1], order, sep, strip) + [ProcessLine(b, |raws|, raws[|raws| - 1], order, sep, strip)]
  }

  /** Step i of the reference is line i + 1 processed on its own. */
  lemma {:induction false} StepsAt(b: Backend, raws: seq<string>, order: SetOrder, sep: Separator, strip: bool, i: nat)
    requires i < |raws|
    ensures Steps(b, raws, order, sep, strip)[i] == ProcessLine(b, i + 1, raws[i], order, sep, strip)
    decreases |raws|
  {
    if i < |raws| - 1 {
      var front := raws[..|raws| - 1];
      StepsAt(b, front, order, sep, strip, i);
      var last := StepsSnoc(b, raws, order, sep, strip);
      assert front[i] == raws[i];
      SnocKeeps(Steps(b, raws, order, sep, strip), Steps(b, front, order, sep, strip), last, i);
    }
  }

  lemma StepsSnoc(b: Backend, raws: seq<string>, order: SetOrder, sep: Separator, strip: bool) returns (last: Step)
    requires |raws| > 0
    ensures Steps(b, raws, order, sep, strip) == Steps(b, raws[..|raws| - 1], order, sep, strip) + [last]
  {
    last := ProcessLine(b, |raws|, raws[|raws| - 1], order, sep, strip);
  }

  lemma SnocKeeps<T>(all: seq<T>, front: seq<T>, last: T, i: nat)
    requires all == front + [last] && i < |front|
    ensures all[i] == front[i]
  {
  }

  /** The output lines of the steps that emitted one, in order. */
  function Outputs(steps: seq<Step>): seq<string>
    decreases |steps|
  {
    if |steps| == 0 then []
    else Outputs(steps[..|steps| - 1]) + (if steps[|steps| - 1].result.Emitted? then [steps[|steps| - 1].result.line] else [])
  }

  /** The alignment tables of the steps that emitted a line, in order. */
  function Tables(steps: seq<Step>): seq<seq<Entry>>
    decreases |steps|
  {
    if |steps| == 0 then []
    else Tables(steps[..|steps| - 1]) + (if steps[|steps| - 1].result.Emitted? then [steps[|steps| - 1].result.table] else [])
  }

  /** No step raised. */
  predicate NoFailure(steps: seq<Step>)
  {
    forall k :: 0 <= k < |steps| ==> !steps[k].result.Failed?
  }

  /** The line e names is the first whose step raised, and it raised e. */
  predicate FirstFailure(steps: seq<Step>, e: Error)
  {
    && e.AlignmentIndexError?
    && 1 <= e.lineNumber <= |steps|
    && steps[e.lineNumber - 1].result == Failed(e)
    && NoFailure(steps[..e.lineNumber - 1])
  }

  /** The loop of `_phonemize_aux` over the raw engine lines, numbered from 1.
      The output and table lists grow together, by one entry per line that
      survives the policy and none for the others. The report gains exactly the
      numbers of the lines holding a flag, in order, up to and including the
      line that raised, if one did. Under keep-flags only blank lines are
      lost; under remove-utterance every line with a flag is lost as well. */
  function Go(b: Backend, raws: seq<string>, report0: seq<nat>, order: SetOrder, sep: Separator, strip: bool): (r: RunOutcome)
    ensures r.Done? ==> |r.state.output| == |r.state.tables| <= |raws|
    ensures r.Done? ==> r.state.report == report0 + SwitchLines(raws)
    ensures r.Stopped? ==> && r.error.AlignmentIndexError?
                           && 1 <= r.error.lineNumber <= |raws|
                           && r.report == report0 + Marked(Flagged(raws), r.error.lineNumber)
    ensures r.Done? && b.policy == KeepFlags ==> |r.state.output| == NonBlank(raws, |raws|)
    ensures r.Done? && b.policy == RemoveUtterance ==> |r.state.output| + |SwitchLines(raws)| <= |raws|
    decreases |raws|
  {
    if |raws| == 0 then
      Done(RunState([], [], report0))
    else
      var n := |raws|;
      var front := raws[..n - 1];
      var prev := Go(b, front, report0, order, sep, strip);
      if prev.Stopped? then
        GoStopped(raws, report0, prev);
        prev
      else
        var step := ProcessLine(b, n, raws[n - 1], order, sep, strip);
        StepFacts(b, n, raws[n - 1], order, sep, strip);
        var r := Advance(prev.state, step, n);
        GoCase(b.policy, raws, report0, prev.state, step, r);
        r
  }

  /** The run is the lines' own results put together: it stops exactly when
      some line raises, with the error of the first such line, and otherwise
      its output lines and tables are those the lines emitted, in order. */
  lemma {:induction false} GoFollowsSteps(b: Backend, raws: seq<string>, report0: seq<nat>,
                                          order: SetOrder, sep: Separator, strip: bool)
    ensures var r := Go(b, raws, report0, order, sep, strip);
      var steps := Steps(b, raws, order, sep, strip);
      && (r.Done? <==> NoFailure(steps))
      && (r.Done? ==> r.state.output == Outputs(steps) && r.state.tables == Tables(steps))
      && (r.Stopped? ==> FirstFailure(steps, r.error))
    decreases |raws|
  {
    if |raws| > 0 {
      var front := raws[..|raws| - 1];
      GoFollowsSteps(b, front, report0, order, sep, strip);
      var prev, step := GoUnfold(b, raws, report0, order, sep, strip);
      if prev.Stopped? {
        StaysStopped(Steps(b, front, order, sep, strip), step, prev);
      } else {
        FollowsSteps(Steps(b, front, order, sep, strip), step, prev.state, Go(b, raws, report0, order, sep, strip));
      }
    }
  }

  /** The last line's step on top of the run over the lines before it. */
  lemma GoUnfold(b: Backend, raws: seq<string>, report0: seq<nat>, order: SetOrder, sep: Separator, strip: bool)
    returns (prev: RunOutcome, step: Step)
    requires |raws| > 0
    ensures prev == Go(b, raws[..|raws| - 1], report0, order, sep, strip)
    ensures Steps(b, raws, order, sep, strip) == Steps(b, raws[..|raws| - 1], order, sep, strip) + [step]
    ensures Go(b, raws, report0, order, sep, strip) == if prev.Stopped? then prev else Advance(prev.state, step, |raws|)
    ensures step.result.Failed? ==> step.result.error.AlignmentIndexError? && step.result.error.lineNumber == |raws|
  {
    prev := Go(b, raws[..|raws| - 1], report0, order, sep, strip);
    step := ProcessLine(b, |raws|, raws[|raws| - 1], order, sep, strip);
  }

  /** One more step appended to a run that matched the steps before it. */
  lemma FollowsSteps(steps: seq<Step>, step: Step, st: RunState, r: RunOutcome)
    requires NoFailure(steps) && st.output == Outputs(steps) && st.tables == Tables(steps)
    requires r == Advance(st, step, |steps| + 1)
    requires step.result.Failed? ==> step.result.error.AlignmentIndexError? && step.result.error.lineNumber == |steps| + 1
    ensures var all := steps + [step];
      && (r.Done? <==> NoFailure(all))
      && (r.Done? ==> r.state.output == Outputs(all) && r.state.tables == Tables(all))
      && (r.Stopped? ==> FirstFailure(all, r.error))
  {
    var all := steps + [step];
    assert all[..|all| - 1] == steps;
    assert all[|all| - 1] == step;
  }

  /** A failure among the earlier steps stays the first one. */
  lemma StaysStopped(steps: seq<Step>, step: Step, r: RunOutcome)
    requires r.Stopped? && FirstFailure(steps, r.error)
    ensures !NoFailure(steps + [step]) && FirstFailure(steps + [step], r.error)
  {
    var all := steps + [step];
    var ln := r.error.lineNumber;
    assert all[ln - 1] == steps[ln - 1];
    assert all[..ln - 1] == steps[..ln - 1];
  }

  /** A run stopped within the lines before the last stays stopped. */
  lemma GoStopped(raws: seq<string>, report0: seq<nat>, r: RunOutcome)
    requires |raws| > 0 && r.Stopped?
    requires && r.error.AlignmentIndexError?
             && 1 <= r.error.lineNumber <= |raws| - 1
             && r.report == report0 + Marked(Flagged(raws[..|raws| - 1]), r.error.lineNumber)
    ensures r.report == report0 + Marked(Flagged(raws), r.error.lineNumber)
  {
    FrontLines(raws, r.error.lineNumber);
  }

  /** One more line on top of a run over the lines before it. */
  lemma GoCase(policy: Policy, raws: seq<string>, report0: seq<nat>, st: RunState, step: Step, r: RunOutcome)
    requires |raws| > 0
    requires var front := raws[..|raws| - 1];
      && |st.output| == |st.tables| <= |front|
      && st.report == report0 + SwitchLines(front)
      && (policy == KeepFlags ==> |st.output| == NonBlank(front, |front|))
      && (policy == RemoveUtterance ==> |st.output| + |SwitchLines(front)| <= |front|)
    requires step.detected <==> HasFlag(Normalise(raws[|raws| - 1]))
    requires step.result.Failed? ==> step.result.error.AlignmentIndexError? && step.result.error.lineNumber == |raws|
    requires policy == KeepFlags ==> (step.result.Skipped? <==> AllSpace(raws[|raws| - 1]))
    requires policy == RemoveUtterance && step.detected ==> step.result.Skipped?
    requires r == Advance(st, step, |raws|)
    ensures r.Done? ==> |r.state.output| == |r.state.tables| <= |raws|
    ensures r.Done? ==> r.state.report == report0 + SwitchLines(raws)
    ensures r.Stopped? ==> && r.error.AlignmentIndexError?
                           && 1 <= r.error.lineNumber <= |raws|
                           && r.report == report0 + Marked(Flagged(raws), r.error.lineNumber)
    ensures r.Done? && policy == KeepFlags ==> |r.state.output| == NonBlank(raws, |raws|)
    ensures r.Done? && policy == RemoveUtterance ==> |r.state.output| + |SwitchLines(raws)| <= |raws|
  {
    var n := |raws|;
    FrontFacts(raws);
    GoStep(policy, Flagged(raws), report0, st, step, r,
           NonBlank(raws, n - 1), NonBlank(raws, n), AllSpace(raws[n - 1]));
  }

  /** What the run over all lines but the last knows, restated on all lines. */
  lemma FrontFacts(raws: seq<string>)
    requires |raws| > 0
    ensures var n := |raws|; var front := raws[..n - 1];
      && |Flagged(raws)| == n
      && SwitchLines(front) == Marked(Flagged(raws), n - 1)
      && SwitchLines(raws) == Marked(Flagged(raws), n)
      && NonBlank(front, n - 1) == NonBlank(raws, n - 1)
      && NonBlank(raws, n) == NonBlank(raws, n - 1) + (if AllSpace(raws[n - 1]) then 0 else 1)
      && Flagged(raws)[n - 1] == HasFlag(Normalise(raws[n - 1]))
  {
    FrontLines(raws, |raws| - 1);
    FlaggedFront(raws);
  }

  /** The facts about one line that the run needs. */
  lemma StepFacts(b: Backend, n: nat, raw: string, order: SetOrder, sep: Separator, strip: bool)
    ensures var step := ProcessLine(b, n, raw, order, sep, strip);
      && (step.detected <==> HasFlag(Normalise(raw)))
      && (step.result.Failed? ==> step.result.error.AlignmentIndexError? && step.result.error.lineNumber == n)
      && (b.policy == KeepFlags ==> (step.result.Skipped? <==> AllSpace(raw)))
      && (b.policy == RemoveUtterance && step.detected ==> step.result.Skipped?)
  {
  }

  lemma GoStep(policy: Policy, marks: seq<bool>, report0: seq<nat>, st: RunState, step: Step, r: RunOutcome,
               kept0: nat, kept1: nat, blank: bool)
    requires |marks| > 0
    requires r == Advance(st, step, |marks|)
    requires var k := |marks| - 1;
      && |st.output| == |st.tables| <= k
      && st.report == report0 + Marked(marks, k)
      && (policy == KeepFlags ==> |st.output| == kept0)
      && (policy == RemoveUtterance ==> |st.output| + |Marked(marks, k)| <= k)
    requires kept1 == kept0 + (if blank then 0 else 1)
    requires step.detected <==> marks[|marks| - 1]
    requires step.result.Failed? ==> step.result.error.AlignmentIndexError? && step.result.error.lineNumber == |marks|
    requires policy == KeepFlags ==> (step.result.Skipped? <==> blank)
    requires policy == RemoveUtterance && step.detected ==> step.result.Skipped?
    ensures r.Done? ==> |r.state.output| == |r.state.tables| <= |marks|
    ensures r.Done? ==> r.state.report == report0 + Marked(marks, |marks|)
    ensures r.Stopped? ==> && r.error.AlignmentIndexError?
                           && 1 <= r.error.lineNumber <= |marks|
                           && r.report == report0 + Marked(marks, r.error.lineNumber)
    ensures r.Done? && policy == KeepFlags ==> |r.state.output| == kept1
    ensures r.Done? && policy == RemoveUtterance ==> |r.state.output| + |Marked(marks, |marks|)| <= |marks|
  {
    var n := |marks|;
    assert st.report + (if step.detected then [n] else []) == report0 + Marked(marks, n);
  }

  /** A run over the first lines sees the same flags and blank lines as the
      whole run does over those lines. */
  lemma FrontLines(raws: seq<string>, k: nat)
    requires 0 < |raws| && k <= |raws| - 1
    ensures var front := raws[..|raws| - 1];
      && Marked(Flagged(front), k) == Marked(Flagged(raws), k)
      && NonBlank(front, k) == NonBlank(raws, k)
      && (k == |raws| - 1 ==> SwitchLines(front) == Marked(Flagged(raws), k))
  {
    var front := raws[..|raws| - 1];
    FlaggedFront(raws);
    MarkedPrefix(Flagged(front), Flagged(raws), k);
    NonBlankPrefix(front, raws, k);
  }

  lemma FlaggedFront(raws: seq<string>)
    requires |raws| > 0
    ensures Flagged(raws[..|raws| - 1]) == Flagged(raws)[..|raws| - 1]
    ensures Flagged(raws)[|raws| - 1] == HasFlag(Normalise(raws[|raws| - 1]))
  {
  }

  lemma {:induction false} MarkedPrefix(a: seq<bool>, b: seq<bool>, k: nat)
    requires k <= |a| <= |b| && a == b[..|a|]
    ensures Marked(a, k) == Marked(b, k)
    decreases k
  {
    if k > 0 {
      assert a[k - 1] == b[k - 1];
      MarkedPrefix(a, b, k - 1);
    }
  }

  lemma {:induction false} NonBlankPrefix(a: seq<string>, b: seq<string>, k: nat)
    requires k <= |a| <= |b| && a == b[..|a|]
    ensures NonBlank(a, k) == NonBlank(b, k)
    decreases k
  {
    if k > 0 {
      assert a[k - 1] == b[k - 1];
      NonBlankPrefix(a, b, k - 1);
    }
  }

  /** The line numbers the report gains are strictly increasing and lie
      between 1 and the number of lines processed. */
  lemma {:induction false} MarkedIncreasing(marks: seq<bool>, k: nat)
    requires k <= |marks|
    ensures forall i, j :: 0 <= i < j < |Marked(marks, k)| ==> Marked(marks, k)[i] < Marked(marks, k)[j]
    ensures forall i :: 0 <= i < |Marked(marks, k)| ==> 1 <= Marked(marks, k)[i] <= k
    ensures |Marked(marks, k)| <= k
    decreases k
  {
    if k > 0 {
      MarkedIncreasing(marks, k - 1);
    }
  }

  /** The report gains line k exactly when k is among the first lines and is
      marked. */
  lemma {:induction false} MarkedMembers(marks: seq<bool>, k: nat)
    requires k <= |marks|
    ensures forall x :: x in Marked(marks, k) <==> 1 <= x <= k && marks[x - 1]
    decreases k
  {
    if k > 0 {
      MarkedMembers(marks, k - 1);
    }
  }

  lemma {:induction false} FlaggedAt(raws: seq<string>, i: nat)
    requires i < |raws|
    ensures Flagged(raws)[i] == HasFlag(Normalise(raws[i]))
    decreases |raws|
  {
    if i < |raws| - 1 {
      var front := raws[..|raws| - 1];
      FlaggedAt(front, i);
      assert front[i] == raws[i];
    }
  }

  /** The line numbers the report gains over a run: exactly the lines whose
      normalised text holds a flag, each once, in increasing order. */
  lemma SwitchLinesExact(raws: seq<string>)
    ensures forall x :: x in SwitchLines(raws) <==> 1 <= x <= |raws| && HasFlag(Normalise(raws[x - 1]))
    ensures forall i, j :: 0 <= i < j < |SwitchLines(raws)| ==> SwitchLines(raws)[i] < SwitchLines(raws)[j]
  {
    MarkedMembers(Flagged(raws), |raws|);
    MarkedIncreasing(Flagged(raws), |raws|);
    forall i | 0 <= i < |raws| ensures Flagged(raws)[i] == HasFlag(Normalise(raws[i])) {
      FlaggedAt(raws, i);
    }
  }

  // ---------------------------------------------------------------------------
  // Warnings (espeak.py lines 340-362).
  // ---------------------------------------------------------------------------

  /** The warnings logged at the end of a run, as data. */
  datatype Warning =
    | RemovedUtterances(count: nat)
    | FoundSwitches(count: nat, lines: seq<nat>)
    | ExtraPhones(language: string)
    | FlagsRemoved
    | FlagsKept

  /** The closing warnings for a report: none when nothing was recorded; one
      counting the dropped utterances under remove-utterance; otherwise three,
      the count with the recorded lines, the phone-set caution for the
      language, and a last one naming the policy that was applied. */
  function Summary(policy: Policy, language: string, report: seq<nat>): (r: seq<Warning>)
    ensures r == [] <==> report == []
    ensures policy == RemoveUtterance && report != [] ==> r == [RemovedUtterances(|report|)]
    ensures policy != RemoveUtterance && report != [] ==>
      && |r| == 3 && r[0] == FoundSwitches(|report|, report) && r[1] == ExtraPhones(language)
      && r[2] == (if policy == RemoveFlags then FlagsRemoved else FlagsKept)
  {
    if |report| == 0 then []
    else if policy == RemoveUtterance then [RemovedUtterances(|report|)]
    else
      [FoundSwitches(|report|, report), ExtraPhones(language),
       if policy == RemoveFlags then FlagsRemoved else FlagsKept]
  }

  /** The engine, abstracted: the raw output it gives for one input line. */
  type Engine = string -> string

  /** What `_phonemize_aux` returns or raises, with the report it leaves on the
      backend. */
  datatype RunResult =
    | Completed(output: seq<string>, tables: seq<seq<Entry>>, report: seq<nat>, warnings: seq<Warning>)
    | Raised(error: Error, report: seq<nat>)

  /** The raw engine output for each line of the text, cut at line breaks. */
  function EngineLines(text: string, engine: Engine): (r: seq<string>)
    ensures |r| == |Split(text, "\n")|
    ensures forall i :: 0 <= i < |r| ==> r[i] == engine(Split(text, "\n")[i])
  {
    var lines := Split(text, "\n");
    seq(|lines|, i requires 0 <= i < |lines| => engine(lines[i]))
  }

  /** `_phonemize_aux` (espeak.py lines 228-364): the text is cut at line
      breaks, each line goes through the engine and the line processing, and
      the warnings summarise the whole report, including what earlier calls
      on the same backend recorded. The call raises exactly when some line
      does, with the error of the first one; otherwise it returns the lines
      and tables the lines emitted, in order. */
  function PhonemizeAux(b: Backend, text: string, engine: Engine, report0: seq<nat>,
                        order: SetOrder, sep: Separator, strip: bool): (r: RunResult)
    ensures r.Completed? ==> |r.output| == |r.tables| <= multiset(text)['\n'] + 1
    ensures |r.report| >= |report0| && r.report[..|report0|] == report0
    ensures r.Completed? ==> (r.warnings == [] <==> r.report == [])
    ensures r.Completed? && b.policy != RemoveUtterance && r.report != [] ==>
      r.warnings[0] == FoundSwitches(|r.report|, r.report)
    ensures var raws := EngineLines(text, engine);
      var steps := Steps(b, raws, order, sep, strip);
      && (r.Completed? <==> NoFailure(steps))
      && (r.Completed? ==> && r.output == Outputs(steps) && r.tables == Tables(steps)
                           && r.report == report0 + SwitchLines(raws)
                           && r.warnings == Summary(b.policy, b.language, r.report))
      && (r.Raised? ==> && FirstFailure(steps, r.error)
                        && r.report == report0 + Marked(Flagged(raws), r.error.lineNumber))
  {
    SplitCharCount(text, '\n');
    var raws := EngineLines(text, engine);
    GoFollowsSteps(b, raws, report0, order, sep, strip);
    match Go(b, raws, report0, order, sep, strip)
    case Stopped(e, report) => Raised(e, report)
    case Done(st) => Completed(st.output, st.tables, st.report, Summary(b.policy, b.language, st.report))
  }

  /** On a fresh backend, the closing warnings count and list exactly the
      lines whose engine output holds a language-switch flag, in order. */
  lemma WarningsListSwitchLines(b: Backend, text: string, engine: Engine, order: SetOrder, sep: Separator, strip: bool)
    ensures var r := PhonemizeAux(b, text, engine, [], order, sep, strip);
      var raws := EngineLines(text, engine);
      r.Completed? ==>
        && (forall x :: x in r.report <==> 1 <= x <= |raws| && HasFlag(Normalise(raws[x - 1])))
        && (forall i, j :: 0 <= i < j < |r.report| ==> r.report[i] < r.report[j])
        && (r.report != [] && b.policy == RemoveUtterance ==> r.warnings == [RemovedUtterances(|r.report|)])
        && (r.report != [] && b.policy != RemoveUtterance ==> r.warnings[0] == FoundSwitches(|r.report|, r.report))
  {
    var raws := EngineLines(text, engine);
    var r := PhonemizeAux(b, text, engine, [], order, sep, strip);
    SwitchLinesExact(raws);
    if r.Completed? {
      assert r.report == SwitchLines(raws);
    }
  }
}
