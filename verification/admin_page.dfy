/** The admin page as an event-driven state machine: the user actions the
    rendered page makes available, and the expiry of the two simulated
    delays, each as one transition of the form state. */
module AdminPage {
  import opened Optional
  import opened AdminForm

  datatype Event =
    | SelectFile(picked: Option<FileInfo>)  // change event of the file input
    | ClickUpload                           // the upload button
    | UploadDelayElapsed                    // the awaited 2-second timeout resolves
    | ResetDelayElapsed                     // the 2-second reset timeout fires
    | ClickClear                            // the X button beside the held file
    | EditName(name: string)
    | EditDescription(description: string)
    | PickRegion(slug: string)

  /** The region selector can only emit one of its listed values. */
  predicate WellFormed(e: Event) {
    e.PickRegion? ==> e.slug in RegionSlugs
  }

  /** The upload lifecycle, read off the two flags. */
  datatype Phase = Idle | Uploading | Succeeded

  function PhaseOf(s: State): Phase {
    if s.uploadSuccess then Succeeded
    else if s.uploading then Uploading
    else Idle
  }

  /** The state invariant: the pending delay matches the two flags, and the
      region is empty or one the selector offers. */
  predicate Consistent(s: State) {
    && (s.timer == NoTimer <==> !s.uploading && !s.uploadSuccess)
    && (s.timer == UploadTimer <==> s.uploading && !s.uploadSuccess)
    && (s.timer == ResetTimer <==> s.uploading && s.uploadSuccess)
    && (s.region == "" || s.region in RegionSlugs)
  }

  /** One event. The file input and its button are rendered only while no
      file is held, so a pick while a file is held cannot happen; a click on
      the disabled upload button does nothing; a delay can only expire while
      it is pending. */
  function Step(s: State, e: Event): (r: State)
    ensures e.SelectFile? && s.file.Some? ==> r == s
    ensures e.ClickUpload? && !ButtonEnabled(s) ==> r == s
    ensures e.UploadDelayElapsed? && s.timer != UploadTimer ==> r == s
    ensures e.ResetDelayElapsed? && s.timer != ResetTimer ==> r == s
    ensures e.UploadDelayElapsed? && s.timer == UploadTimer ==> r.uploadSuccess && r.timer == ResetTimer
    ensures e.ClickClear? ==> r.file.None?
    ensures e.EditName? ==> r.name == e.name
    ensures e.EditDescription? ==> r.description == e.description
    ensures e.PickRegion? ==> r.region == e.slug
  {
    match e
    case SelectFile(picked) =>
      if s.file.None? then HandleFileChange(s, picked) else s
    case ClickUpload =>
      if ButtonEnabled(s) then HandleUpload(s) else s
    case UploadDelayElapsed =>
      if s.timer == UploadTimer then CompleteUpload(s) else s
    case ResetDelayElapsed =>
      if s.timer == ResetTimer then ResetForm(s) else s
    case ClickClear => ClearFile(s)
    case EditName(v) => SetName(s, v)
    case EditDescription(v) => SetDescription(s, v)
    case PickRegion(v) => SetRegion(s, v)
  }

  /** The events of `es`, in order. */
  function Run(s: State, es: seq<Event>): State
    decreases |es|
  {
    if |es| == 0 then s else Run(Step(s, es[0]), es[1..])
  }

  lemma RunCons(s: State, e: Event, es: seq<Event>)
    ensures Run(s, [e] + es) == Run(Step(s, e), es)
  {
    assert ([e] + es)[1..] == es;
  }

  lemma {:induction false} RunAppend(s: State, a: seq<Event>, b: seq<Event>)
    ensures Run(s, a + b) == Run(Run(s, a), b)
    decreases |a|
  {
    if |a| > 0 {
      assert (a + b)[1..] == a[1..] + b;
      RunAppend(Step(s, a[0]), a[1..], b);
    } else {
      assert a + b == b;
    }
  }

  /** Every well-formed event keeps the state invariant. */
  lemma StepPreservesConsistent(s: State, e: Event)
    requires Consistent(s) && WellFormed(e)
    ensures Consistent(Step(s, e))
  {
  }

  /** The state invariant holds after any sequence of well-formed events
      from a state that satisfies it, in particular from the initial state. */
  lemma {:induction false} RunPreservesConsistent(s: State, es: seq<Event>)
    requires Consistent(s)
    requires forall i :: 0 <= i < |es| ==> WellFormed(es[i])
    ensures Consistent(Run(s, es))
    decreases |es|
  {
    if |es| > 0 {
      StepPreservesConsistent(s, es[0]);
      RunPreservesConsistent(Step(s, es[0]), es[1..]);
    }
  }

  lemma InitialIsConsistent()
    ensures Consistent(Initial) && PhaseOf(Initial) == Idle
  {
  }

  /** The lifecycle idle -> uploading -> succeeded -> idle: the phase only
      moves forward, and each move is caused by exactly one kind of event. */
  lemma PhaseTransitions(s: State, e: Event)
    requires Consistent(s) && WellFormed(e)
    ensures var p, q := PhaseOf(s), PhaseOf(Step(s, e));
            || p == q
            || (p == Idle && q == Uploading && e == ClickUpload)
            || (p == Uploading && q == Succeeded && e == UploadDelayElapsed)
            || (p == Succeeded && q == Idle && e == ResetDelayElapsed)
  {
  }

  /** An upload can only start from the idle phase with a file held, and
      nothing is pending then. */
  lemma ClickOnlyFromIdleWithFile(s: State)
    requires Consistent(s)
    requires Step(s, ClickUpload) != s
    ensures s.file.Some? && PhaseOf(s) == Idle && s.timer == NoTimer
  {
  }

  /** Through the button the missing-file message never appears; a failed
      check changes only the error, and the form stays idle. */
  lemma ClickFailureOnlySetsError(s: State)
    requires Consistent(s) && ButtonEnabled(s) && Validate(s).Some?
    ensures Validate(s) != Some(ErrNoFile)
    ensures Step(s, ClickUpload) == s.(error := Validate(s).value)
    ensures !Step(s, ClickUpload).uploading && PhaseOf(Step(s, ClickUpload)) == Idle
  {
  }

  /** Picking a non-audio file never changes which file the form holds, and
      an empty pick changes nothing at all. */
  lemma PickOutcomes(s: State, picked: Option<FileInfo>)
    ensures picked.None? ==> Step(s, SelectFile(picked)) == s
    ensures picked.Some? && !IsAudio(picked.value) ==> Step(s, SelectFile(picked)).file == s.file
  {
  }

  /** The clear button drops the held file and touches nothing else. */
  lemma ClearChangesOnlyFile(s: State)
    ensures Step(s, ClickClear).file.None?
    ensures Step(s, ClickClear).(file := s.file) == s
  {
  }

  /** A passing upload from the idle phase, left alone, returns the form to
      exactly the initial state once both delays have elapsed. */
  lemma UploadLifecycle(s: State)
    requires Consistent(s) && ButtonEnabled(s) && Validate(s).None?
    ensures PhaseOf(Run(s, [ClickUpload])) == Uploading
    ensures PhaseOf(Run(s, [ClickUpload, UploadDelayElapsed])) == Succeeded
    ensures Run(s, [ClickUpload, UploadDelayElapsed, ResetDelayElapsed]) == Initial
  {
    var s1 := Step(s, ClickUpload);
    RunCons(s, ClickUpload, [UploadDelayElapsed]);
    RunCons(s, ClickUpload, [UploadDelayElapsed, ResetDelayElapsed]);
    RunCons(s1, UploadDelayElapsed, [ResetDelayElapsed]);
  }

  /** Events that may occur while an upload is in flight without leaving a
      trace on the error message: anything but a timer expiry or the pick
      of a non-audio file. */
  predicate Harmless(e: Event) {
    && WellFormed(e)
    && !e.UploadDelayElapsed? && !e.ResetDelayElapsed?
    && !(e.SelectFile? && e.picked.Some? && !IsAudio(e.picked.value))
  }

  /** While a delay is pending, harmless events leave the lifecycle where it
      is and keep the error message empty. */
  lemma {:induction false} InFlightHarmless(s: State, es: seq<Event>)
    requires Consistent(s) && s.timer != NoTimer && s.error == ""
    requires forall i :: 0 <= i < |es| ==> Harmless(es[i])
    ensures var t := Run(s, es);
            && Consistent(t) && t.error == ""
            && t.timer == s.timer && t.uploading == s.uploading
            && t.uploadSuccess == s.uploadSuccess
    decreases |es|
  {
    if |es| > 0 {
      StepPreservesConsistent(s, es[0]);
      InFlightHarmless(Step(s, es[0]), es[1..]);
    }
  }

  /** Edits made while the upload is in flight are discarded: whatever
      harmless events happen during either delay, the reset brings the form
      back to exactly the initial state. */
  lemma InterleavedLifecycle(s: State, a: seq<Event>, b: seq<Event>)
    requires Consistent(s) && ButtonEnabled(s) && Validate(s).None?
    requires forall i :: 0 <= i < |a| ==> Harmless(a[i])
    requires forall i :: 0 <= i < |b| ==> Harmless(b[i])
    ensures Run(s, [ClickUpload] + a + [UploadDelayElapsed] + b + [ResetDelayElapsed]) == Initial
  {
    var s1 := Step(s, ClickUpload);
    assert Run(s, [ClickUpload]) == s1;
    InFlightHarmless(s1, a);
    var s2 := Run(s1, a);
    var s3 := Step(s2, UploadDelayElapsed);
    assert Run(s2, [UploadDelayElapsed]) == s3;
    InFlightHarmless(s3, b);
    var s4 := Run(s3, b);
    assert Run(s4, [ResetDelayElapsed]) == Initial;
    RunAppend(s, [ClickUpload], a);
    RunAppend(s, [ClickUpload] + a, [UploadDelayElapsed]);
    RunAppend(s, [ClickUpload] + a + [UploadDelayElapsed], b);
    RunAppend(s, [ClickUpload] + a + [UploadDelayElapsed] + b, [ResetDelayElapsed]);
  }

  /** The reset does not clear the error: clearing the file during the
      upload and then picking a non-audio file leaves the file-type message
      on the emptied form. */
  lemma RejectedPickSurvivesReset(s: State, f: FileInfo)
    requires Consistent(s) && ButtonEnabled(s) && Validate(s).None?
    requires !IsAudio(f)
    ensures var t := Run(s, [ClickUpload, ClickClear, SelectFile(Some(f)),
                             UploadDelayElapsed, ResetDelayElapsed]);
            t == Initial.(error := ErrNoFile) && t != Initial
  {
    var s1 := Step(s, ClickUpload);
    var s2 := Step(s1, ClickClear);
    var s3 := Step(s2, SelectFile(Some(f)));
    var s4 := Step(s3, UploadDelayElapsed);
    RunCons(s4, ResetDelayElapsed, []);
    RunCons(s3, UploadDelayElapsed, [ResetDelayElapsed]);
    RunCons(s2, SelectFile(Some(f)), [UploadDelayElapsed, ResetDelayElapsed]);
    RunCons(s1, ClickClear, [SelectFile(Some(f)), UploadDelayElapsed, ResetDelayElapsed]);
    RunCons(s, ClickUpload, [ClickClear, SelectFile(Some(f)), UploadDelayElapsed, ResetDelayElapsed]);
  }

  /** What the upload button says (the label chosen in the button's body).
      `uploading` is tested first, and `uploadSuccess` is only ever true while
      `uploading` is, so the success label is never chosen. */
  datatype Label = UploadLabel | UploadingLabel | SuccessLabel

  /** The label as the page chooses it. */
  function ButtonLabel(s: State): Label {
    if s.uploading then UploadingLabel
    else if s.uploadSuccess then SuccessLabel
    else UploadLabel
  }

  /** In every consistent state the success label is not shown: throughout
      the succeeded phase the button still reads "uploading". */
  lemma SuccessLabelNeverShown(s: State)
    requires Consistent(s)
    ensures ButtonLabel(s) != SuccessLabel
    ensures PhaseOf(s) == Succeeded ==> ButtonLabel(s) == UploadingLabel
  {
  }

  /** As written, a passing upload that has reached the succeeded phase still
      reads "uploading". */
  lemma SucceededUploadReadsUploading(s: State)
    requires Consistent(s) && ButtonEnabled(s) && Validate(s).None?
    ensures PhaseOf(Run(s, [ClickUpload, UploadDelayElapsed])) == Succeeded
    ensures ButtonLabel(Run(s, [ClickUpload, UploadDelayElapsed])) == UploadingLabel
  {
    UploadLifecycle(s);
  }

  /** The label with the success test first, so that each phase has its own
      label. */
  function IntendedButtonLabel(s: State): (l: Label)
    ensures Consistent(s) ==>
              (l == UploadLabel <==> PhaseOf(s) == Idle)
              && (l == UploadingLabel <==> PhaseOf(s) == Uploading)
              && (l == SuccessLabel <==> PhaseOf(s) == Succeeded)
  {
    if s.uploadSuccess then SuccessLabel
    else if s.uploading then UploadingLabel
    else UploadLabel
  }

  /** With the intended label, a passing upload shows "uploading", then
      "success", then the plain upload label again. */
  lemma IntendedSuccessLabelShown(s: State)
    requires Consistent(s) && ButtonEnabled(s) && Validate(s).None?
    ensures IntendedButtonLabel(Run(s, [ClickUpload])) == UploadingLabel
    ensures IntendedButtonLabel(Run(s, [ClickUpload, UploadDelayElapsed])) == SuccessLabel
    ensures IntendedButtonLabel(Run(s, [ClickUpload, UploadDelayElapsed, ResetDelayElapsed]))
            == UploadLabel
  {
    UploadLifecycle(s);
    InitialIsConsistent();
    RunPreservesConsistent(s, [ClickUpload]);
    RunPreservesConsistent(s, [ClickUpload, UploadDelayElapsed]);
  }
}
