/**
 * src/pages/Upload.tsx: the three-step wizard that uploads a PDF, has the
 * server process it, and shows the result. The two requests are events: the
 * model returns what would be sent and takes the server's answer as the
 * argument of `OnUploadSuccess` or `OnProcessSuccess`.
 */
module UploadWizard {
  import opened Wrappers

  datatype Step = UploadStep | Processing | Complete

  /** The chosen file; only its name matters here. */
  datatype File = File(name: string)

  /** The multipart form of `handleUpload`. */
  datatype UploadForm = UploadForm(file: File, source: string, title: string)

  /** `UploadResult`; `duplicate` is absent for a new document. */
  datatype UploadResult = UploadResult(docId: int, filename: string, duplicate: Option<bool>)

  /** The body of `POST /api/documents/process`. */
  datatype ProcessRequest = ProcessRequest(docId: int, role: string, region: string, frequency: string)

  /** `ProcessResult`, with the number of suggestions for the list of them. */
  datatype ProcessResult = ProcessResult(docId: int, inserted: int, skipped: int, suggestions: nat)

  /** `!data.duplicate`: an absent flag counts as new. */
  predicate IsNew(r: UploadResult) {
    r.duplicate.None? || !r.duplicate.value
  }

  /** The form `handleUpload` sends, or nothing without a file. */
  function FormOf(file: Option<File>): (f: Option<UploadForm>)
    ensures f.None? <==> file.None?
    ensures f.Some? ==> f.value.file == file.value && f.value.source == "ADMIN_UPLOAD" && f.value.title == file.value.name
  {
    if file.Some? then Some(UploadForm(file.value, "ADMIN_UPLOAD", file.value.name)) else None
  }

  /** The upload's `onSuccess`: the next step, and the process request for a new document. */
  function AfterUpload(data: UploadResult, role: string, region: string, frequency: string): (r: (Step, Option<ProcessRequest>))
    ensures IsNew(data) <==> r.0 == Processing
    ensures !IsNew(data) <==> r.0 == Complete
    ensures r.1.Some? <==> IsNew(data)
    ensures r.1.Some? ==> r.1.value == ProcessRequest(data.docId, role, region, frequency)
  {
    if IsNew(data) then (Processing, Some(ProcessRequest(data.docId, role, region, frequency)))
    else (Complete, None)
  }

  /** The events the wizard reacts to, and the step each leads to. */
  datatype Event = UploadDone(result: UploadResult) | ProcessDone | Failure | ResetPressed

  function StepAfter(step: Step, ev: Event): Step {
    match ev
    case UploadDone(r) => if IsNew(r) then Processing else Complete
    case ProcessDone => Complete
    case Failure => step
    case ResetPressed => UploadStep
  }

  /** The events the page offers a way to cause in a step: the upload button and the reset button are the only controls. */
  predicate Offered(step: Step, ev: Event) {
    match ev
    case UploadDone(_) => step == UploadStep
    case ProcessDone => step == Processing
    case Failure => step != Complete
    case ResetPressed => step == Complete
  }

  class Wizard {
    var file: Option<File>
    var role: string
    var region: string
    var frequency: string
    var uploadResult: Option<UploadResult>
    var processResult: Option<ProcessResult>
    var step: Step

    /** The wizard processes only after a new document was uploaded. */
    ghost predicate Valid()
      reads this
    {
      step == Processing ==> uploadResult.Some? && IsNew(uploadResult.value)
    }

    /** The wizard starts at the upload step with the default role, region and frequency. */
    constructor ()
      ensures Valid()
      ensures step == UploadStep && file.None? && uploadResult.None? && processResult.None?
      ensures role == "warehouse_worker" && region == "US-CA" && frequency == "annual"
    {
      file, uploadResult, processResult := None, None, None;
      role, region, frequency := "warehouse_worker", "US-CA", "annual";
      step := UploadStep;
    }

    /** The file input's `onChange`. */
    method ChooseFile(f: Option<File>)
      requires Valid()
      modifies this
      ensures Valid()
      ensures file == f
      ensures role == old(role) && region == old(region) && frequency == old(frequency)
      ensures uploadResult == old(uploadResult) && processResult == old(processResult) && step == old(step)
    {
      file := f;
    }

    /** The role select's `onChange`. */
    method ChooseRole(v: string)
      requires Valid()
      modifies this
      ensures Valid()
      ensures role == v
      ensures file == old(file) && region == old(region) && frequency == old(frequency)
      ensures uploadResult == old(uploadResult) && processResult == old(processResult) && step == old(step)
    {
      role := v;
    }

    /** The region select's `onChange`. */
    method ChooseRegion(v: string)
      requires Valid()
      modifies this
      ensures Valid()
      ensures region == v
      ensures file == old(file) && role == old(role) && frequency == old(frequency)
      ensures uploadResult == old(uploadResult) && processResult == old(processResult) && step == old(step)
    {
      region := v;
    }

    /** The frequency select's `onChange`. */
    method ChooseFrequency(v: string)
      requires Valid()
      modifies this
      ensures Valid()
      ensures frequency == v
      ensures file == old(file) && role == old(role) && region == old(region)
      ensures uploadResult == old(uploadResult) && processResult == old(processResult) && step == old(step)
    {
      frequency := v;
    }

    /** `handleUpload`: the form to send, or nothing without a file; the state does not change. */
    method HandleUpload() returns (form: Option<UploadForm>)
      requires Valid()
      ensures form == FormOf(file)
    {
      if file.None? {
        return None;
      }
      form := Some(UploadForm(file.value, "ADMIN_UPLOAD", file.value.name));
    }

    /**
     * The upload succeeded: the result is kept; a new document moves to
     * processing and sends one process request with the chosen role, region
     * and frequency, a duplicate goes straight to the result.
     */
    method OnUploadSuccess(data: UploadResult) returns (req: Option<ProcessRequest>)
      requires Valid()
      modifies this
      ensures Valid()
      ensures uploadResult == Some(data)
      ensures (step, req) == AfterUpload(data, role, region, frequency)
      ensures step == StepAfter(old(step), UploadDone(data))
      ensures file == old(file) && role == old(role) && region == old(region) && frequency == old(frequency)
      ensures processResult == old(processResult)
    {
      uploadResult := Some(data);
      if IsNew(data) {
        step := Processing;
        req := Some(ProcessRequest(data.docId, role, region, frequency));
      } else {
        step := Complete;
        req := None;
      }
    }

    /** The processing succeeded: its result is kept and the wizard shows it. */
    method OnProcessSuccess(data: ProcessResult)
      requires Valid()
      modifies this
      ensures Valid()
      ensures processResult == Some(data) && step == Complete
      ensures step == StepAfter(old(step), ProcessDone)
      ensures file == old(file) && role == old(role) && region == old(region) && frequency == old(frequency)
      ensures uploadResult == old(uploadResult)
    {
      processResult := Some(data);
      step := Complete;
    }

    /** `handleReset`: no file, no results, back at the upload step; the selections stay. */
    method Reset()
      requires Valid()
      modifies this
      ensures Valid()
      ensures file.None? && uploadResult.None? && processResult.None? && step == UploadStep
      ensures step == StepAfter(old(step), ResetPressed)
      ensures role == old(role) && region == old(region) && frequency == old(frequency)
    {
      file, uploadResult, processResult := None, None, None;
      step := UploadStep;
    }
  }

  // ---------------------------------------------------------------------------
  // Properties

  /** The steps reached from the start by each course of events. */
  function StepsAfter(step: Step, evs: seq<Event>): Step
    decreases |evs|
  {
    if evs == [] then step else StepsAfter(StepAfter(step, evs[0]), evs[1..])
  }

  /** A new document reaches the result through processing; a duplicate skips it. */
  lemma HappyPaths(r: UploadResult)
    ensures IsNew(r) ==>
      (StepAfter(UploadStep, UploadDone(r)) == Processing && StepsAfter(UploadStep, [UploadDone(r), ProcessDone]) == Complete)
    ensures !IsNew(r) ==> StepsAfter(UploadStep, [UploadDone(r)]) == Complete
  {
    var evs := [UploadDone(r), ProcessDone];
    assert evs[1..] == [ProcessDone] && evs[1..][1..] == [];
    assert StepsAfter(UploadStep, evs) == StepsAfter(StepAfter(UploadStep, UploadDone(r)), [ProcessDone]);
    assert StepsAfter(Processing, [ProcessDone]) == StepsAfter(Complete, []);
    assert [UploadDone(r)][1..] == [];
  }

  /** A failed request changes no step; since processing offers no control, a failed processing leaves the wizard there. */
  lemma FailureKeepsStep(step: Step)
    ensures StepAfter(step, Failure) == step
    ensures forall ev :: Offered(Processing, ev) && StepAfter(Processing, ev) != Processing ==> ev == ProcessDone
  {
  }

  /** Every event of the list is offered in the step the previous ones lead to. */
  predicate OfferedAlong(step: Step, evs: seq<Event>)
    decreases |evs|
  {
    evs == [] || (Offered(step, evs[0]) && OfferedAlong(StepAfter(step, evs[0]), evs[1..]))
  }

  /**
   * Along offered events the wizard only moves forward, upload to processing
   * to result, and returns to the upload step only through reset.
   */
  lemma {:induction false} ForwardOnly(step: Step, evs: seq<Event>)
    requires OfferedAlong(step, evs)
    requires forall i :: 0 <= i < |evs| ==> evs[i] != ResetPressed
    ensures Rank(StepsAfter(step, evs)) >= Rank(step)
    decreases |evs|
  {
    if evs != [] {
      assert evs[0] != ResetPressed;
      assert forall i :: 0 <= i < |evs[1..]| ==> evs[1..][i] != ResetPressed by {
        forall i | 0 <= i < |evs[1..]| ensures evs[1..][i] != ResetPressed {
          assert evs[1..][i] == evs[i + 1];
        }
      }
      ForwardOnly(StepAfter(step, evs[0]), evs[1..]);
    }
  }

  function Rank(s: Step): nat {
    match s
    case UploadStep => 0
    case Processing => 1
    case Complete => 2
  }
}
