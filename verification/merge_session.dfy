/** The client page (App.jsx `App`): the selected files, the output-name
    field and the state of the one merge request, driven by discrete events.
    User actions edit the list or the name; a click on the merge button
    starts a request; the transport then reports upload progress, download
    progress and finally success or failure; on success a timer later
    returns the page to idle. */
module MergeSession {
  import opened Wrappers
  import opened Text
  import FileList
  import Progress

  /** Both the initial content of the name field and the fallback used when
      the field is blank. */
  const DefaultOutputName: string := "merged_file"

  /** Extension the client appends when saving the merged download. */
  const PdfExtension: string := ".pdf"

  const SelectFilesNotice: string := "Please select files first."
  const FailureNotice: string := "Failed to merge PDFs."

  /** The phase of the merge request. */
  datatype Status = Idle | Uploading | Processing | Downloading | Done

  /** The request state: phase, percentage, and what the last merge click
      resolved and sent (its name and its snapshot of the list). */
  datatype Session<F> = Session(status: Status, progress: int, finalName: string, sent: seq<F>)

  /** The whole page state. */
  datatype App<F> = App(files: seq<F>, outputName: string, session: Session<F>)

  /** What the request carries: the files in list order (repeated `files`
      parts) and the `output_filename` field. */
  datatype Request<F> = Request(files: seq<F>, outputFilename: string)

  /** The outward effect of one event: nothing, a blocking notice, a request
      posted to the server, or a download saved under a file name. */
  datatype Effect<F> = NoEffect | Notify(message: string) | Post(request: Request<F>) | SaveAs(filename: string)

  datatype Reaction<F> = Reaction(app: App<F>, effect: Effect<F>)

  datatype Event<F> =
    | Select(batch: seq<F>)             // the file picker returned a batch
    | MoveUp(index: int)                // per-row buttons
    | MoveDown(index: int)
    | Remove(index: int)
    | Rename(text: string)              // the name field was edited
    | Trigger                           // the merge button was clicked
    | UploadProgress(loaded: int, total: int)
    | DownloadProgress(loaded: int, total: int)
    | Success                           // the request resolved
    | Failure                           // the request rejected
    | TimerFired                        // the 2000 ms reset after success

  function Initial<F>(): (s: App<F>)
    ensures s.files == [] && s.outputName == DefaultOutputName
    ensures s.session.status == Idle && s.session.progress == 0
  {
    App([], DefaultOutputName, Session(Idle, 0, [], []))
  }

  /** The name the merge uses: the trimmed field, or the default when the
      trimmed field is empty. */
  function ResolveName(outputName: string): (r: string)
    ensures r != [] && NoEdgeWhitespace(r)
    ensures AllWhitespace(outputName) ==> r == DefaultOutputName
    ensures !AllWhitespace(outputName) ==> TrimmedOf(outputName, r)
  {
    var t := Trim(outputName);
    if t == [] then DefaultOutputName
    else
      TrimmedHasNoEdgeWhitespace(outputName, t);
      t
  }

  lemma TrimmedHasNoEdgeWhitespace(s: string, r: string)
    requires TrimmedOf(s, r)
    ensures NoEdgeWhitespace(r)
  {
  }

  /** The name under which the client saves the merged download. */
  function DownloadName(finalName: string): (r: string)
    ensures |r| == |finalName| + |PdfExtension| && r[..|finalName|] == finalName
    ensures EndsWith(r, PdfExtension)
  {
    EndsWithAppended(finalName, PdfExtension);
    finalName + PdfExtension
  }

  /** When the merge button is enabled. */
  predicate MergeEnabled<F>(s: App<F>) {
    |s.files| > 0 && s.session.status == Idle
  }

  /** Whether a percentage is displayed next to the progress bar: the bar is
      hidden when idle, and shows no figure while the server is merging. */
  function ShownPercent<F>(ss: Session<F>): (r: Option<int>)
    ensures r.Some? <==> (ss.status.Uploading? || ss.status.Downloading? || ss.status.Done?)
    ensures r.Some? ==> r.value == ss.progress
  {
    if ss.status == Idle || ss.status == Processing then None else Some(ss.progress)
  }

  /** The events the model gives meaning to: the per-row move buttons exist
      only for listed files, and a transfer report must carry a known positive
      total. The code would also run its progress handlers on a report with no
      known total, storing a NaN figure; the model does not describe that. */
  predicate Admissible<F>(s: App<F>, e: Event<F>) {
    match e
    case MoveUp(i) => 0 <= i < |s.files|
    case MoveDown(i) => 0 <= i < |s.files|
    case UploadProgress(loaded, total) => 0 < total && 0 <= loaded <= total
    case DownloadProgress(loaded, total) => 0 < total && 0 <= loaded <= total
    case _ => true
  }

  /** The merge handler: refuse an empty list with a notice, otherwise
      resolve the name, enter `Uploading` at 0% and post the list as it is
      now. */
  function HandleMerge<F>(s: App<F>): (r: Reaction<F>)
    ensures r.app.files == s.files && r.app.outputName == s.outputName
    ensures |s.files| == 0 <==> r.effect.Notify?
    ensures |s.files| == 0 ==> r.app == s && r.effect.message == SelectFilesNotice
    ensures |s.files| > 0 ==> && r.effect.Post?
                              && r.effect.request.files == r.app.session.sent == s.files
                              && r.effect.request.outputFilename == r.app.session.finalName
                                 == ResolveName(s.outputName)
                              && r.app.session.status == Uploading
                              && r.app.session.progress == 0
  {
    if |s.files| == 0 then
      Reaction(s, Notify(SelectFilesNotice))
    else
      var finalName := ResolveName(s.outputName);
      Reaction(s.(session := Session(Uploading, 0, finalName, s.files)),
               Post(Request(s.files, finalName)))
  }

  /** Upload callback: show the rounded percentage, and switch to
      `Processing` exactly when it is 100. */
  function OnUploadProgress<F>(ss: Session<F>, loaded: int, total: int): (r: Session<F>)
    requires 0 < total && 0 <= loaded <= total
    ensures r.progress == Progress.Percent(loaded, total) && 0 <= r.progress <= 100
    ensures 200 * loaded >= 199 * total ==> r.status == Processing
    ensures 200 * loaded < 199 * total ==> r.status == ss.status
    ensures r.finalName == ss.finalName && r.sent == ss.sent
  {
    var percent := Progress.Percent(loaded, total);
    if percent == 100 then ss.(progress := percent, status := Processing)
    else ss.(progress := percent)
  }

  /** Download callback: whatever the phase, switch to `Downloading` and show
      the rounded percentage. */
  function OnDownloadProgress<F>(ss: Session<F>, loaded: int, total: int): (r: Session<F>)
    requires 0 < total && 0 <= loaded <= total
    ensures r.status == Downloading
    ensures r.progress == Progress.Percent(loaded, total) && 0 <= r.progress <= 100
    ensures r.finalName == ss.finalName && r.sent == ss.sent
  {
    ss.(status := Downloading, progress := Progress.Percent(loaded, total))
  }

  /** The request resolved: after the download is saved as
      `DownloadName(finalName)`, show `Done`. */
  function OnSuccess<F>(ss: Session<F>): (r: Session<F>)
    ensures r.status == Done
    ensures r.progress == ss.progress && r.finalName == ss.finalName && r.sent == ss.sent
  {
    ss.(status := Done)
  }

  /** The request rejected: notify, and go straight back to `Idle`. The
      percentage is left as it was. */
  function OnFailure<F>(ss: Session<F>): (r: Session<F>)
    ensures r.status == Idle
    ensures r.progress == ss.progress && r.finalName == ss.finalName && r.sent == ss.sent
  {
    ss.(status := Idle)
  }

  /** The reset timer after success: back to `Idle` at 0%. */
  function OnTimer<F>(ss: Session<F>): (r: Session<F>)
    ensures r.status == Idle && r.progress == 0
    ensures r.finalName == ss.finalName && r.sent == ss.sent
  {
    ss.(status := Idle, progress := 0)
  }

  /** The events that edit the list or the name field. */
  predicate IsEdit<F>(e: Event<F>) {
    e.Select? || e.MoveUp? || e.MoveDown? || e.Remove? || e.Rename?
  }

  /** One event applied to the page. */
  function Step<F>(s: App<F>, e: Event<F>): (r: Reaction<F>)
    requires Admissible(s, e)
    ensures IsEdit(e) ==> r.app.session == s.session && r.effect == NoEffect
    ensures !IsEdit(e) ==> r.app.files == s.files && r.app.outputName == s.outputName
    ensures r.effect.Post? <==> e.Trigger? && MergeEnabled(s)
    ensures r.effect.SaveAs? <==> e.Success?
    ensures r.effect.Notify? <==> e.Failure?
  {
    match e
    case Select(batch) => Reaction(s.(files := FileList.Append(s.files, batch)), NoEffect)
    case MoveUp(i) => Reaction(s.(files := FileList.MoveUp(s.files, i)), NoEffect)
    case MoveDown(i) => Reaction(s.(files := FileList.MoveDown(s.files, i)), NoEffect)
    case Remove(i) => Reaction(s.(files := FileList.Remove(s.files, i)), NoEffect)
    case Rename(text) => Reaction(s.(outputName := text), NoEffect)
    case Trigger => if MergeEnabled(s) then HandleMerge(s) else Reaction(s, NoEffect)
    case UploadProgress(loaded, total) =>
      Reaction(s.(session := OnUploadProgress(s.session, loaded, total)), NoEffect)
    case DownloadProgress(loaded, total) =>
      Reaction(s.(session := OnDownloadProgress(s.session, loaded, total)), NoEffect)
    case Success =>
      Reaction(s.(session := OnSuccess(s.session)), SaveAs(DownloadName(s.session.finalName)))
    case Failure => Reaction(s.(session := OnFailure(s.session)), Notify(FailureNotice))
    case TimerFired => Reaction(s.(session := OnTimer(s.session)), NoEffect)
  }

  /** A request is outstanding: the transport may still report on it. */
  predicate InFlight(st: Status) {
    st.Uploading? || st.Processing? || st.Downloading?
  }

  /** The events the environment can actually deliver in a state: transport
      reports only while a request is outstanding, upload reports only
      before the first byte of the response, the reset timer only after
      success. Success needs a name the server can put in its
      `Content-Disposition` header (Latin-1); for any other name the server
      answers HTTP 500. User edits and clicks can happen at any time. */
  predicate Possible<F>(s: App<F>, e: Event<F>) {
    match e
    case UploadProgress(_, _) => s.session.status.Uploading? || s.session.status.Processing?
    case DownloadProgress(_, _) => InFlight(s.session.status)
    case Success => InFlight(s.session.status) && Latin1(s.session.finalName)
    case Failure => InFlight(s.session.status)
    case TimerFired => s.session.status == Done
    case _ => true
  }

  /** What holds of the request state at every point: the percentage is in
      0..100, and outside `Idle` a non-empty list was sent under a usable
      name. `Idle` does not imply 0%: a failure leaves the figure as it was. */
  predicate Inv<F>(ss: Session<F>) {
    && 0 <= ss.progress <= 100
    && (ss.status != Idle ==> |ss.sent| > 0 && ss.finalName != [] && NoEdgeWhitespace(ss.finalName))
  }

  /** The order of the phases within one request. */
  function Rank(st: Status): nat {
    match st
    case Idle => 0
    case Uploading => 1
    case Processing => 2
    case Downloading => 3
    case Done => 4
  }

  lemma InitialInv<F>()
    ensures Inv(Initial<F>().session)
  {
  }

  /** Every event the environment can deliver keeps the invariant. */
  lemma StepKeepsInv<F>(s: App<F>, e: Event<F>)
    requires Inv(s.session) && Admissible(s, e) && Possible(s, e)
    ensures Inv(Step(s, e).app.session)
  {
  }

  /** Within a request the phase only moves forward; the only ways back are
      a failure and the reset timer. */
  lemma PhasesMoveForward<F>(s: App<F>, e: Event<F>)
    requires Admissible(s, e) && Possible(s, e)
    requires !e.Failure? && !e.TimerFired?
    ensures Rank(s.session.status) <= Rank(Step(s, e).app.session.status)
  {
  }

  /** Leaving a busy phase for `Idle` happens on a failure or the timer and
      on nothing else. */
  lemma BackToIdleOnlyVia<F>(s: App<F>, e: Event<F>)
    requires Admissible(s, e) && s.session.status != Idle
    ensures Step(s, e).app.session.status == Idle <==> e.Failure? || e.TimerFired?
  {
  }

  /** While a request is busy, a click on merge does nothing at all: there is
      never a second request in flight. */
  lemma BusyTriggerIgnored<F>(s: App<F>)
    requires s.session.status != Idle
    ensures Step(s, Trigger) == Reaction(s, NoEffect)
  {
  }

  /** With an empty list, a click on merge (and the handler itself) changes
      no state, whatever the name field holds. */
  lemma EmptyListTriggerIgnored<F>(s: App<F>)
    requires s.files == []
    ensures Step(s, Trigger).app == s && HandleMerge(s).app == s
    ensures HandleMerge(s).effect == Notify(SelectFilesNotice)
  {
  }

  /** A download report moves to `Downloading` even straight from
      `Uploading`, when the upload figure never rounded to 100. */
  lemma UploadingToDownloading<F>(s: App<F>, loaded: int, total: int)
    requires s.session.status == Uploading && 0 < total && 0 <= loaded <= total
    ensures Step(s, DownloadProgress(loaded, total)).app.session.status == Downloading
  {
  }

  /** Success shows `Done` and saves `<finalName>.pdf`; the timer then
      returns to `Idle` at 0%. The list is untouched throughout. */
  lemma SuccessThenTimer<F>(s: App<F>)
    ensures var r1 := Step(s, Success);
            var r2 := Step(r1.app, TimerFired);
            && r1.app.session.status == Done
            && r1.effect == SaveAs(s.session.finalName + PdfExtension)
            && r2.app.session.status == Idle && r2.app.session.progress == 0
            && r2.app.files == s.files
  {
  }

  /** A failure returns to `Idle` with a notice, keeps the percentage and
      the list, and saves nothing. */
  lemma FailureKeepsProgress<F>(s: App<F>)
    ensures var r := Step(s, Failure);
            && r.app.session.status == Idle
            && r.app.session.progress == s.session.progress
            && r.app.files == s.files
            && r.effect == Notify(FailureNotice)
  {
  }

  /** A failure half-way through the download leaves the percentage at 50
      while idle: the failure path does not reset it. */
  lemma FailureAfterHalfDownload<F>(s: App<F>)
    requires InFlight(s.session.status)
    ensures var s1 := Step(s, DownloadProgress(1, 2)).app;
            Step(s1, Failure).app.session == s.session.(status := Idle, progress := 50)
  {
  }

  /** The name examples: blank and whitespace-only fields fall back to the
      default, and surrounding spaces are cut. */
  lemma ResolveNameExamples()
    ensures ResolveName("") == DefaultOutputName
    ensures ResolveName("  ") == DefaultOutputName
    ensures ResolveName(" report ") == "report"
  {
    var s := " report ";
    assert s[1..7] == "report";
    assert s[..1] == " " && s[7..] == " ";
    TrimUniqueAt(s, 1, 7);
  }
}
