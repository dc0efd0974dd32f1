/**
 * The upload controller `BloodReportAnalyzer` of static/js/script.js.
 *
 * The class keeps the controller's fields and the parts of the page it
 * writes (which `.page` carries `active`, the display of the three upload
 * sections, the texts it sets, the alerts it appends, the requests it
 * posts). Each method is proved against a function on a snapshot of that
 * state; the lemmas below the functions state what the controller promises.
 */
module Analyzer {
  import opened Wrappers
  import opened UploadRules

  /** Everything the controller reads or writes. `inFlight` counts the
    * analysis requests whose response has not yet been handled. */
  datatype Snapshot = Snapshot(
    selectedFile: Option<FileInfo>,
    currentPage: Page,
    active: set<Page>,
    dragOver: bool,
    uploadShown: bool,
    selectedShown: bool,
    analyzeShown: bool,
    fileNameText: string,
    fileSizeText: string,
    inputValue: string,
    resultsTitle: string,
    resultsText: string,
    alerts: seq<Alert>,
    requests: seq<FileInfo>,
    inFlight: nat)

  /** The state at start-up: the constructor's fields, with the page markup
    * showing the home page and the empty upload section. */
  const Initial: Snapshot :=
    Snapshot(None, Home, {Home}, false, true, false, false, "", "", "", "", "", [], [], 0)

  /** The upload sections agree with the selection, and a selected file's
    * name and size are on display. */
  ghost predicate ShowsSelection(s: Snapshot) {
    match s.selectedFile
    case None => s.uploadShown && !s.selectedShown && !s.analyzeShown
    case Some(f) =>
      && !s.uploadShown && s.selectedShown && s.analyzeShown
      && s.fileNameText == f.name && s.fileSizeText == MegabytesLabel(f.size)
  }

  /** The invariant: exactly one page is active and it is the current page;
    * only an acceptable file is ever selected; the layout shows it. */
  ghost predicate Consistent(s: Snapshot) {
    && s.active == {s.currentPage}
    && (s.selectedFile.Some? ==> IsAcceptable(s.selectedFile.value))
    && ShowsSelection(s)
  }

  // ---------------------------------------------------------------------
  // The operations, on snapshots
  // ---------------------------------------------------------------------

  /** showAlert: the alert is appended to the page. */
  function Alerted(s: Snapshot, message: string, kind: AlertKind): Snapshot {
    s.(alerts := s.alerts + [Alert(message, kind)])
  }

  /** showPage. */
  function OnPage(s: Snapshot, page: Page): Snapshot {
    s.(active := {page}, currentPage := page)
  }

  /** updateFileDisplay. */
  function Displayed(s: Snapshot): Snapshot {
    match s.selectedFile
    case Some(f) =>
      s.(fileNameText := f.name, fileSizeText := MegabytesLabel(f.size),
         uploadShown := false, selectedShown := true, analyzeShown := true)
    case None =>
      s.(uploadShown := true, selectedShown := false, analyzeShown := false)
  }

  /** processFile. */
  function Processed(s: Snapshot, f: FileInfo): Snapshot {
    match Rejection(f)
    case Some(message) => Alerted(s, message, Error)
    case None => Displayed(s.(selectedFile := Some(f)))
  }

  /** The file list of a change or drop event: only its first file counts. */
  function FromList(s: Snapshot, files: seq<FileInfo>): Snapshot {
    if |files| > 0 then Processed(s, files[0]) else s
  }

  /** handleDragOver. */
  function DraggedOver(s: Snapshot): Snapshot {
    s.(dragOver := true)
  }

  /** handleDragLeave: `relatedTargetInside` is whether the upload area
    * contains the element the cursor moved to. */
  function DragLeft(s: Snapshot, relatedTargetInside: bool): Snapshot {
    if relatedTargetInside then s else s.(dragOver := false)
  }

  /** handleDrop. */
  function Dropped(s: Snapshot, files: seq<FileInfo>): Snapshot {
    FromList(s.(dragOver := false), files)
  }

  /** removeFile. */
  function Removed(s: Snapshot): Snapshot {
    Displayed(s.(selectedFile := None, inputValue := ""))
  }

  /** analyzeFile up to the `await`: without a file it only alerts;
    * otherwise it shows the loading page and posts the file. */
  function Submitted(s: Snapshot): Snapshot {
    match s.selectedFile
    case None => Alerted(s, NoFileMessage, Error)
    case Some(f) => OnPage(s, Loading).(requests := s.requests + [f], inFlight := s.inFlight + 1)
  }

  /** JavaScript truthiness of a string property that may be missing. */
  predicate IsTruthy(v: Option<string>) {
    v.Some? && v.value != ""
  }

  /** A missing property interpolated into a template literal. */
  function Interpolated(v: Option<string>): string {
    v.GetOr("undefined")
  }

  /** analyzeFile after the `await`: a thrown failure or a truthy `error`
    * leads home with an alert; anything else is rendered as a report. */
  function Answered(s: Snapshot, response: Response): Snapshot
    requires s.inFlight > 0
  {
    var t := s.(inFlight := s.inFlight - 1);
    match response
    case Failure => OnPage(Alerted(t, FailureMessage, Error), Home)
    case Reply(error, filename, explanation) =>
      if IsTruthy(error) then OnPage(Alerted(t, error.value, Error), Home)
      else
        // textContent = undefined renders as the empty text
        OnPage(t.(resultsTitle := "Report: " + Interpolated(filename),
                  resultsText := explanation.GetOr("")), Explain)
  }

  /** analyzeFile as a whole, the response being the one its request gets. */
  function Analyzed(s: Snapshot, response: Response): Snapshot {
    if s.selectedFile.None? then Submitted(s) else Answered(Submitted(s), response)
  }

  /** The events attachEventListeners wires to the controller. */
  datatype Command =
    | SelectFiles(files: seq<FileInfo>)
    | DragOver
    | DragLeave(relatedTargetInside: bool)
    | Drop(files: seq<FileInfo>)
    | RemoveFile
    | Submit
    | Respond(response: Response)
    | GoHome

  /** One event; a response arrives only for a request still in flight. */
  function Step(s: Snapshot, c: Command): Snapshot {
    match c
    case SelectFiles(files) => FromList(s, files)
    case DragOver => DraggedOver(s)
    case DragLeave(inside) => DragLeft(s, inside)
    case Drop(files) => Dropped(s, files)
    case RemoveFile => Removed(s)
    case Submit => Submitted(s)
    case Respond(r) => if s.inFlight > 0 then Answered(s, r) else s
    case GoHome => OnPage(s, Home)
  }

  function Run(s: Snapshot, cmds: seq<Command>): Snapshot
    decreases |cmds|
  {
    if cmds == [] then s else Run(Step(s, cmds[0]), cmds[1..])
  }

  // ---------------------------------------------------------------------
  // What the controller promises
  // ---------------------------------------------------------------------

  lemma ProcessedKeepsConsistent(s: Snapshot, f: FileInfo)
    requires Consistent(s)
    ensures Consistent(Processed(s, f))
  {
  }

  lemma StepKeepsConsistent(s: Snapshot, c: Command)
    requires Consistent(s)
    ensures Consistent(Step(s, c))
  {
    match c
    case SelectFiles(files) =>
      if |files| > 0 { ProcessedKeepsConsistent(s, files[0]); }
    case Drop(files) =>
      if |files| > 0 { ProcessedKeepsConsistent(s.(dragOver := false), files[0]); }
    case _ =>
  }

  /** Whatever events arrive, in whatever order, the invariant holds after
    * each of them. */
  lemma {:induction false} RunKeepsConsistent(s: Snapshot, cmds: seq<Command>)
    requires Consistent(s)
    ensures Consistent(Run(s, cmds))
    decreases |cmds|
  {
    if cmds != [] {
      StepKeepsConsistent(s, cmds[0]);
      RunKeepsConsistent(Step(s, cmds[0]), cmds[1..]);
    }
  }

  /** At all times exactly one page is active, and it is the current one. */
  lemma ExactlyOnePageActive(cmds: seq<Command>)
    ensures var s := Run(Initial, cmds);
      |s.active| == 1 && s.currentPage in s.active
  {
    RunKeepsConsistent(Initial, cmds);
  }

  /** processFile: an unacceptable file leaves everything but the alert log
    * as it was and adds one error alert, the type message if the type is
    * wrong (whatever the size), else the size message; an acceptable file is
    * selected and shown, on whatever page is current. */
  lemma ProcessedOutcome(s: Snapshot, f: FileInfo)
    ensures !IsAllowedType(f.mimeType) ==>
      Processed(s, f) == s.(alerts := s.alerts + [Alert(InvalidTypeMessage, Error)])
    ensures IsAllowedType(f.mimeType) && f.size > MaxSize ==>
      Processed(s, f) == s.(alerts := s.alerts + [Alert(TooLargeMessage, Error)])
    ensures IsAcceptable(f) ==>
      var r := Processed(s, f);
      && r.selectedFile == Some(f) && r.alerts == s.alerts
      && r.currentPage == s.currentPage && r.active == s.active
      && !r.uploadShown && r.selectedShown && r.analyzeShown
    ensures IsAcceptable(f) ==>
      Processed(s, f) == s.(selectedFile := Some(f),
        fileNameText := f.name, fileSizeText := MegabytesLabel(f.size),
        uploadShown := false, selectedShown := true, analyzeShown := true)
  {
  }

  /** Only the first file of a list is looked at; the rest are ignored. */
  lemma ExtraFilesIgnored(s: Snapshot, files: seq<FileInfo>, more: seq<FileInfo>)
    requires |files| > 0
    ensures FromList(s, files + more) == FromList(s, files[..1])
    ensures FromList(s, []) == s
  {
  }

  /** Selecting an acceptable file and then removing it restores the empty
    * layout; only the file input is cleared and the stale name and size
    * texts remain, hidden. */
  lemma RemoveUndoesSelect(s: Snapshot, f: FileInfo)
    requires Consistent(s) && s.selectedFile.None? && IsAcceptable(f)
    ensures Removed(Processed(s, f))
      == s.(inputValue := "", fileNameText := f.name, fileSizeText := MegabytesLabel(f.size))
  {
  }

  /** removeFile clears the selection whatever it was and keeps the page. */
  lemma RemovedKeepsPage(s: Snapshot)
    ensures var r := Removed(s);
      && r.selectedFile.None? && r.inputValue == ""
      && r.uploadShown && !r.selectedShown && !r.analyzeShown
      && r.currentPage == s.currentPage && r.active == s.active
  {
  }

  /** analyzeFile without a file: one alert, no request, nothing else. */
  lemma AnalyzeWithoutFile(s: Snapshot, response: Response)
    requires s.selectedFile.None?
    ensures Analyzed(s, response) == s.(alerts := s.alerts + [Alert(NoFileMessage, Error)])
  {
  }

  /** analyzeFile with a file: exactly that file is posted; a failure or a
    * truthy `error` leads home with one alert, anything else shows the
    * report page with "Report: " and the file name; the selection stays. */
  lemma AnalyzeWithFile(s: Snapshot, response: Response)
    requires s.selectedFile.Some?
    ensures var r := Analyzed(s, response);
      && r.requests == s.requests + [s.selectedFile.value]
      && r.inFlight == s.inFlight
      && r.selectedFile == s.selectedFile
      && r.active == {r.currentPage}
    ensures response.Failure? ==>
      var r := Analyzed(s, response);
      r.currentPage == Home && r.alerts == s.alerts + [Alert(FailureMessage, Error)]
    ensures response.Reply? && IsTruthy(response.error) ==>
      var r := Analyzed(s, response);
      r.currentPage == Home && r.alerts == s.alerts + [Alert(response.error.value, Error)]
    ensures response.Reply? && !IsTruthy(response.error) ==>
      var r := Analyzed(s, response);
      && r.currentPage == Explain && r.alerts == s.alerts
      && r.resultsTitle == "Report: " + Interpolated(response.filename)
      && r.resultsText == response.explanation.GetOr("")
  {
  }

  /** An empty `error` is falsy, so it is rendered as a report. */
  lemma EmptyErrorIsReport(s: Snapshot, name: string, text: string)
    requires s.selectedFile.Some?
    ensures Analyzed(s, Reply(Some(""), Some(name), Some(text))).currentPage == Explain
  {
  }

  /** goToHome shows the home page and keeps the selection. */
  lemma GoHomeKeepsSelection(s: Snapshot)
    ensures var r := Step(s, GoHome);
      r.currentPage == Home && r.active == {Home} && r.selectedFile == s.selectedFile
  {
  }

  /** The drag-over flag: set on dragover, cleared on a dragleave to outside
    * the upload area and on every drop. */
  lemma DragFlag(s: Snapshot, inside: bool, files: seq<FileInfo>)
    ensures DraggedOver(s).dragOver
    ensures DragLeft(s, inside).dragOver == (s.dragOver && inside)
    ensures !Dropped(s, files).dragOver
  {
  }

  /** No request is ever cancelled: a response that arrives after the user
    * went back home still takes the controller to the report page. */
  lemma LateResponseStillShown(s: Snapshot, name: string, text: string)
    requires s.selectedFile.Some?
    ensures var r := Run(s, [Submit, GoHome, Respond(Reply(None, Some(name), Some(text)))]);
      r.currentPage == Explain && r.resultsTitle == "Report: " + name
  {
    var answer := Respond(Reply(None, Some(name), Some(text)));
    var cmds := [Submit, GoHome, answer];
    var s1 := Step(s, Submit);
    var s2 := Step(s1, GoHome);
    assert s2.inFlight > 0;
    assert cmds[1..] == [GoHome, answer] && cmds[1..][1..] == [answer];
    assert Run(s, cmds) == Run(s1, [GoHome, answer]);
    assert Run(s1, [GoHome, answer]) == Run(s2, [answer]);
    assert Run(s2, [answer]) == Step(s2, answer);
  }

  // ---------------------------------------------------------------------
  // The controller
  // ---------------------------------------------------------------------

  class BloodReportAnalyzer {
    var selectedFile: Option<FileInfo>
    var currentPage: Page
    /** The pages whose class list holds `active`. */
    var active: set<Page>
    /** Whether the upload area's class list holds `drag-over`. */
    var dragOver: bool
    var uploadShown: bool
    var selectedShown: bool
    var analyzeShown: bool
    var fileNameText: string
    var fileSizeText: string
    var inputValue: string
    var resultsTitle: string
    var resultsText: string
    /** The alerts appended to the body, oldest first. */
    var alerts: seq<Alert>
    /** The files posted to /explain, oldest first. */
    var requests: seq<FileInfo>
    ghost var inFlight: nat

    ghost function State(): Snapshot
      reads this
    {
      Snapshot(selectedFile, currentPage, active, dragOver, uploadShown, selectedShown,
               analyzeShown, fileNameText, fileSizeText, inputValue, resultsTitle,
               resultsText, alerts, requests, inFlight)
    }

    ghost predicate Valid()
      reads this
    {
      Consistent(State())
    }

    constructor ()
      ensures State() == Initial && Valid()
    {
      selectedFile, currentPage := None, Home;
      active, dragOver := {Home}, false;
      uploadShown, selectedShown, analyzeShown := true, false, false;
      fileNameText, fileSizeText, inputValue := "", "", "";
      resultsTitle, resultsText := "", "";
      alerts, requests := [], [];
      inFlight := 0;
    }

    method HandleFileSelect(files: seq<FileInfo>)
      requires Valid()
      modifies this
      ensures Valid()
      ensures State() == FromList(old(State()), files)
    {
      if |files| > 0 {
        ProcessFile(files[0]);
      }
    }

    method HandleDragOver()
      requires Valid()
      modifies this
      ensures Valid()
      ensures State() == DraggedOver(old(State()))
    {
      dragOver := true;
    }

    method HandleDragLeave(relatedTargetInside: bool)
      requires Valid()
      modifies this
      ensures Valid()
      ensures State() == DragLeft(old(State()), relatedTargetInside)
    {
      if !relatedTargetInside {
        dragOver := false;
      }
    }

    method HandleDrop(files: seq<FileInfo>)
      requires Valid()
      modifies this
      ensures Valid()
      ensures State() == Dropped(old(State()), files)
    {
      dragOver := false;
      if |files| > 0 {
        ProcessFile(files[0]);
      }
    }

    method ProcessFile(file: FileInfo)
      requires Valid()
      modifies this
      ensures Valid()
      ensures State() == Processed(old(State()), file)
    {
      if file.mimeType !in ValidTypes {
        ShowAlert(InvalidTypeMessage, Error);
        return;
      }
      if file.size > MaxSize {
        ShowAlert(TooLargeMessage, Error);
        return;
      }
      selectedFile := Some(file);
      UpdateFileDisplay();
    }

    method UpdateFileDisplay()
      modifies this
      ensures State() == Displayed(old(State()))
    {
      if selectedFile.Some? {
        fileNameText := selectedFile.value.name;
        fileSizeText := MegabytesLabel(selectedFile.value.size);
        uploadShown, selectedShown, analyzeShown := false, true, true;
      } else {
        uploadShown, selectedShown, analyzeShown := true, false, false;
      }
    }

    method RemoveFile()
      requires Valid()
      modifies this
      ensures Valid()
      ensures State() == Removed(old(State()))
    {
      selectedFile := None;
      inputValue := "";
      UpdateFileDisplay();
    }

    /** analyzeFile up to its `await`; `sent` tells whether it posted. */
    method SubmitSelected() returns (sent: bool)
      requires Valid()
      modifies this
      ensures Valid()
      ensures sent == old(selectedFile).Some?
      ensures State() == Submitted(old(State()))
    {
      if selectedFile.None? {
        ShowAlert(NoFileMessage, Error);
        return false;
      }
      ShowPage(Loading);
      requests := requests + [selectedFile.value];
      inFlight := inFlight + 1;
      sent := true;
    }

    /** analyzeFile from its `await` on, for a request still in flight. */
    method HandleResponse(response: Response)
      requires Valid() && inFlight > 0
      modifies this
      ensures Valid()
      ensures State() == Answered(old(State()), response)
    {
      inFlight := inFlight - 1;
      match response
      case Failure =>
        ShowAlert(FailureMessage, Error);
        ShowPage(Home);
      case Reply(error, filename, explanation) =>
        if IsTruthy(error) {
          ShowAlert(error.value, Error);
          ShowPage(Home);
        } else {
          resultsTitle := "Report: " + Interpolated(filename);
          resultsText := explanation.GetOr("");
          ShowPage(Explain);
        }
    }

    method AnalyzeFile(response: Response)
      requires Valid()
      modifies this
      ensures Valid()
      ensures State() == Analyzed(old(State()), response)
    {
      var sent := SubmitSelected();
      if sent {
        HandleResponse(response);
      }
    }

    method GoToHome()
      requires Valid()
      modifies this
      ensures Valid()
      ensures State() == OnPage(old(State()), Home)
    {
      ShowPage(Home);
    }

    /** Takes `active` off every page, then puts it on `page`. */
    method ShowPage(page: Page)
      modifies this
      ensures State() == OnPage(old(State()), page)
    {
      var i := 0;
      while i < |AllPages|
        invariant 0 <= i <= |AllPages|
        invariant forall p :: p in active <==> p in old(active) && p !in AllPages[..i]
        invariant State() == old(State()).(active := active)
      {
        active := active - {AllPages[i]};
        i := i + 1;
      }
      assert AllPages[..i] == AllPages;
      forall p: Page ensures p !in active {
        assert p == AllPages[0] || p == AllPages[1] || p == AllPages[2];
      }
      assert active == {};
      active := active + {page};
      currentPage := page;
    }

    method ShowAlert(message: string, kind: AlertKind)
      modifies this
      ensures State() == Alerted(old(State()), message, kind)
    {
      alerts := alerts + [Alert(message, kind)];
    }
  }
}
