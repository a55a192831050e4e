# PDF merger: file list, merge session and server naming

This project models the core of a small PDF merging tool. The tool has a
React page and a FastAPI server.

- On the page, the user picks PDF files and reorders or removes them. The
  user can also edit an output name. A merge button posts the list and the
  name to the server.
- While the request runs, the page shows its phase: uploading, processing
  (the server is merging), downloading, done. It also shows a percentage.
  The merged file is then saved, and after a delay the page returns to idle.
  A failure returns it to idle straight away.
- The server joins the pages of the uploaded documents in upload order. It
  names the result with the requested name, adding `.pdf` when the name
  lacks it.

The model is written as pure functions over immutable values:

- `FileList` holds the list operations on `seq<F>`. A file is an opaque type
  parameter.
- `Progress` computes the percentage with integers.
- `Text` holds the two string rules used: JavaScript's `trim` and Python's
  `endswith`.
- `MergeSession` holds the page state and its event-driven transition
  function `Step`. The outward effects (a notice, a posted request, a saved
  download) are returned as values.
- `MergeServer` holds the server's page concatenation loop and its name
  rule. A page is an opaque type parameter.
- `Scenario` holds runs of events, the mutual-exclusion property across a
  run, the worked example, and how the posted request meets the server.

Two behaviours of the code are easy to miss, and the model states them:

- On failure the code sets the phase to `idle` but leaves the percentage as
  it was (`App.jsx:84-88`). Only the success timer and the next merge click
  set it to 0. `FailureKeepsProgress` and `FailureAfterHalfDownload` state
  this. It cannot be seen on the page, because the progress bar is hidden
  while idle.
- Every download-progress report sets `downloading`, whatever the phase.
  So the page can go straight from `uploading` to `downloading` when the
  upload figure never rounded to 100 (`UploadingToDownloading`).
- The server builds its `Content-Disposition` header from the requested
  name, and header values are encoded as Latin-1. A name holding any
  character above U+00FF, such as `报告` or a typographic apostrophe, makes
  that step raise inside the handler's `try` (`main.py:53-66`). The server
  answers HTTP 500, and the page shows the failure notice and saves nothing
  (`MergePdfs`, `WideNameFails`, `ChineseNameFails`). This comes from how the
  response layer treats headers, not from the text of `main.py`.

## Model

| member | source | states |
|---|---|---|
| FileList.Append | pdf-merger-frontend/src/App.jsx:14-17 | the old list is a prefix, the picked batch follows it in order, the length is the sum, and the multiset is the sum (nothing deduplicated) |
| FileList.MoveUp | pdf-merger-frontend/src/App.jsx:19-24 | index 0 leaves the list unchanged; otherwise exactly the pair at `i-1`,`i` is exchanged and every other position is unchanged; length and multiset are kept |
| FileList.MoveDown | pdf-merger-frontend/src/App.jsx:26-31 | the last index leaves the list unchanged; otherwise exactly the pair at `i`,`i+1` is exchanged and every other position is unchanged; length and multiset are kept |
| FileList.Remove | pdf-merger-frontend/src/App.jsx:33-35 | the index filter equals `files[..i] + files[i+1..]` for an index in range, and the unchanged list for any other integer |
| FileList.MoveUpThenDown | pdf-merger-frontend/src/App.jsx:19-31 | for `0 < i < n`, moving up at `i` and then down at `i-1` restores the list |
| FileList.MoveDownThenUp | pdf-merger-frontend/src/App.jsx:19-31 | for `i+1 < n`, moving down at `i` and then up at `i+1` restores the list |
| FileList.MoveUpIsMoveDownOfPredecessor | pdf-merger-frontend/src/App.jsx:19-31 | moving the file at `i` up is the same list as moving the file at `i-1` down |
| FileList.RemoveInRange | pdf-merger-frontend/src/App.jsx:33-35 | removing a listed index gives length `n-1`, keeps the earlier files in place, shifts the later ones left by one, and removes exactly one occurrence of that file |
| Text.Trim | pdf-merger-frontend/src/App.jsx:41 | the trimmed name is a contiguous piece of the input with only whitespace cut on either side and none left at its edges; it is empty exactly when the input is all whitespace |
| Text.TrimUnique | pdf-merger-frontend/src/App.jsx:41 | any piece meeting that description is the one `Trim` returns, so trimming is fully determined |
| MergeSession.ResolveName | pdf-merger-frontend/src/App.jsx:41 | the resolved name is never empty and has no edge whitespace; it is `merged_file` when the field is blank or all whitespace, and otherwise the trimmed field |
| MergeSession.ResolveNameExamples | pdf-merger-frontend/src/App.jsx:41 | `""` and `"  "` resolve to `merged_file`; `" report "` resolves to `report` |
| MergeSession.DownloadName | pdf-merger-frontend/src/App.jsx:73 | the saved file name is the resolved name followed by exactly `.pdf` |
| Progress.Percent | pdf-merger-frontend/src/App.jsx:55 | for `0 <= loaded <= total`, `total > 0`, the figure is `100*loaded/total` rounded half up, lies in 0..100, and is 100 exactly when `200*loaded >= 199*total` |
| Progress.PercentUnique | pdf-merger-frontend/src/App.jsx:55 | any integer that rounds the ratio half up is the computed figure |
| Progress.PercentMonotone | pdf-merger-frontend/src/App.jsx:64 | more bytes transferred never gives a smaller figure |
| Progress.PercentEnds | pdf-merger-frontend/src/App.jsx:55 | no bytes gives 0 and all bytes give 100 |
| MergeSession.Initial | pdf-merger-frontend/src/App.jsx:6-12 | the page starts with no files, the name field holding `merged_file`, idle, at 0% |
| MergeSession.MergeEnabled | pdf-merger-frontend/src/App.jsx:173 | the merge button is enabled exactly when the list is non-empty and the page is idle |
| MergeSession.ShownPercent | pdf-merger-frontend/src/App.jsx:145-155 | a figure is shown exactly in the uploading, downloading and done phases (none while idle or processing), and it is the stored progress |
| MergeSession.HandleMerge | pdf-merger-frontend/src/App.jsx:37-48 | an empty list gives the "select files" notice and no state change; otherwise the page enters uploading at 0%, and the request carries the current list in order and the resolved name that the session records |
| MergeSession.OnUploadProgress | pdf-merger-frontend/src/App.jsx:54-60 | the figure becomes the rounded percentage; the phase becomes processing when the upload rounds to 100 and is unchanged otherwise |
| MergeSession.OnDownloadProgress | pdf-merger-frontend/src/App.jsx:62-66 | whatever the phase, it becomes downloading, and the figure becomes the rounded percentage |
| MergeSession.OnSuccess | pdf-merger-frontend/src/App.jsx:78 | the phase becomes done, and the figure, name and snapshot are kept |
| MergeSession.OnTimer | pdf-merger-frontend/src/App.jsx:79-82 | the phase becomes idle and the figure 0 |
| MergeSession.OnFailure | pdf-merger-frontend/src/App.jsx:84-88 | the phase becomes idle, and the figure is left unchanged |
| MergeSession.Step | pdf-merger-frontend/src/App.jsx:14-88 | list and name edits never touch the request state; request events never touch the list or the name; a request is posted exactly on a merge click while the button is enabled; a download is saved exactly on success; a notice is shown exactly on failure |
| MergeSession.StepKeepsInv | pdf-merger-frontend/src/App.jsx:37-88 | every deliverable event keeps the figure in 0..100, and keeps a non-empty snapshot and a usable name while busy |
| MergeSession.PhasesMoveForward | pdf-merger-frontend/src/App.jsx:43-78 | apart from a failure and the timer, no deliverable event moves the phase backwards in the order idle, uploading, processing, downloading, done |
| MergeSession.BackToIdleOnlyVia | pdf-merger-frontend/src/App.jsx:78-88 | from a busy phase, the page reaches idle exactly on a failure or the timer |
| MergeSession.BusyTriggerIgnored | pdf-merger-frontend/src/App.jsx:173 | a merge click while busy changes nothing and posts nothing |
| MergeSession.EmptyListTriggerIgnored | pdf-merger-frontend/src/App.jsx:38 | with an empty list, neither the click nor the handler changes any state, whatever the name field holds; the handler shows the notice |
| MergeSession.UploadingToDownloading | pdf-merger-frontend/src/App.jsx:62-63 | a download report moves straight from uploading to downloading |
| MergeSession.SuccessThenTimer | pdf-merger-frontend/src/App.jsx:73-82 | success shows done and saves `<name>.pdf`; the timer then returns to idle at 0%; the list is untouched |
| MergeSession.FailureKeepsProgress | pdf-merger-frontend/src/App.jsx:84-88 | a failure returns to idle with the failure notice, and keeps the figure and the list |
| MergeSession.FailureAfterHalfDownload | pdf-merger-frontend/src/App.jsx:63-65 | a failure after a half-way download report leaves the page idle at 50% |
| Scenario.InitialRunsKeepInv | pdf-merger-frontend/src/App.jsx:6-12 | from the initial page, every run the environment can deliver keeps the request-state invariant after every prefix |
| Scenario.FeasibleKeepsInv | pdf-merger-frontend/src/App.jsx:37-88 | along any run the environment can deliver, the request-state invariant holds after every prefix |
| Scenario.AtMostOneRequest | pdf-merger-frontend/src/App.jsx:173 | after a request is posted, no second request is posted until a failure or the reset timer |
| Scenario.BusyUntilReset | pdf-merger-frontend/src/App.jsx:43 | after a request is posted, the page stays out of idle until a failure or the reset timer |
| Scenario.WideNameFails | pdf-merger-frontend/src/App.jsx:84-88 | a merge click posts a name the server can announce exactly when the resolved name is Latin-1; otherwise success cannot arrive, and the failure path leaves the page idle with the failure notice and nothing saved |
| Scenario.MergeClick | pdf-merger-frontend/src/App.jsx:37-48 | an enabled merge click enters uploading at 0% with the resolved name and the list snapshot, and posts that list under that name |
| Scenario.ChineseNameFails | pdf-merger-backend/main.py:53-66 | the typed name `报告` is kept by the client, and the name the server would announce is not Latin-1 |
| Scenario.RequestMeetsServer | pdf-merger-frontend/src/App.jsx:46-48 | a merge click posts the list as it stands and the resolved name; in the server's output, each listed file's pages follow those of the files before it; the server's name ends in `.pdf` |
| Scenario.SavedNameVersusServerName | pdf-merger-backend/main.py:48-50 | the client's saved name equals the server's normalised name exactly when the resolved name does not already end in `.pdf` |
| Scenario.TypedPdfExtension | pdf-merger-frontend/src/App.jsx:73 | for the typed name `report.pdf`, the client saves `report.pdf.pdf` while the server names the file `report.pdf` |
| Scenario.PreparedList | pdf-merger-frontend/src/App.jsx:14-24 | selecting `[a, b, c]`, moving `b` up and clearing the name gives the list `[b, a, c]` and an empty name, with the request state untouched |
| Scenario.PreparedMerge | pdf-merger-frontend/src/App.jsx:37-48 | merging that list posts `[b, a, c]` under `merged_file` and starts uploading at 0% |
| Scenario.SuccessfulTransfer | pdf-merger-frontend/src/App.jsx:54-82 | half and full upload, quarter and full download, success and the timer: the phases run uploading (50), processing (no figure), downloading (25, 100), done, and the download is saved as `merged_file.pdf`; the page ends idle at 0% with the list unchanged |
| Text.EndsWith | pdf-merger-backend/main.py:49 | Python's `str.endswith`: the last characters of the text are the suffix |
| Text.EndsWithIsSplit | pdf-merger-backend/main.py:49 | a text ends with a suffix exactly when it is some text followed by that suffix |
| MergeServer.EnsurePdfSuffix | pdf-merger-backend/main.py:48-50 | the result always ends in `.pdf` and starts with the input; it equals the input exactly when the input already ends in `.pdf`, and otherwise adds exactly `.pdf` |
| MergeServer.EnsurePdfSuffixIdempotent | pdf-merger-backend/main.py:49-50 | normalising twice is the same as normalising once |
| MergeServer.DefaultFilenameUnchanged | pdf-merger-backend/main.py:23 | the default `merged.pdf` passes through unchanged |
| MergeServer.MergePages | pdf-merger-backend/main.py:28-37 | the nested loop produces the concatenation of the documents' page sequences, in upload order, and its length is the total page count |
| MergeServer.ResponseName | pdf-merger-backend/main.py:23-50 | the announced name ends in `.pdf`; it is `merged.pdf` when the field is absent or empty (the form layer substitutes the declared default), and otherwise the normalised field; it is Latin-1 exactly when the field is |
| MergeServer.ContentDisposition | pdf-merger-backend/main.py:57 | the header value ends with the file name, and can be encoded as Latin-1 exactly when the file name can |
| MergeServer.SuffixKeepsLatin1 | pdf-merger-backend/main.py:49-50 | adding `.pdf` does not change whether a name is Latin-1 |
| MergeServer.MergePdfs | pdf-merger-backend/main.py:20-66 | the handler sends a response exactly when the requested name is absent or Latin-1; the response holds the in-order concatenation of the pages and the announced name, which ends in `.pdf`; any other name makes building the header fail, and the handler answers HTTP 500 with its fixed detail |
| Text.Latin1Append | pdf-merger-backend/main.py:57 | a joined text is Latin-1 exactly when both parts are |
| MergeServer.ConcatAppend | pdf-merger-backend/main.py:28-37 | merging a longer upload is merging its two parts and joining the results |
| MergeServer.ConcatPlacesPages | pdf-merger-backend/main.py:28-37 | page `j` of document `k` sits right after all pages of documents `0..k-1` |
| MergeServer.ConcatLength | pdf-merger-backend/main.py:28-37 | the merged length is the sum of the page counts |

## Left out

- JSX markup, styling and icons (`App.jsx:91-189`) are presentation. Only two parts are kept: the button-enabled predicate (`MergeEnabled`, line 173) and which phases show a figure (`ShownPercent`, lines 145-155).
- Request and download plumbing (axios, `FormData`, `Blob`, `createObjectURL`, link clicking) is foreign I/O. The request is the pair of file snapshot and resolved name (`Request`). The saved download is the effect `SaveAs(name)`.
- `alert` is the effect `Notify(message)`, with the source's two messages. `console.error` and the server's `print` are not modelled: they change no state.
- The 2000 ms `setTimeout` delay is the discrete `TimerFired` event. The model does not measure time.
- An exception thrown inside the success block after the response arrives would also land in the failure path. The model has one `Success` event followed by saving the download, and does not model such an exception.
- Progress.Percent: models `Math.round(loaded*100/total)` with exact rational arithmetic, not IEEE double rounding. It requires `total > 0` and `0 <= loaded <= total`, so an unknown or zero total is not modelled.
- FileList.MoveUp, FileList.MoveDown: require a listed index. For an index out of range, the JavaScript code writes `undefined` into the array and can grow it. The page never issues such a move.
- Scenario.Apply drops every event outside `Admissible` as a modelling choice: a move at an index that is not listed, and a transfer report without a known positive total. The code would still run its handler on such a report: a download report would enter `downloading` and store the NaN that `Math.round` gives.
- MergeServer.MergePdfs: the framework's validation refuses a request with no `files` part (HTTP 422) before the handler runs. The model does not model that refusal and merges an empty upload to an empty output. The client never sends an empty list.
- MergeSession.Possible is an assumption about the environment: upload reports arrive only before the first response byte. The other transport events arrive only while a request is outstanding, success only when the resolved name is Latin-1 (otherwise the server answers HTTP 500), and the timer fires only after success. The invariant and phase-order lemmas rely on it. The `Step` function itself applies every handler as unconditionally as the code does.
- React state batching and closures are not modelled. Only the list snapshot taken at click time matters, and it is kept in the session.
- pypdf (`PdfReader`, `PdfWriter`, `write`) is a foreign library. A document is its sequence of opaque pages. A file that fails to parse, and the HTTP 500 it leads to, are not modelled.
- The server infrastructure is framework plumbing and is not modelled: FastAPI routing, CORS, the streaming of the body, the `Content-Length` computation and the uvicorn startup. One framework rule is modelled: the response layer encodes header values as Latin-1, so a file name with a character above U+00FF makes the handler answer HTTP 500 (`MergePdfs`, `WideNameFails`).
- The client sends the resolved name without `.pdf`, but saves the download as that name plus `.pdf` even when the name already ends in `.pdf`. `SavedNameVersusServerName` and `TypedPdfExtension` record this behaviour as written. No corrected behaviour is proposed.
