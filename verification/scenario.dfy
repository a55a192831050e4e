/** Runs of events through the client page, and how the request the client
    posts meets the server's handler. */
module Scenario {
  import opened Wrappers
  import opened Text
  import opened MergeSession
  import MergeServer
  import FileList

  /** The page after a run, and the effect of each event in turn. */
  datatype Trace<F> = Trace(app: App<F>, effects: seq<Effect<F>>)

  /** An event as the model applies it: one outside `Admissible` (a move
      button for a row that does not exist, a transfer report with no known
      total) is dropped and changes nothing. This is a modelling choice: on a
      report with no known total the code would still run its handler, and a
      download report would enter `Downloading` with a NaN figure. */
  function Apply<F>(s: App<F>, e: Event<F>): (r: Reaction<F>)
    ensures Admissible(s, e) ==> r == Step(s, e)
    ensures !Admissible(s, e) ==> r == Reaction(s, NoEffect)
  {
    if Admissible(s, e) then Step(s, e) else Reaction(s, NoEffect)
  }

  /** The events applied one after another. */
  function Run<F>(s: App<F>, es: seq<Event<F>>): (t: Trace<F>)
    ensures |t.effects| == |es|
    decreases |es|
  {
    if |es| == 0 then Trace(s, [])
    else
      var t := Run(s, es[..|es| - 1]);
      var r := Apply(t.app, es[|es| - 1]);
      Trace(r.app, t.effects + [r.effect])
  }

  /** The page after the first `n` events. */
  function After<F>(s: App<F>, es: seq<Event<F>>, n: int): App<F>
    requires 0 <= n <= |es|
  {
    Run(s, es[..n]).app
  }

  /** A prefix of a run produces the same first effects. */
  lemma {:induction false} RunPrefix<F>(s: App<F>, es: seq<Event<F>>, n: int)
    requires 0 <= n <= |es|
    ensures Run(s, es[..n]).effects == Run(s, es).effects[..n]
    decreases |es|
  {
    if n < |es| {
      var init := es[..|es| - 1];
      assert init[..n] == es[..n];
      RunPrefix(s, init, n);
    } else {
      assert es[..n] == es;
    }
  }

  /** Event `n` is applied to the page left by the events before it. */
  lemma RunAt<F>(s: App<F>, es: seq<Event<F>>, n: int)
    requires 0 <= n < |es|
    ensures After(s, es, n + 1) == Apply(After(s, es, n), es[n]).app
    ensures Run(s, es).effects[n] == Apply(After(s, es, n), es[n]).effect
  {
    var p := es[..n + 1];
    assert p[..|p| - 1] == es[..n] && p[|p| - 1] == es[n];
    var t := Run(s, es[..n]);
    var r := Apply(t.app, es[n]);
    assert Run(s, p) == Trace(r.app, t.effects + [r.effect]);
    RunPrefix(s, es, n + 1);
    assert Run(s, es).effects[n] == Run(s, p).effects[n];
  }

  /** Every event of the run is one the handlers accept and the environment
      can deliver at its point. */
  ghost predicate Feasible<F>(s: App<F>, es: seq<Event<F>>) {
    forall k :: 0 <= k < |es| ==> Admissible(After(s, es, k), es[k]) && Possible(After(s, es, k), es[k])
  }

  /** Runs the environment can deliver keep the request-state invariant at
      every point. */
  lemma {:induction false} FeasibleKeepsInv<F>(s: App<F>, es: seq<Event<F>>, n: int)
    requires Inv(s.session) && Feasible(s, es) && 0 <= n <= |es|
    ensures Inv(After(s, es, n).session)
    decreases n
  {
    if n == 0 {
      assert es[..0] == [];
    } else {
      FeasibleKeepsInv(s, es, n - 1);
      RunAt(s, es, n - 1);
      StepKeepsInv(After(s, es, n - 1), es[n - 1]);
    }
  }

  /** From the page's initial state, every run the environment can deliver
      keeps the request-state invariant. */
  lemma InitialRunsKeepInv<F>(es: seq<Event<F>>, n: int)
    requires Feasible(Initial<F>(), es) && 0 <= n <= |es|
    ensures Inv(After(Initial<F>(), es, n).session)
  {
    InitialInv<F>();
    FeasibleKeepsInv(Initial<F>(), es, n);
  }

  /** Once a request has been posted, the page stays busy until a failure or
      the reset timer. */
  lemma {:induction false} BusyUntilReset<F>(s: App<F>, es: seq<Event<F>>, i: int, m: int)
    requires 0 <= i < m <= |es|
    requires Run(s, es).effects[i].Post?
    requires forall k :: i < k < m ==> !es[k].Failure? && !es[k].TimerFired?
    ensures After(s, es, m).session.status != Idle
    decreases m
  {
    if m == i + 1 {
      BusyAfterPost(s, es, i);
    } else {
      BusyUntilReset(s, es, i, m - 1);
      BusyStaysBusy(s, es, m);
    }
  }

  lemma BusyAfterPost<F>(s: App<F>, es: seq<Event<F>>, i: int)
    requires 0 <= i < |es|
    requires Run(s, es).effects[i].Post?
    ensures After(s, es, i + 1).session.status == Uploading
  {
    RunAt(s, es, i);
    PostedStartsUpload(After(s, es, i), es[i]);
  }

  lemma BusyStaysBusy<F>(s: App<F>, es: seq<Event<F>>, m: int)
    requires 0 < m <= |es|
    requires After(s, es, m - 1).session.status != Idle
    requires !es[m - 1].Failure? && !es[m - 1].TimerFired?
    ensures After(s, es, m).session.status != Idle
  {
    RunAt(s, es, m - 1);
    var p := After(s, es, m - 1);
    if Admissible(p, es[m - 1]) {
      BackToIdleOnlyVia(p, es[m - 1]);
    }
  }

  lemma PostedStartsUpload<F>(s: App<F>, e: Event<F>)
    requires Apply(s, e).effect.Post?
    ensures Apply(s, e).app.session.status == Uploading
  {
  }

  /** At most one request is ever in flight: after a request is posted, no
      other is posted before a failure or the reset timer. */
  lemma AtMostOneRequest<F>(s: App<F>, es: seq<Event<F>>, i: int, j: int)
    requires 0 <= i < j < |es|
    requires Run(s, es).effects[i].Post?
    requires forall k :: i < k < j ==> !es[k].Failure? && !es[k].TimerFired?
    ensures !Run(s, es).effects[j].Post?
  {
    BusyUntilReset(s, es, i, j);
    RunAt(s, es, j);
  }

  /** The pages each file of a list parses to, in list order. */
  function Documents<F, P>(files: seq<F>, pagesOf: F -> seq<P>): (docs: seq<seq<P>>)
    ensures |docs| == |files|
    ensures forall k :: 0 <= k < |files| ==> docs[k] == pagesOf(files[k])
  {
    seq(|files|, k requires 0 <= k < |files| => pagesOf(files[k]))
  }

  /** The request a merge click posts carries the list as it stands and the
      resolved name; the server's output then holds each listed file's pages
      right after those of the files listed before it, and names the file
      with a `.pdf` suffix. */
  lemma RequestMeetsServer<F, P>(s: App<F>, pagesOf: F -> seq<P>, k: int, j: int)
    requires MergeEnabled(s)
    requires 0 <= k < |s.files| && 0 <= j < |pagesOf(s.files[k])|
    ensures Step(s, Trigger).effect == Post(Request(s.files, ResolveName(s.outputName)))
    ensures var docs := Documents(s.files, pagesOf);
            var before := |MergeServer.Concat(docs[..k])|;
            before + j < |MergeServer.Concat(docs)|
            && MergeServer.Concat(docs)[before + j] == pagesOf(s.files[k])[j]
    ensures EndsWith(MergeServer.EnsurePdfSuffix(ResolveName(s.outputName)), MergeServer.PdfSuffix)
  {
    TriggerPostsList(s);
    MergeServer.ConcatPlacesPages(Documents(s.files, pagesOf), k, j);
  }

  lemma TriggerPostsList<F>(s: App<F>)
    requires MergeEnabled(s)
    ensures Step(s, Trigger).effect == Post(Request(s.files, ResolveName(s.outputName)))
  {
  }

  /** The name the client saves the download under agrees with the name the
      server announces exactly when the resolved name does not already end
      in `.pdf`; otherwise the client saves `<name>.pdf.pdf`. */
  lemma SavedNameVersusServerName(finalName: string)
    ensures DownloadName(finalName) == MergeServer.EnsurePdfSuffix(finalName)
            <==> !EndsWith(finalName, MergeServer.PdfSuffix)
  {
    if EndsWith(finalName, MergeServer.PdfSuffix) {
      assert |DownloadName(finalName)| != |finalName|;
    }
  }

  /** A merge click posts a name the server can announce exactly when the
      resolved name is Latin-1. Otherwise the server answers HTTP 500, success
      cannot arrive, and the failure path shows the failure notice and saves
      nothing. */
  lemma WideNameFails<F>(s: App<F>)
    requires MergeEnabled(s)
    ensures var r := Step(s, Trigger);
            && r.effect.Post?
            && (Latin1(MergeServer.ResponseName(Some(r.effect.request.outputFilename)))
                <==> Latin1(ResolveName(s.outputName)))
            && (Possible(r.app, Success) <==> Latin1(ResolveName(s.outputName)))
            && Step(r.app, Failure) == Reaction(r.app.(session := r.app.session.(status := Idle)),
                                                Notify(FailureNotice))
  {
    var n := ResolveName(s.outputName);
    MergeClick(s);
    var a := s.(session := Session(Uploading, 0, n, s.files));
    assert Possible(a, Success) <==> Latin1(n);
    assert Latin1(MergeServer.ResponseName(Some(n))) <==> Latin1(n);
    FailureWhileUploading(a);
  }

  /** An enabled merge click enters `Uploading` at 0% with the resolved name
      and posts the list under it. */
  lemma MergeClick<F>(s: App<F>)
    requires MergeEnabled(s)
    ensures var n := ResolveName(s.outputName);
            Step(s, Trigger) == Reaction(s.(session := Session(Uploading, 0, n, s.files)),
                                         Post(Request(s.files, n)))
  {
  }

  lemma FailureWhileUploading<F>(a: App<F>)
    requires a.session.status == Uploading
    ensures Step(a, Failure) == Reaction(a.(session := a.session.(status := Idle)), Notify(FailureNotice))
  {
  }

  /** A name typed in Chinese, `报告`, is kept by the client and cannot be
      announced by the server. */
  lemma ChineseNameFails()
    ensures ResolveName("\U{62A5}\U{544A}") == "\U{62A5}\U{544A}"
    ensures !Latin1(MergeServer.ResponseName(Some(ResolveName("\U{62A5}\U{544A}"))))
  {
    var s := "\U{62A5}\U{544A}";
    assert s[0..|s|] == s && s[..0] == [] && s[|s|..] == [];
    TrimUniqueAt(s, 0, |s|);
    assert !(s[0] <= '\U{00FF}');
  }

  /** Typing `report.pdf` into the name field: the server would call the
      file `report.pdf`, the client saves `report.pdf.pdf`. */
  lemma TypedPdfExtension()
    ensures DownloadName(ResolveName("report.pdf")) == "report.pdf.pdf"
    ensures MergeServer.EnsurePdfSuffix(ResolveName("report.pdf")) == "report.pdf"
  {
    KeepsTypedName();
    var s := "report.pdf";
    assert s[|s| - 4..] == ".pdf";
  }

  lemma KeepsTypedName()
    ensures ResolveName("report.pdf") == "report.pdf"
  {
    var s := "report.pdf";
    assert s[0..|s|] == s && s[..0] == [] && s[|s|..] == [];
    TrimUniqueAt(s, 0, |s|);
  }

  /** Select three files, move the second up and clear the name field. */
  function Prepared<F>(a: F, b: F, c: F): App<F> {
    var s1 := Step(Initial<F>(), Select([a, b, c])).app;
    var s2 := Step(s1, MoveUp(1)).app;
    Step(s2, Rename("")).app
  }

  lemma PreparedList<F>(a: F, b: F, c: F)
    ensures Prepared(a, b, c) == App([b, a, c], "", Initial<F>().session)
  {
    var s0 := Initial<F>();
    var s1 := Step(s0, Select([a, b, c])).app;
    assert s1 == s0.(files := [a, b, c]);
    SecondMovedUp(a, b, c);
    var s2 := Step(s1, MoveUp(1)).app;
    assert s2 == s1.(files := [b, a, c]);
    assert Step(s2, Rename("")).app == s2.(outputName := "");
  }

  lemma SecondMovedUp<F>(a: F, b: F, c: F)
    ensures FileList.MoveUp([a, b, c], 1) == [b, a, c]
  {
    var r := FileList.MoveUp([a, b, c], 1);
    assert r[0] == b && r[1] == a && r[2] == c;
  }

  /** Merging the prepared list posts it in its new order under the default
      name and starts the upload at 0%. */
  lemma PreparedMerge<F>(a: F, b: F, c: F)
    ensures Step(Prepared(a, b, c), Trigger)
            == Reaction(Prepared(a, b, c).(session := Session(Uploading, 0, "merged_file", [b, a, c])),
                        Post(Request([b, a, c], "merged_file")))
  {
    PreparedList(a, b, c);
    ResolveNameExamples();
  }

  /** The transport then reports half and all of the upload, a quarter and
      all of the download, and success; the timer fires last. The phases run
      Uploading, Processing (no figure shown), Downloading, Done, the
      download is saved as `merged_file.pdf`, and the page ends Idle at 0%
      with the list untouched. */
  lemma SuccessfulTransfer<F>(s: App<F>)
    requires s.session == Session(Uploading, 0, "merged_file", s.files)
    ensures
      var s5 := Step(s, UploadProgress(512, 1024)).app;
      var s6 := Step(s5, UploadProgress(1024, 1024)).app;
      var s7 := Step(s6, DownloadProgress(300, 1200)).app;
      var s8 := Step(s7, DownloadProgress(1200, 1200)).app;
      var r9 := Step(s8, Success);
      var s10 := Step(r9.app, TimerFired).app;
      && s5.session.status == Uploading && s5.session.progress == 50
      && s6.session.status == Processing && ShownPercent(s6.session).None?
      && s7.session.status == Downloading && s7.session.progress == 25
      && s8.session.status == Downloading && s8.session.progress == 100
      && r9.app.session.status == Done && r9.effect == SaveAs("merged_file.pdf")
      && s10.session.status == Idle && s10.session.progress == 0
      && s10.files == s.files
  {
    var ss := s.session;
    var s5 := Step(s, UploadProgress(512, 1024)).app;
    assert s5 == s.(session := ss.(progress := 50));
    var s6 := Step(s5, UploadProgress(1024, 1024)).app;
    assert s6 == s.(session := ss.(progress := 100, status := Processing));
    var s7 := Step(s6, DownloadProgress(300, 1200)).app;
    assert s7 == s.(session := ss.(progress := 25, status := Downloading));
    var s8 := Step(s7, DownloadProgress(1200, 1200)).app;
    assert s8 == s.(session := ss.(progress := 100, status := Downloading));
  }
}
