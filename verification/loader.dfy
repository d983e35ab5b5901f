/** Loading a page: the text fetch, the optional audio probe, and the state
    of the page's view once the load has finished. The browser document is
    abstracted to the record `View`; the network to the outcomes of the two
    requests, given as inputs. */
module Loader {
  import opened Title

  /** What the text request produced: a successful response with its body, a
      response whose status is not ok, or a rejection, either of the request
      itself or of reading the body of an ok response (both reach the same
      error handler). */
  datatype TextOutcome = TextOk(body: string) | TextNotOk | TextThrew

  /** What the audio existence probe produced. */
  datatype ProbeOutcome = ProbeOk | ProbeNotOk | ProbeThrew

  /** The request method: the text is fetched in full, the audio only probed. */
  datatype Method = Get | Head

  /** One request issued by a load. */
  datatype Request = Request(verb: Method, url: string)

  /** The contents of an element: markup the browser interprets
      (`innerHTML`) or plain text shown verbatim (`textContent`). */
  datatype Content = Markup(html: string) | PlainText(text: string)

  /** The parts of the page a load reads or writes: the visibility of the
      loading indicator, the error panel, the display panel and the audio
      player panel; the title, the text body, the error panel's contents and
      the audio source's `src`. */
  datatype View = View(
    loading: bool,
    error: bool,
    display: bool,
    audioPanel: bool,
    title: string,
    body: Content,
    errorContent: string,
    audioSource: string)

  /** The result of a load: the final view, the requests issued in order, and
      whether the audio element was told to reload its source. */
  datatype LoadResult = LoadResult(view: View, requests: seq<Request>, audioReloaded: bool)

  /** The heading of the welcome page. */
  const WelcomeTitle: string := "Willkommen"

  /** The body of the welcome page. */
  const WelcomeHtml: string :=
    "<p>Willkommen bei \"Geschichte für Alle\"!</p><p>Bitte verwenden Sie einen QR-Code, um auf die Audioführungen zuzugreifen.</p>"

  /** Where the text of a page lives. */
  function TextUrl(page: string): string
  {
    "content/" + page + ".txt"
  }

  /** Where the audio of a page lives. */
  function AudioUrl(page: string): string
  {
    "content/" + page + ".mp3"
  }

  /** The error panel's markup for a page that could not be found; the page
      name is interpolated as it is. */
  function NotFoundHtml(page: string): string
  {
    NotFoundPrefix + page + NotFoundSuffix
  }

  const NotFoundPrefix: string := "<p>Der Inhalt \""
  const NotFoundSuffix: string := "\" konnte nicht gefunden werden.</p><p>Bitte überprüfen Sie den QR-Code.</p>"

  /** `s` holds `t` starting at position `i`. */
  predicate OccursAt(s: string, t: string, i: nat)
  {
    i + |t| <= |s| && s[i..i + |t|] == t
  }

  /** `s` holds `t` as a contiguous part. */
  predicate Contains(s: string, t: string)
  {
    exists i: nat | i <= |s| :: OccursAt(s, t, i)
  }

  /** A finished load: the loading indicator is hidden and exactly one of the
      error panel and the display panel is visible. */
  predicate Settled(v: View)
  {
    !v.loading && v.error != v.display
  }

  /** The state entered synchronously at the start of every load. */
  function ShowLoading(v: View): View
  {
    v.(loading := true, error := false, display := false)
  }

  /** `loadContent(page)` for a given prior view and given request outcomes.
      An empty page name shows the welcome page without any request. Otherwise
      the text is requested; if that fails the error panel is shown and
      nothing else is requested. If it succeeds the audio is probed, a failed
      or rejected probe counting as "no audio", and the page is displayed. */
  function Load(prior: View, page: string, text: TextOutcome, probe: ProbeOutcome): (r: LoadResult)
    // Every load finishes settled.
    ensures Settled(r.view)
    // The welcome page.
    ensures page == "" ==>
      && r.view.display && !r.view.audioPanel
      && r.view.title == WelcomeTitle && r.view.body == Markup(WelcomeHtml)
      && r.requests == [] && !r.audioReloaded
      && r.view.audioSource == prior.audioSource && r.view.errorContent == prior.errorContent
    // The text request is always the first request of a named page.
    ensures page != "" ==> |r.requests| >= 1 && r.requests[0] == Request(Get, TextUrl(page))
    // The error state is entered exactly when the text could not be loaded.
    ensures r.view.error <==> page != "" && !text.TextOk?
    // A failed text load: an error naming the page, no probe, and title, body,
    // audio panel and audio source left as they were.
    ensures page != "" && !text.TextOk? ==>
      && Contains(r.view.errorContent, page)
      && r.requests == [Request(Get, TextUrl(page))]
      && !r.audioReloaded
      && r.view.title == prior.title && r.view.body == prior.body
      && r.view.audioPanel == prior.audioPanel && r.view.audioSource == prior.audioSource
    // A successful text load: the formatted title, the text verbatim, the
    // text request then the audio probe, the error contents untouched.
    ensures page != "" && text.TextOk? ==>
      && r.view.title == FormatTitle(page)
      && r.view.body == PlainText(text.body)
      && r.requests == [Request(Get, TextUrl(page)), Request(Head, AudioUrl(page))]
      && r.view.errorContent == prior.errorContent
    // The audio panel is shown, pointed at the page's audio and reloaded
    // exactly when the probe succeeded; otherwise the source is left alone.
    ensures page != "" && text.TextOk? ==>
      && (r.view.audioPanel <==> probe == ProbeOk)
      && (r.audioReloaded <==> probe == ProbeOk)
      && r.view.audioSource == (if probe == ProbeOk then AudioUrl(page) else prior.audioSource)
    // The audio source only ever changes to the page's own audio.
    ensures r.view.audioSource != prior.audioSource ==> r.view.audioSource == AudioUrl(page)
  {
    var v := ShowLoading(prior);
    if page == "" then
      LoadResult(
        v.(loading := false, display := true, title := WelcomeTitle,
           body := Markup(WelcomeHtml), audioPanel := false),
        [], false)
    else
      var textRequest := Request(Get, TextUrl(page));
      match text
      case TextOk(body) =>
        var probeRequest := Request(Head, AudioUrl(page));
        var hasAudio := probe == ProbeOk;
        var shown := v.(loading := false, display := true, title := FormatTitle(page), body := PlainText(body));
        if hasAudio then
          LoadResult(shown.(audioPanel := true, audioSource := AudioUrl(page)), [textRequest, probeRequest], true)
        else
          LoadResult(shown.(audioPanel := false), [textRequest, probeRequest], false)
      case _ =>
        var message := NotFoundHtml(page);
        assert OccursAt(message, page, |NotFoundPrefix|);
        LoadResult(v.(loading := false, error := true, errorContent := message), [textRequest], false)
  }

  /** The audio probe never decides whether the load fails: two loads that
      differ only in the probe's outcome agree on everything except the audio
      panel, the audio source and the reload. */
  lemma ProbeNeverFailsLoad(prior: View, page: string, text: TextOutcome, p1: ProbeOutcome, p2: ProbeOutcome)
    ensures Load(prior, page, text, p1).view.error == Load(prior, page, text, p2).view.error
    ensures Load(prior, page, text, p1).view.display == Load(prior, page, text, p2).view.display
    ensures Load(prior, page, text, p1).view.title == Load(prior, page, text, p2).view.title
    ensures Load(prior, page, text, p1).view.body == Load(prior, page, text, p2).view.body
    ensures Load(prior, page, text, p1).requests == Load(prior, page, text, p2).requests
  {
  }

  /** A rejected text request and a response that is not ok end the same way. */
  lemma TextFailuresAgree(prior: View, page: string, p1: ProbeOutcome, p2: ProbeOutcome)
    ensures Load(prior, page, TextNotOk, p1) == Load(prior, page, TextThrew, p2)
  {
  }

  /** The visibility of the loading indicator, the error panel and the
      display panel after a load never depends on the view before it. */
  lemma VisibilityIndependentOfPrior(prior1: View, prior2: View, page: string, text: TextOutcome, probe: ProbeOutcome)
    ensures Load(prior1, page, text, probe).view.loading == Load(prior2, page, text, probe).view.loading
    ensures Load(prior1, page, text, probe).view.error == Load(prior2, page, text, probe).view.error
    ensures Load(prior1, page, text, probe).view.display == Load(prior2, page, text, probe).view.display
  {
  }
}
