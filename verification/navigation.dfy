/** What a navigation does end to end: the page resolved from the location is
    the page loaded. */
module Navigation {
  import opened Wrappers
  import opened Router
  import opened Loader

  /** Every request URL of a load starts with `content/` and holds no
      further `/` after it. How a browser resolves the URL string (a backslash,
      for one) is not part of this model. */
  predicate StaysInContent(r: LoadResult)
  {
    forall k :: 0 <= k < |r.requests| ==>
      && |r.requests[k].url| >= 8
      && r.requests[k].url[..8] == "content/"
      && Slash !in r.requests[k].url[8..]
  }

  /** A URL built from a slash-free page and a slash-free extension lies
      directly inside the content directory. */
  lemma UrlInContent(page: string, ext: string)
    requires Slash !in page && Slash !in ext
    ensures |"content/" + page + ext| >= 8
    ensures ("content/" + page + ext)[..8] == "content/"
    ensures Slash !in ("content/" + page + ext)[8..]
  {
    var url := "content/" + page + ext;
    assert url[8..] == page + ext;
  }

  /** A page taken from the path puts no further `/` after `content/` in any
      request URL, since a path segment holds no slash (a segment `..` asks for
      `content/...txt`). */
  lemma PathPageStaysInContent(prior: View, pageParam: Option<string>, path: string, text: TextOutcome, probe: ProbeOutcome)
    requires pageParam.None? || pageParam.value == ""
    ensures StaysInContent(Load(prior, CurrentPage(pageParam, path), text, probe))
  {
    PathPageShape(path);
    SlashFreePageStaysInContent(prior, CurrentPage(pageParam, path), text, probe);
  }

  /** A page name without a slash keeps every request inside the content
      directory. */
  lemma SlashFreePageStaysInContent(prior: View, page: string, text: TextOutcome, probe: ProbeOutcome)
    requires Slash !in page
    ensures StaysInContent(Load(prior, page, text, probe))
  {
    var r := Load(prior, page, text, probe);
    UrlInContent(page, ".txt");
    UrlInContent(page, ".mp3");
    RequestsOfLoad(prior, page, text, probe);
    forall k | 0 <= k < |r.requests|
      ensures |r.requests[k].url| >= 8 && r.requests[k].url[..8] == "content/"
      ensures Slash !in r.requests[k].url[8..]
    {
      assert r.requests[k].url in {TextUrl(page), AudioUrl(page)};
    }
  }

  /** The requests a load issues are among the text request and the audio
      probe of its own page. */
  lemma RequestsOfLoad(prior: View, page: string, text: TextOutcome, probe: ProbeOutcome)
    ensures forall k :: 0 <= k < |Load(prior, page, text, probe).requests| ==>
      Load(prior, page, text, probe).requests[k].url in {TextUrl(page), AudioUrl(page)}
  {
  }

  /** A page parameter is used unsanitised, so it can name a file outside the
      content directory. */
  lemma ParamPageCanLeaveContent(prior: View)
    ensures Load(prior, CurrentPage(Some("../index"), "/"), TextNotOk, ProbeNotOk).requests
         == [Request(Get, "content/../index.txt")]
    ensures !StaysInContent(Load(prior, CurrentPage(Some("../index"), "/"), TextNotOk, ProbeNotOk))
  {
    assert TextUrl("../index") == "content/../index.txt";
    var r := Load(prior, "../index", TextNotOk, ProbeNotOk);
    assert r.requests[0].url[8..][2] == Slash;
  }
}
