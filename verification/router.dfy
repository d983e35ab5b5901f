/** Page-name resolution: which content identifier the current navigation
    asks for, from the `page` query parameter or the URL path. */
module Router {
  import opened Wrappers
  import opened Strings

  /** The path separator. */
  const Slash: char := '/'

  /** The pieces that are not empty, in their original order
      (`parts.filter(p => p)`). */
  function NonEmpty(parts: seq<string>): (kept: seq<string>)
    ensures forall i :: 0 <= i < |kept| ==> kept[i] != ""
    ensures |kept| <= |parts|
    decreases |parts|
  {
    if |parts| == 0 then []
    else
      var x := parts[|parts| - 1];
      NonEmpty(parts[..|parts| - 1]) + (if x == "" then [] else [x])
  }

  /** The last piece, or the empty string when there is none
      (`parts.pop() || ''`). */
  function LastOrEmpty(parts: seq<string>): string
  {
    if |parts| == 0 then "" else parts[|parts| - 1]
  }

  /** The page named by the current location. A page parameter that is
      present and non-empty wins and is returned as it is; otherwise the path
      is split on `/`, empty segments are dropped and the last one is the
      page, or the empty string (the welcome page) when there is none. */
  function CurrentPage(pageParam: Option<string>, path: string): (page: string)
    ensures pageParam.Some? && pageParam.value != "" ==> page == pageParam.value
    ensures pageParam.None? || pageParam.value == "" ==> page == LastSegment(path)
  {
    if pageParam.Some? && pageParam.value != "" then pageParam.value
    else
      PathPageIsLastSegment(path);
      LastOrEmpty(NonEmpty(Split(path, Slash)))
  }

  // Reference definition of the path branch, independent of split and filter.

  /** `s` without its trailing slashes. */
  function TrimTrailingSlashes(s: string): (t: string)
    ensures t <= s
    ensures t == "" || t[|t| - 1] != Slash
    ensures forall i :: |t| <= i < |s| ==> s[i] == Slash
    decreases |s|
  {
    if |s| > 0 && s[|s| - 1] == Slash then TrimTrailingSlashes(s[..|s| - 1]) else s
  }

  /** The longest slash-free suffix of `s`. */
  function FinalRun(s: string): (r: string)
    ensures |r| <= |s| && forall i :: 0 <= i < |r| ==> r[i] == s[|s| - |r| + i]
    ensures Slash !in r
    ensures |r| < |s| ==> s[|s| - |r| - 1] == Slash
    decreases |s|
  {
    if |s| > 0 && s[|s| - 1] != Slash then FinalRun(s[..|s| - 1]) + [s[|s| - 1]] else ""
  }

  /** The last non-empty segment of a path: the characters after the last
      slash once trailing slashes are ignored. */
  function LastSegment(path: string): string
  {
    FinalRun(TrimTrailingSlashes(path))
  }

  /** The last piece of a split on slashes is the final slash-free run. */
  lemma {:induction false} LastPieceIsFinalRun(s: string)
    ensures Last(Split(s, Slash)) == FinalRun(s)
    decreases |s|
  {
    if |s| == 0 {
      assert Split(s, Slash) == [""];
    } else {
      var s' := s[..|s| - 1];
      var c := s[|s| - 1];
      var init := Split(s', Slash);
      LastPieceIsFinalRun(s');
      if c == Slash {
        assert Split(s, Slash) == init + [""];
        assert FinalRun(s) == "";
      } else {
        assert Split(s, Slash) == init[..|init| - 1] + [Last(init) + [c]];
        assert FinalRun(s) == FinalRun(s') + [c];
      }
    }
  }

  /** Dropping empty pieces distributes over concatenation with one piece. */
  lemma NonEmptySnoc(parts: seq<string>, x: string)
    ensures NonEmpty(parts + [x]) == NonEmpty(parts) + (if x == "" then [] else [x])
  {
    assert (parts + [x])[..|parts|] == parts;
  }

  /** Splitting on `/`, dropping empty segments and taking the last agrees
      with the reference definition of the last path segment. */
  lemma {:induction false} PathPageIsLastSegment(path: string)
    ensures LastOrEmpty(NonEmpty(Split(path, Slash))) == LastSegment(path)
    decreases |path|
  {
    if |path| > 0 {
      PathPageIsLastSegment(path[..|path| - 1]);
      if path[|path| - 1] == Slash {
        TrailingSlashIgnored(path);
      } else {
        LastPieceIsFinalRun(path[..|path| - 1]);
        SplitPageExtends(path);
        LastSegmentExtends(path);
      }
    } else {
      assert Split(path, Slash) == [""];
      assert NonEmpty([""]) == [];
      assert TrimTrailingSlashes(path) == "";
    }
  }

  /** A trailing slash changes neither the page of the split nor the
      reference last segment. */
  lemma TrailingSlashIgnored(path: string)
    requires |path| > 0 && path[|path| - 1] == Slash
    ensures LastOrEmpty(NonEmpty(Split(path, Slash))) == LastOrEmpty(NonEmpty(Split(path[..|path| - 1], Slash)))
    ensures LastSegment(path) == LastSegment(path[..|path| - 1])
  {
    var init := Split(path[..|path| - 1], Slash);
    assert Split(path, Slash) == init + [""];
    NonEmptySnoc(init, "");
  }

  /** A final character other than a slash extends the last piece of the
      split, which becomes the page. */
  lemma SplitPageExtends(path: string)
    requires |path| > 0 && path[|path| - 1] != Slash
    ensures LastOrEmpty(NonEmpty(Split(path, Slash))) == Last(Split(path[..|path| - 1], Slash)) + [path[|path| - 1]]
  {
    var c := path[|path| - 1];
    var init := Split(path[..|path| - 1], Slash);
    var front := init[..|init| - 1];
    var x := Last(init) + [c];
    assert Split(path, Slash) == front + [x];
    NonEmptySnoc(front, x);
    assert x != "";
    assert NonEmpty(front + [x]) == NonEmpty(front) + [x];
  }

  /** A final character other than a slash extends the last segment. */
  lemma LastSegmentExtends(path: string)
    requires |path| > 0 && path[|path| - 1] != Slash
    ensures LastSegment(path) == FinalRun(path[..|path| - 1]) + [path[|path| - 1]]
  {
    assert TrimTrailingSlashes(path) == path;
  }

  /** In the path branch the page holds no slash, and it is empty exactly when
      the path consists of slashes only. */
  lemma {:induction false} PathPageShape(path: string)
    ensures Slash !in LastSegment(path)
    ensures LastSegment(path) == "" <==> forall i :: 0 <= i < |path| ==> path[i] == Slash
  {
    var t := TrimTrailingSlashes(path);
    var r := FinalRun(t);
    if r != "" {
      assert path[|t| - 1] == t[|t| - 1] != Slash;
    }
  }

  /** A segment written after a slash and followed only by slashes is the
      page the path names. */
  lemma {:induction false} SegmentBeforeTrailingSlashes(before: string, segment: string, after: string)
    requires segment != "" && Slash !in segment
    requires forall i :: 0 <= i < |after| ==> after[i] == Slash
    ensures LastSegment(before + [Slash] + segment + after) == segment
  {
    var u := before + [Slash] + segment;
    TrimAppendedSlashes(u, after);
    FinalRunAfterSlash(before, segment);
  }

  /** Slashes appended after a character other than a slash are trimmed
      away again. */
  lemma {:induction false} TrimAppendedSlashes(u: string, after: string)
    requires u != "" && u[|u| - 1] != Slash
    requires forall i :: 0 <= i < |after| ==> after[i] == Slash
    ensures TrimTrailingSlashes(u + after) == u
    decreases |after|
  {
    if |after| == 0 {
      assert u + after == u;
    } else {
      var s := u + after;
      assert s[..|s| - 1] == u + after[..|after| - 1];
      TrimAppendedSlashes(u, after[..|after| - 1]);
    }
  }

  /** The final run of a string ending in a slash and a slash-free segment is
      that segment. */
  lemma FinalRunAfterSlash(before: string, segment: string)
    requires Slash !in segment
    ensures FinalRun(before + [Slash] + segment) == segment
  {
    var s := before + [Slash] + segment;
    var k := |before| + 1;
    assert s[k..] == segment;
    FinalRunFrom(s, k);
  }

  /** The final run starts right after the last slash. */
  lemma FinalRunFrom(s: string, k: nat)
    requires 0 < k <= |s| && s[k - 1] == Slash
    requires forall j :: k <= j < |s| ==> s[j] != Slash
    ensures FinalRun(s) == s[k..]
  {
    var r := FinalRun(s);
    FinalRunHasNoSlash(s);
    assert |r| <= |s| - k;
    assert |r| >= |s| - k;
    forall i | 0 <= i < |r|
      ensures r[i] == s[k..][i]
    {
    }
  }

  /** No position of a string inside its final run holds a slash. */
  lemma FinalRunHasNoSlash(s: string)
    ensures forall j :: |s| - |FinalRun(s)| <= j < |s| ==> s[j] != Slash
  {
    var r := FinalRun(s);
    forall j | |s| - |r| <= j < |s|
      ensures s[j] != Slash
    {
      assert s[j] == r[j - (|s| - |r|)];
    }
  }

  /** An empty `page` parameter (`?page=`) is falsy and behaves like an
      absent one: the path decides. */
  lemma EmptyParamFallsThrough(path: string)
    ensures CurrentPage(Some(""), path) == CurrentPage(None, path)
  {
  }

  /** The path branch returns the final segment as written: no sanitising and
      no special case for `.html` names. */
  lemma PathExamples()
    ensures CurrentPage(None, "/index.html") == "index.html"
    ensures CurrentPage(None, "/a/../") == ".."
    ensures CurrentPage(Some("st-peters-church"), "/other/") == "st-peters-church"
  {
    IndexHtmlExample();
    DotDotExample();
  }

  /** `/index.html` names the page `index.html`. */
  lemma IndexHtmlExample()
    ensures LastSegment("/index.html") == "index.html"
  {
    assert "/index.html" == "" + "/" + "index.html" + "";
    SegmentBeforeTrailingSlashes("", "index.html", "");
  }

  /** `/a/../` names the page `..`. */
  lemma DotDotExample()
    ensures LastSegment("/a/../") == ".."
  {
    assert "/a/../" == "/a" + "/" + ".." + "/";
    SegmentBeforeTrailingSlashes("/a", "..", "/");
  }
}
