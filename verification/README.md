# Page router and content presenter — verified model

This project models the client-side router of a static site that presents
audio-guide content (`script.js`). A visitor arrives at a URL, often via a QR code. The
script resolves a page name from the `page` query parameter or from the last
path segment. It then loads `content/<page>.txt` and probes for
`content/<page>.mp3`, and fills the page: the title comes from the page name,
and the body is the fetched text. The audio player is shown only when the
audio exists. An empty page name shows a welcome page. A failed text load
shows an error panel naming the page.

The model is purely functional:

- `strings.dfy` (`Strings`): JavaScript's `split` and `join` for a
  one-character separator. The two are proved inverse to each other
  (`JoinSplit`, `SplitJoin`).
- `router.dfy` (`Router`): `getCurrentPage` as
  `CurrentPage(pageParam: Option<string>, path: string)`. The path branch is
  proved equal to an independent reference definition, `LastSegment`: the
  final slash-free run once trailing slashes are ignored.
- `title.dfy` (`Title`): `formatTitle` as `FormatTitle`. It is proved equal,
  character by character, to a reference definition `TitleChar`: a hyphen
  becomes a space, a word's first character is upper-cased, and every other
  character is kept. Idempotence and a round trip back to the words follow.
- `loader.dfy` (`Loader`): `loadContent` as `Load(prior, page, text, probe)`.
  It maps the view before the load and the outcomes of the text request and
  the audio probe to a `LoadResult`. That result holds the final `View`, the
  requests issued in order, and whether the audio element was reloaded. The
  browser document is reduced to the `View` record. Visibility of loading,
  error, display and audio panel are flags. The title, the body (markup or
  verbatim text), the error panel's markup and the audio `src` are fields.
  The prior view is an input because some paths leave fields untouched.
- `navigation.dfy` (`Navigation`): what happens when the resolved page is
  loaded. A page taken from the path puts no further `/` after `content/` in any request URL.
  A page parameter, being used as it is, need not.
- `wrappers.dfy` (`Wrappers`): the `Option` type for the possibly absent
  query parameter.

Facts about this revision of the code that the model keeps:

- This revision of the code does not sanitise the page name. It has no special case for
  `index.html` or `*.html` segments: `/index.html` resolves to
  `"index.html"` and `/a/../` to `".."` (`Router.PathExamples`).
- After a failed text load the code does not touch the audio player panel.
  The panel keeps whatever visibility it had, rather than being hidden. Title,
  body and audio source are also left as they were (`Loader.Load`).
- The welcome body and the error message are written as markup
  (`innerHTML`). The error markup interpolates the page name without
  escaping. The title and the fetched text are inserted verbatim (`textContent`).

## Model

| member | source | states |
|---|---|---|
| Strings.Split | script.js:16 | `split` always yields at least one piece, even for the empty string |
| Strings.SplitPiecesSeparatorFree | script.js:16 | no piece of a split contains the separator |
| Strings.JoinSplit | script.js:16 | joining the pieces of a split with the separator gives back the original string: splitting loses nothing |
| Strings.SplitJoin | script.js:90-92 | splitting the join of separator-free pieces gives back exactly those pieces (the inverse direction) |
| Router.CurrentPage | script.js:6-18 | a present, non-empty `page` parameter is returned unchanged whatever the path; otherwise the result is the reference last segment of the path |
| Router.PathPageIsLastSegment | script.js:15-17 | splitting the path on `/`, dropping empty segments and taking the last (or `""`) equals the final slash-free run after trailing slashes are ignored |
| Router.PathPageShape | script.js:16-17 | the page taken from the path contains no `/`, and it is `""` exactly when the path consists of slashes only |
| Router.EmptyParamFallsThrough | script.js:9-12 | an empty `page` parameter is falsy and resolves exactly as an absent one |
| Router.PathExamples | script.js:6-18 | `/index.html` gives `index.html`, `/a/../` gives `..`, and a parameter beats the path: there is no sanitising and no `.html` special case |
| Router.SegmentBeforeTrailingSlashes | script.js:16 | a non-empty slash-free segment after a slash, followed only by slashes, is the page the path names |
| Title.FormatTitleIsTitleChars | script.js:88-93 | the title has the name's length, and at every position a hyphen becomes a space, a word's first character is upper-cased and any other character is kept |
| Title.FormatTitleSnoc | script.js:88-93 | appending a character to the name appends exactly its title character to the title |
| Title.FormatTitleSpaces | script.js:88-93 | the title contains no hyphen, and a title character is a space exactly where the name had a hyphen or a space |
| Title.FormatTitleIdempotent | script.js:88-93 | formatting an already formatted title changes nothing |
| Title.FormatTitleEmpty | script.js:88-93 | the empty name has the empty title |
| Title.TitleWordsAreCapitalizedWords | script.js:89-92 | for a name without spaces, splitting the title on spaces gives exactly the hyphen-separated words, each with its first character upper-cased |
| Title.FormatTitleExample | script.js:88-93 | `st-peters-church` becomes `St Peters Church` |
| Loader.Load | script.js:21-85 | every load settles with loading hidden and exactly one of error and display visible. Empty name: welcome page, no request, audio panel hidden. Failed or rejected text request: error markup containing the page name, only the text request issued, and title, body, audio panel and audio source untouched. Successful text: title `FormatTitle(page)`, the text verbatim, requests `content/<p>.txt` then a HEAD to `content/<p>.mp3`, and the audio panel shown, source set and reloaded exactly when the probe was ok. The error state is entered exactly when a named page's text fails |
| Loader.ProbeNeverFailsLoad | script.js:53-62 | the probe's outcome (ok, not ok or rejected) never changes the error and display flags, the title, the body or the requests |
| Loader.TextFailuresAgree | script.js:45-50 | a rejected text request and a non-ok response end in the same result |
| Loader.VisibilityIndependentOfPrior | script.js:30-33 | the final loading, error and display flags never depend on the view before the load |
| Navigation.SlashFreePageStaysInContent | script.js:47-56 | for a page name without `/`, every request URL is `content/` followed by a slash-free file name |
| Navigation.PathPageStaysInContent | script.js:14-17 | a page resolved from the path puts no further `/` after `content/` in any request URL |
| Navigation.ParamPageCanLeaveContent | script.js:9-11 | the parameter `../index` is used as it is, so the request made is `content/../index.txt` |

## Left out

- Document access (`getElementById`, `style.display`, `querySelector`, `audioEl.load()`) is abstracted to the `View` record and the `audioReloaded` flag.
- `fetch`, `await` and the HEAD request mechanics are left out; the outcomes of the two requests are inputs of `Load`.
- The intermediate loading state is not part of the result. `ShowLoading` is applied first, but only the state after the load is returned.
- Overlapping navigations are not modelled: the code has no guard against a stale load overwriting a newer one.
- The `DOMContentLoaded` and `popstate` listener wiring (script.js:96-105) is left out; `Navigation` states what resolving and then loading a page does.
- `URLSearchParams` parsing and percent-decoding are left out; the `page` parameter is an input, already decoded.
- `Title.Upper` upper-cases ASCII letters only; full Unicode `toUpperCase` is left out. That includes characters whose upper-case form has a different length, which would break the length equality.
- `console.error` logging on a failed load is left out.
- `Loader.Load` assumes the document holds every element looked up, including an `<audio>` inside `audio-player`; otherwise `audioEl.load()` throws inside the outer `try` and the code's catch shows the error panel on top of the display, which the model does not represent.
