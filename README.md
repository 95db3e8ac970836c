# A verified model of the Go wiki server

`wiki.go` is the Go web application from the "Writing Web Applications"
article. It stores one text file per page under `data/`. It serves each page
under `/view/<title>`, edits it under `/edit/<title>` and saves it with
`/save/<title>`. When it shows a page, it turns `[[...]]` tokens into HTML
links. This project models the logic of that program in Dafny and proves
properties about it.

The model is split into six modules, one file each:

- `titles.dfy`, module `Titles`. The title validator `^[^.\]/]+$`. It is
  built on the character class `[^.\]/]`, which it shares with the
  article-link pattern. The validator works by exclusion: it accepts any
  non-empty text without '.', ']' and '/'.
- `links.dfy`, module `Links`. The link rewriter. Each of the three
  `regexp.ReplaceAllString` passes is a scanner written out by hand:
  - `MatchAt` reports the match RE2 finds at one index (leftmost-first;
    `+?` lazy; `.` excludes '\n' but the negated class does not).
  - `First` takes one step of the replace-all scan. `Scan` cuts the text
    into copied characters and matched tokens.
  - `ReplaceAll` emits the anchor of each token. `Rewrite` runs the three
    passes in source order.
- `writer.dfy`, module `Writer`. The response writer that records what was
  sent, and `LinkedResponseWriter`, which wraps it. Its `Write` sends each
  chunk through the three passes before it is written.
- `store.dfy`, module `Store`. Pages and the `data/` directory, kept as a
  map from file name to contents.
  - The file name is `"data/" + title + ".txt"`.
  - `Save` is `ioutil.WriteFile`, which can fail at open, at write (leaving
    the bytes written so far) or at close.
  - `Load` is `loadPage`.
- `server.dfy`, module `Server`. Request handling:
  - the multiplexer, with its three prefixes and the root redirect;
  - the title gate in front of every handler;
  - the view, edit and save handlers as outcomes of a `Response` datatype;
  - the `Wiki` class, whose `files` field is the directory that `save`
    updates in place;
  - `Render`, which writes the template's output through the linked writer
    for view and through the plain writer for edit.
- `wrappers.dfy`, module `Wrappers`. `Option` and `Result`.

Two behaviours of the code are worth stating outright:

- **Titles are checked by exclusion.** The validator `^[^.\]/]+$` refuses
  only '.', ']' and '/'. So `a-b?c!`, `[x` and a title containing a line
  break are all accepted (`Titles.ExclusionExamples`).
- **The rewriter is not idempotent.** A later pass can re-match the anchor
  markup an earlier pass produced. In `[[[[a]]]]` the article pass captures
  `[[a`. The naked pass then matches from the `[[` inside the generated href
  up to the trailing `]]` (`Links.NakedPassRewrapsAnchor`). The same capture
  rule makes `[[[[a]]` come out as `<a href="/view/[[a">[[a</a>`
  (`Links.NestedOpenCaptured`).

## Model

| member | source | states |
|---|---|---|
| Titles.ValidTitle | wiki.go:89 | the validator accepts exactly the non-empty strings all of whose characters are title characters, anchored at both ends |
| Titles.TitleRunEnd | wiki.go:89 | the greedy run of `[^.\]/]` that starts at an index ends within the text, at or after the start |
| Titles.TitleRunEndSpec | wiki.go:89 | the greedy run of `[^.\]/]` holds only title characters and stops at the first non-title character |
| Titles.ForbiddenCharRejects | wiki.go:89 | a single '.', ']' or '/' anywhere in the path makes the validator reject it |
| Titles.AcceptedExamples | wiki.go:89 | `FrontPage` and `My Page 1` are valid titles |
| Titles.ExclusionExamples | wiki.go:89 | punctuation other than '.', '/' and ']', and also '[' and '\n', are title characters: the class is exclusion-based |
| Titles.RejectedExamples | wiki.go:89 | the empty path, `../etc`, `a.b`, `a]b` and `a/b` are rejected |
| Links.CloseFrom | wiki.go:30-31 | the lazy scan for the closing "]]" reports a position from which "]]" still fits inside the text |
| Links.CloseFromSpec | wiki.go:30-31 | the lazy `.+?\]\]` scan finds the first "]]" reachable without crossing '\n', and fails only if there is none |
| Links.MatchAtSpec | wiki.go:29-31 | the match reported at an index is a match of the pattern, no shorter match exists there, and None means no match at all starts there |
| Links.ArticleCaptureIsRun | wiki.go:29 | an article-link capture is the whole greedy run of title characters after "[[", so the article match at an index is unique |
| Links.FirstSource | wiki.go:35-37 | one scan step consumes exactly the text of the piece it emits |
| Links.FirstToken | wiki.go:35-37 | when the pattern matches at the scan position, the shortest match becomes the token and the scan resumes after its "]]" |
| Links.FirstCopies | wiki.go:35-37 | when no match starts at the scan position, one character is copied and the scan moves on by one |
| Links.ScanSource | wiki.go:35-37 | the scanned pieces put back together give exactly the input: replace-all neither drops nor reorders text |
| Links.MatchAt | wiki.go:29-31 | the match reported at an index lies inside the text, with a non-empty capture (its `[[...]]` shape is stated by `MatchAtSpec`) |
| Links.First | wiki.go:35-37 | one step of the replace-all scan always advances, and never beyond the end of the text |
| Links.Scan | wiki.go:35-37 | the scan cuts the rest of the text into at least one piece and no more pieces than characters |
| Links.ScanTokensAccepted | wiki.go:29-31 | every token a pass replaces is a capture its pattern accepts |
| Links.MatchAtShift | wiki.go:35-37 | the match at an index does not depend on the text before the index |
| Links.ScanShift | wiki.go:35-37 | the scan from an index sees only the text from that index on |
| Links.ScanAcross | wiki.go:35-37 | text in which no match starts is copied to the output unchanged and in order |
| Links.PlainPrefix | wiki.go:35-37 | a prefix without '[' passes through a pass untouched, followed by the pass's output on the rest |
| Links.ReplaceAll | wiki.go:35-37 | `regexp.ReplaceAllString` for one pattern: a pass whose pattern matches nowhere in the text returns the text unchanged |
| Links.Rewrite | wiki.go:33-37 | the article, full and naked passes in that order; text with no "[[", or with no "]]", is returned unchanged |
| Links.TokenPrefix | wiki.go:29-37 | an accepted `[[t]]` whose `t` holds no ']', at the head of the text, becomes the pattern's anchor with `t` inserted unescaped, and the pass goes on after it |
| Links.RefusedTokenPrefix | wiki.go:29-37 | a non-empty `[[t]]` with no '[' or ']' in `t`, whose inner text the pattern refuses (for the full-link pattern, with `t` longer than four characters), is copied through unchanged |
| Links.AnchorShape | wiki.go:35-37 | the replacement template `Anchor`: the capture goes verbatim, with no escaping, into the href (as `/view/$1`, `$1` or `http://$1`, built by `Href`) and into the link text |
| Links.AnchorLacks | wiki.go:35-37 | the replacement templates add no '[' or ']' of their own |
| Links.ArticleLinkTakesPrecedence | wiki.go:35-37 | a text that is exactly one title-shaped token `[[t]]` becomes `Anchor(Article, t)`, even when `t` starts with "http": the article pass runs first, and the anchor holds no "]]", so the later passes leave it alone |
| Links.HttpTitleIsArticle | wiki.go:35-37 | `[[httpx]]` becomes `<a href="/view/httpx">httpx</a>`, not an external link |
| Links.NestedOpenCaptured | wiki.go:29 | `[[[[a]]` becomes `<a href="/view/[[a">[[a</a>`, which still contains "[[" |
| Links.NoTNoFullMatch | wiki.go:30 | text without a 't' cannot contain a full-link match |
| Links.NakedPassRewrapsAnchor | wiki.go:35-37 | in `[[[[a]]]]` the naked pass re-matches inside the href the article pass generated |
| Links.EmptyBracketsUnchanged | wiki.go:29-31 | `[[]]` holds no inner character, so every pattern refuses it and it is left as it is |
| Links.ThreeKindsRewrite | wiki.go:33-38 | one article link, one full link and one naked link, each rewritten by its own pass, with the text between them kept in order. This holds when: no connector and no capture contains '['; the full-link and naked captures contain no ']'; the naked capture is longer than four characters; and the same connector stands between both pairs of links |
| Links.SampleSentence | wiki.go:33-38 | `Visit [[FrontPage]] or [[http://go.dev]] or [[go.dev]]` rewrites to a wiki link, an external link and an `http://` link |
| Writer.LinkedResponseWriter.Write | wiki.go:33-39 | the chunk is sent after the article, full and naked passes, in that order |
| Writer.RewriteEachAppend | wiki.go:33-38 | a linked writer's output for one more chunk is its earlier output followed by that chunk rewritten |
| Writer.RewriteEachUnlinked | wiki.go:56 | output without "[[" is sent the same through the linked writer as through the plain one |
| Writer.SplitTokenNotLinked | wiki.go:33-38 | each `Write` is rewritten on its own, so a token split across two writes is not linked |
| Store.FileName | wiki.go:17 | the file name is `data/`, then the title, then `.txt` |
| Store.FileNameInjective | wiki.go:17 | two titles give the same file name exactly when they are equal |
| Store.FileNameStaysInData | wiki.go:17 | for a validated title the only '/' of the file name is the one after `data`, and the title part has no '.' |
| Store.Load | wiki.go:41-48 | loading succeeds exactly when the page's file exists, and returns the title with the file's contents |
| Store.Written | wiki.go:18 | the file is untouched if open fails, otherwise it holds a prefix of the body, and the whole body unless the write failed |
| Store.Save | wiki.go:16-19 | save reports an error exactly when a fault occurs, and changes no file but the page's own |
| Store.LoadAfterSave | wiki.go:16-19 | a page saved without error loads back with exactly its title and body |
| Store.SaveLeavesOthers | wiki.go:16-19 | saving one page leaves every other title's load result as it was |
| Store.LoadMissing | wiki.go:41-48 | a page never saved loads as the read error, not as an empty page |
| Store.FailedSaveLoads | wiki.go:16-19 | after a failed save the page loads as before, or with a prefix of the submitted body |
| Server.HandlerFor | wiki.go:108-110 | finds the registered prefix a path lies under, and None only when it lies under none |
| Server.Gate | wiki.go:92-101 | the handler runs exactly when the stripped title is valid, otherwise the answer is "not found" |
| Server.Dispatch | wiki.go:104-111 | a handler is reached only with a valid title that is the path minus its prefix; a rejection always has an invalid title; a redirect happens exactly when no prefix applies, to the prefix with its slash for a bare `/view`, `/edit` or `/save`, and to `/view/FrontPage` otherwise |
| Server.RootRedirects | wiki.go:111 | a path under no handler prefix, other than a bare `/view`, `/edit` or `/save` (which the mux redirects to the same path with its slash), is redirected to `/view/FrontPage` |
| Server.HandlerSeesValidTitle | wiki.go:92-104 | `/view/T`, `/edit/T` and `/save/T` call their handler with `T` when `T` is valid, and give "not found" otherwise |
| Server.ViewHandler | wiki.go:50-57 | view renders the stored page exactly when its file exists, otherwise redirects to `/edit/T` |
| Server.EditHandler | wiki.go:59-65 | edit always renders the edit form, with the stored body or "" for a missing page |
| Server.SaveResponse | wiki.go:70-74 | save redirects to `/view/T` exactly when no error occurred, otherwise reports the error text |
| Server.SaveThenView | wiki.go:50-75 | after a save without error, view and edit both show the page with exactly the saved body |
| Server.Wiki.SavePage | wiki.go:16-19 | the directory and the error afterwards are those `Store.Save` describes |
| Server.Wiki.SaveHandler | wiki.go:67-75 | the submitted body is stored unchanged; success redirects to `/view/T`, and failure gives a server error with the failure message |
| Server.Wiki.Serve | wiki.go:92-111 | a redirect or a rejected title leaves the directory as it was; view and edit only read it; only a gated save writes it |
| Server.Render | wiki.go:56-64 | view output is sent through the link rewriter chunk by chunk, and edit output is sent as it is |
| Server.WriteLinked | wiki.go:56 | every chunk passes through its own linked `Write`, so the connection receives each chunk rewritten, in order |
| Server.WritePlain | wiki.go:64 | the edit page's chunks reach the connection unchanged and in order |

## Left out

- Networking and the HTTP machinery are not modelled: `ListenAndServe`, request parsing, headers and status codes. Status codes are not modelled: the mux's 301 and the handlers' 302 are both `Redirect`.
- The mux's path cleaning (a path holding `..` or `//` is redirected to its cleaned form) and host-specific patterns are not modelled. `Dispatch` routes the path as given.
- `http.StripPrefix` is modelled as dropping the first six characters of a path already known to start with the prefix. Its handling of the raw (escaped) path is not modelled.
- `html/template` parsing and execution are not modelled. The text a template produces is the `chunks` parameter of `Render`. Template execution errors, and the 500 response `renderTemplate` then appends, are not modelled.
- File I/O is a map from file name to contents. The `0600` permission bits are not modelled. Read errors other than a missing file are not modelled: every existing file is readable.
- Store.SaveLeavesOthers: holds because the directory is a map keyed by file-name text. The map does not model how the operating system resolves names: `..` and `.` path segments, or case folding. `Page.save` and `loadPage` do not check titles themselves; the gate in front of the handlers keeps '.' and '/' out of every title (`Store.FileNameStaysInData`).
- Store.Written: how many bytes a failing write leaves in the file is a parameter of the fault, not derived from the operating system.
- Concurrent requests, including the lost-update race between two saves, are not modelled. Each request runs on its own.
- Writer.LinkedResponseWriter.Write: the `(int, error)` result is not returned. The count Go reports is the length of the rewritten text.
- Text is a sequence of characters, with one character per code point. Go's byte-level handling of invalid UTF-8 in `regexp` is not modelled.
- The form value `body` is a parameter of `Serve` ("" when the field is absent). Form parsing is not modelled.
- Links.NakedPassRewrapsAnchor: only this one input is proved. No general statement about when a pass re-matches earlier output is made.
