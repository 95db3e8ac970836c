/**
 Request handling: the request multiplexer with its three `handleWithPrefix`
 routes and the root redirect, the title gate in front of every handler,
 the view/edit/save handlers, and the rendering of a page through either the
 plain or the link-rewriting writer.

 A response is one of the outcomes the handlers produce. Template
 execution is outside the model: a rendered response names the template and
 the page, and the text the template produces is a parameter of `Render`.
 */
module Server {
  import opened Wrappers
  import opened Titles
  import opened Links
  import opened Writer
  import opened Store

  datatype Response =
    | Redirect(location: string)
    | NotFound
    | RenderView(page: Page)
    | RenderEdit(page: Page)
    | ServerError(msg: string)

  datatype Handler = Viewer | Editor | Saver

  /** What the multiplexer and the title gate do with a request path. */
  datatype Route =
    | Call(handler: Handler, title: string)  // the handler runs on this title
    | Reject                                 // the title gate answers "not found"
    | Moved(location: string)                // a redirect, no handler runs

  /** The prefix each handler is registered under. */
  function Prefix(h: Handler): string {
    match h
    case Viewer => "/view/"
    case Editor => "/edit/"
    case Saver => "/save/"
  }

  /** `path` lies in the subtree registered as `pre`. */
  predicate Under(path: string, pre: string) {
    |pre| <= |path| && path[..|pre|] == pre
  }

  /** The handler whose prefix the path is under, if any. */
  function HandlerFor(path: string): (h: Option<Handler>)
    ensures h.Some? ==> Under(path, Prefix(h.value))
    ensures h.None? ==> forall g: Handler :: !Under(path, Prefix(g))
  {
    if Under(path, "/view/") then Some(Viewer)
    else if Under(path, "/edit/") then Some(Editor)
    else if Under(path, "/save/") then Some(Saver)
    else None
  }

  /**
   The `validator` closure of `handleWithPrefix`: after the prefix is
   stripped, the rest of the path is the title, and the handler runs only if
   the title validator accepts it.
   */
  function Gate(h: Handler, title: string): (r: Route)
    ensures r.Call? <==> ValidTitle(title)
    ensures r.Call? ==> r == Call(h, title)
    ensures !r.Call? ==> r == Reject
  {
    if ValidTitle(title) then Call(h, title) else Reject
  }

  /**
   The multiplexer. A path under a registered prefix goes through the gate;
   a registered prefix without its trailing slash is redirected to it; any
   other path falls to the root pattern and is redirected to the front page.
   */
  function Dispatch(path: string): (r: Route)
    ensures r.Call? ==> ValidTitle(r.title) && path == Prefix(r.handler) + r.title
    ensures r.Reject? ==> exists h: Handler :: Under(path, Prefix(h)) && !ValidTitle(path[|Prefix(h)|..])
    ensures r.Moved? <==> HandlerFor(path).None?
    ensures r.Moved? ==>
      r.location == (if path == "/view" || path == "/edit" || path == "/save" then path + "/" else "/view/FrontPage")
  {
    match HandlerFor(path)
    case Some(h) =>
      var n := |Prefix(h)|;
      var r := Gate(h, path[n..]);
      assert r.Call? ==> path == Prefix(h) + r.title by {
        assert path == path[..n] + path[n..];
      }
      r
    case None =>
      if path == "/view" || path == "/edit" || path == "/save" then Moved(path + "/")
      else Moved("/view/FrontPage")
  }

  /** The root pattern: a path under no handler's prefix goes to the front page. */
  lemma RootRedirects(path: string)
    requires HandlerFor(path).None? && path != "/view" && path != "/edit" && path != "/save"
    ensures Dispatch(path) == Moved("/view/FrontPage")
  {
  }

  /** Every handler is reached with, and only with, a title the validator accepts. */
  lemma HandlerSeesValidTitle(h: Handler, t: string)
    ensures Dispatch(Prefix(h) + t) == (if ValidTitle(t) then Call(h, t) else Reject)
  {
    var path := Prefix(h) + t;
    assert path[..|Prefix(h)|] == Prefix(h) && path[|Prefix(h)|..] == t;
  }

  /** `viewHandler`: a stored page is rendered through the link rewriter; a missing one redirects to its edit page. */
  function ViewHandler(files: Files, title: string): (r: Response)
    ensures r.RenderView? <==> FileName(title) in files
    ensures r.RenderView? ==> r.page == Page(title, files[FileName(title)])
    ensures !r.RenderView? ==> r == Redirect("/edit/" + title)
  {
    match Load(files, title)
    case Ok(p) => RenderView(p)
    case Err(_) => Redirect("/edit/" + title)
  }

  /** `editHandler`: always renders the edit form, with an empty body for a missing page. */
  function EditHandler(files: Files, title: string): (r: Response)
    ensures r.RenderEdit? && r.page.title == title
    ensures r.page.body == if FileName(title) in files then files[FileName(title)] else ""
  {
    match Load(files, title)
    case Ok(p) => RenderEdit(p)
    case Err(_) => RenderEdit(Page(title, ""))
  }

  /** The response `saveHandler` gives for the error `Page.save` returned. */
  function SaveResponse(title: string, err: Option<string>): (r: Response)
    ensures err.None? <==> r.Redirect?
    ensures err.None? ==> r == Redirect("/view/" + title)
    ensures err.Some? ==> r == ServerError(err.value)
  {
    match err
    case None => Redirect("/view/" + title)
    case Some(msg) => ServerError(msg)
  }

  /** A page saved without error is then shown by view, and offered for editing, with the saved body. */
  lemma SaveThenView(files: Files, t: string, body: string)
    ensures ViewHandler(Save(files, Page(t, body), None).0, t) == RenderView(Page(t, body))
    ensures EditHandler(Save(files, Page(t, body), None).0, t) == RenderEdit(Page(t, body))
  {
    LoadAfterSave(files, Page(t, body));
  }

  /** The wiki's `data/` directory, shared by all requests. */
  class Wiki {
    var files: Files

    constructor(initial: Files)
      ensures files == initial
    {
      files := initial;
    }

    /** `Page.save`: writes the page's file; may fail at open, write or close. */
    method SavePage(p: Page, fault: Option<Fault>) returns (err: Option<string>)
      modifies this
      ensures (files, err) == Save(old(files), p, fault)
    {
      err := if fault.Some? then Some(FaultMessage(fault.value)) else None;
      var c := Written(p.body, fault);
      if c.Some? {
        files := files[FileName(p.title) := c.value];
      }
    }

    /** `saveHandler`: stores the submitted body unchanged, then redirects to the view page or reports the error. */
    method SaveHandler(title: string, body: string, fault: Option<Fault>) returns (r: Response)
      modifies this
      ensures files == Save(old(files), Page(title, body), fault).0
      ensures fault.None? ==> r == Redirect("/view/" + title)
      ensures fault.Some? ==> r == ServerError(FaultMessage(fault.value))
    {
      var err := SavePage(Page(title, body), fault);
      r := SaveResponse(title, err);
    }

    /**
     One request: `path` is the URL path, `body` the value of the form field
     "body" ("" when absent), and `fault` how the file write fails, if it does.
     Only a save request that passes the gate touches the directory.
     */
    method Serve(path: string, body: string, fault: Option<Fault>) returns (r: Response)
      modifies this
      ensures Dispatch(path).Moved? ==> r == Redirect(Dispatch(path).location) && files == old(files)
      ensures Dispatch(path).Reject? ==> r == NotFound && files == old(files)
      ensures Dispatch(path).Call? && Dispatch(path).handler == Viewer ==>
        r == ViewHandler(old(files), Dispatch(path).title) && files == old(files)
      ensures Dispatch(path).Call? && Dispatch(path).handler == Editor ==>
        r == EditHandler(old(files), Dispatch(path).title) && files == old(files)
      ensures Dispatch(path).Call? && Dispatch(path).handler == Saver ==>
        && files == Save(old(files), Page(Dispatch(path).title, body), fault).0
        && r == SaveResponse(Dispatch(path).title, Save(old(files), Page(Dispatch(path).title, body), fault).1)
    {
      match Dispatch(path)
      case Moved(loc) =>
        r := Redirect(loc);
      case Reject =>
        r := NotFound;
      case Call(h, title) =>
        match h
        case Viewer =>
          r := ViewHandler(files, title);
        case Editor =>
          r := EditHandler(files, title);
        case Saver =>
          r := SaveHandler(title, body, fault);
    }
  }

  /**
   `renderTemplate`: the template's output chunks are written to the
   connection, through the link rewriter for the view page only.
   */
  method Render(w: ResponseWriter, r: Response, chunks: seq<string>)
    requires r.RenderView? || r.RenderEdit?
    modifies w
    ensures r.RenderView? ==> w.sent == old(w.sent) + RewriteEach(chunks)
    ensures r.RenderEdit? ==> w.sent == old(w.sent) + Concat(chunks)
  {
    if r.RenderView? {
      var lw := new LinkedResponseWriter(w);
      WriteLinked(lw, chunks);
    } else {
      WritePlain(w, chunks);
    }
  }

  /** Each chunk goes through its own call of the linked writer's `Write`. */
  method WriteLinked(lw: LinkedResponseWriter, chunks: seq<string>)
    modifies lw.inner
    ensures lw.inner.sent == old(lw.inner.sent) + RewriteEach(chunks)
  {
    var i := 0;
    while i < |chunks|
      invariant 0 <= i <= |chunks|
      invariant lw.inner.sent == old(lw.inner.sent) + RewriteEach(chunks[..i])
    {
      var before := lw.inner.sent;
      lw.Write(chunks[i]);
      LinkedStep(old(lw.inner.sent), chunks[..i], chunks[i], before, lw.inner.sent);
      TakeOneMore(chunks, i);
      i := i + 1;
    }
    assert chunks[..i] == chunks;
  }

  lemma LinkedStep(sent0: string, done: seq<string>, c: string, before: string, after: string)
    requires before == sent0 + RewriteEach(done) && after == before + Rewrite(c)
    ensures after == sent0 + RewriteEach(done + [c])
  {
    RewriteEachAppend(done, c);
    Regroup(sent0, RewriteEach(done), Rewrite(c));
  }

  /** Regrouping the text sent so far, with its parts left abstract. */
  lemma Regroup(a: string, b: string, c: string)
    ensures (a + b) + c == a + (b + c)
  {
  }

  lemma TakeOneMore<T>(xs: seq<T>, i: nat)
    requires i < |xs|
    ensures xs[..i + 1] == xs[..i] + [xs[i]]
  {
  }

  method WritePlain(w: ResponseWriter, chunks: seq<string>)
    modifies w
    ensures w.sent == old(w.sent) + Concat(chunks)
  {
    var i := 0;
    while i < |chunks|
      invariant 0 <= i <= |chunks|
      invariant w.sent == old(w.sent) + Concat(chunks[..i])
    {
      w.Write(chunks[i]);
      ConcatAppend(chunks[..i], chunks[i]);
      assert chunks[..i + 1] == chunks[..i] + [chunks[i]];
      i := i + 1;
    }
    assert chunks[..i] == chunks;
  }
}
