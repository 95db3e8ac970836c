/**
 Pages and the directory they are kept in. The `data/` directory is a map
 from file name to file contents; `Save` is `ioutil.WriteFile`, which opens
 the file (creating or truncating it), writes the body, then closes it, and
 may fail at each of those steps.
 */
module Store {
  import opened Wrappers
  import opened Titles

  datatype Page = Page(title: string, body: string)

  /** The directory: file name to contents. */
  type Files = map<string, string>

  /** Where `WriteFile` fails, with the error text it returns. */
  datatype Fault =
    | OpenFailed(msg: string)
    | WriteFailed(written: nat, msg: string)  // the first `written` bytes reached the file
    | CloseFailed(msg: string)

  /** The file a page is kept in. */
  function FileName(title: string): (f: string)
    ensures |f| == |title| + 9
    ensures f[..5] == "data/" && f[5..|f| - 4] == title && f[|f| - 4..] == ".txt"
  {
    var f := "data/" + title + ".txt";
    assert f[5..|f| - 4] == title;
    f
  }

  /** Distinct titles never share a file. */
  lemma FileNameInjective(a: string, b: string)
    ensures FileName(a) == FileName(b) <==> a == b
  {
    if FileName(a) == FileName(b) {
      var f := FileName(a);
      assert a == f[5..|f| - 4] == b;
    }
  }

  /**
   A validated title names a file directly inside `data/`: the only '/' of
   the file name is the one after `data`, and the title part holds no '.',
   so it is neither `.` nor `..`.
   */
  lemma FileNameStaysInData(t: string)
    requires ValidTitle(t)
    ensures forall j :: 0 <= j < |FileName(t)| && FileName(t)[j] == '/' ==> j == 4
    ensures forall j :: 5 <= j < |FileName(t)| - 4 ==> FileName(t)[j] != '.'
  {
    var f := FileName(t);
    forall j | 0 <= j < |f|
      ensures f[j] == '/' ==> j == 4
      ensures 5 <= j < |f| - 4 ==> f[j] != '.'
    {
      if j < 5 {
        assert f[j] == f[..5][j];
      } else if j < |f| - 4 {
        assert f[j] == t[j - 5];
      } else {
        assert f[j] == f[|f| - 4..][j - (|f| - 4)];
      }
    }
  }

  /** The text of the error `ioutil.ReadFile` returns for a missing file. */
  function MissingFile(f: string): string {
    "open " + f + ": no such file or directory"
  }

  /** `loadPage`: the page read back from its file, or the read error. */
  function Load(files: Files, title: string): (r: Result<Page>)
    ensures r.Ok? <==> FileName(title) in files
    ensures r.Ok? ==> r.value.title == title && r.value.body == files[FileName(title)]
  {
    var f := FileName(title);
    if f in files then Ok(Page(title, files[f])) else Err(MissingFile(f))
  }

  /** The contents `WriteFile` leaves in the file, or None where it never opened it. */
  function Written(body: string, fault: Option<Fault>): (c: Option<string>)
    ensures c.Some? <==> !(fault.Some? && fault.value.OpenFailed?)
    ensures c.Some? ==> c.value <= body
    ensures (fault.None? || fault.value.CloseFailed?) ==> c == Some(body)
  {
    match fault
    case None => Some(body)
    case Some(OpenFailed(_)) => None
    case Some(WriteFailed(n, _)) => Some(if n < |body| then body[..n] else body)
    case Some(CloseFailed(_)) => Some(body)
  }

  /** The error `WriteFile` returns. */
  function FaultMessage(fault: Fault): string {
    fault.msg
  }

  /** `Page.save`: the directory afterwards, and the error text if the write failed. */
  function Save(files: Files, p: Page, fault: Option<Fault>): (r: (Files, Option<string>))
    ensures r.1.None? <==> fault.None?
    ensures fault.Some? ==> r.1 == Some(FaultMessage(fault.value))
    ensures r.0.Keys <= files.Keys + {FileName(p.title)}
    ensures forall f :: f in files && f != FileName(p.title) ==> f in r.0 && r.0[f] == files[f]
  {
    var err := if fault.Some? then Some(FaultMessage(fault.value)) else None;
    match Written(p.body, fault)
    case None => (files, err)
    case Some(c) => (files[FileName(p.title) := c], err)
  }

  // ---------------------------------------------------------------------
  // Loading what was saved.

  /** A page saved without error loads back with exactly its title and body. */
  lemma LoadAfterSave(files: Files, p: Page)
    ensures Load(Save(files, p, None).0, p.title) == Ok(p)
  {
  }

  /** Saving one page leaves every other page as it was, present or missing. */
  lemma SaveLeavesOthers(files: Files, p: Page, fault: Option<Fault>, t: string)
    requires t != p.title
    ensures Load(Save(files, p, fault).0, t) == Load(files, t)
  {
    FileNameInjective(t, p.title);
  }

  /** A title never saved loads as an error, not as an empty page. */
  lemma LoadMissing(files: Files, t: string)
    requires FileName(t) !in files
    ensures Load(files, t) == Err(MissingFile(FileName(t)))
  {
  }

  /**
   After a failed save the page loads as before (the file was never opened),
   or its body is a prefix of the submitted one (a short or failed write, or
   the whole body when only the close failed).
   */
  lemma FailedSaveLoads(files: Files, p: Page, fault: Fault)
    ensures var r := Load(Save(files, p, Some(fault)).0, p.title);
      || r == Load(files, p.title)
      || (r.Ok? && r.value.title == p.title && r.value.body <= p.body)
  {
  }
}
