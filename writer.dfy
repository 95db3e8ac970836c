/**
 The response writers. The plain writer stands for the connection's
 `http.ResponseWriter`: it records what has been sent. The linked writer
 embeds it and rewrites every chunk handed to its `Write` before passing it
 on, so each chunk is rewritten on its own.
 */
module Writer {
  import opened Titles
  import opened Links

  /** The bytes sent on one response, in order. */
  class ResponseWriter {
    var sent: string

    constructor()
      ensures sent == []
    {
      sent := [];
    }

    method Write(p: string)
      modifies this
      ensures sent == old(sent) + p
    {
      sent := sent + p;
    }
  }

  /** `LinkedResponseWriter`: a response writer whose `Write` runs the link rewriter first. */
  class LinkedResponseWriter {
    const inner: ResponseWriter

    constructor(w: ResponseWriter)
      ensures inner == w
    {
      inner := w;
    }

    /** The three passes, in order, each on the text the previous one produced. */
    method Write(p: string)
      modifies inner
      ensures inner.sent == old(inner.sent) + Rewrite(p)
    {
      var text := p;
      text := ReplaceAll(Article, text);
      text := ReplaceAll(Full, text);
      text := ReplaceAll(Naked, text);
      inner.Write(text);
    }
  }

  /** The chunks one after another. */
  function Concat(chunks: seq<string>): string {
    if chunks == [] then [] else chunks[0] + Concat(chunks[1..])
  }

  /** What a linked writer sends for the chunks: each chunk rewritten separately. */
  function RewriteEach(chunks: seq<string>): string {
    if chunks == [] then [] else Rewrite(chunks[0]) + RewriteEach(chunks[1..])
  }

  lemma {:induction false} ConcatAppend(chunks: seq<string>, c: string)
    ensures Concat(chunks + [c]) == Concat(chunks) + c
  {
    if chunks == [] {
      assert [] + [c] == [c];
    } else {
      assert (chunks + [c])[1..] == chunks[1..] + [c];
      ConcatAppend(chunks[1..], c);
    }
  }

  lemma {:induction false} RewriteEachAppend(chunks: seq<string>, c: string)
    ensures RewriteEach(chunks + [c]) == RewriteEach(chunks) + Rewrite(c)
  {
    if chunks == [] {
      assert [] + [c] == [c];
    } else {
      assert (chunks + [c])[1..] == chunks[1..] + [c];
      RewriteEachAppend(chunks[1..], c);
    }
  }

  /** Output without any "[[" is sent the same through either writer. */
  lemma {:induction false} RewriteEachUnlinked(chunks: seq<string>)
    requires forall i :: 0 <= i < |chunks| ==> NoOpen(chunks[i])
    ensures RewriteEach(chunks) == Concat(chunks)
  {
    if chunks != [] {
      RewriteEachUnlinked(chunks[1..]);
    }
  }

  /**
   Chunks are rewritten separately, so a token split across two writes is
   sent unchanged, although the same text in one write would be a link.
   */
  lemma SplitTokenNotLinked(t: string)
    requires |t| > 0 && AllTitleChars(t) && Lacks(t, '[')
    ensures RewriteEach(["[[" + t, "]]"]) == "[[" + t + "]]"
    ensures Rewrite("[[" + t + "]]") == Anchor(Article, t)
  {
    var head := "[[" + t;
    assert Lacks(head, ']') by {
      assert Lacks("[[", ']');
      LacksCat("[[", t, ']');
    }
    LacksCloseNoClose(head);
    var tail: string := "]]";
    assert NoOpen(tail) by {
      forall j: nat
        ensures !Opens(tail, j)
      {
      }
    }
    assert ["[[" + t, "]]"][1..] == ["]]"];
    assert RewriteEach(["]]"]) == Rewrite("]]") + RewriteEach([]);
    ArticleLinkTakesPrecedence(t);
  }
}
