/**
 The page-title grammar of the wiki.

 Both the title validator and the article-link pattern are built on the same
 negated character class: any character except '.', ']' and '/'. The class
 is exclusion-based (spaces, punctuation, non-Latin letters and even '\n' are
 title characters); it is not an alphanumeric allowlist.
 */
module Titles {

  /** One character of the class `[^.\]/]`. */
  predicate IsTitleChar(c: char) {
    c != '.' && c != ']' && c != '/'
  }

  /** Every character of `t` belongs to the title class. */
  predicate AllTitleChars(t: string) {
    forall j :: 0 <= j < |t| ==> IsTitleChar(t[j])
  }

  /**
   Greedy scan of the class `[^.\]/]` starting at index `j`: the index just
   past the longest run of title characters that begins at `j`.
   */
  function TitleRunEnd(s: string, j: nat): (r: nat)
    requires j <= |s|
    ensures j <= r <= |s|
    decreases |s| - j
  {
    if j < |s| && IsTitleChar(s[j]) then TitleRunEnd(s, j + 1) else j
  }

  /** The run is maximal: every character in it is a title character, and the one after it is not. */
  lemma {:induction false} TitleRunEndSpec(s: string, j: nat)
    requires j <= |s|
    ensures forall m :: j <= m < TitleRunEnd(s, j) ==> IsTitleChar(s[m])
    ensures TitleRunEnd(s, j) < |s| ==> !IsTitleChar(s[TitleRunEnd(s, j)])
    decreases |s| - j
  {
    if j < |s| && IsTitleChar(s[j]) {
      TitleRunEndSpec(s, j + 1);
    }
  }

  /**
   The validator `^[^.\]/]+$`: one or more title characters, anchored at both
   ends of the whole path (RE2's `$` without the multi-line flag is the end of
   the text). It accepts exactly the non-empty strings free of '.', ']' and
   '/'.
   */
  function ValidTitle(s: string): (ok: bool)
    ensures ok <==> |s| > 0 && AllTitleChars(s)
  {
    TitleRunEndSpec(s, 0);
    |s| > 0 && TitleRunEnd(s, 0) == |s|
  }

  /** A single forbidden character anywhere in the path rejects it. */
  lemma ForbiddenCharRejects(s: string, j: nat)
    requires j < |s| && (s[j] == '.' || s[j] == ']' || s[j] == '/')
    ensures !ValidTitle(s)
  {
  }

  /** Sample verdicts: the validator is exclusion-based. */
  lemma AcceptedExamples()
    ensures ValidTitle("FrontPage") && ValidTitle("My Page 1")
  {
  }

  /** Punctuation other than '.', ']' and '/', an opening bracket and a line break are all accepted. */
  lemma ExclusionExamples()
    ensures ValidTitle("a-b?c!") && ValidTitle("[x") && ValidTitle("line\nbreak")
  {
  }

  lemma RejectedExamples()
    ensures !ValidTitle("") && !ValidTitle("../etc") && !ValidTitle("a.b")
    ensures !ValidTitle("a]b") && !ValidTitle("a/b")
  {
    ForbiddenCharRejects("../etc", 0);
    ForbiddenCharRejects("a.b", 1);
    ForbiddenCharRejects("a]b", 1);
    ForbiddenCharRejects("a/b", 1);
  }
}
