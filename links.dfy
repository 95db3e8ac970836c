/**
 The link rewriter: three replace-all passes over a chunk of rendered text,
 each a left-to-right, leftmost-first, non-overlapping scan for one pattern.

   Article  `\[\[([^.\]/]+)\]\]`  ->  <a href="/view/$1">$1</a>
   Full     `\[\[(http.+?)\]\]`   ->  <a href="$1">$1</a>
   Naked    `\[\[(.+?)\]\]`       ->  <a href="http://$1">$1</a>

 `.` does not match '\n'; the negated class does. `+?` is lazy, so a lazy
 pattern captures the shortest inner text that is followed by "]]". The
 captured text is copied into the anchor without any HTML escaping.
 */
module Links {
  import opened Wrappers
  import opened Titles

  datatype Pattern = Article | Full | Naked

  /** "[[" starts at index i. */
  predicate Opens(s: string, i: nat) {
    i + 2 <= |s| && s[i] == '[' && s[i + 1] == '['
  }

  /** "]]" starts at index k. */
  predicate Closes(s: string, k: nat) {
    k + 2 <= |s| && s[k] == ']' && s[k + 1] == ']'
  }

  /** No '\n' in s[a..b]. */
  predicate NoNewline(s: string, a: nat, b: nat)
    requires a <= b <= |s|
  {
    forall m :: a <= m < b ==> s[m] != '\n'
  }

  /** The text `t` is accepted by the capture group of pattern `p`. */
  predicate Inner(p: Pattern, t: string) {
    match p
    case Article => |t| > 0 && AllTitleChars(t)
    case Full => |t| > 4 && t[..4] == "http" && forall j :: 4 <= j < |t| ==> t[j] != '\n'
    case Naked => |t| > 0 && forall j :: 0 <= j < |t| ==> t[j] != '\n'
  }

  /** Pattern `p` matches s[i..k+2], capturing s[i+2..k]. */
  predicate IsMatch(p: Pattern, s: string, i: nat, k: nat) {
    Opens(s, i) && i + 2 < k && Closes(s, k) && Inner(p, s[i + 2..k])
  }

  /**
   Lazy scan for the closing "]]" of `.+?`: the inner text has been extended
   up to (and including) s[k0 - 1]; the result is the first k >= k0 at which
   "]]" follows, provided no '\n' was crossed on the way.
   */
  function CloseFrom(s: string, k0: nat): (r: Option<nat>)
    requires 1 <= k0
    ensures r.Some? ==> k0 <= r.value && r.value + 2 <= |s|
    decreases |s| + 1 - k0
  {
    if k0 > |s| || s[k0 - 1] == '\n' then None
    else if Closes(s, k0) then Some(k0)
    else CloseFrom(s, k0 + 1)
  }

  /** CloseFrom finds the first "]]" at or after k0, and fails only if none is reachable without crossing '\n'. */
  lemma {:induction false} CloseFromSpec(s: string, k0: nat)
    requires 1 <= k0
    ensures CloseFrom(s, k0).Some? ==>
      var r := CloseFrom(s, k0).value;
      Closes(s, r) && NoNewline(s, k0 - 1, r) && forall k :: k0 <= k < r ==> !Closes(s, k)
    ensures CloseFrom(s, k0).None? ==>
      forall k :: k0 <= k <= |s| && NoNewline(s, k0 - 1, k) ==> !Closes(s, k)
    decreases |s| + 1 - k0
  {
    if k0 <= |s| && s[k0 - 1] != '\n' && !Closes(s, k0) {
      CloseFromSpec(s, k0 + 1);
    }
  }

  /**
   The match of pattern `p` that RE2 reports at index i, as the end k of the
   capture (the match is s[i..k+2]), or None.
   */
  function MatchAt(p: Pattern, s: string, i: nat): (r: Option<nat>)
    requires i <= |s|
    ensures r.Some? ==> i + 2 < r.value && r.value + 2 <= |s|
  {
    if !Opens(s, i) then None
    else match p
      case Article =>
        var e := TitleRunEnd(s, i + 2);
        if i + 2 < e && Closes(s, e) then Some(e) else None
      case Full =>
        if i + 6 <= |s| && s[i + 2..i + 6] == "http" then CloseFrom(s, i + 7) else None
      case Naked =>
        CloseFrom(s, i + 3)
  }

  /**
   MatchAt is leftmost-first RE2 matching anchored at i: it reports the
   shortest match of the pattern there (the only one, for the greedy article
   pattern), and None exactly when the pattern cannot match at i.
   */
  lemma MatchAtSpec(p: Pattern, s: string, i: nat)
    requires i <= |s|
    ensures MatchAt(p, s, i).Some? ==> IsMatch(p, s, i, MatchAt(p, s, i).value)
    ensures MatchAt(p, s, i).Some? ==> forall k: nat :: k < MatchAt(p, s, i).value ==> !IsMatch(p, s, i, k)
    ensures MatchAt(p, s, i).None? ==> forall k: nat :: !IsMatch(p, s, i, k)
  {
    if Opens(s, i) {
      match p
      case Article =>
        TitleRunEndSpec(s, i + 2);
        forall k: nat | IsMatch(Article, s, i, k) {
          ArticleCaptureIsRun(s, i, k);
        }
      case Full =>
        if i + 6 <= |s| && s[i + 2..i + 6] == "http" {
          CloseFromSpec(s, i + 7);
        }
      case Naked =>
        CloseFromSpec(s, i + 3);
    }
  }

  /**
   A capture of the article pattern is the whole greedy run of title
   characters after "[[": the article match at a position, if any, is unique.
   */
  lemma ArticleCaptureIsRun(s: string, i: nat, k: nat)
    requires IsMatch(Article, s, i, k)
    ensures TitleRunEnd(s, i + 2) == k
  {
    TitleRunEndSpec(s, i + 2);
    var t := s[i + 2..k];
    forall m | i + 2 <= m < k
      ensures IsTitleChar(s[m])
    {
      assert s[m] == t[m - (i + 2)];
    }
  }

  /** A piece of the scanned text: a character copied through, or a matched token. */
  datatype Piece = Char(c: char) | Token(capture: string)

  /** The text a piece was scanned from. */
  function PieceSource(x: Piece): string {
    match x
    case Char(c) => [c]
    case Token(t) => "[[" + t + "]]"
  }

  function Source(ps: seq<Piece>): string {
    if ps == [] then [] else PieceSource(ps[0]) + Source(ps[1..])
  }

  /** The href the replacement template builds around the capture. */
  function Href(p: Pattern, t: string): string {
    match p
    case Article => "/view/" + t
    case Full => t
    case Naked => "http://" + t
  }

  /** The replacement template, with `$1` expanded to the capture, unescaped. */
  function Anchor(p: Pattern, t: string): string {
    "<a href=\"" + Href(p, t) + "\">" + t + "</a>"
  }

  /**
   The replacement template, as ReplaceAllString expands it: the capture goes
   verbatim, with no escaping, into the href (behind `/view/` for article
   links, alone for full links, behind `http://` for naked ones) and into the
   link text.
   */
  lemma AnchorShape(p: Pattern, t: string)
    ensures var r, h := Anchor(p, t), Href(p, t);
      && |r| == |h| + |t| + 15
      && r[..9] == "<a href=\"" && r[9..9 + |h|] == h && r[9 + |h|..11 + |h|] == "\">"
      && r[|r| - 4 - |t|..|r| - 4] == t && r[|r| - 4..] == "</a>"
    ensures var h := Href(p, t);
      && |t| <= |h| && h[|h| - |t|..] == t
      && (p == Article ==> h[..|h| - |t|] == "/view/")
      && (p == Full ==> h == t)
      && (p == Naked ==> h[..|h| - |t|] == "http://")
  {
    var h := Href(p, t);
    var r := Anchor(p, t);
    assert r == "<a href=\"" + h + "\">" + t + "</a>";
    assert r[9..9 + |h|] == h && r[|r| - 4 - |t|..|r| - 4] == t;
  }

  function PieceOutput(p: Pattern, x: Piece): string {
    match x
    case Char(c) => [c]
    case Token(t) => Anchor(p, t)
  }

  function Output(p: Pattern, ps: seq<Piece>): string {
    if ps == [] then [] else PieceOutput(p, ps[0]) + Output(p, ps[1..])
  }

  /**
   One step of the replace-all scan at index i: the match RE2 reports there
   becomes a token and the scan resumes after it; otherwise one character is
   copied and the scan moves on by one.
   */
  function First(p: Pattern, s: string, i: nat): (r: (Piece, nat))
    requires i < |s|
    ensures i < r.1 <= |s|
  {
    match MatchAt(p, s, i)
    case Some(k) => (Token(s[i + 2..k]), k + 2)
    case None => (Char(s[i]), i + 1)
  }

  /** The replace-all scan of s from index i, as the pieces it cuts the text into. */
  function Scan(p: Pattern, s: string, i: nat): (r: seq<Piece>)
    requires i <= |s|
    ensures |r| <= |s| - i
    ensures i < |s| ==> |r| > 0
    decreases |s| - i
  {
    if i == |s| then [] else [First(p, s, i).0] + Scan(p, s, First(p, s, i).1)
  }

  /** `regexp.ReplaceAllString` for pattern `p`. */
  function ReplaceAll(p: Pattern, s: string): (r: string)
    ensures NoMatch(p, s) ==> r == s
  {
    NoMatchCopies(p, s);
    Output(p, Scan(p, s, 0))
  }

  /** The three passes, each on the output of the previous one. */
  function Rewrite(text: string): (r: string)
    ensures NoOpen(text) || NoClose(text) ==> r == text
  {
    UnlinkedNoMatch(Article, text);
    UnlinkedNoMatch(Full, text);
    UnlinkedNoMatch(Naked, text);
    ReplaceAll(Naked, ReplaceAll(Full, ReplaceAll(Article, text)))
  }

  // ---------------------------------------------------------------------
  // One step of the scan.

  /** A step consumes exactly the text of the piece it emits. */
  lemma FirstSource(p: Pattern, s: string, i: nat)
    requires i < |s|
    ensures PieceSource(First(p, s, i).0) == s[i..First(p, s, i).1]
  {
    MatchAtSpec(p, s, i);
    match MatchAt(p, s, i)
    case Some(k) =>
      assert s[i..k + 2] == "[[" + s[i + 2..k] + "]]";
    case None =>
  }

  /** A token emitted by a step is a capture the pattern accepts. */
  lemma FirstAccepted(p: Pattern, s: string, i: nat)
    requires i < |s| && First(p, s, i).0.Token?
    ensures Inner(p, First(p, s, i).0.capture)
  {
    MatchAtSpec(p, s, i);
  }

  /** Where the pattern cannot match, the step copies one character. */
  lemma FirstCopies(p: Pattern, s: string, i: nat)
    requires i < |s| && forall k: nat :: !IsMatch(p, s, i, k)
    ensures First(p, s, i) == (Char(s[i]), i + 1)
  {
    MatchAtSpec(p, s, i);
  }

  /** A match at i with no shorter one is the token the step emits. */
  lemma FirstToken(p: Pattern, s: string, i: nat, k: nat)
    requires i < |s| && IsMatch(p, s, i, k)
    requires forall k': nat :: k' < k ==> !IsMatch(p, s, i, k')
    ensures First(p, s, i) == (Token(s[i + 2..k]), k + 2)
  {
    MatchAtSpec(p, s, i);
  }

  lemma SourceCons(x: Piece, rest: seq<Piece>)
    ensures Source([x] + rest) == PieceSource(x) + Source(rest)
  {
    assert ([x] + rest)[1..] == rest;
  }

  lemma OutputCons(p: Pattern, x: Piece, rest: seq<Piece>)
    ensures Output(p, [x] + rest) == PieceOutput(p, x) + Output(p, rest)
  {
    assert ([x] + rest)[1..] == rest;
  }

  /** The output of the scan from i: the first piece's output, then the rest. */
  lemma ScanOutputStep(p: Pattern, s: string, i: nat)
    requires i < |s|
    ensures Output(p, Scan(p, s, i)) == PieceOutput(p, First(p, s, i).0) + Output(p, Scan(p, s, First(p, s, i).1))
  {
    OutputCons(p, First(p, s, i).0, Scan(p, s, First(p, s, i).1));
  }

  lemma Splice(s: string, i: nat, n: nat, whole: string, head: string, tail: string)
    requires i <= n <= |s|
    requires whole == head + tail && head == s[i..n] && tail == s[n..]
    ensures whole == s[i..]
  {
    assert s[i..] == s[i..n] + s[n..];
  }

  lemma SpliceUpTo(s: string, i: nat, n: nat, e: nat, whole: string, head: string, tail: string, rest: string)
    requires i <= n <= e <= |s|
    requires whole == head + tail && head == s[i..n] && tail == s[n..e] + rest
    ensures whole == s[i..e] + rest
  {
    assert s[i..e] == s[i..n] + s[n..e];
  }

  // ---------------------------------------------------------------------
  // The whole scan.

  /**
   The scan loses nothing and reorders nothing: putting the pieces' source
   text back together gives exactly the scanned text.
   */
  lemma {:induction false} ScanSource(p: Pattern, s: string, i: nat)
    requires i <= |s|
    ensures Source(Scan(p, s, i)) == s[i..]
    decreases |s| - i
  {
    if i < |s| {
      var (x, n) := First(p, s, i);
      ScanSource(p, s, n);
      SourceCons(x, Scan(p, s, n));
      FirstSource(p, s, i);
      Splice(s, i, n, Source(Scan(p, s, i)), PieceSource(x), Source(Scan(p, s, n)));
    }
  }

  /** Every token the scan emits is a capture the pattern accepts. */
  lemma {:induction false} ScanTokensAccepted(p: Pattern, s: string, i: nat)
    requires i <= |s|
    ensures forall x :: x in Scan(p, s, i) && x.Token? ==> Inner(p, x.capture)
    decreases |s| - i
  {
    if i < |s| {
      var (x, n) := First(p, s, i);
      ScanTokensAccepted(p, s, n);
      if x.Token? {
        FirstAccepted(p, s, i);
      }
    }
  }

  // ---------------------------------------------------------------------
  // Locality: a match depends only on the text from its start onwards.

  lemma IsMatchShift(p: Pattern, s: string, d: nat, i: nat, k: nat)
    requires d <= i <= |s| && d <= k
    ensures IsMatch(p, s, i, k) <==> IsMatch(p, s[d..], i - d, k - d)
  {
    if i + 2 < k <= |s| {
      assert s[d..][i - d + 2..k - d] == s[i + 2..k];
    }
  }

  function Shift(r: Option<nat>, d: nat): Option<nat> {
    match r
    case None => None
    case Some(k) => Some(k + d)
  }

  /** Cutting off text before index d does not change the match at i. */
  lemma MatchAtShift(p: Pattern, s: string, d: nat, i: nat)
    requires d <= i <= |s|
    ensures MatchAt(p, s, i) == Shift(MatchAt(p, s[d..], i - d), d)
  {
    var r1, r2 := MatchAt(p, s, i), MatchAt(p, s[d..], i - d);
    MatchAtSpec(p, s, i);
    MatchAtSpec(p, s[d..], i - d);
    if r1.Some? {
      IsMatchShift(p, s, d, i, r1.value);
      assert r2.Some? && r2.value <= r1.value - d;
      IsMatchShift(p, s, d, i, r2.value + d);
    } else if r2.Some? {
      IsMatchShift(p, s, d, i, r2.value + d);
    }
  }

  lemma FirstShift(p: Pattern, s: string, d: nat, i: nat)
    requires d <= i < |s|
    ensures First(p, s, i).0 == First(p, s[d..], i - d).0
    ensures First(p, s, i).1 == First(p, s[d..], i - d).1 + d
  {
    MatchAtShift(p, s, d, i);
    match MatchAt(p, s, i)
    case Some(k) =>
      assert s[d..][i - d + 2..k - d] == s[i + 2..k];
    case None =>
  }

  lemma ScanUnfold(p: Pattern, s: string, i: nat)
    requires i < |s|
    ensures Scan(p, s, i) == [First(p, s, i).0] + Scan(p, s, First(p, s, i).1)
  {
  }

  /** The scan from index i sees only s[d..] for any d <= i. */
  lemma {:induction false} ScanShift(p: Pattern, s: string, d: nat, i: nat)
    requires d <= i <= |s|
    ensures Scan(p, s, i) == Scan(p, s[d..], i - d)
    decreases |s| - i
  {
    if i < |s| {
      var n := First(p, s, i).1;
      FirstShift(p, s, d, i);
      ScanShift(p, s, d, n);
      ScanUnfold(p, s, i);
      ScanUnfold(p, s[d..], i - d);
    }
  }

  // ---------------------------------------------------------------------
  // Text that no pattern can start in is copied through in order.

  /** Where no match starts, the output copies the character and goes on. */
  lemma CopyStep(p: Pattern, s: string, i: nat)
    requires i < |s| && MatchAt(p, s, i).None?
    ensures Output(p, Scan(p, s, i)) == [s[i]] + Output(p, Scan(p, s, i + 1))
  {
    ScanOutputStep(p, s, i);
  }

  /** No match starts at any index from i up to e. */
  predicate Unmatched(p: Pattern, s: string, i: nat, e: nat)
    requires i <= e <= |s|
    decreases e - i
  {
    i == e || (MatchAt(p, s, i).None? && Unmatched(p, s, i + 1, e))
  }

  lemma {:induction false} UnmatchedFromAll(p: Pattern, s: string, i: nat, e: nat)
    requires i <= e <= |s|
    requires forall j: nat :: i <= j < e ==> MatchAt(p, s, j).None?
    ensures Unmatched(p, s, i, e)
    decreases e - i
  {
    if i < e {
      UnmatchedFromAll(p, s, i + 1, e);
    }
  }

  /** Scanning across a stretch where no match starts copies it unchanged. */
  lemma {:induction false} ScanAcross(p: Pattern, s: string, i: nat, e: nat)
    requires i <= e <= |s| && Unmatched(p, s, i, e)
    ensures Output(p, Scan(p, s, i)) == s[i..e] + Output(p, Scan(p, s, e))
    decreases e - i
  {
    if i < e {
      var x, y, z := Output(p, Scan(p, s, i)), Output(p, Scan(p, s, i + 1)), Output(p, Scan(p, s, e));
      CopyStep(p, s, i);
      ScanAcross(p, s, i + 1, e);
      CopyAcross(s, i, e, x, y, z);
    }
  }

  lemma CopyAcross(s: string, i: nat, e: nat, x: string, y: string, z: string)
    requires i < e <= |s|
    requires x == [s[i]] + y && y == s[i + 1..e] + z
    ensures x == s[i..e] + z
  {
    assert s[i..e] == [s[i]] + s[i + 1..e];
  }

  /** No match starts where no "[[" does. */
  lemma PlainNoMatchAt(p: Pattern, s: string, i: nat, e: nat)
    requires i <= e <= |s|
    requires forall j: nat :: i <= j < e ==> !Opens(s, j)
    ensures Unmatched(p, s, i, e)
  {
    UnmatchedFromAll(p, s, i, e);
  }

  /** A prefix without '[' passes through a pass untouched. */
  lemma PlainPrefix(p: Pattern, a: string, b: string)
    requires forall j :: 0 <= j < |a| ==> a[j] != '['
    ensures ReplaceAll(p, a + b) == a + ReplaceAll(p, b)
  {
    PlainNoOpen(a, b);
    PlainStretch(p, a + b, |a|);
    assert (a + b)[|a|..] == b && (a + b)[0..|a|] == a;
  }

  lemma PlainStretch(p: Pattern, s: string, n: nat)
    requires n <= |s| && forall j: nat :: j < n ==> !Opens(s, j)
    ensures ReplaceAll(p, s) == s[0..n] + ReplaceAll(p, s[n..])
  {
    PlainNoMatchAt(p, s, 0, n);
    ScanAcross(p, s, 0, n);
    ScanShift(p, s, n, n);
  }

  lemma PlainNoOpen(a: string, b: string)
    requires forall j :: 0 <= j < |a| ==> a[j] != '['
    ensures forall j: nat :: j < |a| ==> !Opens(a + b, j)
  {
    forall j: nat | j < |a|
      ensures !Opens(a + b, j)
    {
      assert (a + b)[j] == a[j];
    }
  }

  /** Pattern `p` matches nowhere in s. */
  ghost predicate NoMatch(p: Pattern, s: string) {
    forall i: nat, k: nat :: !IsMatch(p, s, i, k)
  }

  /** Where the pattern matches nowhere, the scan copies the whole text. */
  lemma NoMatchCopies(p: Pattern, s: string)
    ensures NoMatch(p, s) ==> Output(p, Scan(p, s, 0)) == s
  {
    if NoMatch(p, s) {
      forall j: nat | j < |s|
        ensures MatchAt(p, s, j).None?
      {
        MatchAtSpec(p, s, j);
      }
      UnmatchedFromAll(p, s, 0, |s|);
      ScanAcross(p, s, 0, |s|);
      assert s[0..|s|] == s;
    }
  }

  /** No "[[" anywhere in the text. */
  ghost predicate NoOpen(s: string) {
    forall j: nat :: !Opens(s, j)
  }

  /** No "]]" anywhere in the text. */
  ghost predicate NoClose(s: string) {
    forall k: nat :: !Closes(s, k)
  }

  /** Every pattern begins with "[[" and ends with "]]": text lacking either holds no match. */
  lemma UnlinkedNoMatch(p: Pattern, s: string)
    ensures NoOpen(s) || NoClose(s) ==> NoMatch(p, s)
  {
  }

  // ---------------------------------------------------------------------
  // A token at the head of the text.

  /**
   A token whose inner text the pattern accepts and which holds no ']' is
   the pattern's match; it becomes the anchor, with the capture inserted
   verbatim, and the pass carries on after it.
   */
  lemma TokenPrefix(p: Pattern, t: string, b: string)
    requires Inner(p, t) && forall j :: 0 <= j < |t| ==> t[j] != ']'
    ensures ReplaceAll(p, "[[" + t + "]]" + b) == Anchor(p, t) + ReplaceAll(p, b)
  {
    var s := "[[" + t + "]]" + b;
    var k := |t| + 2;
    TokenSlices(t, b);
    TokenIsFirstMatch(p, t, b);
    FirstToken(p, s, 0, k);
    ScanOutputStep(p, s, 0);
    ScanShift(p, s, k + 2, k + 2);
  }

  lemma TokenSlices(t: string, b: string)
    ensures ("[[" + t + "]]" + b)[2..|t| + 2] == t
    ensures ("[[" + t + "]]" + b)[|t| + 4..] == b
  {
  }

  lemma TokenIsFirstMatch(p: Pattern, t: string, b: string)
    requires Inner(p, t) && forall j :: 0 <= j < |t| ==> t[j] != ']'
    ensures IsMatch(p, "[[" + t + "]]" + b, 0, |t| + 2)
    ensures forall k': nat :: k' < |t| + 2 ==> !IsMatch(p, "[[" + t + "]]" + b, 0, k')
  {
    var s := "[[" + t + "]]" + b;
    var k := |t| + 2;
    assert s[2..k] == t;
    forall k': nat | k' < k
      ensures !IsMatch(p, s, 0, k')
    {
      if 2 < k' {
        assert s[k'] == t[k' - 2];
      }
    }
  }

  /**
   A token free of '[' and ']' whose inner text the pattern refuses is
   copied through unchanged (for the full-link pattern, the inner text is
   longer than "http", so no longer capture can begin with "http" either).
   */
  lemma RefusedTokenPrefix(p: Pattern, t: string, b: string)
    requires |t| > 0 && !Inner(p, t) && (p == Full ==> |t| > 4)
    requires forall j :: 0 <= j < |t| ==> t[j] != '[' && t[j] != ']'
    ensures ReplaceAll(p, "[[" + t + "]]" + b) == "[[" + t + "]]" + ReplaceAll(p, b)
  {
    var s := "[[" + t + "]]" + b;
    var n := |t| + 4;
    RefusedTokenNoMatch(p, t, b);
    FirstCopies(p, s, 0);
    ScanOutputStep(p, s, 0);
    RefusedTokenNoOpen(t, b);
    PlainNoMatchAt(p, s, 1, n);
    ScanAcross(p, s, 1, n);
    ScanShift(p, s, n, n);
    assert s[n..] == b;
    SpliceUpTo(s, 0, 1, n, Output(p, Scan(p, s, 0)), [s[0]], Output(p, Scan(p, s, 1)), Output(p, Scan(p, s, n)));
    assert s[0..n] == "[[" + t + "]]";
  }

  lemma RefusedTokenNoMatch(p: Pattern, t: string, b: string)
    requires |t| > 0 && !Inner(p, t) && (p == Full ==> |t| > 4)
    requires forall j :: 0 <= j < |t| ==> t[j] != ']'
    ensures forall k: nat :: !IsMatch(p, "[[" + t + "]]" + b, 0, k)
  {
    var s := "[[" + t + "]]" + b;
    var n := |t| + 4;
    forall k: nat
      ensures !IsMatch(p, s, 0, k)
    {
      if 2 < k && Closes(s, k) {
        if n - 2 < k {
          var c := s[2..k];
          forall j | 0 <= j < |t|
            ensures c[j] == t[j]
          {
            assert c[j] == s[j + 2];
          }
          assert c[|t|] == s[|t| + 2];
          OverrunRefused(p, t, c);
        } else if k == n - 2 {
          assert s[2..k] == t;
        }
      }
    }
  }

  /**
   A capture running past the refused inner text into its closing "]" is
   refused too: it holds the same '\n', or a ']' the title class excludes.
   */
  lemma OverrunRefused(p: Pattern, t: string, c: string)
    requires |t| > 0 && !Inner(p, t) && (p == Full ==> |t| > 4)
    requires |c| > |t| && c[|t|] == ']' && forall j :: 0 <= j < |t| ==> c[j] == t[j]
    ensures !Inner(p, c)
  {
    match p
    case Article =>
    case Naked =>
      var j :| 0 <= j < |t| && t[j] == '\n';
      assert c[j] == t[j];
    case Full =>
      assert c[..4] == t[..4];
      if t[..4] == "http" {
        var j :| 4 <= j < |t| && t[j] == '\n';
        assert c[j] == t[j];
      }
  }

  lemma RefusedTokenNoOpen(t: string, b: string)
    requires forall j :: 0 <= j < |t| ==> t[j] != '['
    ensures forall j: nat :: 1 <= j < |t| + 4 ==> !Opens("[[" + t + "]]" + b, j)
  {
    var s := "[[" + t + "]]" + b;
    var n := |t| + 4;
    forall j: nat | 1 <= j < n
      ensures !Opens(s, j)
    {
      if j + 1 < n - 2 {
        assert s[j + 1] == t[j - 1];
      } else if j < n - 2 {
        assert s[j + 1] == ']';
      } else {
        assert s[j] == ']';
      }
    }
  }

  // ---------------------------------------------------------------------
  // Anchors and the later passes.

  /** Character c occurs nowhere in s. */
  predicate Lacks(s: string, c: char) {
    forall j :: 0 <= j < |s| ==> s[j] != c
  }

  lemma LacksCat(a: string, b: string, c: char)
    requires Lacks(a, c) && Lacks(b, c)
    ensures Lacks(a + b, c)
  {
    forall j | 0 <= j < |a + b|
      ensures (a + b)[j] != c
    {
      if j < |a| {
        assert (a + b)[j] == a[j];
      } else {
        assert (a + b)[j] == b[j - |a|];
      }
    }
  }

  /** The replacement templates add no bracket of their own. */
  lemma AnchorLacks(p: Pattern, t: string, c: char)
    requires c == '[' || c == ']'
    requires Lacks(t, c)
    ensures Lacks(Anchor(p, t), c)
  {
    var pre: string := "<a href=\"";
    var mid: string := "\">";
    var post: string := "</a>";
    assert Lacks(pre, c) && Lacks(mid, c) && Lacks(post, c);
    match p
    case Article =>
      var v: string := "/view/";
      assert Lacks(v, c);
      LacksCat(v, t, c);
    case Full =>
    case Naked =>
      var h: string := "http://";
      assert Lacks(h, c);
      LacksCat(h, t, c);
    LacksCat(pre, Href(p, t), c);
    LacksCat(pre + Href(p, t), mid, c);
    LacksCat(pre + Href(p, t) + mid, t, c);
    LacksCat(pre + Href(p, t) + mid + t, post, c);
  }

  lemma LacksCloseNoClose(s: string)
    requires Lacks(s, ']')
    ensures NoClose(s)
  {
    forall k: nat
      ensures !Closes(s, k)
    {
      if k < |s| {
        assert s[k] != ']';
      }
    }
  }

  /** The empty text is its own rewrite under every pass. */
  lemma ReplaceAllEmpty(p: Pattern)
    ensures ReplaceAll(p, "") == ""
  {
  }

  /**
   The article pass runs first, so a title-shaped capture becomes a wiki
   link even when it begins with "http"; the anchor it produces has no
   "]]", so the later passes leave it alone.
   */
  lemma ArticleLinkTakesPrecedence(t: string)
    requires |t| > 0 && AllTitleChars(t)
    ensures Rewrite("[[" + t + "]]") == Anchor(Article, t)
  {
    assert "[[" + t + "]]" + "" == "[[" + t + "]]";
    TokenPrefix(Article, t, "");
    ReplaceAllEmpty(Article);
    assert Anchor(Article, t) + "" == Anchor(Article, t);
    AnchorLacks(Article, t, ']');
    LacksCloseNoClose(Anchor(Article, t));
    assert NoMatch(Full, Anchor(Article, t));
    assert NoMatch(Naked, Anchor(Article, t));
  }

  lemma ExampleTitle(s: string, t: string)
    requires s == "[[" + t + "]]" && |t| > 0 && AllTitleChars(t)
    ensures Rewrite(s) == Anchor(Article, t)
  {
    ArticleLinkTakesPrecedence(t);
  }

  lemma HttpxTitle()
    ensures |"httpx"| > 0 && AllTitleChars("httpx") && "[[httpx]]" == "[[" + "httpx" + "]]"
  {
  }

  lemma HttpxAnchor()
    ensures Anchor(Article, "httpx") == "<a href=\"/view/httpx\">httpx</a>"
  {
  }

  lemma NestedTitle()
    ensures |"[[a"| > 0 && AllTitleChars("[[a") && "[[[[a]]" == "[[" + "[[a" + "]]"
  {
  }

  lemma NestedAnchor()
    ensures Anchor(Article, "[[a") == "<a href=\"/view/[[a\">[[a</a>"
  {
  }

  /** `[[httpx]]` is an article link, not an external one. */
  lemma HttpTitleIsArticle(s: string)
    requires s == "[[httpx]]"
    ensures Rewrite(s) == "<a href=\"/view/httpx\">httpx</a>"
  {
    HttpxTitle();
    HttpxAnchor();
    ExampleTitle(s, "httpx");
  }

  /**
   The negated class admits '[', so in `[[[[a]]` the article pattern
   captures `[[a`, which lands inside the anchor.
   */
  lemma NestedOpenCaptured(s: string)
    requires s == "[[[[a]]"
    ensures Rewrite(s) == "<a href=\"/view/[[a\">[[a</a>"
  {
    NestedTitle();
    NestedAnchor();
    ExampleTitle(s, "[[a");
  }

  /** Without a 't' there is no "http", so the full-link pattern cannot match. */
  lemma NoTNoFullMatch(s: string)
    requires Lacks(s, 't')
    ensures NoMatch(Full, s)
  {
    forall i: nat, k: nat
      ensures !IsMatch(Full, s, i, k)
    {
      if i + 6 < k <= |s| {
        assert s[i + 2..k][..4][1] == s[i + 3];
      }
    }
  }

  lemma RewrapArticlePass()
    ensures "[[[[a]]]]" == "[[" + "[[a" + "]]" + "]]"
    ensures |"[[a"| > 0 && AllTitleChars("[[a") && Lacks("[[a", ']')
    ensures Lacks("]]", '[')
  {
  }

  lemma RewrapLiterals()
    ensures Anchor(Article, "[[a") + "]]" == "<a href=\"/view/" + ("[[" + "a\">[[a</a>" + "]]" + "")
    ensures Lacks("<a href=\"/view/", '[') && Lacks("a\">[[a</a>", ']')
    ensures Inner(Naked, "a\">[[a</a>")
  {
  }

  lemma RewrapNoT()
    ensures Lacks(Anchor(Article, "[[a") + "]]", 't')
  {
  }

  /**
   The later passes do re-match inside an anchor an earlier pass produced:
   in `[[[[a]]]]` the article pass captures `[[a`, and the naked pass then
   matches from the "[[" inside the generated href to the trailing "]]".
   */
  lemma NakedPassRewrapsAnchor(s: string)
    requires s == "[[[[a]]]]"
    ensures Rewrite(s) == "<a href=\"/view/" + Anchor(Naked, "a\">[[a</a>")
  {
    var t := "a\">[[a</a>";
    var pre := "<a href=\"/view/";
    RewrapArticlePass();
    TokenPrefix(Article, "[[a", "]]");
    var tail: string := "]]";
    assert NoOpen(tail) by {
      forall j: nat
        ensures !Opens(tail, j)
      {
      }
    }
    assert NoMatch(Article, tail);
    var a := Anchor(Article, "[[a") + "]]";
    assert ReplaceAll(Article, s) == a;
    RewrapNoT();
    NoTNoFullMatch(a);
    assert NoMatch(Full, a);
    RewrapLiterals();
    PlainPrefix(Naked, pre, "[[" + t + "]]" + "");
    TokenPrefix(Naked, t, "");
    ReplaceAllEmpty(Naked);
    assert Anchor(Naked, t) + "" == Anchor(Naked, t);
  }

  /** `[[]]` holds no character to capture, so it is left as it is. */
  lemma EmptyBracketsUnchanged(s: string)
    requires s == "[[]]"
    ensures Rewrite(s) == s
  {
    assert NoMatch(Article, s);
    assert NoMatch(Full, s);
    assert NoMatch(Naked, s);
  }

  // ---------------------------------------------------------------------
  // One link of each kind, in one text.

  /** The token `[[t]]` as it appears in page text. */
  function Link(t: string): string {
    "[[" + t + "]]"
  }

  /** The shape of one link of each kind, between connectors without brackets. */
  ghost predicate ThreeKinds(a: string, t1: string, o: string, t2: string, t3: string) {
    && Lacks(a, '[') && Lacks(o, '[')
    && |t1| > 0 && AllTitleChars(t1) && Lacks(t1, '[')
    && Inner(Full, t2) && !Inner(Article, t2) && Lacks(t2, '[') && Lacks(t2, ']')
    && Inner(Naked, t3) && !Inner(Article, t3) && !Inner(Full, t3) && |t3| > 4
    && Lacks(t3, '[') && Lacks(t3, ']')
  }

  lemma ThreeKindsArticlePass(a: string, t1: string, o: string, t2: string, t3: string)
    requires ThreeKinds(a, t1, o, t2, t3)
    ensures ReplaceAll(Article, a + (Link(t1) + (o + (Link(t2) + (o + Link(t3))))))
         == a + (Anchor(Article, t1) + (o + (Link(t2) + (o + Link(t3)))))
  {
    var y := o + Link(t3);
    var x := o + (Link(t2) + y);
    PlainPrefix(Article, a, Link(t1) + x);
    TokenPrefix(Article, t1, x);
    PlainPrefix(Article, o, Link(t2) + y);
    RefusedTokenPrefix(Article, t2, y);
    PlainPrefix(Article, o, Link(t3));
    assert Link(t3) + "" == Link(t3);
    RefusedTokenPrefix(Article, t3, "");
    ReplaceAllEmpty(Article);
  }

  lemma ThreeKindsFullPass(a: string, t1: string, o: string, t2: string, t3: string)
    requires ThreeKinds(a, t1, o, t2, t3)
    ensures ReplaceAll(Full, (a + Anchor(Article, t1)) + (o + (Link(t2) + (o + Link(t3)))))
         == (a + Anchor(Article, t1)) + (o + (Anchor(Full, t2) + (o + Link(t3))))
  {
    var y := o + Link(t3);
    var x := o + (Link(t2) + y);
    AnchorLacks(Article, t1, '[');
    LacksCat(a, Anchor(Article, t1), '[');
    PlainPrefix(Full, a + Anchor(Article, t1), x);
    PlainPrefix(Full, o, Link(t2) + y);
    TokenPrefix(Full, t2, y);
    PlainPrefix(Full, o, Link(t3));
    assert Link(t3) + "" == Link(t3);
    RefusedTokenPrefix(Full, t3, "");
    ReplaceAllEmpty(Full);
  }

  lemma ThreeKindsNakedPass(a: string, t1: string, o: string, t2: string, t3: string)
    requires ThreeKinds(a, t1, o, t2, t3)
    ensures ReplaceAll(Naked, (a + Anchor(Article, t1) + o + Anchor(Full, t2) + o) + Link(t3))
         == a + Anchor(Article, t1) + o + Anchor(Full, t2) + o + Anchor(Naked, t3)
  {
    AnchorLacks(Article, t1, '[');
    AnchorLacks(Full, t2, '[');
    LacksCat(a, Anchor(Article, t1), '[');
    LacksCat(a + Anchor(Article, t1), o, '[');
    LacksCat(a + Anchor(Article, t1) + o, Anchor(Full, t2), '[');
    LacksCat(a + Anchor(Article, t1) + o + Anchor(Full, t2), o, '[');
    PlainPrefix(Naked, a + Anchor(Article, t1) + o + Anchor(Full, t2) + o, Link(t3));
    assert Link(t3) + "" == Link(t3);
    TokenPrefix(Naked, t3, "");
    ReplaceAllEmpty(Naked);
    assert Anchor(Naked, t3) + "" == Anchor(Naked, t3);
  }

  /**
   Each kind of link is rewritten by its own pass, and the text between the
   links is kept as it is and in order.
   */
  lemma ThreeKindsRewrite(a: string, t1: string, o: string, t2: string, t3: string)
    requires ThreeKinds(a, t1, o, t2, t3)
    ensures Rewrite(a + Link(t1) + o + Link(t2) + o + Link(t3))
         == a + Anchor(Article, t1) + o + Anchor(Full, t2) + o + Anchor(Naked, t3)
  {
    var l1, l2, l3 := Link(t1), Link(t2), Link(t3);
    var n1, n2 := Anchor(Article, t1), Anchor(Full, t2);
    RegroupInput(a, l1, o, l2, l3);
    ThreeKindsArticlePass(a, t1, o, t2, t3);
    RegroupAfterArticle(a, n1, o + (l2 + (o + l3)));
    ThreeKindsFullPass(a, t1, o, t2, t3);
    RegroupAfterFull(a, n1, o, n2, l3);
    ThreeKindsNakedPass(a, t1, o, t2, t3);
  }

  lemma RegroupInput(a: string, l1: string, o: string, l2: string, l3: string)
    ensures a + l1 + o + l2 + o + l3 == a + (l1 + (o + (l2 + (o + l3))))
  {
  }

  lemma RegroupAfterArticle(a: string, n1: string, x: string)
    ensures a + (n1 + x) == (a + n1) + x
  {
  }

  lemma RegroupAfterFull(a: string, n1: string, o: string, n2: string, l3: string)
    ensures (a + n1) + (o + (n2 + (o + l3))) == (a + n1 + o + n2 + o) + l3
  {
  }

  lemma SampleLinkArticle()
    ensures Link("FrontPage") == "[[FrontPage]]"
  {
  }

  lemma SampleLinkFull()
    ensures Link("http://go.dev") == "[[http://go.dev]]"
  {
  }

  lemma SampleLinkNaked()
    ensures Link("go.dev") == "[[go.dev]]"
  {
  }

  lemma SampleArticle()
    ensures |"FrontPage"| > 0 && AllTitleChars("FrontPage") && Lacks("FrontPage", '[')
  {
  }

  lemma SampleAnchorArticle()
    ensures Anchor(Article, "FrontPage") == "<a href=\"/view/FrontPage\">FrontPage</a>"
  {
  }

  lemma SampleFull()
    ensures Inner(Full, "http://go.dev") && !Inner(Article, "http://go.dev")
  {
    var t: string := "http://go.dev";
    assert !IsTitleChar(t[5]);
    assert t[..4] == "http";
  }

  lemma SampleFullLacks()
    ensures Lacks("http://go.dev", '[') && Lacks("http://go.dev", ']')
  {
  }

  lemma SampleAnchorFull()
    ensures Anchor(Full, "http://go.dev") == "<a href=\"http://go.dev\">http://go.dev</a>"
  {
  }

  lemma SampleNaked()
    ensures Inner(Naked, "go.dev") && !Inner(Article, "go.dev") && !Inner(Full, "go.dev")
  {
    var t: string := "go.dev";
    assert !IsTitleChar(t[2]);
    assert t[..4][0] == 'g';
  }

  lemma SampleNakedLacks()
    ensures |"go.dev"| > 4 && Lacks("go.dev", '[') && Lacks("go.dev", ']')
  {
  }

  lemma SampleAnchorNaked()
    ensures Anchor(Naked, "go.dev") == "<a href=\"http://go.dev\">go.dev</a>"
  {
  }

  /** The sample sentence: one wiki link, one external link and one bare host. */
  lemma SampleSentence(s: string)
    requires s == "Visit " + "[[FrontPage]]" + " or " + "[[http://go.dev]]" + " or " + "[[go.dev]]"
    ensures Rewrite(s)
         == "Visit " + "<a href=\"/view/FrontPage\">FrontPage</a>"
            + " or " + "<a href=\"http://go.dev\">http://go.dev</a>"
            + " or " + "<a href=\"http://go.dev\">go.dev</a>"
  {
    SampleLinkArticle();
    SampleLinkFull();
    SampleLinkNaked();
    SampleArticle();
    SampleAnchorArticle();
    SampleFull();
    SampleFullLacks();
    SampleAnchorFull();
    SampleNaked();
    SampleNakedLacks();
    SampleAnchorNaked();
    ThreeKindsRewrite("Visit ", "FrontPage", " or ", "http://go.dev", "go.dev");
  }
}
