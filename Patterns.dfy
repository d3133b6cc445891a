/** The three global regular expressions of src/legacy/markdown/markdown.ts,
    each as an exact matcher that follows the JavaScript backtracking order:
    a greedy quantifier tries its longest extent first and gives characters
    back one at a time until the rest of the pattern matches.
    `ReplaceMatches` models `String.prototype.replace` with a `/g` regex and a
    callback: the leftmost match is taken, the search resumes where it
    ended, and each matched span is replaced by the callback's result. */
module Patterns {
  import opened Wrappers

  /** JavaScript's line terminators: the characters `.` does not match. */
  predicate IsLineTerminator(c: char)
  {
    c == '\n' || c == '\r' || c == '\U{2028}' || c == '\U{2029}'
  }

  /** A character matched by `.` (no `s` flag). */
  predicate IsDotChar(c: char)
  {
    !IsLineTerminator(c)
  }

  /** `\w`: ASCII letters, digits and underscore. */
  predicate IsWordChar(c: char)
  {
    ('a' <= c <= 'z') || ('A' <= c <= 'Z') || ('0' <= c <= '9') || c == '_'
  }

  /** `\s`: JavaScript white space and line terminators. */
  predicate IsSpace(c: char)
  {
    c == '\t' || c == '\n' || c == '\U{000B}' || c == '\U{000C}' || c == '\r' || c == ' '
    || c == '\U{00A0}' || c == '\U{1680}' || ('\U{2000}' <= c <= '\U{200A}')
    || c == '\U{2028}' || c == '\U{2029}' || c == '\U{202F}' || c == '\U{205F}'
    || c == '\U{3000}' || c == '\U{FEFF}'
  }

  /** `[^\s]`. */
  predicate IsNonSpace(c: char)
  {
    !IsSpace(c)
  }

  predicate IsLetterB(c: char)
  {
    c == 'b'
  }

  predicate IsOpenBracket(c: char)
  {
    c == '['
  }

  /** The end of the longest run of characters of a class starting at `k`:
      how far a greedy `X*` reaches. */
  function RunEnd(t: string, k: nat, inClass: char -> bool): (e: nat)
    requires k <= |t|
    ensures k <= e <= |t|
    ensures forall j :: k <= j < e ==> inClass(t[j])
    ensures e < |t| ==> !inClass(t[e])
    decreases |t| - k
  {
    if k < |t| && inClass(t[k]) then RunEnd(t, k + 1, inClass) else k
  }

  /** How far a greedy `.*` reaches from `k`. */
  function LineEnd(t: string, k: nat): (e: nat)
    requires k <= |t|
    ensures k <= e <= |t|
  {
    RunEnd(t, k, IsDotChar)
  }

  /** The largest `k` from `lo` to `hi` with `ok(k)`. A greedy quantifier
      takes its longest extent and gives characters back one at a time, so
      the extent it settles on is the largest one after which the rest of
      the pattern matches. */
  function Greatest(lo: nat, hi: nat, ok: nat -> bool): (r: Option<nat>)
    ensures r.Some? ==> lo <= r.value <= hi && ok(r.value)
    ensures r.Some? ==> forall k :: r.value < k <= hi ==> !ok(k)
    ensures r.None? ==> forall k :: lo <= k <= hi ==> !ok(k)
    decreases hi
  {
    if hi < lo then None
    else if ok(hi) then Some(hi)
    else if hi == lo then None
    else Greatest(lo, hi - 1, ok)
  }

  /** The smallest `k` from `lo` to `hi` with `ok(k)`: where a global
      search, trying start positions left to right, first finds a match. */
  function Least(lo: nat, hi: nat, ok: nat -> bool): (r: Option<nat>)
    ensures r.Some? ==> lo <= r.value <= hi && ok(r.value)
    ensures r.Some? ==> forall k :: lo <= k < r.value ==> !ok(k)
    ensures r.None? ==> forall k :: lo <= k <= hi ==> !ok(k)
    decreases hi - lo
  {
    if hi < lo then None
    else if ok(lo) then Some(lo)
    else Least(lo + 1, hi, ok)
  }

  // ---------------------------------------------------------------------
  // The blob pattern (markdown.ts:43): the GitHub prefix, a greedy run of
  // line characters, `/blo`, any number of `b`, one more character and a
  // run of non-space characters.
  // ---------------------------------------------------------------------

  const GithubPrefix: string := "https://github.com/"

  /** The blob pattern at `s`: the prefix, then `.*.` over `t[a..q]` (at
      least one character of the line), then the rest at `q`. */
  function BlobMatchAt(t: string, s: nat): (r: Option<nat>)
    ensures r.Some? ==> s < r.value <= |t|
    ensures r.Some? ==> r.value == |t| || IsSpace(t[r.value])
  {
    if s + |GithubPrefix| <= |t| && t[s..s + |GithubPrefix|] == GithubPrefix then
      var a := s + |GithubPrefix|;
      match Greatest(a + 1, LineEnd(t, a), BlobTails(t))
      case Some(q) => BlobTail(t, q)
      case None => None
    else None
  }

  /** The ends of `.*.` after which the rest of the blob pattern matches. */
  function BlobTails(t: string): nat -> bool
  {
    (q: nat) => BlobTail(t, q).Some?
  }

  /** After `b*`, the `.` matches at `m` and `[^\s]+` at `m + 1`. */
  predicate LettersOk(t: string, m: nat)
  {
    m + 1 < |t| && IsDotChar(t[m]) && IsNonSpace(t[m + 1])
  }

  /** The extents of `b*` after which `.` and `[^\s]` match. */
  function LettersOks(t: string): nat -> bool
  {
    (m: nat) => LettersOk(t, m)
  }

  /** `\/blob*.[^\s]+` at `q`: `/blo`, a greedy `b*` over `t[q + 4..m]`, one
      `.` at `m` and a greedy `[^\s]+` from `m + 1`. */
  function BlobTail(t: string, q: nat): (r: Option<nat>)
    ensures r.Some? ==> q + 4 < r.value <= |t|
    ensures r.Some? ==> r.value == |t| || IsSpace(t[r.value])
  {
    if q + 4 <= |t| && t[q..q + 4] == "/blo" then
      match Greatest(q + 4, RunEnd(t, q + 4, IsLetterB), LettersOks(t))
      case Some(m) => Some(RunEnd(t, m + 1, IsNonSpace))
      case None => None
    else None
  }

  // ---------------------------------------------------------------------
  // The relative-image pattern (markdown.ts:53): `!`, any number of `[`,
  // a greedy run of line characters, `](`, word characters, `.`, word
  // characters and `)`.
  // ---------------------------------------------------------------------

  /** The image pattern at `s`: `!`, then a greedy `\[*` over
      `t[s + 1..m]`, then the rest from `m`. */
  function ImageMatchAt(t: string, s: nat): (r: Option<nat>)
    ensures r.Some? ==> s < r.value <= |t|
  {
    if s < |t| && t[s] == '!' then
      match Greatest(s + 1, RunEnd(t, s + 1, IsOpenBracket), ImageRests(t))
      case Some(m) => ImageAfterBrackets(t, m)
      case None => None
    else None
  }

  /** The extents of `\[*` after which the rest of the image pattern matches. */
  function ImageRests(t: string): nat -> bool
  {
    (m: nat) => ImageAfterBrackets(t, m).Some?
  }

  /** The ends of `.*` after which `\]\(\w*\.\w*\)` matches. */
  function ImageTails(t: string): nat -> bool
  {
    (p: nat) => ImageTail(t, p).Some?
  }

  /** `.*\]\(\w*\.\w*\)` from `m`: `.*` over `t[m..p]`, then the tail at `p`. */
  function ImageAfterBrackets(t: string, m: nat): (r: Option<nat>)
    ensures r.Some? ==> m < r.value <= |t|
  {
    if m <= |t| then
      match Greatest(m, LineEnd(t, m), ImageTails(t))
      case Some(p) => ImageTail(t, p)
      case None => None
    else None
  }

  /** `\]\(\w*\.\w*\)` at `p`. */
  function ImageTail(t: string, p: nat): (r: Option<nat>)
    ensures r.Some? ==> p + 3 < r.value <= |t| && t[r.value - 1] == ')'
  {
    if p + 2 <= |t| && t[p..p + 2] == "](" then ImageFileName(t, p + 2) else None
  }

  /** `\w*\.\w*\)` at `k`. Neither `\w*` can usefully give characters
      back: the character after each is a `.` or `)`, never a word character. */
  function ImageFileName(t: string, k: nat): (r: Option<nat>)
    requires k <= |t|
    ensures r.Some? ==> k + 1 < r.value <= |t| && t[r.value - 1] == ')'
  {
    var w1 := RunEnd(t, k, IsWordChar);
    if w1 < |t| && t[w1] == '.' then
      var w2 := RunEnd(t, w1 + 1, IsWordChar);
      if w2 < |t| && t[w2] == ')' then Some(w2 + 1) else None
    else None
  }

  // ---------------------------------------------------------------------
  // The external-anchor pattern (markdown.ts:64): the anchor opening up to
  // `http`, one word character, `://`, a greedy run, `">`, a greedy run,
  // the closing tag and one non-word character.
  // ---------------------------------------------------------------------

  const AnchorOpen: string := "<a href=\"http"

  /** The anchor pattern at `s`: `<a href="http`, one `\w`, `://`, then
      `.*.` over `t[a..q]` and the rest at `q`. */
  function AnchorMatchAt(t: string, s: nat): (r: Option<nat>)
    ensures r.Some? ==> s < r.value <= |t|
  {
    if s + |AnchorOpen| + 4 <= |t| && t[s..s + |AnchorOpen|] == AnchorOpen
       && IsWordChar(t[s + |AnchorOpen|]) && t[s + |AnchorOpen| + 1..s + |AnchorOpen| + 4] == "://"
    then
      var a := s + |AnchorOpen| + 4;
      match Greatest(a + 1, LineEnd(t, a), AnchorRests(t))
      case Some(q) => AnchorAfterHref(t, q)
      case None => None
    else None
  }

  /** The ends of the first `.*.` after which the rest of the anchor pattern
      matches. */
  function AnchorRests(t: string): nat -> bool
  {
    (q: nat) => AnchorAfterHref(t, q).Some?
  }

  /** `</a>` followed by a non-word character at `q`. */
  predicate CloseAt(t: string, q: nat)
  {
    q + 5 <= |t| && t[q..q + 4] == "</a>" && !IsWordChar(t[q + 4])
  }

  /** The places of `</a>` and a non-word character. */
  function Closes(t: string): nat -> bool
  {
    (c: nat) => CloseAt(t, c)
  }

  /** `\">.*.\<\/a>\W` at `q`: `">`, then `.*.` over `t[q + 2..c]` and
      `</a>` with one `\W` at `c`. */
  function AnchorAfterHref(t: string, q: nat): (r: Option<nat>)
    ensures r.Some? ==> q + 2 < r.value <= |t|
  {
    if q + 2 <= |t| && t[q..q + 2] == "\">" then
      match Greatest(q + 3, LineEnd(t, q + 2), Closes(t))
      case Some(c) => Some(c + 5)
      case None => None
    else None
  }

  // ---------------------------------------------------------------------
  // Global matching and replacement
  // ---------------------------------------------------------------------

  datatype Pattern = BlobUrl | RelativeImage | ExternalAnchor

  /** The end of the match of `pat` that starts at `s`, if any. */
  function MatchAt(pat: Pattern, t: string, s: nat): (r: Option<nat>)
    ensures r.Some? ==> s < r.value <= |t|
  {
    match pat
    case BlobUrl => BlobMatchAt(t, s)
    case RelativeImage => ImageMatchAt(t, s)
    case ExternalAnchor => AnchorMatchAt(t, s)
  }

  datatype Span = Span(start: nat, end: nat)

  /** The positions where a match of `pat` starts. */
  function Starts(pat: Pattern, t: string): nat -> bool
  {
    (s: nat) => MatchAt(pat, t, s).Some?
  }

  /** The leftmost match of `pat` starting at or after `k`. */
  function FindFrom(pat: Pattern, t: string, k: nat): (r: Option<Span>)
    ensures r.Some? ==> k <= r.value.start < r.value.end <= |t|
    ensures r.Some? ==> MatchAt(pat, t, r.value.start) == Some(r.value.end)
    ensures r.Some? ==> forall j :: k <= j < r.value.start ==> MatchAt(pat, t, j).None?
    ensures r.None? ==> forall j :: k <= j <= |t| ==> MatchAt(pat, t, j).None?
  {
    assert forall j: nat {:trigger MatchAt(pat, t, j)} :: Starts(pat, t)(j) == MatchAt(pat, t, j).Some?;
    match Least(k, |t|, Starts(pat, t))
    case Some(s) => Some(Span(s, MatchAt(pat, t, s).value))
    case None => None
  }

  /** `t.replace(pat, f)` from `k` on: text between matches is copied, each
      match is replaced by `f` of the matched text. */
  function ReplaceMatches(pat: Pattern, t: string, k: nat, f: string -> string): string
    requires k <= |t|
    decreases |t| - k
  {
    match FindFrom(pat, t, k)
    case None => t[k..]
    case Some(m) => t[k..m.start] + f(t[m.start..m.end]) + ReplaceMatches(pat, t, m.end, f)
  }
}
