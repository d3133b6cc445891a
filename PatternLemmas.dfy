/** What the backtracking matchers of `Patterns` compute on the texts that
    matter: the three matches have the shapes below, and whole anchors,
    images and blob links on one line are matched whole. */
module PatternLemmas {
  import opened Wrappers
  import opened Strings
  import opened Patterns

  predicate AllDot(x: string)
  {
    forall c :: c in x ==> IsDotChar(c)
  }

  predicate AllNonSpace(x: string)
  {
    forall c :: c in x ==> IsNonSpace(c)
  }

  predicate AllWord(x: string)
  {
    forall c :: c in x ==> IsWordChar(c)
  }

  /** A greedy run over a stretch that is all in the class reaches its end. */
  lemma RunEndCovers(t: string, k: nat, e: nat, inClass: char -> bool)
    requires k <= e <= |t|
    requires forall j :: k <= j < e ==> inClass(t[j])
    requires e == |t| || !inClass(t[e])
    ensures RunEnd(t, k, inClass) == e
    decreases e - k
  {
    if k < e {
      RunEndCovers(t, k + 1, e, inClass);
    }
  }

  /** `k` is what a greedy search settles on when `ok` holds there and at
      no larger end. */
  lemma GreatestIs(lo: nat, hi: nat, ok: nat -> bool, k: nat)
    requires lo <= k <= hi && ok(k)
    requires forall j :: k < j <= hi ==> !ok(j)
    ensures Greatest(lo, hi, ok) == Some(k)
  {
  }

  /** A greedy search settles at or after any end where `ok` holds. */
  lemma GreatestAtLeast(lo: nat, hi: nat, ok: nat -> bool, k: nat)
    requires lo <= k <= hi && ok(k)
    ensures Greatest(lo, hi, ok).Some? && k <= Greatest(lo, hi, ok).value
  {
  }

  // --- blob URLs ----------------------------------------------------------

  /** A blob match begins with `https://github.com/`. */
  lemma BlobMatchShape(t: string, s: nat)
    requires BlobMatchAt(t, s).Some?
    ensures OccursAt(t, GithubPrefix, s)
  {
  }

  /** A blob match from `s` runs to the end of the text when the text after
      the prefix is one line and the text from a `/blo` followed by two
      more characters on is free of white space. */
  lemma BlobMatchToEnd(t: string, s: nat, q0: nat)
    requires OccursAt(t, GithubPrefix, s) && s + |GithubPrefix| < q0 && q0 + 6 <= |t|
    requires t[q0..q0 + 4] == "/blo"
    requires forall j :: s + |GithubPrefix| <= j < |t| ==> IsDotChar(t[j])
    requires forall j :: q0 <= j < |t| ==> IsNonSpace(t[j])
    ensures BlobMatchAt(t, s) == Some(|t|)
  {
    var a := s + |GithubPrefix|;
    RunEndCovers(t, a, |t|, IsDotChar);
    assert LettersOk(t, q0 + 4);
    GreatestAtLeast(q0 + 4, RunEnd(t, q0 + 4, IsLetterB), LettersOks(t), q0 + 4);
    assert BlobTail(t, q0).Some?;
    GreatestAtLeast(a + 1, |t|, BlobTails(t), q0);
  }

  /** On a single line, `https://github.com/` + `mid` + `/blob/` + `path`
      with a white-space-free `path` is matched whole: the greedy `.*.` runs
      to the last `/blo` of the line and `[^\s]+` to the end. `mid` may
      itself hold white space and further URLs, which then belong to the
      same match. */
  lemma BlobMatchWhole(mid: string, path: string)
    requires |mid| > 0 && AllDot(mid) && AllNonSpace(path)
    ensures var t := GithubPrefix + mid + "/blob/" + path;
      BlobMatchAt(t, 0) == Some(|t|)
  {
    var t := GithubPrefix + mid + "/blob/" + path;
    BlobTextFacts(t, mid, path);
    BlobMatchToEnd(t, 0, |GithubPrefix| + |mid|);
  }

  /** Where the parts of a blob link lie. */
  lemma BlobTextFacts(t: string, mid: string, path: string)
    requires |mid| > 0 && AllDot(mid) && AllNonSpace(path)
    requires t == GithubPrefix + mid + "/blob/" + path
    ensures var q0 := |GithubPrefix| + |mid|;
      OccursAt(t, GithubPrefix, 0) && 0 + |GithubPrefix| < q0 && q0 + 6 <= |t|
      && t[q0..q0 + 4] == "/blo"
      && (forall j :: 0 + |GithubPrefix| <= j < |t| ==> IsDotChar(t[j]))
      && (forall j :: q0 <= j < |t| ==> IsNonSpace(t[j]))
  {
    var rest := "/blob/" + path;
    assert AllNonSpace(rest);
    assert t == GithubPrefix + (mid + rest);
    assert t == (GithubPrefix + mid) + rest;
    IndexesOfSuffix(GithubPrefix, mid + rest);
    IndexesOfSuffix(GithubPrefix + mid, rest);
    NonSpaceIsDot(rest);
    DotFrom(GithubPrefix, mid + rest);
    NonSpaceFrom(GithubPrefix + mid, rest);
    assert rest[..4] == "/blo";
  }

  lemma NonSpaceIsDot(x: string)
    requires AllNonSpace(x)
    ensures AllDot(x)
  {
  }

  /** The characters of `x + y` from `|x|` on are `.` characters when those
      of `y` are. */
  lemma DotFrom(x: string, y: string)
    requires AllDot(y)
    ensures forall j :: |x| <= j < |x + y| ==> IsDotChar((x + y)[j])
  {
    forall j | |x| <= j < |x + y| ensures IsDotChar((x + y)[j]) {
      assert (x + y)[j] == y[j - |x|];
    }
  }

  /** The characters of `x + y` from `|x|` on are non-space when those of
      `y` are. */
  lemma NonSpaceFrom(x: string, y: string)
    requires AllNonSpace(y)
    ensures forall j :: |x| <= j < |x + y| ==> IsNonSpace((x + y)[j])
  {
    forall j | |x| <= j < |x + y| ensures IsNonSpace((x + y)[j]) {
      assert (x + y)[j] == y[j - |x|];
    }
  }

  /** The characters of `x + y` from `|x|` on are those of `y`, and its
      first `|x|` those of `x`. */
  lemma IndexesOfSuffix(x: string, y: string)
    ensures forall j :: |x| <= j < |x + y| ==> (x + y)[j] == y[j - |x|]
    ensures (x + y)[..|x|] == x && (x + y)[|x|..] == y
  {
  }

  // --- relative images ----------------------------------------------------

  /** A tail `](...)` starts with `]`. */
  lemma ImageTailBracket(t: string, p: nat)
    requires ImageTail(t, p).Some?
    ensures p < |t| && t[p] == ']'
  {
    assert t[p..p + 2][0] == t[p];
  }

  /** An image match starts with `!` and is ended by a tail `](...)`. */
  lemma ImageMatchShape(t: string, s: nat)
    requires ImageMatchAt(t, s).Some?
    ensures s < |t| && t[s] == '!'
    ensures exists p :: s < p <= |t| && ImageTail(t, p) == ImageMatchAt(t, s)
  {
    var r := RunEnd(t, s + 1, IsOpenBracket);
    var m := Greatest(s + 1, r, ImageRests(t)).value;
    assert ImageAfterBrackets(t, m) == ImageMatchAt(t, s);
    var p := Greatest(m, LineEnd(t, m), ImageTails(t)).value;
    assert ImageTail(t, p) == ImageAfterBrackets(t, m);
  }

  /** The target of a tail holds only word characters and `.`: no `/`, no
      `:`, no scheme. */
  lemma ImageTailChars(t: string, p: nat)
    requires ImageTail(t, p).Some?
    ensures forall j :: p + 2 <= j < ImageTail(t, p).value - 1 ==> IsWordChar(t[j]) || t[j] == '.'
  {
    var w1 := RunEnd(t, p + 2, IsWordChar);
    var w2 := RunEnd(t, w1 + 1, IsWordChar);
    assert ImageTail(t, p) == Some(w2 + 1);
  }

  /** `](` word `.` word `)` at the end of the text is a tail that ends
      there. */
  lemma ImageTailAtEnd(t: string, p0: nat, d: nat)
    requires p0 + 2 <= d < |t| - 1
    requires t[p0..p0 + 2] == "](" && t[d] == '.' && t[|t| - 1] == ')'
    requires forall j :: p0 + 2 <= j < d ==> IsWordChar(t[j])
    requires forall j :: d + 1 <= j < |t| - 1 ==> IsWordChar(t[j])
    ensures ImageTail(t, p0) == Some(|t|)
  {
    RunEndCovers(t, p0 + 2, d, IsWordChar);
    RunEndCovers(t, d + 1, |t| - 1, IsWordChar);
  }

  /** With no `]` after `p0`, the `.*` from any `m` up to `p0` settles on
      the tail at `p0`. */
  lemma ImageAfterBracketsAt(t: string, m: nat, p0: nat)
    requires m <= p0 < |t| && ImageTail(t, p0).Some?
    requires forall j :: m <= j < |t| ==> IsDotChar(t[j])
    requires forall j :: p0 < j < |t| ==> t[j] != ']'
    ensures ImageAfterBrackets(t, m) == ImageTail(t, p0)
  {
    RunEndCovers(t, m, |t|, IsDotChar);
    forall p | p0 < p <= |t| ensures !ImageTails(t)(p) {
      if ImageTail(t, p).Some? {
        ImageTailBracket(t, p);
      }
    }
    GreatestIs(m, |t|, ImageTails(t), p0);
  }

  /** An image match from 0 runs to the end of a one-line text whose last
      `]` begins a tail that ends the text. */
  lemma ImageMatchToEnd(t: string, p0: nat)
    requires 1 <= p0 < |t| && t[0] == '!' && t[p0] == ']'
    requires ImageTail(t, p0) == Some(|t|)
    requires forall j :: 1 <= j < |t| ==> IsDotChar(t[j])
    requires forall j :: p0 < j < |t| ==> t[j] != ']'
    ensures ImageMatchAt(t, 0) == Some(|t|)
  {
    var r := RunEnd(t, 1, IsOpenBracket);
    assert r <= p0;
    ImageAfterBracketsAt(t, r, p0);
    GreatestIs(1, r, ImageRests(t), r);
  }

  /** A whole line `![alt](w1.w2)` with word-character file name parts is
      matched whole. */
  lemma ImageMatchWhole(alt: string, w1: string, w2: string)
    requires AllDot(alt) && AllWord(w1) && AllWord(w2)
    ensures var t := "![" + alt + "](" + w1 + "." + w2 + ")";
      ImageMatchAt(t, 0) == Some(|t|)
  {
    var x := "![" + alt + "](";
    var t := x + w1 + "." + w2 + ")";
    assert t == "![" + alt + "](" + w1 + "." + w2 + ")";
    assert AllDot(t);
    IndexInMiddle("![" + alt, "](", w1 + "." + w2 + ")");
    assert x[|x| - 2..] == "](";
    ImageNameAtEnd(x, w1, w2);
    ImageMatchToEnd(t, |x| - 2);
  }

  /** After `x` ending in `](`, a file name `w1.w2)` of word characters
      closing the text is a tail ending it, with no `]` after its start. */
  lemma ImageNameAtEnd(x: string, w1: string, w2: string)
    requires |x| >= 2 && x[|x| - 2..] == "](" && AllWord(w1) && AllWord(w2)
    ensures var t := x + w1 + "." + w2 + ")";
      ImageTail(t, |x| - 2) == Some(|t|) && forall j :: |x| - 2 < j < |t| ==> t[j] != ']'
  {
    var t := x + w1 + ("." + w2 + ")");
    assert t == x + w1 + "." + w2 + ")";
    var p0 := |x| - 2;
    var d := |x| + |w1|;
    IndexInMiddle(x, w1, "." + w2 + ")");
    IndexInMiddle(x + w1 + ".", w2, ")");
    assert t[p0..p0 + 2] == x[|x| - 2..];
    assert t[d] == '.';
    ImageTailAtEnd(t, p0, d);
  }

  /** The characters of `x + y + z` at the positions of `y`. */
  lemma IndexInMiddle(x: string, y: string, z: string)
    ensures forall j :: |x| <= j < |x| + |y| ==> (x + y + z)[j] == y[j - |x|]
    ensures (x + y + z)[|x|..|x| + |y|] == y
  {
  }

  // --- external anchors ---------------------------------------------------

  /** An anchor match starts with `<a href="http`, one word character and
      `://`, and ends with `</a>` and a non-word character; so no match
      starts at an `http://`, fragment or relative link. Such a link may
      still lie inside a match that starts at an earlier external anchor
      of its line. */
  lemma AnchorMatchShape(t: string, s: nat)
    requires AnchorMatchAt(t, s).Some?
    ensures OccursAt(t, AnchorOpen, s) && IsWordChar(t[s + |AnchorOpen|])
    ensures OccursAt(t, "://", s + |AnchorOpen| + 1)
    ensures var e := AnchorMatchAt(t, s).value;
      s + |AnchorOpen| + 4 < e - 5 && CloseAt(t, e - 5)
  {
  }

  /** An anchor match from 0 ends after the `</a>` at `q0` when the text
      from the scheme on is one line up to it, `q0` is followed by a
      non-word character ending the line or the text, and a `">` at `q1`
      comes between. */
  lemma AnchorMatchToEnd(t: string, q1: nat, q0: nat)
    requires |AnchorOpen| + 4 < q1 && q1 + 2 < q0 && q0 + 5 <= |t| && OccursAt(t, AnchorOpen, 0)
    requires IsWordChar(t[|AnchorOpen|]) && t[|AnchorOpen| + 1..|AnchorOpen| + 4] == "://"
    requires t[q1..q1 + 2] == "\">" && CloseAt(t, q0)
    requires AllDot(t[|AnchorOpen| + 4..q0 + 4])
    requires IsLineTerminator(t[q0 + 4]) || q0 + 5 == |t|
    ensures AnchorMatchAt(t, 0) == Some(q0 + 5)
  {
    assert forall j :: |AnchorOpen| + 4 <= j < q0 + 4 ==> IsDotChar(t[j]) by {
      forall j | |AnchorOpen| + 4 <= j < q0 + 4 ensures IsDotChar(t[j]) {
        assert t[j] == t[|AnchorOpen| + 4..q0 + 4][j - |AnchorOpen| - 4];
      }
    }
    var a := |AnchorOpen| + 4;
    var L := if IsLineTerminator(t[q0 + 4]) then q0 + 4 else |t|;
    RunEndCovers(t, a, L, IsDotChar);
    NoCloseAfter(t, q0, L);
    AnchorHrefFindsClose(t, a, L, q1, q0);
  }

  /** Past a `</a>` whose non-word character ends the line or the text,
      the line holds no further `</a>`. */
  lemma NoCloseAfter(t: string, q0: nat, L: nat)
    requires CloseAt(t, q0)
    requires (L == q0 + 4 && IsLineTerminator(t[L])) || L == q0 + 5 == |t|
    ensures forall q :: q0 < q <= L ==> !CloseAt(t, q)
  {
    forall q | q0 < q <= L && CloseAt(t, q) ensures false {
      CloseChar(t, q, L - q);
    }
  }

  lemma CloseChar(t: string, q: nat, i: nat)
    requires CloseAt(t, q) && i < 4
    ensures t[q + i] == "</a>"[i]
  {
    assert t[q..q + 4][i] == t[q + i];
  }

  /** A `">` that starts inside a line ends inside it. */
  lemma HrefBeforeLineEnd(t: string, q: nat, L: nat)
    requires q <= L <= |t| && (L == |t| || !IsDotChar(t[L]))
    requires q + 2 <= |t| && t[q..q + 2] == "\">"
    ensures q + 2 <= L
  {
    assert t[q..q + 2][0] == t[q] && t[q..q + 2][1] == t[q + 1];
  }

  /** The search for `">` over a line ending at `L` settles on a match
      ending after the last `</a>` of the line, found from the `">` at
      `q1`. */
  lemma AnchorHrefFindsClose(t: string, a: nat, L: nat, q1: nat, q0: nat)
    requires a < q1 && q1 + 2 < q0 && q0 + 4 <= L <= |t|
    requires t[q1..q1 + 2] == "\">" && CloseAt(t, q0)
    requires forall j :: a <= j < L ==> IsDotChar(t[j])
    requires L == |t| || !IsDotChar(t[L])
    requires forall q :: q0 < q <= L ==> !CloseAt(t, q)
    ensures Greatest(a + 1, L, AnchorRests(t)).Some?
    ensures AnchorAfterHref(t, Greatest(a + 1, L, AnchorRests(t)).value) == Some(q0 + 5)
  {
    AnchorAfterHrefEnds(t, q1, L, q0);
    GreatestAtLeast(a + 1, L, AnchorRests(t), q1);
    LastHrefEnds(t, a, L, q0);
  }

  /** The last `">` of the line leads to the match ending after the last
      `</a>`. */
  lemma LastHrefEnds(t: string, a: nat, L: nat, q0: nat)
    requires Greatest(a + 1, L, AnchorRests(t)).Some?
    requires q0 + 4 <= L <= |t| && CloseAt(t, q0)
    requires forall j :: a <= j < L ==> IsDotChar(t[j])
    requires L == |t| || !IsDotChar(t[L])
    requires forall q :: q0 < q <= L ==> !CloseAt(t, q)
    ensures AnchorAfterHref(t, Greatest(a + 1, L, AnchorRests(t)).value) == Some(q0 + 5)
  {
    var q := Greatest(a + 1, L, AnchorRests(t)).value;
    HrefBeforeLineEnd(t, q, L);
    AnchorAfterHrefEnds(t, q, L, q0);
  }

  /** Any `">` before the last `</a>` of the line leads to the match that
      ends after that `</a>`. */
  lemma AnchorAfterHrefEnds(t: string, q: nat, L: nat, q0: nat)
    requires q + 2 <= L <= |t| && q0 + 4 <= L && CloseAt(t, q0)
    requires forall j :: q + 2 <= j < L ==> IsDotChar(t[j])
    requires L == |t| || !IsDotChar(t[L])
    requires forall q'' :: q0 < q'' <= L ==> !CloseAt(t, q'')
    requires AnchorAfterHref(t, q).Some? || (q + 3 <= q0 && t[q..q + 2] == "\">")
    ensures AnchorAfterHref(t, q) == Some(q0 + 5)
  {
    RunEndCovers(t, q + 2, L, IsDotChar);
    if q + 3 <= q0 {
      GreatestIs(q + 3, L, Closes(t), q0);
    }
  }

  // --- global replacement -------------------------------------------------

  /** With no match from `k` on, the text from `k` is copied unchanged. */
  lemma ReplaceMatchesNone(pat: Pattern, t: string, k: nat, f: string -> string)
    requires k <= |t| && FindFrom(pat, t, k).None?
    ensures ReplaceMatches(pat, t, k, f) == t[k..]
  {
  }

  /** A text that is one match from start to end is replaced as a whole. */
  lemma ReplaceMatchesWhole(pat: Pattern, t: string, f: string -> string)
    requires MatchAt(pat, t, 0) == Some(|t|)
    ensures ReplaceMatches(pat, t, 0, f) == f(t)
  {
    FindFromAtMatch(pat, t, 0);
    FindFromAtEnd(pat, t);
    ReplaceMatchesNone(pat, t, |t|, f);
    assert t[0..0] == [] && t[0..|t|] == t && t[|t|..] == [];
    assert ReplaceMatches(pat, t, 0, f) == [] + f(t) + [];
  }

  /** A search from a place where the pattern matches finds that match. */
  lemma FindFromAtMatch(pat: Pattern, t: string, k: nat)
    requires k <= |t| && MatchAt(pat, t, k).Some?
    ensures FindFrom(pat, t, k) == Some(Span(k, MatchAt(pat, t, k).value))
  {
    assert Starts(pat, t)(k);
  }

  /** Nothing is found at the end of the text. */
  lemma FindFromAtEnd(pat: Pattern, t: string)
    ensures FindFrom(pat, t, |t|).None?
  {
  }

  /** Only matched spans are touched: a callback that gives every matched
      span back unchanged leaves the whole text unchanged. */
  lemma {:induction false} ReplaceMatchesIdentity(pat: Pattern, t: string, k: nat, f: string -> string)
    requires k <= |t|
    requires forall s :: k <= s <= |t| && MatchAt(pat, t, s).Some? ==>
      f(t[s..MatchAt(pat, t, s).value]) == t[s..MatchAt(pat, t, s).value]
    ensures ReplaceMatches(pat, t, k, f) == t[k..]
    decreases |t| - k
  {
    var r := FindFrom(pat, t, k);
    if r.Some? {
      var m := r.value;
      ReplaceMatchesIdentity(pat, t, m.end, f);
      SpliceBack(t, k, m.start, m.end);
    }
  }

  lemma SpliceBack(t: string, a: nat, b: nat, c: nat)
    requires a <= b <= c <= |t|
    ensures t[a..b] + t[b..c] + t[c..] == t[a..]
  {
  }
}
