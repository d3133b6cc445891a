/** What the pipeline of `Markdown` does to the texts it is meant for, and
    what it never does to any text. */
module MarkdownLemmas {
  import opened Wrappers
  import opened Strings
  import opened StringLemmas
  import opened Patterns
  import opened PatternLemmas
  import opened Data
  import opened Markdown

  // --- blob links ----------------------------------------------------------

  /** A link `https://github.com/<head>/blob/<rest>` becomes
      `https://raw.githubusercontent.com/<head>/<rest>`, provided the
      rewritten host and head hold no `/blob/` of their own. Whatever `rest`
      holds, a second GitHub link in it included, is kept as it is. */
  lemma BlobCallbackRewrites(head: string, rest: string)
    requires Free(RawPrefix + head + "/blob", "/blob/")
    ensures BlobCallback(GithubPrefix + head + "/blob/" + rest) == RawPrefix + head + "/" + rest
  {
    var tail := head + "/blob/" + rest;
    ConcatAssoc3(GithubPrefix, head, "/blob/", rest);
    ReplaceFirstAtStart(GithubPrefix, RawPrefix, tail);
    ConcatAssoc3(RawPrefix, head, "/blob/", rest);
    assert "/blob/"[..5] == "/blob";
    ReplaceFirstAfter(RawPrefix + head, "/blob/", "/", rest);
  }

  lemma ConcatAssoc3(a: string, b: string, c: string, d: string)
    ensures a + b + c + d == a + (b + c + d)
  {
  }

  /** A blob link on a line of its own is one match and is handed whole to
      the callback; when the line holds two links, the match runs from the
      first to the end of the second. */
  lemma BlobStageOneLine(mid: string, path: string)
    requires |mid| > 0 && AllDot(mid) && AllNonSpace(path)
    ensures var t := GithubPrefix + mid + "/blob/" + path;
      BlobStage(t) == BlobCallback(t)
  {
    var t := GithubPrefix + mid + "/blob/" + path;
    BlobMatchWhole(mid, path);
    ReplaceMatchesWhole(BlobUrl, t, BlobCallback);
  }

  /** The raw host and a head without `l` hold no `/blob/`, even with a
      `/blob` after them. */
  lemma RawHeadFree(head: string)
    requires 'l' !in head
    ensures Free(RawPrefix + head + "/blob", "/blob/")
  {
    assert 'l' !in RawPrefix;
    assert 'l' !in RawPrefix + head;
    BlobEndFree(RawPrefix + head);
  }

  /** Text without `l` followed by `/blob` holds no `/blob/`: the only `l`
      is that of the final `/blob`. */
  lemma BlobEndFree(u: string)
    requires 'l' !in u
    ensures Free(u + "/blob", "/blob/")
  {
    var s := u + "/blob";
    forall i | 0 <= i && i + 6 <= |s| ensures !OccursAt(s, "/blob/", i) {
      if i + 2 < |u| {
        assert s[i + 2] == u[i + 2] && u[i + 2] in u;
      } else {
        assert s[i + 2] == "/blob"[i + 2 - |u|];
      }
      assert s[i..i + 6][2] == s[i + 2];
    }
  }

  /** The blob link of a README on a line of its own: the owner and
      repository stay, the host becomes the raw one and `/blob` goes. */
  lemma BlobReadmeExample()
    ensures BlobStage(GithubPrefix + "foo/bar" + "/blob/" + "main/README.md")
      == RawPrefix + "foo/bar" + "/" + "main/README.md"
  {
    var head := "foo/bar";
    var rest := "main/README.md";
    assert 'l' !in head;
    RawHeadFree(head);
    assert AllDot(head);
    assert AllNonSpace(rest);
    BlobStageOneLine(head, rest);
    BlobCallbackRewrites(head, rest);
  }

  // --- relative images -------------------------------------------------------

  /** The image callback puts the raw `master` prefix of the repository
      right after the `(` that opens the target, when the result holds no
      `/blob/` for its second replace to change (for that replace see
      `ImageCallbackBlobStep`). */
  lemma ImageCallbackInserts(fullName: string, alt: string, target: string)
    requires '(' !in alt
    requires Free("![" + alt + "]" + ImagePrefix(fullName) + target + ")", "/blob/")
    ensures ImageCallback(fullName, "![" + alt + "](" + target + ")")
      == "![" + alt + "]" + ImagePrefix(fullName) + target + ")"
  {
    var u := "![" + alt + "]";
    ImageTextSplit(alt, target);
    ConcatAssoc(u + ImagePrefix(fullName), target, ")");
    ImageCallbackAt(fullName, "![" + alt + "](" + target + ")", u, target + ")");
  }

  /** The second step of the image callback: when the text with the
      prefix inserted holds `/blob/`, its first occurrence becomes `/`.
      The matched target holds no `/`, so that occurrence lies in the alt
      text, in earlier text of the match, or in the inserted prefix. */
  lemma ImageCallbackBlobStep(fullName: string, u: string, v: string, l: string, m: string)
    requires '(' !in u
    requires u + ImagePrefix(fullName) + v == l + "/blob/" + m
    requires Free(l + "/blob", "/blob/")
    ensures ImageCallback(fullName, u + "(" + v) == l + "/" + m
  {
    assert "("[..0] == [] && u + [] == u;
    FreeByMissingChar(u, "(", '(');
    ReplaceFirstAfter(u, "(", ImagePrefix(fullName), v);
    assert "/blob/"[..5] == "/blob";
    ReplaceFirstAfter(l, "/blob/", "/", m);
  }

  /** A `/blob/` in the alt text is the one rewritten: the alt text loses
      it and the prefix still goes in after the `(`. */
  lemma ImageCallbackBlobInAlt(fullName: string, a: string, b: string, target: string)
    requires '(' !in a && '(' !in b
    requires Free("![" + a + "/blob", "/blob/")
    ensures ImageCallback(fullName, "![" + a + "/blob/" + b + "](" + target + ")")
      == "![" + a + "/" + b + "]" + ImagePrefix(fullName) + target + ")"
  {
    var x := "![" + a + "/blob/" + b;
    var u := x + "]";
    var ip := ImagePrefix(fullName);
    var m := b + "]" + ip + (target + ")");
    assert '(' !in u;
    Regroup(x, "]", "(", "](", target, ")");
    Regroup4("![", a, "/blob/", b, "]", ip, target + ")");
    ImageCallbackBlobStep(fullName, u, target + ")", "![" + a, m);
    Regroup4("![", a, "/", b, "]", ip, target + ")");
    ConcatAssoc("![" + a + "/" + b + "]" + ip, target, ")");
  }

  /** A repository named `blob`: the callback removes the name from the
      prefix it has just inserted, so the image points into the owner's
      path without the repository. */
  lemma ImageCallbackBlobRepository(owner: string, alt: string, target: string)
    requires '(' !in alt && 'l' !in alt && 'l' !in owner
    ensures ImageCallback(owner + "/blob", "![" + alt + "](" + target + ")")
      == "![" + alt + "](" + RawPrefix + owner + "/master/" + target + ")"
  {
    var u := "![" + alt + "]";
    var h := RawPrefix + owner;
    var l := "![" + alt + "](" + h;
    var m := "master/" + (target + ")");
    assert '(' !in u;
    assert 'l' !in RawPrefix;
    assert 'l' !in l;
    BlobEndFree(l);
    Regroup("![" + alt, "]", "(", "](", target, ")");
    RepositoryPrefixShape(u, h, owner, target + ")", l, m);
    ImageCallbackBlobStep(owner + "/blob", u, target + ")", l, m);
    MasterJoin(l, target + ")");
    ConcatAssoc(l + "/master/", target, ")");
    ConcatAssoc("![" + alt + "](", RawPrefix, owner);
  }

  /** Text before a two-character piece, split into its characters. */
  lemma Regroup(x: string, r: string, o: string, ro: string, t: string, c: string)
    requires ro == r + o
    ensures x + ro + t + c == x + r + o + (t + c)
  {
  }

  lemma Regroup4(p: string, a: string, q: string, b: string, r: string, i: string, w: string)
    ensures p + a + q + b + r + i + w == p + a + q + (b + r + i + w)
  {
  }

  /** The prefix of an owner's `blob` repository holds `/blob/` right after
      the owner. */
  lemma RepositoryPrefixShape(u: string, h: string, owner: string, w: string, l: string, m: string)
    requires h == RawPrefix + owner && l == u + "(" + h && m == "master/" + w
    ensures u + ImagePrefix(owner + "/blob") + w == l + "/blob/" + m
  {
    assert "/blob" + "/master/" == "/blob/" + "master/";
    PrefixRegroup(u, "(", RawPrefix, owner, "/blob", "/master/", "/blob/", "master/", w);
  }

  lemma PrefixRegroup(u: string, c: string, r: string, o: string, b: string, m: string,
                      b2: string, m2: string, w: string)
    requires b + m == b2 + m2
    ensures u + (c + r + (o + b) + m) + w == u + c + (r + o) + b2 + (m2 + w)
  {
    calc {
      u + (c + r + (o + b) + m) + w;
      u + c + (r + o) + (b + m) + w;
      u + c + (r + o) + (b2 + m2) + w;
      u + c + (r + o) + b2 + (m2 + w);
    }
  }

  lemma MasterJoin(l: string, w: string)
    ensures l + "/" + ("master/" + w) == l + "/master/" + w
  {
    assert "/" + "master/" == "/master/";
  }

  lemma ImageCallbackAt(fullName: string, x: string, u: string, v: string)
    requires x == u + "(" + v && '(' !in u
    requires Free(u + ImagePrefix(fullName) + v, "/blob/")
    ensures ImageCallback(fullName, x) == u + ImagePrefix(fullName) + v
  {
    assert "("[..0] == [] && u + [] == u;
    FreeByMissingChar(u, "(", '(');
    ReplaceFirstAfter(u, "(", ImagePrefix(fullName), v);
  }

  lemma ImageTextSplit(alt: string, target: string)
    ensures "![" + alt + "](" + target + ")" == "![" + alt + "]" + "(" + (target + ")")
  {
  }

  /** `](` at `p`, then a target of word characters and dots, then the
      `)` that ends at `e`. */
  ghost predicate TargetAt(t: string, p: nat, e: nat)
  {
    p + 2 < e <= |t| && t[p..p + 2] == "](" && t[e - 1] == ')'
    && forall j :: p + 2 <= j < e - 1 ==> IsWordChar(t[j]) || t[j] == '.'
  }

  /** Every image match ends in a plain target without `/` or `:`. Only
      the last target of a match is constrained: the greedy run before it
      may hold other images of the line (see `ImageStageEarlierTarget`). */
  lemma ImageMatchTarget(t: string, s: nat)
    requires MatchAt(RelativeImage, t, s).Some?
    ensures exists p :: s < p && TargetAt(t, p, MatchAt(RelativeImage, t, s).value)
  {
    ImageMatchShape(t, s);
    var p :| s < p <= |t| && ImageTail(t, p) == ImageMatchAt(t, s);
    ImageTailChars(t, p);
    assert TargetAt(t, p, ImageTail(t, p).value);
  }

  /** A line `![alt](name.ext)` is rewritten for a repository to point at
      its raw `master` tree, and fails without one. */
  lemma ImageStageOneLine(alt: string, w1: string, w2: string, repo: Repository)
    requires AllDot(alt) && AllWord(w1) && AllWord(w2) && '(' !in alt
    requires Free("![" + alt + "]" + ImagePrefix(repo.fullName) + (w1 + "." + w2) + ")", "/blob/")
    ensures var t := "![" + alt + "](" + (w1 + "." + w2) + ")";
      ImageStage(t, Some(repo)) == Ok("![" + alt + "]" + ImagePrefix(repo.fullName) + (w1 + "." + w2) + ")")
      && ImageStage(t, None) == Err(MissingRepository)
  {
    var t := "![" + alt + "](" + (w1 + "." + w2) + ")";
    ImageMatchWhole(alt, w1, w2);
    ImageNameSplit(alt, w1, w2);
    ReplaceMatchesWhole(RelativeImage, t, ImageRewrite(repo.fullName));
    ImageCallbackInserts(repo.fullName, alt, w1 + "." + w2);
    assert Starts(RelativeImage, t)(0);
  }

  lemma ImageNameSplit(alt: string, w1: string, w2: string)
    ensures "![" + alt + "](" + w1 + "." + w2 + ")" == "![" + alt + "](" + (w1 + "." + w2) + ")"
  {
  }

  /** Two images on one line, the first with any target (an absolute URL,
      say) and the second with a plain `name.ext`, form one match, and the
      raw prefix goes in front of the FIRST target. */
  lemma ImageStageEarlierTarget(a: string, url: string, b: string, w1: string, w2: string, repo: Repository)
    requires AllDot(a) && AllDot(url) && AllDot(b) && AllWord(w1) && AllWord(w2) && '(' !in a
    requires Free("![" + a + "]" + ImagePrefix(repo.fullName) + (url + ") ![" + b + "](" + w1 + "." + w2 + ")"), "/blob/")
    ensures var t := "![" + a + "](" + (url + ") ![" + b + "](" + w1 + "." + w2 + ")");
      ImageStage(t, Some(repo)) == Ok("![" + a + "]" + ImagePrefix(repo.fullName) + (url + ") ![" + b + "](" + w1 + "." + w2 + ")"))
  {
    assert '(' !in "![" + a + "]";
    var v := url + ") ![" + b + "](" + w1 + "." + w2 + ")";
    var t := "![" + (a + "](" + (url + ") ![" + b)) + "](" + w1 + "." + w2 + ")";
    EarlierMatchWhole(a, url, b, w1, w2);
    EarlierTextSplit(a, url, b, w1, w2);
    ImageStageWhole(t, "![" + a + "]", v, repo);
  }

  /** The two images form one match covering the whole text. */
  lemma EarlierMatchWhole(a: string, url: string, b: string, w1: string, w2: string)
    requires AllDot(a) && AllDot(url) && AllDot(b) && AllWord(w1) && AllWord(w2)
    ensures var t := "![" + (a + "](" + (url + ") ![" + b)) + "](" + w1 + "." + w2 + ")";
      ImageMatchAt(t, 0) == Some(|t|)
  {
    EarlierAltDot(a, url, b);
    ImageMatchWhole(a + "](" + (url + ") ![" + b), w1, w2);
  }

  /** A text that is one image match as a whole, read around its first
      `(`, gets the raw prefix at that `(`. */
  lemma ImageStageWhole(t: string, u: string, v: string, repo: Repository)
    requires ImageMatchAt(t, 0) == Some(|t|) && t == u + "(" + v && '(' !in u
    requires Free(u + ImagePrefix(repo.fullName) + v, "/blob/")
    ensures ImageStage(t, Some(repo)) == Ok(u + ImagePrefix(repo.fullName) + v)
  {
    ReplaceMatchesWhole(RelativeImage, t, ImageRewrite(repo.fullName));
    ImageCallbackAt(repo.fullName, t, u, v);
  }

  lemma EarlierAltDot(a: string, url: string, b: string)
    requires AllDot(a) && AllDot(url) && AllDot(b)
    ensures AllDot(a + "](" + (url + ") ![" + b))
  {
    var alt := a + "](" + (url + ") ![" + b);
    assert AllDot("](") && AllDot(") ![");
    forall c | c in alt ensures IsDotChar(c) {
      assert c in a || c in "](" || c in url || c in ") ![" || c in b;
    }
  }

  /** The two-image text read as one image whose alternative text runs up
      to the last `](`, and as the text around its first `(`. */
  lemma EarlierTextSplit(a: string, url: string, b: string, w1: string, w2: string)
    ensures var v := url + ") ![" + b + "](" + w1 + "." + w2 + ")";
      var t := "![" + (a + "](" + (url + ") ![" + b)) + "](" + w1 + "." + w2 + ")";
      t == "![" + a + "]" + "(" + v && "![" + a + "](" + v == t
  {
    var u := "![" + a + "]";
    var name := "](" + w1 + "." + w2 + ")";
    var mid := url + ") ![" + b;
    var v := url + ") ![" + b + "](" + w1 + "." + w2 + ")";
    var alt := a + "](" + mid;
    var t := "![" + alt + "](" + w1 + "." + w2 + ")";
    assert v == mid + name;
    assert t == "![" + alt + name;
    assert "![" + alt == u + "(" + mid;
    ConcatAssoc(u + "(", mid, name);
    ConcatAssoc(u, "(", mid + name);
    assert "![" + a + "](" == u + "(";
  }

  // --- external anchors ------------------------------------------------------

  /** The tags the anchor callback deals in each start with `<` and hold
      no other `<`, and neither widget tag starts like a link tag. */
  lemma TagFacts()
    ensures |LinkOpen| == 8 && |LinkClose| == 4 && |WidgetOpen| == 15 && |WidgetClose| == 12
    ensures LinkOpen[0] == '<' && LinkClose[0] == '<' && WidgetOpen[0] == '<' && WidgetClose[0] == '<'
    ensures '<' !in LinkOpen[1..] && '<' !in LinkClose[1..] && '<' !in WidgetOpen[1..] && '<' !in WidgetClose[1..]
    ensures '/' !in WidgetOpen && '/' in LinkClose
  {
    assert LinkClose[1] == '/';
  }

  lemma WidgetsDiffer()
    ensures WidgetOpen[..|LinkOpen|] != LinkOpen && WidgetClose[..|LinkOpen|] != LinkOpen
    ensures WidgetClose[..|LinkClose|] != LinkClose
  {
    assert WidgetOpen[..|LinkOpen|][1] != LinkOpen[1];
    assert WidgetClose[..|LinkOpen|][1] != LinkOpen[1];
    assert WidgetClose[..|LinkClose|][2] != LinkClose[2];
  }

  /** The anchor callback leaves no `<a href=` and no `</a>` behind. */
  lemma AnchorCallbackRemovesLinks(x: string)
    ensures Free(AnchorCallback(x), LinkOpen) && Free(AnchorCallback(x), LinkClose)
  {
    TagFacts();
    WidgetsDiffer();
    var y := ReplaceAll(x, LinkOpen, WidgetOpen);
    ReplaceAllKeepsFree(x, LinkOpen, WidgetOpen, LinkOpen);
    ReplaceAllKeepsFree(y, LinkClose, WidgetClose, LinkOpen);
    ReplaceAllKeepsFree(y, LinkClose, WidgetClose, LinkClose);
  }

  /** On a single anchor the callback renames the two tags and keeps the
      href, the content and the closing character. */
  lemma AnchorCallbackRenames(body: string, nw: char)
    requires Free(body, LinkOpen) && Free(body, LinkClose)
    ensures AnchorCallback(LinkOpen + body + LinkClose + [nw]) == WidgetOpen + body + WidgetClose + [nw]
  {
    ConcatAssoc3(LinkOpen, body, LinkClose, [nw]);
    ConcatAssoc(body, LinkClose, [nw]);
    RenameOpen(body, LinkClose + [nw]);
    RenameClose(body, nw);
    ConcatAssoc(body, WidgetClose, [nw]);
    ConcatAssoc3(WidgetOpen, body, WidgetClose, [nw]);
  }

  lemma RenameOpen(body: string, tail: string)
    requires Free(body, LinkOpen) && 0 < |tail| < |LinkOpen| && tail[0] == '<'
    ensures ReplaceAll(LinkOpen + (body + tail), LinkOpen, WidgetOpen) == WidgetOpen + (body + tail)
  {
    TagFacts();
    ReplaceAllAtMatch(body + tail, LinkOpen, WidgetOpen);
    NoStraddleByFirstChar(body, tail, LinkOpen);
    ReplaceAllConcat(body, tail, LinkOpen, WidgetOpen);
    ReplaceAllFree(body, LinkOpen, WidgetOpen);
  }

  lemma RenameClose(body: string, nw: char)
    requires Free(body, LinkClose)
    ensures ReplaceAll(WidgetOpen + (body + (LinkClose + [nw])), LinkClose, WidgetClose)
      == WidgetOpen + (body + (WidgetClose + [nw]))
  {
    TagFacts();
    var tail := LinkClose + [nw];
    NoStraddleByMissingHead(WidgetOpen, body + tail, LinkClose);
    ReplaceAllConcat(WidgetOpen, body + tail, LinkClose, WidgetClose);
    FreeByMissingChar(WidgetOpen, LinkClose, '/');
    ReplaceAllFree(WidgetOpen, LinkClose, WidgetClose);
    NoStraddleByFirstChar(body, tail, LinkClose);
    ReplaceAllConcat(body, tail, LinkClose, WidgetClose);
    ReplaceAllFree(body, LinkClose, WidgetClose);
    ReplaceAllAtMatch([nw], LinkClose, WidgetClose);
  }

  /** A line that starts with an external anchor and ends with `</a>` and
      a non-word character is one match, whatever lies between: any later
      anchor of the line, `http://`, fragment or relative, is widgetised
      with it, and no `<a href=` or `</a>` is left. */
  lemma AnchorStageWholeLine(t: string, q1: nat, q0: nat)
    requires |AnchorOpen| + 4 < q1 && q1 + 2 < q0 && q0 + 5 == |t| && OccursAt(t, AnchorOpen, 0)
    requires IsWordChar(t[|AnchorOpen|]) && t[|AnchorOpen| + 1..|AnchorOpen| + 4] == "://"
    requires t[q1..q1 + 2] == "\">" && CloseAt(t, q0)
    requires AllDot(t[|AnchorOpen| + 4..q0 + 4])
    ensures AnchorStage(t) == AnchorCallback(t)
    ensures Free(AnchorStage(t), LinkOpen) && Free(AnchorStage(t), LinkClose)
  {
    AnchorMatchToEnd(t, q1, q0);
    ReplaceMatchesWhole(ExternalAnchor, t, AnchorCallback);
    AnchorCallbackRemovesLinks(t);
  }

  /** A line with an external anchor followed by a fragment link. */
  const ExternalLink: string := "<a href=\"https://a\">A</a> "
  const FragmentLink: string := "<a href=\"#b\">B</a> "
  const FragmentLine: string := ExternalLink + FragmentLink

  /** The external anchor that opens `FragmentLine`. */
  lemma FragmentLineHead()
    ensures |FragmentLine| == 45 && OccursAt(FragmentLine, AnchorOpen, 0)
    ensures IsWordChar(FragmentLine[13]) && FragmentLine[14..17] == "://"
    ensures FragmentLine[18..20] == "\">"
  {
    var x := ExternalLink;
    assert |x| == 26 && |FragmentLink| == 19;
    assert FragmentLine[..26] == x;
    assert x[..13] == AnchorOpen;
    assert x[13] == 's' && x[14] == ':' && x[15] == '/' && x[16] == '/';
    assert x[14..17] == "://";
    assert x[18] == '"' && x[19] == '>';
    assert x[18..20] == "\">";
  }

  /** The fragment link of `FragmentLine` and the `</a>` that ends it. */
  lemma FragmentLineTail()
    ensures |FragmentLine| == 45 && OccursAt(FragmentLine, LinkOpen, 26)
    ensures CloseAt(FragmentLine, 40) && AllDot(FragmentLine[17..44])
  {
    var y := FragmentLink;
    assert |ExternalLink| == 26 && |y| == 19;
    assert FragmentLine[26..] == y;
    assert y[..8] == LinkOpen;
    assert y[14..18] == "</a>" && y[18] == ' ';
    FragmentLineDots();
  }

  /** `FragmentLine` is a single line. */
  lemma FragmentLineDots()
    ensures AllDot(FragmentLine)
  {
    assert AllDot(ExternalLink);
    assert AllDot(FragmentLink);
  }

  /** A fragment link after an external one on the same line: the line
      holds `<a href=` at 26, and after the anchor stage none is left. */
  lemma FragmentAfterExternal()
    ensures OccursAt(FragmentLine, LinkOpen, 26) && Free(AnchorStage(FragmentLine), LinkOpen)
  {
    FragmentLineHead();
    FragmentLineTail();
    AnchorStageWholeLine(FragmentLine, 18, 40);
  }

  /** A text that is one whole anchor, from `<a href="http` and a word
      character to `</a>` and a non-word character, becomes a `hacs-link`
      when its body holds no other tag of the two. */
  lemma AnchorStageOneAnchor(t: string, q1: nat, q0: nat)
    requires |AnchorOpen| + 4 < q1 && q1 + 2 < q0 && q0 + 5 == |t| && OccursAt(t, AnchorOpen, 0)
    requires IsWordChar(t[|AnchorOpen|]) && t[|AnchorOpen| + 1..|AnchorOpen| + 4] == "://"
    requires t[q1..q1 + 2] == "\">" && CloseAt(t, q0)
    requires AllDot(t[|AnchorOpen| + 4..q0 + 4])
    requires Free(t[|LinkOpen|..q0], LinkOpen) && Free(t[|LinkOpen|..q0], LinkClose)
    ensures AnchorStage(t) == WidgetOpen + t[|LinkOpen|..q0] + WidgetClose + [t[q0 + 4]]
  {
    AnchorMatchToEnd(t, q1, q0);
    ReplaceMatchesWhole(ExternalAnchor, t, AnchorCallback);
    AnchorPieces(t, q0);
    AnchorCallbackRenames(t[|LinkOpen|..q0], t[q0 + 4]);
  }

  lemma AnchorPieces(t: string, q0: nat)
    requires |AnchorOpen| <= q0 && OccursAt(t, AnchorOpen, 0) && CloseAt(t, q0) && q0 + 5 == |t|
    ensures t == LinkOpen + t[|LinkOpen|..q0] + LinkClose + [t[q0 + 4]]
  {
    assert t[..|LinkOpen|] == t[..|AnchorOpen|][..|LinkOpen|];
    assert t[q0..q0 + 4] == LinkClose;
    assert t == t[..|LinkOpen|] + t[|LinkOpen|..q0] + t[q0..q0 + 4] + [t[q0 + 4]];
  }

  /** A text in which no `<a href="http` is followed by a word character
      (one holding only `http://`, fragment or relative links, say) passes
      the anchor stage unchanged. */
  lemma AnchorStagePlainLinks(t: string)
    requires forall s :: OccursAt(t, AnchorOpen, s) && s + |AnchorOpen| < |t| ==> !IsWordChar(t[s + |AnchorOpen|])
    ensures AnchorStage(t) == t
  {
    forall j | 0 <= j <= |t| ensures MatchAt(ExternalAnchor, t, j).None? {
      if AnchorMatchAt(t, j).Some? {
        AnchorMatchShape(t, j);
      }
    }
    ReplaceMatchesNone(ExternalAnchor, t, 0, AnchorCallback);
  }

  // --- tags the anchor stage cannot create --------------------------------

  /** The opening `a` of a tag: it starts with `<`, holds no other `<`, is
      no longer than `</hacs-link>`, and is not how either widget tag
      starts. `<script`, `<iframe`, `<img` and `<a href=` are such
      openings. */
  ghost predicate TagStart(a: string)
  {
    0 < |a| <= |WidgetClose| && a[0] == '<' && '<' !in a[1..]
    && WidgetOpen[..|a|] != a && WidgetClose[..|a|] != a
  }

  /** The anchor pass adds no tag opening that the sanitised text lacks:
      whatever the XSS filter removed stays removed. */
  lemma AnchorStageAddsNoTag(t: string, a: string)
    requires TagStart(a) && Free(t, a)
    ensures Free(AnchorStage(t), a)
  {
    AnchorStageKeepsFree(t, 0, a);
  }

  lemma {:induction false} AnchorStageKeepsFree(t: string, k: nat, a: string)
    requires k <= |t| && TagStart(a) && Free(t, a)
    ensures Free(ReplaceMatches(ExternalAnchor, t, k, AnchorCallback), a)
    decreases |t| - k
  {
    match FindFrom(ExternalAnchor, t, k)
    case None =>
      FreeDrop(t, a, k);
    case Some(m) =>
      var pre := t[k..m.start];
      var x := t[m.start..m.end];
      var y := AnchorCallback(x);
      var rest := ReplaceMatches(ExternalAnchor, t, m.end, AnchorCallback);
      AnchorStageKeepsFree(t, m.end, a);
      FreeSlice(t, a, m.start, m.end);
      CallbackKeepsTagFree(x, a);
      SpanStartsWithTag(t, m.start, m.end);
      CallbackStartsWithTag(x);
      CallbackRestNoStraddle(t, m.start, m.end, a);
      FreeConcat(y, rest, a);
      NoStraddleByFirstChar(pre, y + rest, a);
      FreeSlice(t, a, k, m.start);
      FreeConcat(pre, y + rest, a);
      ConcatAssoc(pre, y, rest);
  }

  /** A matched anchor starts with `<a href=`. */
  lemma SpanStartsWithTag(t: string, s: nat, e: nat)
    requires MatchAt(ExternalAnchor, t, s) == Some(e)
    ensures s + |LinkOpen| <= e <= |t| && t[s..e][..|LinkOpen|] == LinkOpen
  {
    AnchorMatchShape(t, s);
    assert t[s..e][..|LinkOpen|] == t[s..s + |AnchorOpen|][..|LinkOpen|];
  }

  /** The callback keeps out a tag opening its input lacks. */
  lemma CallbackKeepsTagFree(x: string, a: string)
    requires TagStart(a) && Free(x, a)
    ensures Free(AnchorCallback(x), a)
  {
    TagFacts();
    ReplaceAllKeepsFree(x, LinkOpen, WidgetOpen, a);
    ReplaceAllKeepsFree(ReplaceAll(x, LinkOpen, WidgetOpen), LinkClose, WidgetClose, a);
  }

  /** The callback's output on an anchor starts with `<`. */
  lemma CallbackStartsWithTag(x: string)
    requires |LinkOpen| <= |x| && x[..|LinkOpen|] == LinkOpen
    ensures |AnchorCallback(x)| > 0 && AnchorCallback(x)[0] == '<'
  {
    TagFacts();
    ReplaceAllMatchStep(x, LinkOpen, WidgetOpen);
    var y := ReplaceAll(x, LinkOpen, WidgetOpen);
    assert y[..|LinkClose|][1] == WidgetOpen[1];
    ReplaceAllCopyStep(y, LinkClose, WidgetClose);
  }

  /** A short piece at the end of the callback's output that starts with
      `<` was already at the end of its input. */
  lemma CallbackShortSuffix(x: string, q: string)
    requires 0 < |q| < |WidgetClose| && q[0] == '<' && IsSuffix(q, AnchorCallback(x))
    ensures IsSuffix(q, x)
  {
    TagFacts();
    var y := ReplaceAll(x, LinkOpen, WidgetOpen);
    ReplaceAllCopiedSuffix(y, LinkClose, WidgetClose, q);
    ReplaceAllCopiedSuffix(x, LinkOpen, WidgetOpen, q);
  }

  /** Text that the anchor stage puts out from `k` on and that starts with
      no `<` was copied from the input: every replacement begins with `<`. */
  lemma ReplaceMatchesHeadCopied(t: string, k: nat, q: string)
    requires k <= |t| && '<' !in q
    requires var out := ReplaceMatches(ExternalAnchor, t, k, AnchorCallback);
      |q| <= |out| && out[..|q|] == q
    ensures k + |q| <= |t| && t[k..k + |q|] == q
  {
    match FindFrom(ExternalAnchor, t, k)
    case None =>
      assert t[k..][..|q|] == t[k..k + |q|];
    case Some(m) =>
      var pre := t[k..m.start];
      var y := AnchorCallback(t[m.start..m.end]);
      var rest := ReplaceMatches(ExternalAnchor, t, m.end, AnchorCallback);
      ConcatAssoc(pre, y, rest);
      if |q| <= |pre| {
        assert (pre + (y + rest))[..|q|] == pre[..|q|];
      } else {
        HeadInPrefix(pre, y + rest, q);
        SpanStartsWithTag(t, m.start, m.end);
        CallbackStartsWithTag(t[m.start..m.end]);
      }
  }

  lemma HeadInPrefix(x: string, w: string, q: string)
    requires |x| < |q| <= |x + w| && (x + w)[..|q|] == q
    ensures w[0] in q
  {
    assert q[|x|] == w[0];
  }

  /** No tag opening straddles a replaced anchor and the text after it:
      its head would be a short suffix of the anchor and its tail copied
      text, and so it would occur in the input. */
  lemma CallbackRestNoStraddle(t: string, s: nat, e: nat, a: string)
    requires s <= e <= |t| && TagStart(a) && Free(t, a)
    ensures var y := AnchorCallback(t[s..e]);
      NoStraddle(y, ReplaceMatches(ExternalAnchor, t, e, AnchorCallback), a)
  {
    var x := t[s..e];
    var y := AnchorCallback(x);
    var rest := ReplaceMatches(ExternalAnchor, t, e, AnchorCallback);
    forall i | 0 <= i < |y| < i + |a| && OccursAt(y + rest, a, i) ensures false {
      StraddleInInput(t, s, e, a, i);
    }
  }

  lemma StraddleInInput(t: string, s: nat, e: nat, a: string, i: nat)
    requires s <= e <= |t| && TagStart(a)
    requires var y := AnchorCallback(t[s..e]);
      i < |y| < i + |a| && OccursAt(y + ReplaceMatches(ExternalAnchor, t, e, AnchorCallback), a, i)
    ensures OccursAt(t, a, e - (|AnchorCallback(t[s..e])| - i))
  {
    var x := t[s..e];
    var y := AnchorCallback(x);
    var rest := ReplaceMatches(ExternalAnchor, t, e, AnchorCallback);
    var q := y[i..];
    SplitOccurrence(y, rest, a, i);
    assert IsSuffix(q, y);
    CallbackShortSuffix(x, q);
    NoAngleAfterHead(a, |q|);
    ReplaceMatchesHeadCopied(t, e, a[|q|..]);
    JoinInInput(t, s, e, a, q, e - (|AnchorCallback(t[s..e])| - i));
  }

  /** The two sides of an occurrence across `y` and `z`. */
  lemma SplitOccurrence(y: string, z: string, a: string, i: nat)
    requires i < |y| < i + |a| && OccursAt(y + z, a, i)
    ensures var n := |a| - (|y| - i);
      n <= |z| && y[i..] == a[..|y| - i] && z[..n] == a[|y| - i..]
  {
    var n := |a| - (|y| - i);
    assert (y + z)[i..i + |a|] == y[i..] + z[..n];
  }

  lemma NoAngleAfterHead(a: string, n: nat)
    requires TagStart(a) && 0 < n <= |a|
    ensures '<' !in a[n..]
  {
    assert a[n..] == a[1..][n - 1..];
  }

  /** A suffix of `t[s..e]` followed in `t` by the rest of `a` is an
      occurrence of `a`. */
  lemma JoinInInput(t: string, s: nat, e: nat, a: string, q: string, k: int)
    requires s <= e <= |t| && |q| <= |a| && IsSuffix(q, t[s..e]) && q == a[..|q|]
    requires e + (|a| - |q|) <= |t| && t[e..e + (|a| - |q|)] == a[|q|..]
    requires k == e - |q|
    ensures OccursAt(t, a, k)
  {
    assert t[s..e][e - s - |q|..] == t[e - |q|..e];
    assert t[e - |q|..e - |q| + |a|] == t[e - |q|..e] + t[e..e + (|a| - |q|)];
    assert a == a[..|q|] + a[|q|..];
  }

  // --- highlighting --------------------------------------------------------

  /** After the set-up, code fenced as yaml, javascript or json is
      highlighted as that language. */
  lemma HighlightRegistered(h: Highlighter, code: string, lang: string)
    requires lang in ["yaml", "javascript", "json"]
    ensures Options(h, ["yaml", "javascript", "json"]).highlight(code, lang) == h.highlight(lang, code)
  {
  }

  /** Code without a language, or with one the registry does not resolve,
      is auto-detected. */
  lemma HighlightFallsBack(h: Highlighter, languages: seq<string>, code: string, lang: string)
    requires lang == "" || !Known(h, languages, lang)
    ensures Options(h, languages).highlight(code, lang) == h.highlightAuto(code)
  {
  }
}
