/** Facts about occurrences and about the global replacement of `Strings`:
    when it leaves text alone, how it splits over a concatenation, and which
    patterns it can never create. */
module StringLemmas {
  import opened Wrappers
  import opened Strings

  /** No occurrence of `p` that begins inside `x` runs on into `y`. */
  ghost predicate NoStraddle(x: string, y: string, p: string)
  {
    forall i :: 0 <= i < |x| < i + |p| ==> !OccursAt(x + y, p, i)
  }

  lemma OccursAtChar(s: string, p: string, i: int, j: int)
    requires OccursAt(s, p, i) && 0 <= j < |p|
    ensures s[i + j] == p[j]
  {
    assert s[i..i + |p|][j] == s[i + j];
  }

  lemma OccursInSlice(s: string, p: string, i: nat, j: nat, k: int)
    requires i <= j <= |s| && OccursAt(s[i..j], p, k)
    ensures OccursAt(s, p, i + k)
  {
    forall m | 0 <= m < |p| ensures s[i + k..i + k + |p|][m] == p[m] {
      assert s[i..j][k..k + |p|][m] == p[m];
    }
  }

  lemma OccursInLeft(x: string, y: string, p: string, i: int)
    requires OccursAt(x + y, p, i) && i + |p| <= |x|
    ensures OccursAt(x, p, i)
  {
    assert (x + y)[i..i + |p|] == x[i..i + |p|];
  }

  lemma OccursInRight(x: string, y: string, p: string, i: int)
    requires OccursAt(x + y, p, i) && i >= |x|
    ensures OccursAt(y, p, i - |x|)
  {
    assert (x + y)[i..i + |p|] == y[i - |x|..i - |x| + |p|];
  }

  /** A pattern holding a character that `s` lacks cannot occur in `s`. */
  lemma FreeByMissingChar(s: string, p: string, c: char)
    requires c in p && c !in s
    ensures Free(s, p)
  {
    var j :| 0 <= j < |p| && p[j] == c;
    forall i | OccursAt(s, p, i) ensures false {
      OccursAtChar(s, p, i, j);
    }
  }

  lemma FreeSlice(s: string, p: string, i: nat, j: nat)
    requires i <= j <= |s| && Free(s, p)
    ensures Free(s[i..j], p)
  {
    forall k | OccursAt(s[i..j], p, k) ensures false {
      OccursInSlice(s, p, i, j, k);
    }
  }

  lemma FreeDrop(s: string, p: string, i: nat)
    requires i <= |s| && Free(s, p)
    ensures Free(s[i..], p)
  {
    FreeSlice(s, p, i, |s|);
    assert s[i..|s|] == s[i..];
  }

  lemma FreeConcat(x: string, y: string, p: string)
    requires Free(x, p) && Free(y, p) && NoStraddle(x, y, p)
    ensures Free(x + y, p)
  {
    forall i | OccursAt(x + y, p, i) ensures false {
      if i + |p| <= |x| {
        OccursInLeft(x, y, p, i);
      } else if i >= |x| {
        OccursInRight(x, y, p, i);
      }
    }
  }

  /** An occurrence straddling `x` and `y` would put `y[0]` at a position of
      `p` other than the first. */
  lemma NoStraddleByFirstChar(x: string, y: string, p: string)
    requires |p| > 0 && |y| > 0 && y[0] !in p[1..]
    ensures NoStraddle(x, y, p)
  {
    forall i | 0 <= i < |x| < i + |p| && OccursAt(x + y, p, i) ensures false {
      var k := |x| - i;
      OccursAtChar(x + y, p, i, k);
    }
  }

  /** An occurrence straddling `x` and `y` would begin with one of the last
      `|p| - 1` characters of `x`. */
  lemma NoStraddleByLastChars(x: string, y: string, p: string)
    requires |p| > 0
    requires forall i :: 0 <= i < |x| && |x| < i + |p| ==> x[i] != p[0]
    ensures NoStraddle(x, y, p)
  {
    forall i | 0 <= i < |x| < i + |p| && OccursAt(x + y, p, i) ensures false {
      OccursAtChar(x + y, p, i, 0);
    }
  }

  /** Without an occurrence, the global replacement changes nothing. */
  lemma {:induction false} ReplaceAllFree(s: string, p: string, r: string)
    requires |p| > 0 && Free(s, p)
    ensures ReplaceAll(s, p, r) == s
    decreases |s|
  {
    if |s| >= |p| {
      assert !OccursAt(s, p, 0);
      FreeDrop(s, p, 1);
      ReplaceAllFree(s[1..], p, r);
      assert s == [s[0]] + s[1..];
    }
  }

  /** A replacement at the front. */
  lemma ReplaceAllAtMatch(y: string, p: string, r: string)
    requires |p| > 0
    ensures ReplaceAll(p + y, p, r) == r + ReplaceAll(y, p, r)
  {
    assert (p + y)[..|p|] == p;
    assert (p + y)[|p|..] == y;
  }

  lemma NoStraddleShift(x: string, y: string, p: string, n: nat)
    requires n <= |x| && NoStraddle(x, y, p)
    ensures NoStraddle(x[n..], y, p)
  {
    var s := x + y;
    assert x[n..] + y == s[n..];
    forall i | 0 <= i < |x[n..]| < i + |p| && OccursAt(s[n..], p, i) ensures false {
      assert s[n..|s|] == s[n..];
      OccursInSlice(s, p, n, |s|, i);
    }
  }

  /** The scan of `x + y` splits at the boundary when no occurrence
      straddles it. */
  lemma {:induction false} ReplaceAllConcat(x: string, y: string, p: string, r: string)
    requires |p| > 0 && NoStraddle(x, y, p)
    ensures ReplaceAll(x + y, p, r) == ReplaceAll(x, p, r) + ReplaceAll(y, p, r)
    decreases |x|, 1
  {
    var s := x + y;
    if x == [] {
      assert s == y;
    } else if |s| < |p| {
      assert ReplaceAll(x, p, r) == x && ReplaceAll(y, p, r) == y;
    } else if s[..|p|] == p {
      ReplaceAllConcatMatch(x, y, p, r);
    } else {
      ReplaceAllConcatCopy(x, y, p, r);
    }
  }

  /** `ReplaceAllConcat` when `x + y` starts with an occurrence. */
  lemma {:induction false} ReplaceAllConcatMatch(x: string, y: string, p: string, r: string)
    requires |p| > 0 && NoStraddle(x, y, p) && x != []
    requires |x + y| >= |p| && (x + y)[..|p|] == p
    ensures ReplaceAll(x + y, p, r) == ReplaceAll(x, p, r) + ReplaceAll(y, p, r)
    decreases |x|, 0
  {
    var s := x + y;
    assert OccursAt(s, p, 0);
    assert s[..|p|] == x[..|p|];
    assert s[|p|..] == x[|p|..] + y;
    NoStraddleShift(x, y, p, |p|);
    ReplaceAllConcat(x[|p|..], y, p, r);
  }

  /** `ReplaceAllConcat` when `x + y` does not start with an occurrence. */
  lemma {:induction false} ReplaceAllConcatCopy(x: string, y: string, p: string, r: string)
    requires |p| > 0 && NoStraddle(x, y, p) && x != []
    requires |x + y| >= |p| && (x + y)[..|p|] != p
    ensures ReplaceAll(x + y, p, r) == ReplaceAll(x, p, r) + ReplaceAll(y, p, r)
    decreases |x|, 0
  {
    var s := x + y;
    assert s[1..] == x[1..] + y;
    NoStraddleShift(x, y, p, 1);
    ReplaceAllConcat(x[1..], y, p, r);
    ReplaceAllCopyStep(s, p, r);
    assert s[0] == x[0];
    if |x| >= |p| {
      assert x[..|p|] == s[..|p|];
      ReplaceAllCopyStep(x, p, r);
    } else {
      ReplaceAllShortTail(x, p, r);
    }
    ConcatAssoc([x[0]], ReplaceAll(x[1..], p, r), ReplaceAll(y, p, r));
  }

  lemma ConcatAssoc(a: string, b: string, c: string)
    ensures a + (b + c) == (a + b) + c
  {
  }

  /** Dropping the first character of a text shorter than the pattern
      leaves it unchanged by the scan, before and after. */
  lemma ReplaceAllShortTail(x: string, p: string, r: string)
    requires |p| > 0 && 0 < |x| < |p|
    ensures ReplaceAll(x, p, r) == [x[0]] + ReplaceAll(x[1..], p, r)
  {
    assert ReplaceAll(x, p, r) == x;
    assert ReplaceAll(x[1..], p, r) == x[1..];
    assert x == [x[0]] + x[1..];
  }

  /** A prefix of the output that avoids the replacement's first character
      was copied from the input. */
  lemma {:induction false} ReplaceAllCopiedPrefix(u: string, p: string, r: string, q: string)
    requires |p| > 0 && |r| > 0 && r[0] !in q
    requires |q| <= |ReplaceAll(u, p, r)| && ReplaceAll(u, p, r)[..|q|] == q
    ensures |q| <= |u| && u[..|q|] == q
    decreases |u|
  {
    if |q| > 0 && |u| >= |p| {
      if u[..|p|] == p {
        ReplaceAllMatchStep(u, p, r);
        PrefixHoldsHead(ReplaceAll(u, p, r), q);
      } else {
        var rest := ReplaceAll(u[1..], p, r);
        assert ReplaceAll(u, p, r) == [u[0]] + rest;
        assert rest[..|q| - 1] == q[1..];
        ReplaceAllCopiedPrefix(u[1..], p, r, q[1..]);
        assert u[..|q|] == [u[0]] + u[1..][..|q| - 1];
      }
    }
  }

  /** An output shorter than the replacement holds no replacement. */
  lemma {:induction false} ReplaceAllShortUnchanged(u: string, p: string, r: string)
    requires |p| > 0 && |ReplaceAll(u, p, r)| < |r|
    ensures ReplaceAll(u, p, r) == u
    decreases |u|
  {
    if |u| >= |p| && u[..|p|] != p {
      ReplaceAllShortUnchanged(u[1..], p, r);
      assert u == [u[0]] + u[1..];
    }
  }

  /** A suffix of the output shorter than the replacement, and starting with
      the replacement's first character, was copied from the input when that
      character occurs only at the start of the replacement. */
  lemma {:induction false} ReplaceAllCopiedSuffix(u: string, p: string, r: string, q: string)
    requires |p| > 0 && |r| > 0 && r[0] !in r[1..]
    requires 0 < |q| < |r| && q[0] == r[0]
    requires IsSuffix(q, ReplaceAll(u, p, r))
    ensures IsSuffix(q, u)
    decreases |u|
  {
    if |u| >= |p| {
      if u[..|p|] == p {
        var rest := ReplaceAll(u[|p|..], p, r);
        ReplaceAllMatchStep(u, p, r);
        if |q| <= |rest| {
          SuffixOfConcat(r, rest, q);
          ReplaceAllCopiedSuffix(u[|p|..], p, r, q);
          SuffixOfDrop(u, |p|, q);
        } else {
          SuffixAfterReplacement(r, rest, q);
        }
      } else {
        var rest := ReplaceAll(u[1..], p, r);
        ReplaceAllCopyStep(u, p, r);
        if |q| <= |rest| {
          SuffixOfConcat([u[0]], rest, q);
          ReplaceAllCopiedSuffix(u[1..], p, r, q);
          SuffixOfDrop(u, 1, q);
        } else {
          ReplaceAllShortUnchanged(u, p, r);
        }
      }
    }
  }

  /** `q` is a suffix of `s`. */
  predicate IsSuffix(q: string, s: string)
  {
    |q| <= |s| && s[|s| - |q|..] == q
  }

  lemma SuffixOfConcat(x: string, y: string, q: string)
    requires IsSuffix(q, x + y) && |q| <= |y|
    ensures IsSuffix(q, y)
  {
    assert (x + y)[|x + y| - |q|..] == y[|y| - |q|..];
  }

  lemma SuffixOfDrop(u: string, n: nat, q: string)
    requires n <= |u| && IsSuffix(q, u[n..])
    ensures IsSuffix(q, u)
  {
    assert u[n..][|u[n..]| - |q|..] == u[|u| - |q|..];
  }

  /** A suffix of `r + rest` longer than `rest` starts inside `r`; if it
      starts with `r[0]`, which `r` holds only at its front, it is all of
      `r + rest`. */
  lemma SuffixAfterReplacement(r: string, rest: string, q: string)
    requires |r| > 0 && r[0] !in r[1..]
    requires |rest| < |q| && q[0] == r[0] && IsSuffix(q, r + rest)
    ensures |q| == |r + rest|
  {
    var j := |r| + |rest| - |q|;
    assert (r + rest)[j] == q[0];
  }

  /** The global replacement never creates an occurrence of a pattern `a`
      whose first character occurs nowhere else in it and which is not a
      prefix of the replacement, when the replacement starts with that same
      character and holds it nowhere else; and it leaves no occurrence of
      the replaced pattern itself (`a == p`). */
  lemma {:induction false} ReplaceAllKeepsFree(s: string, p: string, r: string, a: string)
    requires |p| > 0 && |a| > 0 && |r| >= |a|
    requires r[0] == a[0] && a[0] !in a[1..] && r[0] !in r[1..] && r[..|a|] != a
    requires a == p || Free(s, a)
    ensures Free(ReplaceAll(s, p, r), a)
    decreases |s|
  {
    var out := ReplaceAll(s, p, r);
    if |s| < |p| {
    } else if s[..|p|] == p {
      var rest := ReplaceAll(s[|p|..], p, r);
      if a != p { FreeDrop(s, a, |p|); }
      ReplaceAllKeepsFree(s[|p|..], p, r, a);
      assert out == r + rest;
      forall i | OccursAt(out, a, i) ensures false {
        if i >= |r| {
          OccursInRight(r, rest, a, i);
        } else if i > 0 {
          OccursAtChar(out, a, i, 0);
        }
      }
    } else {
      var rest := ReplaceAll(s[1..], p, r);
      if a != p { FreeDrop(s, a, 1); }
      ReplaceAllKeepsFree(s[1..], p, r, a);
      assert out == [s[0]] + rest;
      forall i | OccursAt(out, a, i) ensures false {
        if i >= 1 {
          OccursInRight([s[0]], rest, a, i);
        } else {
          FrontOccurrenceCopied(s, p, r, a);
        }
      }
    }
  }

  /** Helper of `ReplaceAllKeepsFree`: when the scan copies `s[0]` and the
      output starts with `a`, so does `s`. */
  lemma FrontOccurrenceCopied(s: string, p: string, r: string, a: string)
    requires |p| > 0 && |a| > 0 && |r| > 0 && r[0] == a[0] && a[0] !in a[1..]
    requires |s| >= |p| && s[..|p|] != p
    requires OccursAt(ReplaceAll(s, p, r), a, 0)
    ensures OccursAt(s, a, 0)
  {
    ReplaceAllCopyStep(s, p, r);
    OccurrenceAfterHead(ReplaceAll(s, p, r), s[0], ReplaceAll(s[1..], p, r), a);
    ReplaceAllCopiedPrefix(s[1..], p, r, a[1..]);
    OccursAtCons(s, a);
  }

  lemma OccurrenceAfterHead(out: string, c: char, rest: string, a: string)
    requires |a| > 0 && out == [c] + rest && OccursAt(out, a, 0)
    ensures c == a[0] && |rest| >= |a| - 1 && rest[..|a| - 1] == a[1..]
  {
    forall m | 0 <= m < |a| - 1 ensures rest[m] == a[1..][m] {
      OccursAtChar(out, a, 0, m + 1);
    }
    OccursAtChar(out, a, 0, 0);
  }

  /** A non-empty prefix of `x` holds `x[0]`. */
  lemma PrefixHoldsHead(x: string, q: string)
    requires 0 < |q| <= |x| && x[..|q|] == q
    ensures x[0] in q
  {
    assert q[0] == x[0];
  }

  lemma OccursAtCons(s: string, a: string)
    requires |a| > 0 && |s| >= |a| && s[0] == a[0]
    requires s[1..][..|a| - 1] == a[1..]
    ensures OccursAt(s, a, 0)
  {
    assert s[..|a|] == [s[0]] + s[1..][..|a| - 1];
    assert a == [a[0]] + a[1..];
  }

  /** One step of the scan that copies a character. */
  lemma ReplaceAllCopyStep(s: string, p: string, r: string)
    requires |p| > 0 && |s| >= |p| && s[..|p|] != p
    ensures ReplaceAll(s, p, r) == [s[0]] + ReplaceAll(s[1..], p, r)
  {
  }

  /** One step of the scan that replaces an occurrence. */
  lemma ReplaceAllMatchStep(s: string, p: string, r: string)
    requires |p| > 0 && |s| >= |p| && s[..|p|] == p
    ensures ReplaceAll(s, p, r) == r + ReplaceAll(s[|p|..], p, r)
  {
  }

  /** An occurrence straddling `x` and `y` would begin inside `x` past its
      first character, where the first character of `p` does not occur. */
  lemma NoStraddleByMissingHead(x: string, y: string, p: string)
    requires 0 < |p| <= |x| && p[0] !in x[1..]
    ensures NoStraddle(x, y, p)
  {
    forall i | 0 <= i < |x| < i + |p| && OccursAt(x + y, p, i) ensures false {
      OccursAtChar(x + y, p, i, 0);
    }
  }

  /** The first replacement acts on the first `p`: the one after `u` when
      no earlier one starts inside `u`. */
  lemma ReplaceFirstAfter(u: string, p: string, r: string, v: string)
    requires |p| > 0 && Free(u + p[..|p| - 1], p)
    ensures ReplaceFirst(u + p + v, p, r) == u + r + v
  {
    var s := u + p + v;
    var w := u + p[..|p| - 1];
    assert s == w + ([p[|p| - 1]] + v);
    forall j | 0 <= j < |u| && OccursAt(s, p, j) ensures false {
      OccursInLeft(w, [p[|p| - 1]] + v, p, j);
    }
    assert s[|u|..|u| + |p|] == p;
    assert FirstOccurrence(s, p, |u|);
    assert s[..|u|] == u;
    assert s[|u| + |p|..] == v;
  }

  lemma ReplaceFirstAtStart(p: string, r: string, v: string)
    requires |p| > 0
    ensures ReplaceFirst(p + v, p, r) == r + v
  {
    var s := p + v;
    assert s[..|p|] == p;
    assert FirstOccurrence(s, p, 0);
    assert ReplaceFirst(s, p, r) == s[..0] + r + s[|p|..];
    assert s[|p|..] == v;
    assert s[..0] + r + v == r + v;
  }

  /** A text without the separator is a single piece. */
  lemma SplitWhole(v: string, c: char)
    requires c !in v
    ensures Split(v, c) == [v]
  {
    FreeByMissingChar(v, [c], c);
  }

  /** Splitting at the first separator: the piece before it, then the
      pieces of the rest. */
  lemma SplitAtFirst(u: string, v: string, c: char)
    requires c !in u
    ensures Split(u + [c] + v, c) == [u] + Split(v, c)
  {
    var s := u + [c] + v;
    assert s[|u|..|u| + 1] == [c];
    assert OccursAt(s, [c], |u|);
    forall j | 0 <= j < |u| ensures !OccursAt(s, [c], j) {
      assert s[j] == u[j];
    }
    assert IndexOf(s, [c]) == Some(|u|);
    assert s[..|u|] == u;
    assert s[|u| + 1..] == v;
  }
}
