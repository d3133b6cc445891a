/** The JavaScript string operations the front end relies on, over `seq<char>`:
    `indexOf` / `includes`, `replace` with a string pattern (first occurrence
    only), `replace` with a literal global regex (every occurrence, left to
    right, without overlap), and `split` on a one-character separator. */
module Strings {
  import opened Wrappers

  /** `p` occurs in `s` at index `i`. */
  predicate OccursAt(s: string, p: string, i: int)
  {
    0 <= i && i + |p| <= |s| && s[i..i + |p|] == p
  }

  /** `p` occurs nowhere in `s`. */
  ghost predicate Free(s: string, p: string)
  {
    forall i :: !OccursAt(s, p, i)
  }

  /** `i` is the leftmost occurrence of `p` in `s`. */
  ghost predicate FirstOccurrence(s: string, p: string, i: int)
  {
    OccursAt(s, p, i) && forall j :: 0 <= j < i ==> !OccursAt(s, p, j)
  }

  /** `s.indexOf(p, k)`: the leftmost occurrence of `p` at or after `k`. */
  function IndexFrom(s: string, p: string, k: nat): (r: Option<nat>)
    ensures r.Some? ==> k <= r.value && OccursAt(s, p, r.value)
    ensures r.Some? ==> forall j :: k <= j < r.value ==> !OccursAt(s, p, j)
    ensures r.None? ==> forall j :: k <= j ==> !OccursAt(s, p, j)
    decreases |s| - k
  {
    if k + |p| > |s| then None
    else if s[k..k + |p|] == p then Some(k)
    else IndexFrom(s, p, k + 1)
  }

  /** `s.indexOf(p)`. */
  function IndexOf(s: string, p: string): (r: Option<nat>)
    ensures r.Some? <==> !Free(s, p)
    ensures r.Some? ==> FirstOccurrence(s, p, r.value)
  {
    IndexFrom(s, p, 0)
  }

  /** `s.includes(p)`. */
  predicate Contains(s: string, p: string)
  {
    IndexOf(s, p).Some?
  }

  /** `s.replace(p, r)` with a string pattern: only the leftmost occurrence
      of `p` is replaced; without one, `s` is returned unchanged. */
  function ReplaceFirst(s: string, p: string, r: string): (t: string)
    ensures Free(s, p) ==> t == s
    ensures forall i :: FirstOccurrence(s, p, i) ==> t == s[..i] + r + s[i + |p|..]
  {
    match IndexOf(s, p)
    case None => s
    case Some(k) =>
      s[..k] + r + s[k + |p|..]
  }

  /** `s.replace(/p/g, r)` for a literal, non-empty pattern `p`: every
      occurrence, scanning left to right and resuming after each one. */
  function ReplaceAll(s: string, p: string, r: string): string
    requires |p| > 0
    decreases |s|
  {
    if |s| < |p| then s
    else if s[..|p|] == p then r + ReplaceAll(s[|p|..], p, r)
    else [s[0]] + ReplaceAll(s[1..], p, r)
  }

  /** `s.split(c)` for a one-character separator. */
  function Split(s: string, c: char): (parts: seq<string>)
    ensures |parts| >= 1
    ensures forall k :: 0 <= k < |parts| ==> c !in parts[k]
    ensures Join(parts, c) == s
    decreases |s|
  {
    match IndexOf(s, [c])
    case None =>
      assert c !in s by {
        if c in s {
          var i :| 0 <= i < |s| && s[i] == c;
          assert OccursAt(s, [c], i);
        }
      }
      [s]
    case Some(i) =>
      assert c !in s[..i] by {
        forall j | 0 <= j < i ensures s[j] != c {
          assert !OccursAt(s, [c], j);
          assert s[j..j + 1] == [s[j]];
        }
      }
      assert s[i..i + 1] == [c];
      assert s == s[..i] + [c] + s[i + 1..];
      [s[..i]] + Split(s[i + 1..], c)
  }

  /** `parts.join(c)`. */
  function Join(parts: seq<string>, c: char): string
    requires |parts| >= 1
  {
    if |parts| == 1 then parts[0] else parts[0] + [c] + Join(parts[1..], c)
  }

  /** `s.split(c)[i]`, which is `undefined` past the last piece. */
  function Segment(s: string, c: char, i: nat): Option<string>
  {
    var parts := Split(s, c);
    if i < |parts| then Some(parts[i]) else None
  }
}

