/**
 * The JavaScript string operations the mention controller relies on:
 * `indexOf`, `replace` with a string pattern, `substr`, and the
 * order-preserving subsequence relation that `Array.prototype.filter` yields.
 */
module Text {

  /** `p` occurs in `s` starting at index `i`. */
  predicate OccursAt(s: string, p: string, i: int)
  {
    0 <= i && i + |p| <= |s| && s[i..i + |p|] == p
  }

  /** The first occurrence of `p` in `s` at or after `k`, or -1 when there is none. */
  function IndexOfFrom(s: string, p: string, k: nat): (r: int)
    decreases |s| - k
    ensures r == -1 || (k <= r && OccursAt(s, p, r))
    ensures forall j :: k <= j && (r == -1 || j < r) ==> !OccursAt(s, p, j)
  {
    if k + |p| > |s| then -1
    else if s[k..k + |p|] == p then k
    else IndexOfFrom(s, p, k + 1)
  }

  /** `s.indexOf(p)`: the first occurrence of `p`, or -1 (an empty `p` is found at 0). */
  function IndexOf(s: string, p: string): (r: int)
    ensures r == -1 || OccursAt(s, p, r)
    ensures forall j :: 0 <= j && (r == -1 || j < r) ==> !OccursAt(s, p, j)
  {
    IndexOfFrom(s, p, 0)
  }

  /** A position where `p` occurs, with no occurrence before it, is what `indexOf` returns. */
  lemma IndexOfIs(s: string, p: string, i: int)
    requires OccursAt(s, p, i)
    requires forall j :: 0 <= j < i ==> !OccursAt(s, p, j)
    ensures IndexOf(s, p) == i
  {
  }

  /** Cutting an occurrence of `p` out of `s` and putting `p` back gives `s` again. */
  lemma SpliceOccurrence(s: string, p: string, i: int)
    requires OccursAt(s, p, i)
    ensures s[..i] + p + s[i + |p|..] == s
  {
    assert s == s[..i] + s[i..i + |p|] + s[i + |p|..];
  }

  /**
   * `~s.indexOf(p)` is non-zero, i.e. truthy, exactly when the index is not -1;
   * this predicate is that test.
   */
  predicate Contains(s: string, p: string)
    ensures Contains(s, p) <==> exists i :: OccursAt(s, p, i)
  {
    IndexOf(s, p) != -1
  }

  /**
   * Literal first-occurrence replacement: only the first occurrence of `p`
   * is replaced, and `t` is inserted as it is. This is the corrected reading
   * of `s.replace(p, t)`; JavaScript itself expands `t` as a replacement
   * template (module AsWritten).
   */
  function ReplaceFirst(s: string, p: string, t: string): (r: string)
    ensures !Contains(s, p) ==> r == s
    ensures Contains(s, p) ==> |r| == |s| - |p| + |t|
  {
    var i := IndexOf(s, p);
    if i == -1 then s else s[..i] + t + s[i + |p|..]
  }

  /** Where `indexOf` finds `p` at `i`, `replace` splices `t` in at `i`. */
  lemma ReplaceFirstAt(s: string, p: string, t: string, i: int)
    requires i != -1 && IndexOf(s, p) == i
    ensures Contains(s, p) && ReplaceFirst(s, p, t) == s[..i] + t + s[i + |p|..]
  {
  }

  /** Replacing the first `p` by `x` followed by `p` inserts `x` in front of that `p`. */
  lemma ReplaceFirstPrepends(s: string, p: string, x: char)
    requires Contains(s, p)
    ensures var k := IndexOf(s, p);
            ReplaceFirst(s, p, [x] + p) == s[..k] + [x] + s[k..]
  {
    var k := IndexOf(s, p);
    ReplaceFirstAt(s, p, [x] + p, k);
    InsertBefore(s, p, x, k);
  }

  /** Splicing `x` followed by `p` over an occurrence of `p` inserts `x` in front of it. */
  lemma InsertBefore(s: string, p: string, x: char, k: int)
    requires OccursAt(s, p, k)
    ensures s[..k] + ([x] + p) + s[k + |p|..] == s[..k] + [x] + s[k..]
  {
    assert s[k..] == p + s[k + |p|..] by {
      assert s[k..] == s[k..k + |p|] + s[k + |p|..];
    }
  }

  /** `s.substr(0, n)` for a non-negative `n`: the first `n` characters, or all of `s`. */
  function Prefix(s: string, n: nat): (r: string)
    ensures r <= s
    ensures |r| == if n <= |s| then n else |s|
  {
    if n <= |s| then s[..n] else s
  }

  /** `s.substr(n)` for a non-negative `n`: what follows index `n`, or nothing. */
  function From(s: string, n: nat): (r: string)
    ensures |r| == if n <= |s| then |s| - n else 0
    ensures n <= |s| ==> s == s[..n] + r
  {
    if n <= |s| then s[n..] else []
  }

  /** `a` is obtained from `b` by deleting elements, keeping their order. */
  predicate IsSubsequence<T(==)>(a: seq<T>, b: seq<T>)
    decreases |b|
  {
    if a == [] then true
    else if b == [] then false
    else (a[0] == b[0] && IsSubsequence(a[1..], b[1..])) || IsSubsequence(a, b[1..])
  }

  lemma SubsequenceCons<T>(x: T, a: seq<T>, b: seq<T>)
    requires IsSubsequence(a, b)
    ensures IsSubsequence([x] + a, [x] + b)
    ensures IsSubsequence(a, [x] + b)
  {
    assert ([x] + a)[1..] == a;
    assert ([x] + b)[1..] == b;
  }

  /** The head and the tail of `a + b` when `a` is not empty. */
  lemma HeadTailAppend<T>(a: seq<T>, b: seq<T>)
    requires a != []
    ensures (a + b)[0] == a[0] && (a + b)[1..] == a[1..] + b
  {
  }

  /** Concatenation regroups: `[x] + (a + b)` is `([x] + a) + b`. */
  lemma ConsAppendAssoc<T>(x: T, a: seq<T>, b: seq<T>)
    ensures [x] + (a + b) == ([x] + a) + b
  {
  }

  /** Keeping the head of `s` on top of a sub-multiset of its tail gives a sub-multiset of `s`. */
  lemma KeepHead<T>(s: seq<T>, kept: seq<T>)
    requires s != [] && multiset(kept) <= multiset(s[1..])
    ensures multiset([s[0]] + kept) <= multiset(s)
  {
    assert s == [s[0]] + s[1..];
  }

  /** Dropping the head of `s`: a sub-multiset of its tail is one of `s`. */
  lemma DropHead<T>(s: seq<T>, kept: seq<T>)
    requires s != [] && multiset(kept) <= multiset(s[1..])
    ensures multiset(kept) <= multiset(s)
  {
    assert s == [s[0]] + s[1..];
  }
}
