/**
 * The candidate navigator: how `up` and `down` move the active choice over
 * the list of candidates, found by `indexOf` (so by the first equal entry).
 */
module Navigator {
  import opened Wrappers
  import opened Codec

  /** The first index at or after `k` where `x` is listed, or -1. */
  function FindFrom(cs: seq<Choice>, x: Choice, k: nat): (r: int)
    requires k <= |cs|
    decreases |cs| - k
    ensures r == -1 || (k <= r < |cs| && cs[r] == x)
    ensures forall j :: k <= j < |cs| && (r == -1 || j < r) ==> cs[j] != x
  {
    if k == |cs| then -1 else if cs[k] == x then k else FindFrom(cs, x, k + 1)
  }

  /** `choices.indexOf(activeChoice)`: -1 when there is no active choice or it is not listed. */
  function IndexOfChoice(cs: seq<Choice>, a: Option<Choice>): (r: int)
    ensures -1 <= r < |cs|
    ensures r == -1 <==> (a.None? || a.value !in cs)
    ensures r != -1 ==> a == Some(cs[r]) && forall j :: 0 <= j < r ==> cs[j] != a.value
  {
    if a.None? then -1 else FindFrom(cs, a.value, 0)
  }

  /** `choices[k]`: undefined, i.e. no choice, outside the list. */
  function At(cs: seq<Choice>, k: int): Option<Choice>
  {
    if 0 <= k < |cs| then Some(cs[k]) else None
  }

  /**
   * `up`: one step back from the active choice, or to the last choice when the
   * active one is first or not listed; with no candidates there is none.
   */
  function Up(cs: seq<Choice>, a: Option<Choice>): (r: Option<Choice>)
    ensures |cs| == 0 ==> r == None
    ensures |cs| > 0 ==> r.Some? && r.value in cs
    ensures |cs| > 0 && (a.None? || a.value !in cs) ==> r == Some(cs[|cs| - 1])
  {
    var index := IndexOfChoice(cs, a);
    if index > 0 then At(cs, index - 1) else At(cs, |cs| - 1)
  }

  /**
   * `down`: one step forward from the active choice, or to the first choice
   * when the active one is last; an unlisted active choice moves to the first.
   */
  function Down(cs: seq<Choice>, a: Option<Choice>): (r: Option<Choice>)
    ensures |cs| == 0 ==> r == None
    ensures |cs| > 0 ==> r.Some? && r.value in cs
    ensures |cs| > 0 && (a.None? || a.value !in cs) ==> r == Some(cs[0])
  {
    var index := IndexOfChoice(cs, a);
    if index < |cs| - 1 then At(cs, index + 1) else At(cs, 0)
  }

  /** No candidate is listed twice. */
  predicate Distinct(cs: seq<Choice>)
  {
    forall i, j :: 0 <= i < j < |cs| ==> cs[i] != cs[j]
  }

  lemma IndexOfListed(cs: seq<Choice>, k: int)
    requires Distinct(cs) && 0 <= k < |cs|
    ensures IndexOfChoice(cs, Some(cs[k])) == k
  {
  }

  /** Over distinct candidates, `up` from index `k` lands on `k - 1`, wrapping from 0 to the last. */
  lemma UpFrom(cs: seq<Choice>, k: int)
    requires Distinct(cs) && 0 <= k < |cs|
    ensures Up(cs, Some(cs[k])) == Some(cs[if k == 0 then |cs| - 1 else k - 1])
  {
    IndexOfListed(cs, k);
  }

  /** Over distinct candidates, `down` from index `k` lands on `k + 1`, wrapping from the last to 0. */
  lemma DownFrom(cs: seq<Choice>, k: int)
    requires Distinct(cs) && 0 <= k < |cs|
    ensures Down(cs, Some(cs[k])) == Some(cs[if k == |cs| - 1 then 0 else k + 1])
  {
    IndexOfListed(cs, k);
  }

  /** Over distinct candidates, `down` then `up`, and `up` then `down`, leave a listed choice active. */
  lemma DownUpInverse(cs: seq<Choice>, a: Option<Choice>)
    requires Distinct(cs) && a.Some? && a.value in cs
    ensures Up(cs, Down(cs, a)) == a
    ensures Down(cs, Up(cs, a)) == a
  {
    var k := IndexOfChoice(cs, a);
    DownFrom(cs, k);
    UpFrom(cs, k);
    UpFrom(cs, if k == |cs| - 1 then 0 else k + 1);
    DownFrom(cs, if k == 0 then |cs| - 1 else k - 1);
  }

  /** The active choice after pressing `down` `n` times. */
  function DownTimes(cs: seq<Choice>, a: Option<Choice>, n: nat): Option<Choice>
    decreases n
  {
    if n == 0 then a else DownTimes(cs, Down(cs, a), n - 1)
  }

  /**
   * Over distinct candidates, `n <= |cs|` presses of `down` from index `k`
   * advance `n` places, wrapping past the last candidate to the first.
   */
  lemma {:induction false} DownTimesAdvances(cs: seq<Choice>, k: int, n: nat)
    requires Distinct(cs) && 0 <= k < |cs| && n <= |cs|
    ensures DownTimes(cs, Some(cs[k]), n) == Some(cs[if k + n < |cs| then k + n else k + n - |cs|])
    decreases n
  {
    if n > 0 {
      DownFrom(cs, k);
      DownTimesAdvances(cs, if k == |cs| - 1 then 0 else k + 1, n - 1);
    }
  }

  /** With `N` distinct candidates, `N` presses of `down` return to the choice they started from. */
  lemma DownCycle(cs: seq<Choice>, k: int)
    requires Distinct(cs) && 0 <= k < |cs|
    ensures DownTimes(cs, Some(cs[k]), |cs|) == Some(cs[k])
  {
    DownTimesAdvances(cs, k, |cs|);
  }
}
