/**
 * The demo's resolver: `findChoices(match, mentions)` keeps the sample
 * choices whose label contains the query, `~label.indexOf(match[1])`.
 */
module ExampleResolver {
  import opened Text
  import opened Codec
  import opened Trigger

  /** The demo's candidates. */
  const SampleChoices: seq<Choice> :=
    [Choice("bob mare"), Choice("kenny"), Choice("kyle$"), Choice("kyle"), Choice("steve"), Choice("steve.hello")]

  /**
   * `cs.filter(choice => ~choice.label.indexOf(q))`: exactly the choices whose
   * label contains `q`, each as often as in `cs`, in their order in `cs`.
   */
  function FilterByQuery(cs: seq<Choice>, q: string): (r: seq<Choice>)
    decreases |cs|
    ensures IsSubsequence(r, cs)
    ensures forall c :: multiset(r)[c] == if Contains(c.name, q) then multiset(cs)[c] else 0
  {
    if cs == [] then []
    else
      var rest := FilterByQuery(cs[1..], q);
      SubsequenceCons(cs[0], rest, cs[1..]);
      assert cs == [cs[0]] + cs[1..];
      if Contains(cs[0].name, q) then [cs[0]] + rest else rest
  }

  /**
   * The demo's `findChoices`: the sample choices whose label contains the
   * query, in their order; the tracked mentions are not consulted.
   */
  function FindChoices(m: Match, mentions: seq<Choice>): (r: seq<Choice>)
    ensures IsSubsequence(r, SampleChoices)
    ensures forall c :: c in r <==> c in SampleChoices && Contains(c.name, m.query)
  {
    FilterByQuery(SampleChoices, m.query)
  }

  /** The sample choices are six distinct labels, so no candidate is listed twice. */
  lemma SampleChoicesDistinct()
    ensures |SampleChoices| == 6
    ensures forall i, j :: 0 <= i < j < |SampleChoices| ==> SampleChoices[i].name != SampleChoices[j].name
  {
    var names := ["bob mare", "kenny", "kyle$", "kyle", "steve", "steve.hello"];
    assert forall i :: 0 <= i < 6 ==> SampleChoices[i].name == names[i];
    assert names[0][0] == 'b' && names[1][1] == 'e' && names[4][0] == 's';
    assert |names[2]| == 5 && |names[3]| == 4 && |names[5]| == 11;
  }

  /** The empty query, found at index 0 of every label, keeps every choice. */
  lemma {:induction false} EmptyQueryKeepsAll(cs: seq<Choice>)
    ensures FilterByQuery(cs, "") == cs
    decreases |cs|
  {
    if cs != [] {
      assert OccursAt(cs[0].name, "", 0);
      EmptyQueryKeepsAll(cs[1..]);
      FilterKeeps(cs[0], cs[1..], "");
      assert [cs[0]] + cs[1..] == cs;
    }
  }

  /** A text in which `a` is never directly followed by `b` does not contain `[a, b]`. */
  lemma NoPair(s: string, a: char, b: char)
    requires forall j :: 0 <= j < |s| - 1 ==> s[j] != a || s[j + 1] != b
    ensures !Contains(s, [a, b])
  {
    forall i | 0 <= i && i + 2 <= |s|
      ensures !OccursAt(s, [a, b], i)
    {
      assert s[i..i + 2][0] == s[i] && s[i..i + 2][1] == s[i + 1];
    }
  }

  /** One step of the filter: a head whose label contains the query is kept. */
  lemma FilterKeeps(c: Choice, rest: seq<Choice>, q: string)
    requires Contains(c.name, q)
    ensures FilterByQuery([c] + rest, q) == [c] + FilterByQuery(rest, q)
  {
    assert ([c] + rest)[1..] == rest;
  }

  /** One step of the filter: a head whose label does not contain the query is dropped. */
  lemma FilterDrops(c: Choice, rest: seq<Choice>, q: string)
    requires !Contains(c.name, q)
    ensures FilterByQuery([c] + rest, q) == FilterByQuery(rest, q)
  {
    assert ([c] + rest)[1..] == rest;
  }

  /** `ky` over `[steve.hello]`. */
  lemma KyOverLast()
    ensures FilterByQuery([Choice("steve.hello")], "ky") == []
  {
    NoPair("steve.hello", 'k', 'y');
    FilterDrops(Choice("steve.hello"), [], "ky");
    assert [Choice("steve.hello")] + [] == [Choice("steve.hello")];
  }

  /** `ky` over `[steve, steve.hello]`. */
  lemma KyOverSteves()
    ensures FilterByQuery([Choice("steve"), Choice("steve.hello")], "ky") == []
  {
    KyOverLast();
    NoPair("steve", 'k', 'y');
    FilterDrops(Choice("steve"), [Choice("steve.hello")], "ky");
    assert [Choice("steve")] + [Choice("steve.hello")] == [Choice("steve"), Choice("steve.hello")];
  }

  /** `ky` occurs at the start of `kyle` and of `kyle$`. */
  lemma KyInKyles()
    ensures Contains("kyle", "ky") && Contains("kyle$", "ky")
  {
    assert OccursAt("kyle", "ky", 0);
    assert OccursAt("kyle$", "ky", 0);
  }

  /** `ky` over `[kyle, steve, steve.hello]`. */
  lemma KyOverKyle()
    ensures FilterByQuery([Choice("kyle"), Choice("steve"), Choice("steve.hello")], "ky") == [Choice("kyle")]
  {
    var steves := [Choice("steve"), Choice("steve.hello")];
    KyOverSteves();
    KyInKyles();
    FilterKeeps(Choice("kyle"), steves, "ky");
    assert [Choice("kyle")] + steves == [Choice("kyle"), Choice("steve"), Choice("steve.hello")];
  }

  /** `ky` over the demo's candidates from `kyle$` on. */
  lemma KyOverKyles()
    ensures FilterByQuery([Choice("kyle$"), Choice("kyle"), Choice("steve"), Choice("steve.hello")], "ky")
         == [Choice("kyle$"), Choice("kyle")]
  {
    var rest := [Choice("kyle"), Choice("steve"), Choice("steve.hello")];
    KyOverKyle();
    KyInKyles();
    FilterKeeps(Choice("kyle$"), rest, "ky");
    assert [Choice("kyle$")] + rest == [Choice("kyle$"), Choice("kyle"), Choice("steve"), Choice("steve.hello")];
  }

  /** `ky` does not occur in `bob mare` or `kenny`. */
  lemma KyNotInFirstTwo()
    ensures !Contains("bob mare", "ky") && !Contains("kenny", "ky")
  {
    NoPair("kenny", 'k', 'y');
    NoPair("bob mare", 'k', 'y');
  }

  /** The query `ky` over the demo's candidates yields `kyle$`, then `kyle`, whatever is tracked. */
  lemma QueryKy(m: Match, mentions: seq<Choice>)
    requires m.query == "ky"
    ensures FindChoices(m, mentions) == [Choice("kyle$"), Choice("kyle")]
  {
    var rest := [Choice("kyle$"), Choice("kyle"), Choice("steve"), Choice("steve.hello")];
    KyOverKyles();
    KyNotInFirstTwo();
    FilterDrops(Choice("kenny"), rest, "ky");
    FilterDrops(Choice("bob mare"), [Choice("kenny")] + rest, "ky");
    SampleChoicesSplit();
  }

  /** The demo's candidates as a head, a second element and the rest. */
  lemma SampleChoicesSplit()
    ensures SampleChoices == [Choice("bob mare")] + ([Choice("kenny")]
      + [Choice("kyle$"), Choice("kyle"), Choice("steve"), Choice("steve.hello")])
  {
  }
}
