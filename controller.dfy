/**
 * The `uiMention` controller: the state it keeps on the text area it is
 * attached to (candidate choices, the active choice, the trigger being
 * searched, the tracked mentions), the two reconciliation passes that
 * ngModel runs through it, and the key handlers that drive the dropdown.
 *
 * The text area's content is the view value: every path that changes one
 * changes the other (typing commits the view value, and `$render` writes the
 * view value back to the element), so the class keeps only `view`.
 */
module Controller {
  import opened Wrappers
  import opened Text
  import opened Codec
  import opened Reconcile
  import opened Trigger
  import Navigator
  import ExampleResolver

  /** What `select` did: nothing to select, the mention committed, or it threw after tracking the mention. */
  datatype SelectOutcome = NoChoice | Committed | Threw

  /** Key codes the controller reacts to while searching. */
  const Return: int := 13
  const ArrowUp: int := 38
  const ArrowDown: int := 40

  /** The built-in `findChoices`, which offers nothing until an application replaces it. */
  function NoChoices(m: Match, mentions: seq<Choice>): (r: seq<Choice>)
    ensures |r| == 0
  {
    []
  }

  class MentionController {
    /** The candidates shown in the dropdown. */
    var choices: seq<Choice>
    /** The highlighted candidate; `None` is `undefined`. */
    var activeChoice: Option<Choice>
    /** The trigger match being searched; `None` is `null` (not searching). */
    var searching: Option<Match>
    /** The tracked mentions, in the order they were selected. */
    var mentions: seq<Choice>
    /** Set by a handled keydown so that the following keyup is ignored. */
    var moved: bool
    /** ngModel's view value, which is also the text area's content. */
    var view: string
    /** ngModel's model value, the stored form of the text. */
    var model: string
    /** The application's resolver, `findChoices(match, mentions)`. */
    const findChoices: (Match, seq<Choice>) -> seq<Choice>

    /** The controller as `init` leaves it, with the application's resolver installed. */
    constructor (resolver: (Match, seq<Choice>) -> seq<Choice>)
      ensures choices == [] && activeChoice == None && searching == None
      ensures mentions == [] && !moved && view == "" && model == ""
      ensures findChoices == resolver
    {
      choices := [];
      activeChoice := None;
      searching := None;
      mentions := [];
      moved := false;
      view := "";
      model := "";
      findChoices := resolver;
    }

    /**
     * `$setViewValue(text)`: when the text differs from the committed view
     * value, the parser pass prunes the mentions and produces the model value.
     */
    method SetViewValue(text: string)
      modifies this`view, this`model, this`mentions
      ensures view == text
      ensures text == old(view) ==> model == old(model) && mentions == old(mentions)
      ensures text != old(view) ==> Pass(model, mentions) == StorageForm(text, old(mentions))
    {
      if text != view {
        view := text;
        model, mentions := ReconcileForStorage(text, mentions);
      }
    }

    /**
     * The model value changed from outside: the formatter pass prunes the
     * mentions and produces the view value; an undefined model value, `None`,
     * counts as the empty text, as the formatter's default parameter says.
     */
    method SetModelValue(value: Option<string>)
      modifies this`view, this`model, this`mentions
      ensures model == value.GetOr("")
      ensures Pass(view, mentions) == DisplayForm(value.GetOr(""), old(mentions))
    {
      model := value.GetOr("");
      view, mentions := ReconcileForDisplay(model, mentions);
    }

    /**
     * `render(html)`: the text (the model value when none is given, the empty
     * text for `undefined`) is escaped as HTML, then every tracked mention's
     * encoding, first occurrence, becomes its highlight.
     */
    method Render(html: Option<string>, escape: string -> string) returns (r: string)
      ensures r == Rendered(escape(html.GetOr(model)), mentions)
    {
      r := escape(html.GetOr(model));
      var i := 0;
      while i < |mentions|
        invariant 0 <= i <= |mentions|
        invariant Rendered(escape(html.GetOr(model)), mentions) == Rendered(r, mentions[i..])
      {
        assert mentions[i..][1..] == mentions[i + 1..];
        r := ReplaceFirst(r, Encode(mentions[i]), Highlight(mentions[i]));
        i := i + 1;
      }
    }

    /** `search(match)`: remembers the trigger and asks the resolver; the answer arrives later. */
    method Search(m: Match) returns (pending: seq<Choice>)
      modifies this`searching
      ensures searching == Some(m)
      ensures pending == findChoices(m, mentions)
    {
      searching := Some(m);
      pending := findChoices(m, mentions);
    }

    /** The resolver's answer arrives: it becomes the dropdown and its first entry is highlighted. */
    method Resolve(list: seq<Choice>)
      modifies this`choices, this`activeChoice
      ensures choices == list
      ensures activeChoice == if list == [] then None else Some(list[0])
    {
      choices := list;
      activeChoice := if list == [] then None else Some(list[0]);
    }

    /** `up()`: the previous candidate, wrapping to the last. */
    method Up()
      modifies this`activeChoice
      ensures activeChoice == Navigator.Up(choices, old(activeChoice))
    {
      activeChoice := Navigator.Up(choices, activeChoice);
    }

    /** `down()`: the next candidate, wrapping to the first. */
    method Down()
      modifies this`activeChoice
      ensures activeChoice == Navigator.Down(choices, old(activeChoice))
    {
      activeChoice := Navigator.Down(choices, activeChoice);
    }

    /** `cancel()`: closes the dropdown and stops searching. */
    method Cancel()
      modifies this`choices, this`searching
      ensures choices == [] && searching == None
    {
      choices := [];
      searching := None;
    }

    /**
     * `select(choice)`, defaulting to the active choice: tracks the mention,
     * replaces the trigger text by its label through `$setViewValue`, and
     * closes the dropdown. Without a trigger the replacement throws, after
     * the mention has been tracked.
     */
    method Select(choice: Option<Choice>) returns (outcome: SelectOutcome)
      modifies this`mentions, this`view, this`model, this`choices, this`searching
      ensures var c := if choice.Some? then choice else old(activeChoice);
              c.None? ==> outcome == NoChoice && mentions == old(mentions) && view == old(view) &&
                          model == old(model) && choices == old(choices) && searching == old(searching)
      ensures var c := if choice.Some? then choice else old(activeChoice);
              c.Some? && old(searching).None? ==>
                outcome == Threw && mentions == old(mentions) + [c.value] &&
                view == old(view) && model == old(model) && choices == old(choices) && searching == None
      ensures var c := if choice.Some? then choice else old(activeChoice);
              c.Some? && old(searching).Some? ==>
                var text := Replace(c.value, old(searching).value, old(view));
                outcome == Committed && view == text && choices == [] && searching == None &&
                (text == old(view) ==> model == old(model) && mentions == old(mentions) + [c.value]) &&
                (text != old(view) ==> Pass(model, mentions) == StorageForm(text, old(mentions) + [c.value]))
      ensures var c := if choice.Some? then choice else old(activeChoice);
              outcome == Committed && Delimiter !in c.value.name ==> c.value in mentions
    {
      var c := if choice.Some? then choice else activeChoice;
      if c.None? {
        return NoChoice;
      }
      mentions := mentions + [c.value];
      if searching.None? {
        return Threw;
      }
      var text := Replace(c.value, searching.value, view);
      ghost var tracked := mentions;
      SetViewValue(text);
      if Delimiter !in c.value.name && text != old(view) {
        ReplaceInsertsLabel(c.value, old(searching).value, old(view));
        assert c.value in tracked by { assert tracked[|tracked| - 1] == c.value; }
        StorageKeepsPresentMention(text, tracked, c.value);
      }
      Cancel();
      outcome := Committed;
    }

    /**
     * The keydown handler: while searching, return selects, the arrows move
     * the highlight, and each of these marks the move and prevents the
     * default action; any other key, or any key when not searching, is left alone.
     */
    method OnKeydown(keyCode: int) returns (prevented: bool)
      modifies this`mentions, this`view, this`model, this`choices, this`searching, this`activeChoice, this`moved
      ensures old(searching).None? || (keyCode != Return && keyCode != ArrowUp && keyCode != ArrowDown) ==>
                !prevented && mentions == old(mentions) && view == old(view) && model == old(model) &&
                choices == old(choices) && searching == old(searching) &&
                activeChoice == old(activeChoice) && moved == old(moved)
      ensures old(searching).Some? && (keyCode == Return || keyCode == ArrowUp || keyCode == ArrowDown) ==> prevented && moved
      ensures old(searching).Some? && (keyCode == ArrowUp || keyCode == ArrowDown) ==>
                activeChoice == (if keyCode == ArrowUp then Navigator.Up(old(choices), old(activeChoice))
                                 else Navigator.Down(old(choices), old(activeChoice))) &&
                mentions == old(mentions) && view == old(view) && model == old(model) &&
                choices == old(choices) && searching == old(searching)
      ensures old(searching).Some? && keyCode == Return && old(activeChoice).None? ==>
                mentions == old(mentions) && view == old(view) && model == old(model) &&
                choices == old(choices) && searching == old(searching) && activeChoice == old(activeChoice)
      ensures old(searching).Some? && keyCode == Return && old(activeChoice).Some? ==>
                var c := old(activeChoice).value;
                var text := Replace(c, old(searching).value, old(view));
                view == text && choices == [] && searching == None && activeChoice == old(activeChoice) &&
                (text == old(view) ==> model == old(model) && mentions == old(mentions) + [c]) &&
                (text != old(view) ==> Pass(model, mentions) == StorageForm(text, old(mentions) + [c])) &&
                (Delimiter !in c.name ==> c in mentions)
    {
      if searching.None? {
        return false;
      }
      if keyCode == Return {
        var _ := Select(None);
      } else if keyCode == ArrowUp {
        Up();
      } else if keyCode == ArrowDown {
        Down();
      } else {
        return false;
      }
      moved := true;
      prevented := true;
    }

    /**
     * The keyup handler: right after a handled keydown it only clears the
     * mark; with a selected range it does nothing; otherwise the text left of
     * the caret either ends in a trigger, which starts a search (the pending
     * answer is returned), or does not, which closes the dropdown.
     */
    method OnKeyup(selectionStart: nat, selectionEnd: nat) returns (pending: Option<seq<Choice>>)
      modifies this`choices, this`searching, this`moved
      ensures old(moved) ==> !moved && pending == None && choices == old(choices) && searching == old(searching)
      ensures !old(moved) && selectionStart != selectionEnd ==>
                !moved && pending == None && choices == old(choices) && searching == old(searching)
      ensures !old(moved) && selectionStart == selectionEnd ==>
                var m := FindTrigger(Prefix(view, selectionStart));
                !moved && searching == m &&
                (m.Some? ==> pending == Some(findChoices(m.value, mentions)) && choices == old(choices)) &&
                (m.None? ==> pending == None && choices == [])
    {
      if moved {
        moved := false;
        return None;
      }
      if selectionStart != selectionEnd {
        return None;
      }
      var m := FindTrigger(Prefix(view, selectionStart));
      if m.Some? {
        var list := Search(m.value);
        pending := Some(list);
      } else {
        Cancel();
        pending := None;
      }
    }
  }

  /** A resolver that always offers `kyle`. */
  function OnlyKyle(m: Match, mentions: seq<Choice>): seq<Choice>
  {
    [Choice("kyle")]
  }

  /** With the caret at the end of `hi there $ky`, the text left of it ends in the trigger `$ky`. */
  lemma TriggerLeftOfCaret()
    ensures FindTrigger(Prefix("hi there $ky", 12)) == Some(Match(8, 9, 12, "ky"))
  {
    assert Prefix("hi there $ky", 12) == "hi there $ky";
    TriggerOnQuery();
  }

  /** Typing `hi there $ky` searches the trigger `$ky` and offers what the resolver answers. */
  method TypeKy(c: MentionController)
    requires c.view == "" && c.mentions == [] && !c.moved
    modifies c
    ensures c.view == "hi there $ky" && c.mentions == [] && !c.moved
    ensures c.searching == Some(Match(8, 9, 12, "ky"))
    ensures c.choices == c.findChoices(Match(8, 9, 12, "ky"), [])
    ensures c.activeChoice == if c.choices == [] then None else Some(c.choices[0])
  {
    c.SetViewValue("hi there $ky");
    KeyupAfterKy(c);
  }

  /** The keyup with the caret after `hi there $ky` starts the search, and the resolver answers. */
  method KeyupAfterKy(c: MentionController)
    requires c.view == "hi there $ky" && c.mentions == [] && !c.moved
    modifies c
    ensures c.view == "hi there $ky" && c.mentions == [] && !c.moved
    ensures c.searching == Some(Match(8, 9, 12, "ky"))
    ensures c.choices == c.findChoices(Match(8, 9, 12, "ky"), [])
    ensures c.activeChoice == if c.choices == [] then None else Some(c.choices[0])
  {
    TriggerLeftOfCaret();
    var pending := c.OnKeyup(12, 12);
    assert pending == Some(c.findChoices(Match(8, 9, 12, "ky"), []));
    c.Resolve(pending.value);
  }

  /**
   * Typing `hi there $ky`, letting the resolver answer and pressing return
   * shows `hi there $kyle`, stores `hi there $$kyle` and tracks `kyle`.
   */
  method CommitKyle() returns (view: string, model: string, mentions: seq<Choice>)
    ensures view == "hi there $kyle" && model == "hi there $$kyle" && mentions == [Choice("kyle")]
  {
    var c := new MentionController(OnlyKyle);
    TypeKy(c);
    ReturnCommitsKyle(c);
    view, model, mentions := c.view, c.model, c.mentions;
  }

  /** Arrow down moves the highlight to `kyle`; the keyup that follows is ignored. */
  method ArrowDownToKyle(c: MentionController)
    requires c.searching == Some(Match(8, 9, 12, "ky")) && !c.moved
    requires c.choices == [Choice("kyle$"), Choice("kyle")] && c.activeChoice == Some(Choice("kyle$"))
    modifies c
    ensures c.view == old(c.view) && c.mentions == old(c.mentions) && c.model == old(c.model) && !c.moved
    ensures c.searching == old(c.searching) && c.activeChoice == Some(Choice("kyle"))
  {
    var offered := [Choice("kyle$"), Choice("kyle")];
    assert offered[0].name != offered[1].name by { assert |offered[0].name| == 5; }
    Navigator.DownFrom(offered, 0);
    var prevented := c.OnKeydown(ArrowDown);
    var ignored := c.OnKeyup(12, 12);
  }

  /** Return over the trigger of `hi there $ky` with `kyle` highlighted commits `kyle`. */
  method ReturnCommitsKyle(c: MentionController)
    requires c.searching == Some(Match(8, 9, 12, "ky")) && c.activeChoice == Some(Choice("kyle"))
    requires c.view == "hi there $ky" && c.mentions == []
    modifies c
    ensures c.view == "hi there $kyle" && c.model == "hi there $$kyle" && c.mentions == [Choice("kyle")]
  {
    ReplaceKyle();
    StorageFormOfKyle();
    assert [] + [Choice("kyle")] == [Choice("kyle")];
    var prevented := c.OnKeydown(Return);
  }

  /**
   * With the built-in resolver nothing is offered, so return while searching
   * selects nothing: the text and the mentions stay, yet the key is consumed.
   */
  method ReturnWithBuiltInResolver() returns (prevented: bool, view: string, mentions: seq<Choice>)
    ensures prevented && view == "hi there $ky" && mentions == []
  {
    var c := new MentionController(NoChoices);
    TypeKy(c);
    prevented := c.OnKeydown(Return);
    view, mentions := c.view, c.mentions;
  }

  /** The formatter turns the stored `hi there $$kyle` back into `hi there $kyle`, keeping `kyle`. */
  lemma FormatterRestoresKyle()
    ensures DisplayForm("hi there $$kyle", [Choice("kyle")]) == Pass("hi there $kyle", [Choice("kyle")])
  {
    assert Delimiter !in "kyle";
    StorageFormOfKyle();
    RoundTripSingle("hi there $kyle", Choice("kyle"));
  }

  /** The formatter shows the model value `hello $$kyle` as `hello $kyle` while `kyle` is tracked. */
  lemma FormatterDecodesHelloKyle()
    ensures DisplayForm("hello $$kyle", [Choice("kyle")]) == Pass("hello $kyle", [Choice("kyle")])
  {
    var p, m := "hello ", Choice("kyle");
    assert Delimiter !in p;
    DisplayFormOfTrailingEncoding(p, m);
    assert p + Encode(m) == "hello $$kyle" && p + Label(m) == "hello $kyle";
  }

  /**
   * With the demo's resolver, `ky` offers `kyle$` then `kyle`; arrow down
   * (whose keyup is ignored) and return commit `kyle`. A later model update
   * from outside the field, `hello $$kyle`, arrives while `kyle` is still
   * tracked: the field shows `hello $kyle` and the mention is kept.
   */
  method CommitKyleWithDemoResolver() returns (view: string, model: string, mentions: seq<Choice>, updated: string, kept: seq<Choice>)
    ensures view == "hi there $kyle" && model == "hi there $$kyle" && mentions == [Choice("kyle")]
    ensures updated == "hello $kyle" && kept == [Choice("kyle")]
  {
    var c := new MentionController(ExampleResolver.FindChoices);
    TypeKy(c);
    ExampleResolver.QueryKy(Match(8, 9, 12, "ky"), []);
    ArrowDownToKyle(c);
    ReturnCommitsKyle(c);
    view, model, mentions := c.view, c.model, c.mentions;
    UpdateToHelloKyle(c);
    updated, kept := c.view, c.mentions;
  }

  /** A model update from outside the field, `hello $$kyle`, while `kyle` is tracked. */
  method UpdateToHelloKyle(c: MentionController)
    requires c.mentions == [Choice("kyle")]
    modifies c
    ensures c.view == "hello $kyle" && c.mentions == [Choice("kyle")]
  {
    FormatterDecodesHelloKyle();
    c.SetModelValue(Some("hello $$kyle"));
  }

  /**
   * Tracked mentions live only in the controller. A fresh controller, as
   * after a page load, tracks nothing, so the stored `hi there $$kyle` is
   * shown as stored and no mention is tracked.
   */
  method PageLoadShowsEncoding() returns (view: string, mentions: seq<Choice>)
    ensures view == "hi there $$kyle" && mentions == []
  {
    var c := new MentionController(ExampleResolver.FindChoices);
    c.SetModelValue(Some("hi there $$kyle"));
    view, mentions := c.view, c.mentions;
  }
}
