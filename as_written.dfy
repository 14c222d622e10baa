/**
 * The parser and formatter callbacks as JavaScript runs them, and the preview's
 * replace loop (src/mentionController.es6.js:96-98) on the text it is given;
 * the HTML escaping that `render` applies before that loop is not part of this
 * module. With a
 * string pattern, `String.prototype.replace` reads its second argument as a
 * replacement template (ECMAScript GetSubstitution): `$$` stands for one `$`,
 * `$&` for the matched text, `` $` `` for what precedes the match and `$'` for
 * what follows it; any other `$` is kept. The parser's template is the
 * encoding, which starts with `$$`, so it inserts one delimiter, not two, and
 * any `$$`, `$&`, `` $` `` or `$'` inside the label field expands as well.
 * The formatter's and the preview's template is the label: its leading `$`
 * forms a pattern with a field that starts with `$`, `&`, `` ` `` or `'`, and
 * any such pair inside the field expands too.
 */
module AsWritten {
  import opened Text
  import opened Codec
  import opened Reconcile

  /**
   * Expands a replacement template for a match with no capture groups; a
   * template with no `$` in it is inserted as it is.
   */
  function Substitution(template: string, matched: string, before: string, after: string): (r: string)
    decreases |template|
    ensures '$' !in template ==> r == template
  {
    if template == [] then []
    else if template[0] == '$' && |template| >= 2 then
      var rest := Substitution(template[2..], matched, before, after);
      if template[1] == '$' then "$" + rest
      else if template[1] == '&' then matched + rest
      else if template[1] == '`' then before + rest
      else if template[1] == '\'' then after + rest
      else "$" + Substitution(template[1..], matched, before, after)
    else
      assert '$' !in template ==> '$' !in template[1..];
      [template[0]] + Substitution(template[1..], matched, before, after)
  }

  /**
   * `s.replace(p, template)` with a string pattern: without `p` the text is
   * unchanged; otherwise everything before and after the first `p` is kept,
   * and only that occurrence is replaced by the expanded template.
   */
  function JsReplaceFirst(s: string, p: string, template: string): (r: string)
    ensures !Contains(s, p) ==> r == s
    ensures Contains(s, p) ==>
              var i := IndexOf(s, p);
              i <= |r| - (|s| - i - |p|) && r[..i] == s[..i] && r[|r| - (|s| - i - |p|)..] == s[i + |p|..]
  {
    var i := IndexOf(s, p);
    if i == -1 then s
    else s[..i] + Substitution(template, p, s[..i], s[i + |p|..]) + s[i + |p|..]
  }

  /**
   * The parser callback as written: a mention is kept when its label is found
   * and the reassigned value, which the callback returns, is a non-empty
   * (truthy) string.
   */
  function StorageAsWritten(value: string, ms: seq<Choice>): (r: Pass)
    decreases |ms|
    ensures multiset(r.kept) <= multiset(ms)
  {
    if ms == [] then Pass(value, [])
    else
      var m := ms[0];
      if Contains(value, Label(m)) then
        var next := JsReplaceFirst(value, Label(m), Encode(m));
        var rest := StorageAsWritten(next, ms[1..]);
        KeepHead(ms, rest.kept);
        DropHead(ms, rest.kept);
        if next != [] then Pass(rest.text, [m] + rest.kept) else rest
      else
        var rest := StorageAsWritten(value, ms[1..]);
        DropHead(ms, rest.kept);
        rest
  }

  /** The formatter callback as written: the template is the label. */
  function DisplayAsWritten(value: string, ms: seq<Choice>): (r: Pass)
    decreases |ms|
    ensures multiset(r.kept) <= multiset(ms)
  {
    if ms == [] then Pass(value, [])
    else
      var m := ms[0];
      if Contains(value, Encode(m)) then
        var next := JsReplaceFirst(value, Encode(m), Label(m));
        var rest := DisplayAsWritten(next, ms[1..]);
        KeepHead(ms, rest.kept);
        Pass(rest.text, [m] + rest.kept)
      else
        var rest := DisplayAsWritten(value, ms[1..]);
        DropHead(ms, rest.kept);
        rest
  }

  /**
   * The preview loop as written: the template is the highlight. Since the
   * highlight is the label, it rewrites the text exactly as the formatter as
   * written does; it only does not prune.
   */
  function RenderedAsWritten(html: string, ms: seq<Choice>): (r: string)
    decreases |ms|
    ensures r == DisplayAsWritten(html, ms).text
  {
    if ms == [] then html
    else RenderedAsWritten(JsReplaceFirst(html, Encode(ms[0]), Highlight(ms[0])), ms[1..])
  }

  /**
   * The parser's template, the encoding, expands to the label whenever the
   * label field has no `$` in it: the two leading delimiters collapse to one.
   */
  lemma EncodingTemplateIsLabel(m: Choice, matched: string, before: string, after: string)
    requires Delimiter !in m.name
    ensures Substitution(Encode(m), matched, before, after) == Label(m)
  {
    var E := Encode(m);
    assert E[2..] == m.name;
    assert Substitution(m.name, matched, before, after) == m.name;
  }

  /** As written, replacing a `$`-free label by its encoding gives back the same text. */
  lemma ReplaceLabelByEncodingIsIdentity(value: string, m: Choice)
    requires Delimiter !in m.name
    ensures JsReplaceFirst(value, Label(m), Encode(m)) == value
  {
    var L := Label(m);
    var i := IndexOf(value, L);
    if i != -1 {
      EncodingTemplateIsLabel(m, L, value[..i], value[i + |L|..]);
      SpliceOccurrence(value, L, i);
    }
  }

  /**
   * As written, the parser never changes a text whose tracked labels have no
   * `$` in them: every label found is replaced by itself, so no encoding is
   * ever stored.
   */
  lemma {:induction false} StorageAsWrittenKeepsText(value: string, ms: seq<Choice>)
    requires forall k :: 0 <= k < |ms| ==> Delimiter !in ms[k].name
    ensures StorageAsWritten(value, ms).text == value
    decreases |ms|
  {
    if ms != [] {
      var m := ms[0];
      StorageAsWrittenKeepsText(value, ms[1..]);
      if Contains(value, Label(m)) {
        ReplaceLabelByEncodingIsIdentity(value, m);
        var rest := StorageAsWritten(value, ms[1..]);
        assert StorageAsWritten(value, ms) ==
               if value != [] then Pass(rest.text, [m] + rest.kept) else rest;
      } else {
        assert StorageAsWritten(value, ms) == StorageAsWritten(value, ms[1..]);
      }
    }
  }

  /** As written, the parser keeps `hi there $kyle` as it is, with `kyle` tracked. */
  lemma StorageAsWrittenOfKyle()
    ensures StorageAsWritten("hi there $kyle", [Choice("kyle")]) == Pass("hi there $kyle", [Choice("kyle")])
  {
    var v, m := "hi there $kyle", Choice("kyle");
    assert [m][1..] == [];
    assert OccursAt(v, Label(m), 9) by { assert v[9..14] == Label(m); }
    ReplaceLabelByEncodingIsIdentity(v, m);
  }

  /** `hi there $kyle` holds no `$$kyle`, so as written the formatter drops `kyle`. */
  lemma DisplayAsWrittenDropsKyle()
    ensures DisplayAsWritten("hi there $kyle", [Choice("kyle")]) == Pass("hi there $kyle", [])
  {
    var v, m := "hi there $kyle", Choice("kyle");
    assert [m][1..] == [];
    forall j | 0 <= j
      ensures !OccursAt(v, Encode(m), j)
    {
      if j + 6 <= |v| {
        assert v[j..j + 6][1] == v[j + 1];
        assert v[j..j + 6][0] == v[j];
      }
    }
  }

  /**
   * As written, a tracked mention whose label is in the view text and whose
   * label field has no `$` is lost on the way through storage: the parser
   * stores the text unchanged, so the formatter finds no encoding and drops
   * the mention. The corrected passes keep it and give the text back.
   */
  lemma StorageAsWrittenLosesMention(v: string, m: Choice)
    requires Delimiter !in m.name
    requires Contains(v, Label(m)) && !Contains(v, Encode(m))
    ensures StorageAsWritten(v, [m]) == Pass(v, [m])
    ensures DisplayAsWritten(v, [m]) == Pass(v, [])
    ensures var s := StorageForm(v, [m]);
            s.kept == [m] && DisplayForm(s.text, s.kept) == Pass(v, [m])
  {
    assert [m][1..] == [];
    ReplaceLabelByEncodingIsIdentity(v, m);
    assert v != [] by { assert OccursAt(v, Label(m), IndexOf(v, Label(m))); }
    RoundTripSingle(v, m);
  }

  /**
   * The end-to-end text as written: after the commit of `kyle`, the parser
   * stores `hi there $kyle` unchanged, and the formatter, looking for
   * `$$kyle`, then drops the mention.
   */
  lemma KyleLostAsWritten()
    ensures StorageAsWritten("hi there $kyle", [Choice("kyle")]) == Pass("hi there $kyle", [Choice("kyle")])
    ensures DisplayAsWritten("hi there $kyle", [Choice("kyle")]) == Pass("hi there $kyle", [])
  {
    StorageAsWrittenOfKyle();
    DisplayAsWrittenDropsKyle();
  }

  /** `indexOf` finds `$$&a` at the start of `$$&a`. */
  lemma AmpersandEncodingAt0()
    ensures IndexOf("$$&a", "$$&a") == 0
  {
    IndexOfIs("$$&a", "$$&a", 0);
  }

  /**
   * For the label field `&a`, the formatter as written expands the label
   * template `$&a` to the matched text followed by `a`: the stored `$$&a`
   * is shown as `$$&aa`. The corrected formatter shows `$&a`.
   */
  lemma DisplayAsWrittenExpandsMatch()
    ensures DisplayAsWritten("$$&a", [Choice("&a")]) == Pass("$$&aa", [Choice("&a")])
    ensures DisplayForm("$$&a", [Choice("&a")]) == Pass("$&a", [Choice("&a")])
  {
    var v, m := "$$&a", Choice("&a");
    assert Encode(m) == v && Label(m) == "$&a";
    AmpersandEncodingAt0();
    assert Substitution("$&a", v, "", "") == "$$&aa" by {
      assert "$&a"[2..] == "a";
      assert Substitution("a", v, "", "") == "a";
    }
    assert JsReplaceFirst(v, v, "$&a") == "$$&aa" by {
      assert v[..0] == [] && v[4..] == [];
    }
    assert [m][1..] == [];
    ReplaceFirstAt(v, v, "$&a", 0);
    assert v[..0] + "$&a" + v[4..] == "$&a";
    DisplayFormOne(v, m);
  }

  /**
   * For the label field `'a`, the preview loop as written expands the
   * highlight template `$'a` to the text after the match followed by `a`:
   * `$$'a`, which HTML escaping leaves as it is, renders as `a`. The corrected
   * loop renders `$'a`.
   */
  lemma RenderedAsWrittenExpandsSuffix()
    ensures RenderedAsWritten("$$'a", [Choice("'a")]) == "a"
    ensures Rendered("$$'a", [Choice("'a")]) == "$'a"
  {
    var v, m := "$$'a", Choice("'a");
    assert Encode(m) == v && Label(m) == "$'a";
    IndexOfIs(v, v, 0);
    assert Substitution("$'a", v, "", "") == "a" by {
      assert "$'a"[2..] == "a";
      assert Substitution("a", v, "", "") == "a";
    }
    assert JsReplaceFirst(v, v, "$'a") == "a" by {
      assert v[..0] == [] && v[4..] == [];
    }
    assert [m][1..] == [];
    ReplaceFirstAt(v, v, "$'a", 0);
    assert v[..0] + "$'a" + v[4..] == "$'a";
    DisplayFormOne(v, m);
    RenderedIsDisplayText(v, [m]);
  }

  /** The template `$$a$$b` expands to `$a$b`, whatever the match. */
  lemma DoubledDelimitersCollapse(matched: string)
    ensures Substitution("$$a$$b", matched, "", "") == "$a$b"
  {
    assert Substitution("b", matched, "", "") == "b";
    assert Substitution("$$b", matched, "", "") == "$b" by { assert "$$b"[2..] == "b"; }
    assert Substitution("a$$b", matched, "", "") == "a$b" by { assert "a$$b"[1..] == "$$b"; }
    assert "$$a$$b"[2..] == "a$$b";
  }

  /**
   * As written, a `$$` inside a label field collapses to one `$` in the
   * parser: with the field `a$$b` tracked, the view text `$a$$b` is stored
   * as `$a$b`, so even a label field with a `$` is not stored as its encoding.
   */
  lemma StorageAsWrittenHalvesDelimiters()
    ensures StorageAsWritten("$a$$b", [Choice("a$$b")]) == Pass("$a$b", [Choice("a$$b")])
  {
    var v, m := "$a$$b", Choice("a$$b");
    var L, E := Label(m), Encode(m);
    assert L == v && E == "$$a$$b";
    assert JsReplaceFirst(v, L, E) == "$a$b" by {
      IndexOfIs(v, v, 0);
      DoubledDelimitersCollapse(v);
      assert v[..0] == [] && v[5..] == [];
    }
    assert Contains(v, L) by { IndexOfIs(v, v, 0); }
    assert [m][1..] == [];
  }
}
