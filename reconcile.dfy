/**
 * The two reconciliation passes of the controller, each of which rewrites a
 * text against the ordered list of tracked mentions and prunes that list in
 * the same walk: the parser (display text to stored text) and the formatter
 * (stored text to display text), plus the preview rendering loop.
 *
 * Replacement here inserts the new text literally. JavaScript expands the
 * inserted text as a replacement template in all three places: the parser,
 * the formatter and the preview (see README, Findings, and module AsWritten).
 */
module Reconcile {
  import opened Text
  import opened Codec

  /** The rewritten text and the mentions that survived the pass. */
  datatype Pass = Pass(text: string, kept: seq<Choice>)

  /**
   * The parser pass: each mention in turn is kept when its label occurs in
   * the text rewritten so far, and then its first occurrence is encoded.
   */
  function StorageForm(value: string, ms: seq<Choice>): (r: Pass)
    decreases |ms|
    ensures |r.text| == |value| + |r.kept|
  {
    if ms == [] then Pass(value, [])
    else
      var m := ms[0];
      if Contains(value, Label(m)) then
        var rest := StorageForm(ReplaceFirst(value, Label(m), Encode(m)), ms[1..]);
        Pass(rest.text, [m] + rest.kept)
      else
        StorageForm(value, ms[1..])
  }

  /**
   * The formatter pass: each mention in turn is kept when its encoding occurs
   * in the text rewritten so far, and then its first occurrence is decoded
   * back to the label.
   */
  function DisplayForm(value: string, ms: seq<Choice>): (r: Pass)
    decreases |ms|
    ensures |r.text| == |value| - |r.kept|
  {
    if ms == [] then Pass(value, [])
    else
      var m := ms[0];
      if Contains(value, Encode(m)) then
        var rest := DisplayForm(ReplaceFirst(value, Encode(m), Label(m)), ms[1..]);
        Pass(rest.text, [m] + rest.kept)
      else
        DisplayForm(value, ms[1..])
  }

  /** The mentions the parser keeps are a subsequence of the tracked ones: it only prunes, in order. */
  lemma {:induction false} StorageKeepsOrder(value: string, ms: seq<Choice>)
    ensures IsSubsequence(StorageForm(value, ms).kept, ms)
    decreases |ms|
  {
    if ms != [] {
      var m := ms[0];
      assert [m] + ms[1..] == ms;
      if Contains(value, Label(m)) {
        var next := ReplaceFirst(value, Label(m), Encode(m));
        StorageFormFound(value, ms);
        StorageKeepsOrder(next, ms[1..]);
        SubsequenceCons(m, StorageForm(next, ms[1..]).kept, ms[1..]);
      } else {
        StorageFormSkipped(value, ms);
        StorageKeepsOrder(value, ms[1..]);
        SubsequenceCons(m, StorageForm(value, ms[1..]).kept, ms[1..]);
      }
    }
  }

  /** The mentions the formatter keeps are a subsequence of the tracked ones. */
  lemma {:induction false} DisplayKeepsOrder(value: string, ms: seq<Choice>)
    ensures IsSubsequence(DisplayForm(value, ms).kept, ms)
    decreases |ms|
  {
    if ms != [] {
      var m := ms[0];
      assert [m] + ms[1..] == ms;
      if Contains(value, Encode(m)) {
        var next := ReplaceFirst(value, Encode(m), Label(m));
        DisplayFormFound(value, ms);
        DisplayKeepsOrder(next, ms[1..]);
        SubsequenceCons(m, DisplayForm(next, ms[1..]).kept, ms[1..]);
      } else {
        DisplayFormSkipped(value, ms);
        DisplayKeepsOrder(value, ms[1..]);
        SubsequenceCons(m, DisplayForm(value, ms[1..]).kept, ms[1..]);
      }
    }
  }

  /** The preview loop: every mention's encoding, first occurrence, becomes its highlight. */
  function Rendered(html: string, ms: seq<Choice>): (r: string)
    decreases |ms|
    ensures |html| - |ms| <= |r| <= |html|
  {
    if ms == [] then html
    else Rendered(ReplaceFirst(html, Encode(ms[0]), Highlight(ms[0])), ms[1..])
  }

  /** The parser pass over the list of mentions, with the captured value reassigned at each step. */
  method ReconcileForStorage(value: string, ms: seq<Choice>) returns (text: string, kept: seq<Choice>)
    ensures Pass(text, kept) == StorageForm(value, ms)
  {
    text, kept := value, [];
    var i := 0;
    while i < |ms|
      invariant 0 <= i <= |ms|
      invariant StorageForm(value, ms) ==
                Pass(StorageForm(text, ms[i..]).text, kept + StorageForm(text, ms[i..]).kept)
    {
      var m := ms[i];
      assert ms[i..][1..] == ms[i + 1..];
      if Contains(text, Label(m)) {
        text := ReplaceFirst(text, Label(m), Encode(m));
        kept := kept + [m];
      }
      i := i + 1;
    }
  }

  /** The formatter pass over the list of mentions, with the captured value reassigned at each step. */
  method ReconcileForDisplay(value: string, ms: seq<Choice>) returns (text: string, kept: seq<Choice>)
    ensures Pass(text, kept) == DisplayForm(value, ms)
  {
    text, kept := value, [];
    var i := 0;
    while i < |ms|
      invariant 0 <= i <= |ms|
      invariant DisplayForm(value, ms) ==
                Pass(DisplayForm(text, ms[i..]).text, kept + DisplayForm(text, ms[i..]).kept)
    {
      var m := ms[i];
      assert ms[i..][1..] == ms[i + 1..];
      if Contains(text, Encode(m)) {
        text := ReplaceFirst(text, Encode(m), Label(m));
        kept := kept + [m];
      }
      i := i + 1;
    }
  }

  /** One step of the parser when the head's label occurs: it is kept and encoded. */
  lemma StorageFormFound(value: string, ms: seq<Choice>)
    requires ms != [] && Contains(value, Label(ms[0]))
    ensures var t := StorageForm(ReplaceFirst(value, Label(ms[0]), Encode(ms[0])), ms[1..]);
            StorageForm(value, ms) == Pass(t.text, [ms[0]] + t.kept)
  {
  }

  /** One step of the parser when the head's label is absent: it is dropped. */
  lemma StorageFormSkipped(value: string, ms: seq<Choice>)
    requires ms != [] && !Contains(value, Label(ms[0]))
    ensures StorageForm(value, ms) == StorageForm(value, ms[1..])
  {
  }

  /** Running the parser over `a + b` is running it over `a`, then over `b` on the result. */
  lemma {:induction false} StorageFormAppend(value: string, a: seq<Choice>, b: seq<Choice>)
    ensures var r1 := StorageForm(value, a);
            var r2 := StorageForm(r1.text, b);
            StorageForm(value, a + b) == Pass(r2.text, r1.kept + r2.kept)
    decreases |a|
  {
    if a == [] {
      assert a + b == b;
    } else if Contains(value, Label(a[0])) {
      StorageFormAppend(ReplaceFirst(value, Label(a[0]), Encode(a[0])), a[1..], b);
      StorageFormAppendFound(value, a, b);
    } else {
      StorageFormAppend(value, a[1..], b);
      StorageFormAppendSkipped(value, a, b);
    }
  }

  /** The step of `StorageFormAppend` for a head that is kept. */
  lemma StorageFormAppendFound(value: string, a: seq<Choice>, b: seq<Choice>)
    requires a != [] && Contains(value, Label(a[0]))
    requires var next := ReplaceFirst(value, Label(a[0]), Encode(a[0]));
             var r1 := StorageForm(next, a[1..]);
             var r2 := StorageForm(r1.text, b);
             StorageForm(next, a[1..] + b) == Pass(r2.text, r1.kept + r2.kept)
    ensures var r1 := StorageForm(value, a);
            var r2 := StorageForm(r1.text, b);
            StorageForm(value, a + b) == Pass(r2.text, r1.kept + r2.kept)
  {
    var m := a[0];
    var next := ReplaceFirst(value, Label(m), Encode(m));
    var t1 := StorageForm(next, a[1..]);
    var t2 := StorageForm(t1.text, b);
    var r := StorageForm(next, a[1..] + b);
    calc {
      StorageForm(value, a + b);
    ==  { StorageFormFoundAppended(value, a, b); }
      Pass(r.text, [m] + r.kept);
    ==
      Pass(t2.text, [m] + (t1.kept + t2.kept));
    ==  { ConsAppendAssoc(m, t1.kept, t2.kept); }
      Pass(t2.text, ([m] + t1.kept) + t2.kept);
    ==  { StorageFormFound(value, a); }
      Pass(StorageForm(StorageForm(value, a).text, b).text, StorageForm(value, a).kept + StorageForm(StorageForm(value, a).text, b).kept);
    }
  }

  /** The parser over `a + b` when the head of `a` is kept. */
  lemma StorageFormFoundAppended(value: string, a: seq<Choice>, b: seq<Choice>)
    requires a != [] && Contains(value, Label(a[0]))
    ensures var r := StorageForm(ReplaceFirst(value, Label(a[0]), Encode(a[0])), a[1..] + b);
            StorageForm(value, a + b) == Pass(r.text, [a[0]] + r.kept)
  {
    HeadTailAppend(a, b);
    StorageFormFound(value, a + b);
  }

  /** The step of `StorageFormAppend` for a head that is dropped. */
  lemma StorageFormAppendSkipped(value: string, a: seq<Choice>, b: seq<Choice>)
    requires a != [] && !Contains(value, Label(a[0]))
    requires var r1 := StorageForm(value, a[1..]);
             var r2 := StorageForm(r1.text, b);
             StorageForm(value, a[1..] + b) == Pass(r2.text, r1.kept + r2.kept)
    ensures var r1 := StorageForm(value, a);
            var r2 := StorageForm(r1.text, b);
            StorageForm(value, a + b) == Pass(r2.text, r1.kept + r2.kept)
  {
    HeadTailAppend(a, b);
    StorageFormSkipped(value, a + b);
    StorageFormSkipped(value, a);
  }

  /**
   * The parser decides each mention on the text as rewritten by the mentions
   * before it: `ms[k]` is kept exactly when its label occurs in that text, and
   * then only its first occurrence is replaced by the encoding.
   */
  lemma StorageFormStep(value: string, ms: seq<Choice>, k: nat)
    requires k < |ms|
    ensures var before := StorageForm(value, ms[..k]);
            StorageForm(value, ms[..k + 1]) ==
              if Contains(before.text, Label(ms[k]))
              then Pass(ReplaceFirst(before.text, Label(ms[k]), Encode(ms[k])), before.kept + [ms[k]])
              else before
  {
    assert ms[..k + 1] == ms[..k] + [ms[k]];
    StorageFormAppend(value, ms[..k], [ms[k]]);
    var before := StorageForm(value, ms[..k]);
    assert [ms[k]][1..] == [];
  }

  /** One step of the formatter when the head's encoding occurs: it is kept and decoded. */
  lemma DisplayFormFound(value: string, ms: seq<Choice>)
    requires ms != [] && Contains(value, Encode(ms[0]))
    ensures var t := DisplayForm(ReplaceFirst(value, Encode(ms[0]), Label(ms[0])), ms[1..]);
            DisplayForm(value, ms) == Pass(t.text, [ms[0]] + t.kept)
  {
  }

  /** One step of the formatter when the head's encoding is absent: it is dropped. */
  lemma DisplayFormSkipped(value: string, ms: seq<Choice>)
    requires ms != [] && !Contains(value, Encode(ms[0]))
    ensures DisplayForm(value, ms) == DisplayForm(value, ms[1..])
  {
  }

  /** Running the formatter over `a + b` is running it over `a`, then over `b` on the result. */
  lemma {:induction false} DisplayFormAppend(value: string, a: seq<Choice>, b: seq<Choice>)
    ensures var r1 := DisplayForm(value, a);
            var r2 := DisplayForm(r1.text, b);
            DisplayForm(value, a + b) == Pass(r2.text, r1.kept + r2.kept)
    decreases |a|
  {
    if a == [] {
      assert a + b == b;
    } else if Contains(value, Encode(a[0])) {
      DisplayFormAppend(ReplaceFirst(value, Encode(a[0]), Label(a[0])), a[1..], b);
      DisplayFormAppendFound(value, a, b);
    } else {
      DisplayFormAppend(value, a[1..], b);
      DisplayFormAppendSkipped(value, a, b);
    }
  }

  /** The step of `DisplayFormAppend` for a head that is kept. */
  lemma DisplayFormAppendFound(value: string, a: seq<Choice>, b: seq<Choice>)
    requires a != [] && Contains(value, Encode(a[0]))
    requires var next := ReplaceFirst(value, Encode(a[0]), Label(a[0]));
             var r1 := DisplayForm(next, a[1..]);
             var r2 := DisplayForm(r1.text, b);
             DisplayForm(next, a[1..] + b) == Pass(r2.text, r1.kept + r2.kept)
    ensures var r1 := DisplayForm(value, a);
            var r2 := DisplayForm(r1.text, b);
            DisplayForm(value, a + b) == Pass(r2.text, r1.kept + r2.kept)
  {
    var m := a[0];
    var next := ReplaceFirst(value, Encode(m), Label(m));
    var t1 := DisplayForm(next, a[1..]);
    var t2 := DisplayForm(t1.text, b);
    var r := DisplayForm(next, a[1..] + b);
    calc {
      DisplayForm(value, a + b);
    ==  { DisplayFormFoundAppended(value, a, b); }
      Pass(r.text, [m] + r.kept);
    ==
      Pass(t2.text, [m] + (t1.kept + t2.kept));
    ==  { ConsAppendAssoc(m, t1.kept, t2.kept); }
      Pass(t2.text, ([m] + t1.kept) + t2.kept);
    ==  { DisplayFormFound(value, a); }
      Pass(DisplayForm(DisplayForm(value, a).text, b).text, DisplayForm(value, a).kept + DisplayForm(DisplayForm(value, a).text, b).kept);
    }
  }

  /** The formatter over `a + b` when the head of `a` is kept. */
  lemma DisplayFormFoundAppended(value: string, a: seq<Choice>, b: seq<Choice>)
    requires a != [] && Contains(value, Encode(a[0]))
    ensures var r := DisplayForm(ReplaceFirst(value, Encode(a[0]), Label(a[0])), a[1..] + b);
            DisplayForm(value, a + b) == Pass(r.text, [a[0]] + r.kept)
  {
    HeadTailAppend(a, b);
    DisplayFormFound(value, a + b);
  }

  /** The step of `DisplayFormAppend` for a head that is dropped. */
  lemma DisplayFormAppendSkipped(value: string, a: seq<Choice>, b: seq<Choice>)
    requires a != [] && !Contains(value, Encode(a[0]))
    requires var r1 := DisplayForm(value, a[1..]);
             var r2 := DisplayForm(r1.text, b);
             DisplayForm(value, a[1..] + b) == Pass(r2.text, r1.kept + r2.kept)
    ensures var r1 := DisplayForm(value, a);
            var r2 := DisplayForm(r1.text, b);
            DisplayForm(value, a + b) == Pass(r2.text, r1.kept + r2.kept)
  {
    HeadTailAppend(a, b);
    DisplayFormSkipped(value, a + b);
    DisplayFormSkipped(value, a);
  }

  /**
   * The formatter decides each mention on the text as rewritten by the
   * mentions before it: `ms[k]` is kept exactly when its encoding occurs in
   * that text, and then only its first occurrence is replaced by the label.
   */
  lemma DisplayFormStep(value: string, ms: seq<Choice>, k: nat)
    requires k < |ms|
    ensures var before := DisplayForm(value, ms[..k]);
            DisplayForm(value, ms[..k + 1]) ==
              if Contains(before.text, Encode(ms[k]))
              then Pass(ReplaceFirst(before.text, Encode(ms[k]), Label(ms[k])), before.kept + [ms[k]])
              else before
  {
    assert ms[..k + 1] == ms[..k] + [ms[k]];
    DisplayFormAppend(value, ms[..k], [ms[k]]);
    assert [ms[k]][1..] == [];
  }

  /**
   * The preview rewrites the text exactly as the formatter does (a mention
   * whose encoding is absent changes nothing in either); it only does not prune.
   */
  lemma {:induction false} RenderedIsDisplayText(html: string, ms: seq<Choice>)
    ensures Rendered(html, ms) == DisplayForm(html, ms).text
    decreases |ms|
  {
    if ms != [] {
      RenderedIsDisplayText(ReplaceFirst(html, Encode(ms[0]), Highlight(ms[0])), ms[1..]);
    }
  }

  /** The parser over a single mention. */
  lemma StorageFormOne(v: string, m: Choice)
    ensures StorageForm(v, [m]) ==
            if Contains(v, Label(m)) then Pass(ReplaceFirst(v, Label(m), Encode(m)), [m]) else Pass(v, [])
  {
    assert [m][1..] == [];
  }

  /** The formatter over a single mention. */
  lemma DisplayFormOne(v: string, m: Choice)
    ensures DisplayForm(v, [m]) ==
            if Contains(v, Encode(m)) then Pass(ReplaceFirst(v, Encode(m), Label(m)), [m]) else Pass(v, [])
  {
    assert [m][1..] == [];
  }

  /**
   * Where the label of a mention with no `$` in its field first occurs at `i`,
   * the encoding spliced in at `i` cannot be matched at any earlier `j`.
   */
  lemma NoEncodingBefore(v: string, m: Choice, i: int, j: int)
    requires Delimiter !in m.name
    requires OccursAt(v, Label(m), i)
    requires forall k :: 0 <= k < i ==> !OccursAt(v, Label(m), k)
    requires 0 <= j < i
    ensures !OccursAt(v[..i] + Encode(m) + v[i + |Label(m)|..], Encode(m), j)
  {
    var L, E := Label(m), Encode(m);
    var s := v[..i] + E + v[i + |L|..];
    if j + |E| <= |s| {
      var w := s[j..j + |E|];
      assert s[..i] == v[..i];
      if j + |E| <= i {
        // Before the splice the text is `v`, where the label does not occur yet.
        assert w != E by {
          assert !OccursAt(v, L, j + 1);
          assert w == s[..i][j..j + |E|] == v[j..j + |E|];
          assert w[1..] == v[j + 1..j + 1 + |L|];
          assert w[1..] != E[1..];
        }
      } else if i - j >= 2 {
        // The spliced encoding's first `$` faces a character of the label field.
        assert w != E by {
          assert w[i - j] == s[i] == Delimiter;
          assert E[i - j] == m.name[i - j - 2];
        }
      } else if |E| > 2 {
        // The spliced encoding's second `$` faces the label field's first character.
        assert w != E by {
          assert w[2] == s[i + 1] == Delimiter;
          assert E[2] == m.name[0];
        }
      } else {
        // An empty label field: the label is `$`, which does not occur before `i`.
        assert w != E by {
          assert L == [Delimiter] && E == [Delimiter, Delimiter];
          assert !OccursAt(v, L, j);
          assert v[j..j + 1] == [v[j]];
          assert s[j] == s[..i][j] == v[..i][j] == v[j];
          assert w[0] == s[j] != Delimiter;
        }
      }
    }
  }

  /**
   * In the parser's output, the first encoding of a mention whose label has no
   * delimiter in it sits exactly where the label was first found.
   */
  lemma FirstEncodingAt(v: string, m: Choice, i: int)
    requires Delimiter !in m.name
    requires i != -1 && IndexOf(v, Label(m)) == i
    ensures IndexOf(v[..i] + Encode(m) + v[i + |Label(m)|..], Encode(m)) == i
  {
    var L, E := Label(m), Encode(m);
    var s := v[..i] + E + v[i + |L|..];
    assert OccursAt(s, E, i) by { assert s[i..i + |E|] == E; }
    NoEncodingBeforeAny(v, m, i, s);
    IndexOfIs(s, E, i);
  }

  /** `NoEncodingBefore` for every earlier position at once. */
  lemma NoEncodingBeforeAny(v: string, m: Choice, i: int, s: string)
    requires Delimiter !in m.name
    requires OccursAt(v, Label(m), i)
    requires forall k :: 0 <= k < i ==> !OccursAt(v, Label(m), k)
    requires s == v[..i] + Encode(m) + v[i + |Label(m)|..]
    ensures forall j :: 0 <= j < i ==> !OccursAt(s, Encode(m), j)
  {
    forall j | 0 <= j < i
      ensures !OccursAt(s, Encode(m), j)
    {
      NoEncodingBefore(v, m, i, j);
    }
  }

  /**
   * A text with no `$` but a single encoding at its end: the formatter turns
   * that encoding into the label and keeps the mention.
   */
  lemma DisplayFormOfTrailingEncoding(p: string, m: Choice)
    requires Delimiter !in p
    ensures DisplayForm(p + Encode(m), [m]) == Pass(p + Label(m), [m])
  {
    var v, E, L := p + Encode(m), Encode(m), Label(m);
    assert OccursAt(v, E, |p|) by { assert v[|p|..|p| + |E|] == E; }
    forall j | 0 <= j < |p|
      ensures !OccursAt(v, E, j)
    {
      assert v[j] == p[j] != E[0];
      assert v[j..j + |E|][0] == v[j];
    }
    IndexOfIs(v, E, |p|);
    ReplaceFirstAt(v, E, L, |p|);
    assert v[..|p|] == p && v[|p| + |E|..] == [];
    DisplayFormOne(v, m);
  }

  /** Putting the label back where its encoding was spliced in restores the text. */
  lemma SpliceBack(v: string, m: Choice, i: int)
    requires OccursAt(v, Label(m), i)
    ensures var s := v[..i] + Encode(m) + v[i + |Label(m)|..];
            s[..i] + Label(m) + s[i + |Encode(m)|..] == v
  {
    var L, E := Label(m), Encode(m);
    var s := v[..i] + E + v[i + |L|..];
    assert s[..i] == v[..i];
    assert s[i + |E|..] == v[i + |L|..];
    assert v == v[..i] + v[i..i + |L|] + v[i + |L|..];
  }

  /**
   * For one tracked mention whose label has no delimiter in it, the formatter
   * undoes the parser: the text comes back unchanged, and the mention is kept
   * by both passes exactly when its label occurred in the text.
   */
  lemma RoundTripSingle(v: string, m: Choice)
    requires Delimiter !in m.name
    ensures var s := StorageForm(v, [m]);
            (s.kept == [m] <==> Contains(v, Label(m))) &&
            DisplayForm(s.text, s.kept) == Pass(v, s.kept)
  {
    var L, E := Label(m), Encode(m);
    StorageFormOne(v, m);
    if Contains(v, L) {
      var i := IndexOf(v, L);
      var s := v[..i] + E + v[i + |L|..];
      assert StorageForm(v, [m]) == Pass(s, [m]);
      FirstEncodingAt(v, m, i);
      assert s[i..i + |E|] == E;
      DisplayFormOne(s, m);
      SpliceBack(v, m, i);
    }
  }

  /** Encoding the first occurrence of a label inserts one delimiter in front of it. */
  lemma EncodingInsertsDelimiter(v: string, m: Choice)
    requires Contains(v, Label(m))
    ensures var k := IndexOf(v, Label(m));
            v[k] == Delimiter &&
            ReplaceFirst(v, Label(m), Encode(m)) == v[..k] + [Delimiter] + v[k..]
  {
    var M := Label(m);
    var k := IndexOf(v, M);
    assert v[k..k + |M|][0] == M[0];
    assert Encode(m) == [Delimiter] + M;
    ReplaceFirstPrepends(v, M, Delimiter);
  }

  /**
   * Inserting a delimiter in front of a delimiter keeps every occurrence of a
   * label with no delimiter after its first character (shifted or not).
   */
  lemma InsertionKeepsLabel(v: string, k: nat, c: Choice, j: int)
    requires k < |v| && v[k] == Delimiter
    requires Delimiter !in c.name
    requires OccursAt(v, Label(c), j)
    ensures Contains(v[..k] + [Delimiter] + v[k..], Label(c))
  {
    var L := Label(c);
    var s := v[..k] + [Delimiter] + v[k..];
    if j + |L| <= k {
      assert s[j..j + |L|] == v[j..j + |L|];
      assert OccursAt(s, L, j);
    } else if k <= j {
      assert s[j + 1..j + 1 + |L|] == v[j..j + |L|];
      assert OccursAt(s, L, j + 1);
    } else {
      assert false;
    }
  }

  /**
   * The parser's encoding step for any mention keeps every occurrence of a
   * label with no delimiter after its first character.
   */
  lemma EncodingKeepsLabel(v: string, m: Choice, c: Choice)
    requires Delimiter !in c.name
    requires Contains(v, Label(c))
    ensures Contains(ReplaceFirst(v, Label(m), Encode(m)), Label(c))
  {
    if Contains(v, Label(m)) {
      EncodingInsertsDelimiter(v, m);
      var j :| OccursAt(v, Label(c), j);
      InsertionKeepsLabel(v, IndexOf(v, Label(m)), c, j);
    }
  }

  /**
   * A tracked mention whose label has no delimiter in it and occurs in the
   * text survives the parser pass, whatever the mentions around it rewrite.
   */
  lemma {:induction false} StorageKeepsPresentMention(value: string, ms: seq<Choice>, c: Choice)
    requires Delimiter !in c.name
    requires Contains(value, Label(c)) && c in ms
    ensures c in StorageForm(value, ms).kept
    decreases |ms|
  {
    var m := ms[0];
    if m != c {
      assert c in ms[1..] by { assert ms == [m] + ms[1..]; }
      if Contains(value, Label(m)) {
        EncodingKeepsLabel(value, m, c);
        StorageKeepsPresentMention(ReplaceFirst(value, Label(m), Encode(m)), ms[1..], c);
      } else {
        StorageKeepsPresentMention(value, ms[1..], c);
      }
    }
  }

  /** The parser encodes the committed mention of the end-to-end scenario. */
  lemma StorageFormOfKyle()
    ensures StorageForm("hi there $kyle", [Choice("kyle")]) == Pass("hi there $$kyle", [Choice("kyle")])
  {
    var v, m := "hi there $kyle", Choice("kyle");
    assert v[9..14] == Label(m);
    forall j | 0 <= j < 9
      ensures !OccursAt(v, Label(m), j)
    {
      assert v[j] != Label(m)[0];
    }
    IndexOfIs(v, Label(m), 9);
    assert [m][1..] == [];
    assert v[..9] + Encode(m) + v[14..] == "hi there $$kyle";
  }

  /**
   * Without the restriction on the label, the round trip fails: for the label
   * `a$$a`, the text `$$a$a$$a` is stored as `$$a$$a$$a` and comes back as
   * `$a$$a$$a`, although the mention is kept throughout.
   */
  lemma RoundTripFailsForDelimiterInLabel()
    ensures var m := Choice("a$$a");
            var s := StorageForm("$$a$a$$a", [m]);
            s == Pass("$$a$$a$$a", [m]) &&
            DisplayForm(s.text, s.kept) == Pass("$a$$a$$a", [m])
  {
    StorageOfDelimitedLabel();
    DisplayOfDelimitedLabel();
  }

  /** The parser finds the label `$a$$a` of `a$$a` first at index 3 of `$$a$a$$a`. */
  lemma StorageOfDelimitedLabel()
    ensures StorageForm("$$a$a$$a", [Choice("a$$a")]) == Pass("$$a$$a$$a", [Choice("a$$a")])
  {
    var v, m := "$$a$a$$a", Choice("a$$a");
    assert Contains(v, Label(m)) && ReplaceFirst(v, Label(m), Encode(m)) == "$$a$$a$$a" by {
      assert Label(m) == "$a$$a" && Encode(m) == "$$a$$a";
      DelimitedLabelAt3();
      ReplaceFirstAt(v, "$a$$a", "$$a$$a", 3);
      assert v[..3] == "$$a" && v[8..] == [];
      assert v[..3] + "$$a$$a" + v[8..] == "$$a$$a$$a";
    }
    StorageFormOne(v, m);
  }

  /** `$a$$a` first occurs at index 3 of `$$a$a$$a`. */
  lemma DelimitedLabelAt3()
    ensures IndexOf("$$a$a$$a", "$a$$a") == 3
  {
    var v, L := "$$a$a$$a", "$a$$a";
    assert v[3..8] == L;
    assert v[0..5] != L by { assert v[1] != L[1]; }
    assert v[1..6] != L by { assert v[4] != L[3]; }
    assert v[2..7] != L by { assert v[2] != L[0]; }
    IndexOfIs(v, L, 3);
  }

  /** The formatter finds the encoding `$$a$$a` of `a$$a` at index 0 of `$$a$$a$$a`. */
  lemma DisplayOfDelimitedLabel()
    ensures DisplayForm("$$a$$a$$a", [Choice("a$$a")]) == Pass("$a$$a$$a", [Choice("a$$a")])
  {
    var s, m := "$$a$$a$$a", Choice("a$$a");
    var E := Encode(m);
    assert E == "$$a$$a";
    assert s[0..6] == E;
    IndexOfIs(s, E, 0);
    DisplayFormOne(s, m);
    assert s[..0] + Label(m) + s[6..] == "$a$$a$$a";
  }
}
