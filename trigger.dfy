/**
 * The trigger matcher: the default search pattern
 * `(?:\s+|^)\$([A-Za-z0-9._-]*(?: \w+)?)$`, applied to the text left of the
 * caret, recognised by hand; and `replace`, which splices a chosen label over
 * the trigger.
 */
module Trigger {
  import opened Wrappers
  import opened Text
  import opened Codec

  /**
   * The result of a successful match: where the whole match starts (the
   * regular expression's `index`), where its delimiter is, where it ends and
   * the captured query (`match[1]`).
   */
  datatype Match = Match(start: nat, dollar: nat, end: nat, query: string)

  /** `[A-Za-z0-9._-]` */
  predicate IsQueryChar(c: char)
  {
    ('A' <= c <= 'Z') || ('a' <= c <= 'z') || ('0' <= c <= '9') || c == '.' || c == '_' || c == '-'
  }

  /** `\w`, that is `[A-Za-z0-9_]` */
  predicate IsWordChar(c: char)
  {
    ('A' <= c <= 'Z') || ('a' <= c <= 'z') || ('0' <= c <= '9') || c == '_'
  }

  /** `\s`: the ECMAScript white space and line terminator code points. */
  predicate IsSpace(c: char)
  {
    c == '\t' || c == '\n' || c == '\U{000B}' || c == '\U{000C}' || c == '\r' || c == ' ' ||
    c == '\U{00A0}' || c == '\U{1680}' || ('\U{2000}' <= c <= '\U{200A}') ||
    c == '\U{2028}' || c == '\U{2029}' || c == '\U{202F}' || c == '\U{205F}' ||
    c == '\U{3000}' || c == '\U{FEFF}'
  }

  /** The whole of `q` matches the group `[A-Za-z0-9._-]*(?: \w+)?`. */
  ghost predicate QueryShape(q: string)
  {
    (forall j :: 0 <= j < |q| ==> IsQueryChar(q[j])) ||
    (exists k :: 0 <= k < |q| - 1 && q[k] == ' ' &&
       (forall j :: 0 <= j < k ==> IsQueryChar(q[j])) &&
       (forall j :: k < j < |q| ==> IsWordChar(q[j])))
  }

  /**
   * The pattern matches `t` from index `i` to its end, consuming the
   * delimiter at `d`: `\s+` over `t[i..d]`, or `^` with `i == d == 0`, then
   * the delimiter, then a query reaching the end of `t`.
   */
  ghost predicate PatternAt(t: string, i: int, d: int)
  {
    0 <= i <= d < |t| && t[d] == Delimiter &&
    ((i < d && forall j :: i <= j < d ==> IsSpace(t[j])) || (i == 0 && d == 0)) &&
    QueryShape(t[d + 1..])
  }

  /** The index of the last `c` in `t`, or -1. */
  function LastIndexOfChar(t: string, c: char): (r: int)
    ensures -1 <= r < |t|
    ensures r == -1 ==> forall j :: 0 <= j < |t| ==> t[j] != c
    ensures r != -1 ==> t[r] == c && forall j :: r < j < |t| ==> t[j] != c
  {
    if t == [] then -1
    else if t[|t| - 1] == c then |t| - 1
    else LastIndexOfChar(t[..|t| - 1], c)
  }

  /** The start of the run of white space that ends just before `d`. */
  function SpaceRunStart(t: string, d: nat): (r: nat)
    requires d <= |t|
    ensures r <= d
    ensures forall j :: r <= j < d ==> IsSpace(t[j])
    ensures r == 0 || !IsSpace(t[r - 1])
  {
    if d == 0 || !IsSpace(t[d - 1]) then d else SpaceRunStart(t, d - 1)
  }

  /** The index of the first character of `q` at or after `k` that is not a query character. */
  function FirstNonQueryChar(q: string, k: nat): (r: nat)
    requires k <= |q|
    decreases |q| - k
    ensures k <= r <= |q|
    ensures forall j :: k <= j < r ==> IsQueryChar(q[j])
    ensures r < |q| ==> !IsQueryChar(q[r])
  {
    if k == |q| || !IsQueryChar(q[k]) then k else FirstNonQueryChar(q, k + 1)
  }

  /** The recogniser for the query group: query characters, then at most one space and a word. */
  predicate ScanQuery(q: string)
    ensures ScanQuery(q) <==> QueryShape(q)
  {
    var k := FirstNonQueryChar(q, 0);
    k == |q| ||
    (q[k] == ' ' && k + 1 < |q| && forall j :: k < j < |q| ==> IsWordChar(q[j]))
  }

  /** A query has no delimiter in it. */
  lemma QueryHasNoDelimiter(q: string, j: int)
    requires QueryShape(q) && 0 <= j < |q|
    ensures q[j] != Delimiter
  {
  }

  /**
   * `searchPattern.exec(t)`: the leftmost match, if any. A match exists
   * exactly when the pattern matches somewhere; the result is the match
   * starting first, and its delimiter is the first one in the matched text.
   */
  function FindTrigger(t: string): (r: Option<Match>)
    ensures r.Some? ==> PatternAt(t, r.value.start, r.value.dollar)
    ensures r.Some? ==> r.value.end == |t| && r.value.query == t[r.value.dollar + 1..]
    ensures r.Some? ==> IndexOf(t[r.value.start..], [Delimiter]) == r.value.dollar - r.value.start
    ensures forall i, d :: PatternAt(t, i, d) ==> r.Some? && r.value.start <= i && r.value.dollar == d
  {
    var d := LastIndexOfChar(t, Delimiter);
    if d == -1 || !ScanQuery(t[d + 1..]) then
      NoMatchWithoutQuery(t, d);
      None
    else
      var i := SpaceRunStart(t, d);
      LeftmostMatch(t, d, i);
      if i < d || d == 0 then Some(Match(i, d, |t|, t[d + 1..])) else None
  }

  /** Any match consumes the last delimiter of `t`. */
  lemma MatchUsesLastDelimiter(t: string, i: int, d: int)
    requires PatternAt(t, i, d)
    ensures d == LastIndexOfChar(t, Delimiter)
  {
    var last := LastIndexOfChar(t, Delimiter);
    if last != d {
      assert d < last;
      QueryHasNoDelimiter(t[d + 1..], last - d - 1);
      assert false;
    }
  }

  /** Without a delimiter followed by a query up to the end, nothing matches. */
  lemma NoMatchWithoutQuery(t: string, d: int)
    requires d == LastIndexOfChar(t, Delimiter)
    requires d == -1 || !QueryShape(t[d + 1..])
    ensures forall i, d' :: !PatternAt(t, i, d')
  {
    forall i, d' | PatternAt(t, i, d')
      ensures false
    {
      MatchUsesLastDelimiter(t, i, d');
    }
  }

  /**
   * When the last delimiter `d` is followed by a query, the matches are
   * exactly those starting in the white space run before `d` (or at `d == 0`),
   * and the first of them starts where that run starts.
   */
  lemma LeftmostMatch(t: string, d: int, i: nat)
    requires d == LastIndexOfChar(t, Delimiter) && d != -1
    requires QueryShape(t[d + 1..])
    requires i == SpaceRunStart(t, d)
    ensures (i < d || d == 0) ==> PatternAt(t, i, d)
    ensures (i < d || d == 0) ==> IndexOf(t[i..], [Delimiter]) == d - i
    ensures forall i', d' :: PatternAt(t, i', d') ==> (i < d || d == 0) && i <= i' && d' == d
  {
    forall i', d' | PatternAt(t, i', d')
      ensures (i < d || d == 0) && i <= i' && d' == d
    {
      MatchUsesLastDelimiter(t, i', d');
      if i' < i {
        assert false;
      }
    }
    if i < d || d == 0 {
      var m := t[i..];
      assert m[d - i..d - i + 1] == [Delimiter];
      forall j | 0 <= j < d - i
        ensures !OccursAt(m, [Delimiter], j)
      {
        assert m[j] == t[i + j];
      }
      IndexOfIs(m, [Delimiter], d - i);
    }
  }

  /**
   * The trigger condition in words: the text left of the caret ends with a
   * delimiter and a query, and that delimiter is at index 0 or follows white space.
   */
  lemma FindTriggerIff(t: string)
    ensures FindTrigger(t).Some? <==>
            exists d :: 0 <= d < |t| && t[d] == Delimiter && QueryShape(t[d + 1..]) &&
                        (d == 0 || IsSpace(t[d - 1]))
  {
    if FindTrigger(t).Some? {
      var d := FindTrigger(t).value.dollar;
      if d > 0 {
        assert IsSpace(t[d - 1]);
      }
    } else {
      forall d | 0 <= d < |t| && t[d] == Delimiter && QueryShape(t[d + 1..])
        ensures !(d == 0 || IsSpace(t[d - 1]))
      {
        if d == 0 {
          assert PatternAt(t, 0, 0);
        } else if IsSpace(t[d - 1]) {
          assert PatternAt(t, d - 1, d);
        }
      }
    }
  }

  /** `"hi there $ky"` triggers a search for `ky`; the match starts at the space before `$`. */
  lemma TriggerOnQuery()
    ensures FindTrigger("hi there $ky") == Some(Match(8, 9, 12, "ky"))
  {
    var t := "hi there $ky";
    assert PatternAt(t, 8, 9) by {
      assert QueryShape(t[10..]);
    }
    var r := FindTrigger(t);
    assert r.Some? && r.value.start <= 8 && r.value.dollar == 9;
    assert r.value.start == 8 by {
      assert !IsSpace(t[7]);
    }
    assert r.value.query == "ky";
  }

  /** A delimiter inside a word does not trigger: `"email$kyl"`. */
  lemma NoTriggerMidWord()
    ensures FindTrigger("email$kyl") == None
  {
    var t := "email$kyl";
    assert forall j :: 0 <= j < |t| && j != 5 ==> t[j] != Delimiter;
    assert t[5] == Delimiter;
    assert LastIndexOfChar(t, Delimiter) == 5;
    assert ScanQuery(t[6..]) by {
      assert FirstNonQueryChar(t[6..], 0) == 3;
    }
    assert !IsSpace(t[4]);
    assert SpaceRunStart(t, 5) == 5;
  }

  /** A trailing space without a word after it does not trigger: `"$bob "`. */
  lemma NoTriggerAfterTrailingSpace()
    ensures FindTrigger("$bob ") == None
  {
    var t := "$bob ";
    assert forall j :: 0 < j < |t| ==> t[j] != Delimiter;
    assert t[0] == Delimiter;
    assert LastIndexOfChar(t, Delimiter) == 0;
    assert !ScanQuery(t[1..]) by {
      assert !IsQueryChar(t[4]);
      assert FirstNonQueryChar(t[1..], 0) == 3;
    }
  }

  /**
   * `replace(mention, search, text)`: the text before the trigger's
   * delimiter, then the mention's label, then the text after the match.
   * `substr` clamps offsets beyond the text.
   */
  function Replace(c: Choice, m: Match, text: string): (r: string)
    ensures m.dollar <= m.end <= |text| ==>
              |r| == |text| - (m.end - m.dollar) + |Label(c)| &&
              r[..m.dollar] == text[..m.dollar] &&
              r[m.dollar..m.dollar + |Label(c)|] == Label(c) &&
              r[m.dollar + |Label(c)|..] == text[m.end..]
  {
    Prefix(text, m.dollar) + Label(c) + From(text, m.end)
  }

  /** Whatever the match and the text, the committed text holds the mention's label. */
  lemma ReplaceInsertsLabel(c: Choice, m: Match, text: string)
    ensures Contains(Replace(c, m, text), Label(c))
  {
    var p := Prefix(text, m.dollar);
    assert OccursAt(Replace(c, m, text), Label(c), |p|) by {
      assert Replace(c, m, text)[|p|..|p| + |Label(c)|] == Label(c);
    }
  }

  /** Committing `kyle` over the trigger of `"hi there $ky"` gives `"hi there $kyle"`. */
  lemma ReplaceKyle()
    ensures Replace(Choice("kyle"), Match(8, 9, 12, "ky"), "hi there $ky") == "hi there $kyle"
  {
  }
}
