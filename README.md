# ui-mention controller, modelled in Dafny

This project models the `uiMention` controller of the `ui.mention` AngularJS
module. The controller is attached to a text area. When the text left of the
caret ends in a `$` trigger such as `$ky`, it asks a resolver for candidate
choices and lets the user move through them with the arrow keys. Return
splices the chosen label (`$kyle`) over the trigger. The controller also keeps
an ordered list of tracked mentions, which is reconciled in two directions.
The passes are meant to work as follows, and the model's main passes
(`Reconcile`) work this way:

- the **parser** pass (view text to stored text) encodes each tracked label as
  `$$label` and drops mentions whose label is gone;
- the **formatter** pass (stored text to view text) decodes each encoding back
  to its label and drops mentions whose encoding is gone.

As written, all three rewrites go through JavaScript's `replace`, which reads
the inserted text as a replacement template: `$$`, `$&`, `` $` `` and `$'`
expand. So the parser stores the label unchanged when its label field has no
`$`, and otherwise rewrites the pairs in it (the field `a$$b` stores `$a$$b` as
`$a$b`). The formatter and the preview expand a label whose field begins with
`$`, `&`, `` ` `` or `'`, and any such pair inside the field. Module `AsWritten`
models the callbacks as they run, and "## Findings" records the differences.
The `MentionController` class runs the corrected passes, so its scenarios
(`ReturnCommitsKyle`, `CommitKyle`, ...) show the intended behaviour: as
written, `hi there $kyle` would be stored unchanged (`KyleLostAsWritten`).

The model has one module per concern:

| module | file | what it holds |
|---|---|---|
| `Text` | text.dfy | `indexOf`, literal first-occurrence replacement, `substr`, and the subsequence relation that `filter` produces |
| `Codec` | codec.dfy | `label`, `encode`, `highlight` |
| `Reconcile` | reconcile.dfy | the parser and formatter passes and the preview loop, as functions and as loops, with their properties |
| `AsWritten` | as_written.dfy | the two callbacks as JavaScript runs them, and the preview's replace loop on the text it is given, with replacement templates (see Findings) |
| `Trigger` | trigger.dfy | a hand-written recogniser for the search pattern, and `replace` |
| `Navigator` | navigator.dfy | `up` and `down` over the candidate list |
| `Geometry` | geometry.dfy | the integer part of `getTextBoundingRect`: offset clamping and the mirror's runs |
| `ExampleResolver` | example_resolver.dfy | the demo application's substring resolver and its sample choices |
| `Controller` | controller.dfy | the `MentionController` class: its state, its operations, the key handlers, and end-to-end scenarios |

A choice is a value `Choice(name)`, where `name` is the host object's `label`
property (`label` is a keyword in Dafny). Two choices are the same when their
labels are equal. The text area's content and ngModel's view value are one
field, `view`: typing commits the view value, and `$render` writes the view
value back to the element, so the two never differ.

## Model

| member | source | states |
|---|---|---|
| Codec.Label | src/mentionController.es6.js:145-147 | A label is the delimiter `$` followed by the choice's label field, one character longer than that field. |
| Codec.Highlight | src/mentionController.es6.js:122-124 | The preview's highlight of a choice is its label, which is the encoding with its first `$` removed. |
| Codec.Encode | src/mentionController.es6.js:157-159 | An encoding is the label with one more leading `$`: two delimiters, then the label field. |
| Reconcile.StorageForm | src/mentionController.es6.js:36-46 | The stored text is longer than the input by exactly the number of mentions kept, one `$` per encoding. |
| Reconcile.StorageKeepsOrder | src/mentionController.es6.js:36-46 | The parser only prunes: the mentions it keeps are a subsequence of the tracked ones, in their order. |
| Reconcile.DisplayForm | src/mentionController.es6.js:48-63 | The display text is shorter than the stored text by exactly the number of mentions kept. |
| Reconcile.DisplayKeepsOrder | src/mentionController.es6.js:48-63 | The formatter only prunes: the mentions it keeps are a subsequence of the tracked ones, in their order. |
| Reconcile.ReconcileForStorage | src/mentionController.es6.js:36-46 | The parser's filter loop, which reassigns the captured value at each step, computes exactly the text and mentions of `StorageForm`. |
| Reconcile.ReconcileForDisplay | src/mentionController.es6.js:48-63 | The formatter's filter loop computes exactly the text and mentions of `DisplayForm`. |
| Reconcile.StorageFormAppend | src/mentionController.es6.js:38-41 | Running the parser over `a + b` is running it over `a`, then over `b` on the rewritten text; the kept lists concatenate. |
| Reconcile.StorageFormStep | src/mentionController.es6.js:38-41 | The k-th mention is kept exactly when its label occurs in the text already rewritten by the mentions before it; then only the first occurrence is replaced by the encoding. |
| Reconcile.DisplayFormAppend | src/mentionController.es6.js:53-60 | Running the formatter over `a + b` is running it over `a`, then over `b` on the rewritten text. |
| Reconcile.DisplayFormStep | src/mentionController.es6.js:53-60 | The k-th mention is kept exactly when its encoding occurs in the text already rewritten; then only the first occurrence is replaced by the label. |
| Reconcile.Rendered | src/mentionController.es6.js:96-98 | Each tracked mention's replacement shortens the preview text by at most one character: the encoding becomes the highlight, one `$` shorter. |
| Reconcile.RenderedIsDisplayText | src/mentionController.es6.js:92-101 | The preview loop rewrites the text exactly as the formatter does, because the highlight is the label; it only does not prune. |
| Reconcile.FirstEncodingAt | src/mentionController.es6.js:39-40 | After the parser encodes a label with no `$` in its field, the first encoding in the text sits exactly where the label was first found. |
| Reconcile.DisplayFormOfTrailingEncoding | src/mentionController.es6.js:53-60 | For a text with no `$` followed by one encoding, the formatter turns the encoding into the label and keeps the mention. |
| Reconcile.RoundTripSingle | src/mentionController.es6.js:36-63 | For one tracked mention with no `$` in its label field, the parser keeps it exactly when its label occurs, and the formatter then gives back the original text and keeps the same mentions. |
| Reconcile.EncodingInsertsDelimiter | src/mentionController.es6.js:40 | Encoding the first occurrence of a label inserts one `$` in front of that occurrence, which starts with `$`. |
| Reconcile.InsertionKeepsLabel | src/mentionController.es6.js:40 | Inserting a `$` in front of a `$` keeps every occurrence of a label whose field has no `$`. |
| Reconcile.EncodingKeepsLabel | src/mentionController.es6.js:39-40 | Any mention's encoding step keeps an occurring label whose field has no `$` occurring. |
| Reconcile.StorageKeepsPresentMention | src/mentionController.es6.js:36-46 | A tracked mention whose label occurs in the text, and whose field has no `$`, is kept by the parser whatever the other mentions rewrite. |
| Reconcile.StorageFormOfKyle | src/mentionController.es6.js:36-46 | The parser stores `hi there $kyle` with `kyle` tracked as `hi there $$kyle` and keeps `kyle`. |
| Reconcile.StorageOfDelimitedLabel | src/mentionController.es6.js:36-46 | The parser finds the label `$a$$a` first at index 3 of `$$a$a$$a` and stores `$$a$$a$$a`. |
| Reconcile.DisplayOfDelimitedLabel | src/mentionController.es6.js:48-63 | The formatter finds the encoding `$$a$$a` at index 0 of `$$a$$a$$a` and shows `$a$$a$$a`. |
| Reconcile.RoundTripFailsForDelimiterInLabel | src/mentionController.es6.js:36-63 | For the label field `a$$a`, the text `$$a$a$$a` is stored as `$$a$$a$$a` and comes back as `$a$$a$$a`, so the round trip needs a `$`-free field. |
| AsWritten.Substitution | src/mentionController.es6.js:40 | ECMAScript's expansion of a replacement template (`$$`, `$&`, `` $` ``, `$'`); a template with no `$` is inserted as it is. |
| AsWritten.JsReplaceFirst | src/mentionController.es6.js:40 | `replace` with a string pattern leaves the text alone when the pattern is absent; otherwise it keeps everything before and after the first occurrence and changes only that occurrence. |
| AsWritten.StorageAsWritten | src/mentionController.es6.js:36-46 | The parser callback as written keeps at most the tracked mentions, each at most as often as it is tracked. |
| AsWritten.DisplayAsWritten | src/mentionController.es6.js:48-63 | The formatter callback as written keeps at most the tracked mentions, each at most as often as it is tracked. |
| AsWritten.RenderedAsWritten | src/mentionController.es6.js:96-98 | The preview's replace loop as written, on the text it is given, rewrites it exactly as the formatter as written does, because the highlight is the label; it only does not prune. |
| AsWritten.DisplayAsWrittenExpandsMatch | src/mentionController.es6.js:53-60 | For the label field `&a`, the formatter as written shows the stored `$$&a` as `$$&aa`, because `$&` expands to the matched text. The corrected formatter shows `$&a`. |
| AsWritten.RenderedAsWrittenExpandsSuffix | src/mentionController.es6.js:96-98 | For the label field `'a`, the replace loop as written renders `$$'a` (which HTML escaping leaves alone) as `a`, because `$'` expands to the text after the match. The corrected loop renders `$'a`. |
| AsWritten.StorageAsWrittenHalvesDelimiters | src/mentionController.es6.js:36-46 | As written, with the label field `a$$b` tracked, the parser stores the view text `$a$$b` as `$a$b`: the `$$` inside the field collapses too. |
| AsWritten.EncodingTemplateIsLabel | src/mentionController.es6.js:40 | The parser's template, the encoding, expands to the label when the label field has no `$`: its leading `$$` collapses to one `$`. |
| AsWritten.ReplaceLabelByEncodingIsIdentity | src/mentionController.es6.js:40 | As written, replacing a label by its encoding leaves the text unchanged when the label field has no `$`. |
| AsWritten.StorageAsWrittenKeepsText | src/mentionController.es6.js:36-46 | As written, the parser never changes a text whose tracked label fields have no `$`, so no encoding is ever stored. |
| AsWritten.StorageAsWrittenLosesMention | src/mentionController.es6.js:36-63 | As written, a tracked mention whose label field has no `$`, whose label is in the view text and whose encoding is not, is lost on the way through storage: the parser stores the text unchanged and keeps the mention, and the formatter then drops it. The corrected passes keep the mention and give the text back. |
| AsWritten.KyleLostAsWritten | src/mentionController.es6.js:36-63 | As written, `hi there $kyle` with `kyle` tracked is stored unchanged, and the formatter then drops `kyle`. |
| Trigger.ScanQuery | src/mentionController.es6.js:10 | The scanner accepts exactly the strings matching the group `[A-Za-z0-9._-]*(?: \w+)?`. |
| Trigger.QueryHasNoDelimiter | src/mentionController.es6.js:10 | A query never contains `$`. |
| Trigger.FindTrigger | src/mentionController.es6.js:10 | A match is returned exactly when the pattern matches somewhere: `\s+` (or the start of the text), `$`, and a query that runs to the end. The match is the leftmost one, its `$` is the first `$` in the matched text, and the query is everything after it. |
| Trigger.MatchUsesLastDelimiter | src/mentionController.es6.js:10 | Any match consumes the last `$` of the text. |
| Trigger.NoMatchWithoutQuery | src/mentionController.es6.js:10 | Without a `$`, or with something other than a query after the last `$`, nothing matches. |
| Trigger.LeftmostMatch | src/mentionController.es6.js:10 | With a query after the last `$`, the match starts at the run of white space before that `$`, and exists exactly when the run is non-empty or the `$` is at index 0. |
| Trigger.FindTriggerIff | src/mentionController.es6.js:10 | A trigger is found exactly when the text ends with `$` and a query, and that `$` is at index 0 or follows white space. |
| Trigger.TriggerOnQuery | src/mentionController.es6.js:292 | `hi there $ky` matches from the space at 8, with the `$` at 9 and query `ky`. |
| Trigger.NoTriggerMidWord | src/mentionController.es6.js:292 | `email$kyl` does not match. |
| Trigger.NoTriggerAfterTrailingSpace | src/mentionController.es6.js:292 | `$bob ` does not match. |
| Trigger.Replace | src/mentionController.es6.js:171-178 | The text before the trigger's `$` and the text after the match are kept unchanged, and the label is placed between them. |
| Trigger.ReplaceInsertsLabel | src/mentionController.es6.js:171-178 | Whatever the match and the text, the spliced text contains the chosen label. |
| Trigger.ReplaceKyle | src/mentionController.es6.js:171-178 | Committing `kyle` over the trigger of `hi there $ky` gives `hi there $kyle`. |
| Navigator.IndexOfChoice | dist/mention.js:238 | `choices.indexOf(activeChoice)` is -1 exactly when there is no active choice or it is not listed; otherwise it is the first position that holds it. |
| Navigator.Up | dist/mention.js:237-244 | `up` gives none on an empty list and a listed choice otherwise; an unlisted or missing active choice goes to the last choice. |
| Navigator.Down | dist/mention.js:251-258 | `down` gives none on an empty list and a listed choice otherwise; an unlisted or missing active choice goes to the first choice. |
| Navigator.IndexOfListed | dist/mention.js:238 | Over distinct choices, the position of a listed choice is its index. |
| Navigator.UpFrom | dist/mention.js:237-244 | Over distinct choices, `up` from index k goes to k - 1, and from 0 it wraps to the last. |
| Navigator.DownFrom | dist/mention.js:251-258 | Over distinct choices, `down` from index k goes to k + 1, and from the last it wraps to 0. |
| Navigator.DownUpInverse | dist/mention.js:237-258 | Over distinct choices, `down` then `up`, and `up` then `down`, leave a listed active choice where it was. |
| Navigator.DownTimesAdvances | dist/mention.js:251-258 | Over distinct choices, n presses of `down` (n at most the list's length) advance the index by n, wrapping once. |
| Navigator.DownCycle | dist/mention.js:251-258 | Over N distinct choices, N presses of `down` return to the starting choice. |
| Geometry.ClampStart | dist/mention.js:387-391 | The start offset becomes 0 when it is not a number or is negative, the text length when it is beyond the text, and stays otherwise. |
| Geometry.ClampEnd | dist/mention.js:392-396 | The end offset becomes the clamped start when it is not a number or is before that start, the text length when it is beyond the text, and stays otherwise. |
| Geometry.Clamp | dist/mention.js:384-396 | The clamped offsets satisfy 0 <= start <= end <= text length. |
| Geometry.ClampIdempotent | dist/mention.js:384-396 | Clamping offsets that are already clamped changes nothing. |
| Geometry.ClampExamples | dist/mention.js:384-396 | `(-5, 3)` clamps as `(0, 3)`, `(10, 2)` as `(10, 10)`, and a start that is not a number as 0. |
| Geometry.Piece | dist/mention.js:453-464 | A run's text is the substring of the text, with exactly one trailing space added when that substring ends in `\n` or `\r`. |
| Geometry.Spans | dist/mention.js:433-435 | Every run lies within the text. |
| Geometry.JoinContiguous | dist/mention.js:433-435 | Runs laid end to end, each starting where the previous one ends, concatenate to the text from the first one's start to the last one's end. |
| Geometry.SpansPartitionText | dist/mention.js:433-435 | The runs `[0,s)`, `[s,e)` and `[e,len)` are contiguous and concatenate back to the text. The prefix appears only when s > 0, the suffix only when len > e, and the measured run is exactly the selection. |
| Geometry.MirrorFor | dist/mention.js:430-464 | The mirror has one run per span, each padded as `appendPart` pads it, and the measured run is the selection's piece. |
| ExampleResolver.FilterByQuery | example/example.js:18-24 | The result is an order-preserving subsequence of the candidates, holding each candidate whose label contains the query as often as it is listed, and no other. |
| ExampleResolver.FindChoices | example/example.js:18-24 | The demo resolver offers exactly the sample choices whose label contains the query, in the sample's order. |
| ExampleResolver.SampleChoicesDistinct | example/example.js:29 | The demo's candidates are six choices with pairwise different labels. |
| ExampleResolver.FilterKeeps | example/example.js:21-23 | A candidate whose label contains the query is kept in front of the filtered rest. |
| ExampleResolver.FilterDrops | example/example.js:21-23 | A candidate whose label does not contain the query is dropped. |
| ExampleResolver.EmptyQueryKeepsAll | example/example.js:22 | The empty query keeps every candidate, since `indexOf('')` is 0. |
| ExampleResolver.QueryKy | example/example.js:22-29 | The query `ky` over the sample list gives `[kyle$, kyle]` in that order, whatever mentions are tracked. |
| Controller.NoChoices | src/mentionController.es6.js:261-263 | The built-in resolver offers no candidate, whatever the match and the tracked mentions. |
| Controller.MentionController.constructor | src/mentionController.es6.js:19-20 | A new controller has no choices, no active choice, no search, no mentions, no pending move and empty texts, with the given resolver installed. |
| Controller.MentionController.SetViewValue | src/mentionController.es6.js:36-46 | Committing a changed view text runs the parser: the model value and the new mentions are `StorageForm` of the text and the old mentions. Committing an unchanged text changes nothing else. |
| Controller.MentionController.SetModelValue | src/mentionController.es6.js:48-63 | A new model value (undefined counts as the empty text) runs the formatter: the view text and the new mentions are `DisplayForm` of it and the old mentions. |
| Controller.MentionController.Render | src/mentionController.es6.js:92-101 | The rendered HTML is the escaped text (the model value by default) with every tracked mention's first encoding replaced by its highlight. |
| Controller.MentionController.Search | src/mentionController.es6.js:242-251 | `search` records the match and returns the resolver's answer for it and the current mentions; nothing else changes. |
| Controller.MentionController.Resolve | src/mentionController.es6.js:246-249 | The answer becomes the choices, and its first entry, or none, becomes the active choice. |
| Controller.MentionController.Up | src/mentionController.es6.js:210-217 | `up` sets the active choice to `Navigator.Up` of the choices and changes nothing else. |
| Controller.MentionController.Down | src/mentionController.es6.js:224-231 | `down` sets the active choice to `Navigator.Down` of the choices and changes nothing else. |
| Controller.MentionController.Cancel | src/mentionController.es6.js:270-273 | `cancel` empties the choices and stops searching, and leaves the active choice and the mentions alone. |
| Controller.MentionController.Select | src/mentionController.es6.js:187-203 | With no choice given and none active, nothing changes. Otherwise the choice is appended to the mentions. Without a search it throws at that point. With a search the trigger is replaced by the label and committed through the parser, and the dropdown closes. A committed choice with no `$` in its field is then tracked. |
| Controller.MentionController.OnKeydown | src/mentionController.es6.js:306-331 | When not searching, or for any other key, nothing changes and the default is kept. While searching, return selects the active choice, up and down move it, and each of these sets `moved` and prevents the default. |
| Controller.MentionController.OnKeyup | src/mentionController.es6.js:283-304 | After a handled keydown it only clears `moved`; with a non-empty selection it does nothing. Otherwise a trigger left of the caret starts a search and returns the pending answer, and no trigger closes the dropdown. |
| Controller.TriggerLeftOfCaret | src/mentionController.es6.js:292 | With the caret at 12 in `hi there $ky`, the text left of it triggers on `$ky`. |
| Controller.TypeKy | src/mentionController.es6.js:283-304 | Typing `hi there $ky` searches the trigger `$ky`, offers the resolver's answer and highlights its first entry. |
| Controller.KeyupAfterKy | src/mentionController.es6.js:283-304 | The keyup with the caret after `hi there $ky` starts a search for `$ky`; the resolver's answer becomes the choices with its first entry highlighted. |
| Controller.ArrowDownToKyle | src/mentionController.es6.js:306-331 | With `[kyle$, kyle]` offered, arrow down highlights `kyle`, and the keyup that follows is ignored. |
| Controller.ReturnCommitsKyle | src/mentionController.es6.js:187-203 | Return with `kyle` active over `hi there $ky` shows `hi there $kyle`, stores `hi there $$kyle` through the corrected parser, and tracks `kyle`. |
| Controller.CommitKyle | src/mentionController.es6.js:187-203 | End to end with a resolver answering `[kyle]`, through the corrected parser: the view is `hi there $kyle`, the model `hi there $$kyle`, and the mentions `[kyle]`. |
| Controller.ReturnWithBuiltInResolver | src/mentionController.es6.js:261-263 | With the built-in resolver nothing is offered. Return while searching then selects nothing and leaves the text and the mentions, yet it prevents the default. |
| Controller.FormatterRestoresKyle | src/mentionController.es6.js:48-63 | The formatter turns the stored `hi there $$kyle` back into `hi there $kyle` and keeps `kyle`. |
| Controller.FormatterDecodesHelloKyle | src/mentionController.es6.js:48-63 | The formatter shows the model value `hello $$kyle` as `hello $kyle` and keeps `kyle`. |
| Controller.CommitKyleWithDemoResolver | example/example.js:18-29 | End to end with the demo resolver: `ky` offers `kyle$`, then `kyle`. Arrow down and return commit `kyle` (`hi there $kyle`, stored `hi there $$kyle`). A later model update from outside the field, `hello $$kyle`, made while `kyle` is still tracked, is shown as `hello $kyle` and keeps the mention. |
| Controller.UpdateToHelloKyle | src/mentionController.es6.js:48-63 | A model update from outside the field, `hello $$kyle`, arriving while `kyle` is tracked, shows `hello $kyle` and keeps `kyle`. |
| Controller.PageLoadShowsEncoding | src/mentionController.es6.js:19-20 | A fresh controller tracks no mentions, so the formatter shows the stored `hi there $$kyle` as stored and tracks nothing. |

## Left out

- Angular and DOM plumbing is not modelled: the directive, registering the parser and formatter, `$render`, `$scope.$apply` and the `$$phase` checks, `$compile`, `appendTemplate` and `updatePopOverPosition`. `$setViewValue` and a model change are modelled only through their effect on the controller: the parser or formatter pass.
- The call to `render` inside the parser pass is left out, because it only writes HTML into the preview element. `render` itself is modelled.
- `parseContentAsText` escapes HTML with the browser's serialiser. It is a parameter `escape` of `Render`.
- Layout measurement is left out: `createTextRange`, `getInputOffset`, `getInputCSS`, the fake clone's styling, `getBoundingClientRect` and `autogrow`. These are browser layout in floating-point pixels. Only the clamping and the runs of text are modelled.
- The asynchrony of `$q.when` in `search` is a separate `Resolve` step, with no guard against stale answers, as in the code. The `$evalAsync` cancel in `onMouseup`, the focus handler and the `$timeout` calls are left out.
- `decode` is marked unused, and its pattern begins with an unescaped `$` anchor, so it never matches. It is not modelled.
- Geometry.ClampStart: offsets are whole numbers or not-a-number. Fractional offsets from `parseFloat` are not modelled.
- Controller.MentionController.SetModelValue: a `null` model value, on which `toString` throws, is not modelled, and neither are non-string primitives. A model value that does not change, which Angular does not pass to the formatter, is not modelled either.
- Tracked mentions are not saved anywhere: they live only in the controller, which starts with none. After a page load the corrected passes therefore show the stored encodings as stored (`PageLoadShowsEncoding`). As written, the stored text holds no encodings to show (`KyleLostAsWritten`).
- Choices are identified by their label fields. The code compares object references in `indexOf`, so two distinct objects with the same label are one choice here.
- Controller.MentionController.Select: a falsy value passed explicitly as the choice is not modelled. Choices are always objects, which are truthy.
- Controller.MentionController.OnKeyup: the caret offset is a natural number given by the caller. The element's own selection offsets are not read.
- Controller.MentionController.OnKeyup: texts are sequences of Unicode code points, so the caret offset and `substr` count code points. The browser counts UTF-16 code units. With a character outside the Basic Multilingual Plane before the caret, such as an emoji, the text left of the caret differs from the browser's.
- Geometry.Piece: offsets and lengths count code points, not UTF-16 code units. A run boundary that splits a surrogate pair cannot be represented.
- Trigger.FindTrigger: only the default search pattern is modelled. A custom `pattern` set on the controller is left out.

## Findings

| source | as written | input that shows it | evidently intended | confidence | as-written member | corrected member |
|---|---|---|---|---|---|---|
| src/mentionController.es6.js:40 | `value.replace(label, encode)` passes the encoding as a replacement template. Its leading `$$` expands to one `$`, so for a label field with no `$` the stored text gets the label instead of the encoding. The formatter (line 54) then finds no encoding and drops the mention. | the view text `hi there $kyle` with `kyle` tracked: stored as `hi there $kyle`; the formatter, run on that text while `kyle` is still tracked (a model update from outside the field), drops `kyle` | insert the encoding literally, storing `hi there $$kyle`, so that the formatter restores the text and keeps the mention | not executed | AsWritten.StorageAsWrittenLosesMention | Reconcile.RoundTripSingle |
| src/mentionController.es6.js:55 | `value.replace(encode, label)` passes the label as a replacement template. For a label field that begins with `&`, `` ` ``, `'` or `$`, the label's leading `$` forms a template pattern, which expands to the matched text, the text before it, the text after it or a single `$`. | the stored text `$$&a` with `&a` tracked: shown as `$$&aa` | insert the label literally, showing `$&a`, so that the formatter undoes the parser | not executed | AsWritten.DisplayAsWrittenExpandsMatch | Reconcile.RoundTripSingle |
| src/mentionController.es6.js:97 | `html.replace(encode, highlight)` passes the highlight, which is the label, as a replacement template, with the same expansion as line 55. | the model value `$$'a` with `'a` tracked, which HTML escaping leaves as it is: rendered as `a` | insert the highlight literally, rendering `$'a`, the same text the formatter shows | not executed | AsWritten.RenderedAsWrittenExpandsSuffix | Reconcile.RenderedIsDisplayText |
