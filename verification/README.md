# Font Awesome workflow for Alfred — a verified model

The workflow finds Font Awesome icons whose names contain the keywords typed
into the Alfred launcher, and writes the matches as an Alfred XML result
feed. This Dafny project models the behaviour that the workflow's RSpec
suite (`workflow/spec/font_awesome_spec.rb`) pins down:

- **Icon resolution** (`FontAwesome::Icon.new`). An id is first looked up
  directly in the id → unicode table. If that fails, it goes through the
  alias → canonical-id table. The icon keeps the id it was asked for. The
  catalog is the table's ids, each built into an icon, in catalog order
  (module `Icons`).
- **Keyword selection** (`#select!`). The model keeps the icons whose id
  contains every keyword as a substring, compared case-sensitively, in
  catalog order (module `Matcher`). The tests do not show which string
  method the implementation uses or how it treats case. The object is a
  class whose `icons` field the selection narrows in place (module
  `Workflow`).
- **Result formatting** (`#item_hash`, `#item_xml`, `#to_alfred`) and the
  helpers `.argv`, `.css_class_name` and `.url` (module `Formatter`). The
  document begins with the XML declaration of section 2.8 of the W3C XML 1.0
  Recommendation. A small reader (`ParseAlfred`) reads the document back. It
  is the partner of the renderer: the round-trip lemma shows that the
  document holds exactly one `<item>` per selected icon, in order, with the
  expected attributes and texts.
- **String helpers** (module `Text`): models of Ruby's `String#index`,
  `String#include?`, `String#split`, `Integer#to_s` and the steps of the
  reader, each with the property the rest of the model uses.
- **The tests' own cases** (module `PinnedCases`): `adjust`, `apple` and
  `star-half-empty`, stated over the model.

The implementation file of `FontAwesome` is not part of this model. Only its
test suite is, so the model follows what the tests fix. The
549-entry icon table is a parameter (`IconTable`). The clock is a parameter:
`timestamp` is the Unix time that `Time.now.to_i` would give.

## Model

| member | source | states |
|---|---|---|
| `Text.IntToString` | workflow/spec/font_awesome_spec.rb:199-209 | definition of `Integer#to_s` for the uid prefix; its result is digits with at most a leading minus, and `IntToStringRoundTrip` reads it back |
| `Text.Split` | workflow/spec/font_awesome_spec.rb:13-19 | definition of Ruby's `split` with trailing empty fields dropped; the fields are the leading ones of `SplitFields`, which join back to the input, none holds the separator and the last is not empty; `SplitJoined` gives the two-field case |
| `Text.SplitFields` | workflow/spec/font_awesome_spec.rb:13-19 | the pieces between separators, cut at the leftmost separator each time: at least one, none holding the separator, each but the last followed by the separator has it first right after the piece, and joined with it they give back the input |
| `Text.LinesSplitFields` | workflow/spec/font_awesome_spec.rb:199-209 | lines without line breaks of their own, each ended by a line break, split at the line breaks back into those lines and an empty tail |
| `Text.IndexOf` | workflow/spec/font_awesome_spec.rb:95-111 | the result is the leftmost index where the keyword occurs in the id; None exactly when it occurs nowhere |
| `Text.Includes` | workflow/spec/font_awesome_spec.rb:82-93 | the keyword test is true if and only if the keyword is a substring of the id |
| `Text.SplitJoined` | workflow/spec/font_awesome_spec.rb:13-19 | splitting `a`, the triple-bar separator, `b` gives back exactly `[a, b]` when neither part holds a bar and `b` is not empty |
| `Text.IntToStringRoundTrip` | workflow/spec/font_awesome_spec.rb:199-209 | the timestamp written into `uid` reads back as the same integer, negative times included |
| `Text.TakeUntilConcat` | workflow/spec/font_awesome_spec.rb:221-236 | the reader's scan for a delimiter splits attribute or text content from what follows it, and nowhere else |
| `Text.RemoveNewlinesLines` | workflow/spec/font_awesome_spec.rb:199-209 | taking the line breaks out of a heredoc-style block gives the concatenation of its lines |
| `Icons.NewIcon` | workflow/spec/font_awesome_spec.rb:250-283 | an icon exists exactly when the id resolves directly or through an alias, and it keeps the id it was asked for |
| `Icons.NewIconFromId` | workflow/spec/font_awesome_spec.rb:252-262 | a directly known id gets its own code point |
| `Icons.NewIconFromAlias` | workflow/spec/font_awesome_spec.rb:264-274 | an alias keeps its own id and gets the code point of its canonical icon |
| `Icons.LoadIcons` | workflow/spec/font_awesome_spec.rb:276-282 | loading succeeds exactly when every id resolves; then there is one icon per id, in order, each with its resolved code point |
| `Icons.DetectUnicode` | workflow/spec/font_awesome_spec.rb:250-274 | definition of the code point lookup, id table first and alias table second; it finds one exactly when the id resolves, a directly known id gets its own entry, and every result is a value of the id table; `NewIcon` builds on it |
| `Icons.Catalog` | workflow/spec/font_awesome_spec.rb:51-73 | definition of the catalog; it loads exactly when every catalog id resolves, and then holds one icon per catalog id, in catalog order, each with its resolved code point |
| `Icons.WellFormedCatalog` | workflow/spec/font_awesome_spec.rb:51-79 | a well-formed table always loads, and every catalog icon has writable id and code point text and a non-empty code point |
| `Matcher.Select` | workflow/spec/font_awesome_spec.rb:81-169 | definition of the selection; every selected icon is in the catalog and matches every keyword, and there are no more of them than catalog icons; `SelectMembership`, `SelectCount`, `SelectSubsequence` and `SelectKeywordOrder` state it exactly |
| `Matcher.KeepMatching` | workflow/spec/font_awesome_spec.rb:82-93 | one pass over the icons keeps exactly the ones whose id contains the keyword, in order |
| `Matcher.SelectNoKeywords` | workflow/spec/font_awesome_spec.rb:139-149 | with no keywords the selection is the whole catalog in its original order |
| `Matcher.SelectThenSelect` | workflow/spec/font_awesome_spec.rb:95-111 | applying keywords one after another selects the same icons as applying them all at once |
| `Matcher.SelectCount` | workflow/spec/font_awesome_spec.rb:95-111 | an icon occurs in the selection as often as in the catalog when it matches every keyword, and never otherwise |
| `Matcher.SelectMembership` | workflow/spec/font_awesome_spec.rb:82-111 | an icon is selected if and only if it is in the catalog and every keyword is a substring of its id |
| `Matcher.SelectNoMatch` | workflow/spec/font_awesome_spec.rb:131-137 | a keyword that no id contains gives an empty selection, not an error |
| `Matcher.SelectKeywordOrder` | workflow/spec/font_awesome_spec.rb:95-129 | keyword lists with the same members (`left arr` and `arr left`) give the identical ordered selection |
| `Matcher.SelectedPositionsEmbed` | workflow/spec/font_awesome_spec.rb:102-110 | the catalog positions of the selected icons are strictly increasing and point at them |
| `Matcher.SelectSubsequence` | workflow/spec/font_awesome_spec.rb:102-110 | the selection is an order-preserving subsequence of the catalog |
| `Formatter.CssClassName` | workflow/spec/font_awesome_spec.rb:22-27 | the class name is `fa-` followed by exactly the id |
| `Formatter.Url` | workflow/spec/font_awesome_spec.rb:44-49 | the URL is `http://fontawesome.io/icon/`, then the id, then `/` |
| `Formatter.ItemHash` | workflow/spec/font_awesome_spec.rb:171-190 | definition of `#item_hash`; uid and title are the id, valid is `yes` and the icon type is `default`; `ItemHashMeaning` and `ArgvItemHashRoundTrip` state the rest |
| `Formatter.ItemHashMeaning` | workflow/spec/font_awesome_spec.rb:171-190 | uid and title are the id, valid is `yes`, the subtitle is `Paste class name: ` and the CSS class name, the icon is of type `default` at `./icons/` + class name + `.png` |
| `Formatter.Argv` | workflow/spec/font_awesome_spec.rb:13-19 | definition of `.argv`; no struct exactly when there is no argument, neither field holds the separator, and a code point is only present with an id; `ArgvItemHashRoundTrip` is its inverse property |
| `Formatter.ArgvItemHashRoundTrip` | workflow/spec/font_awesome_spec.rb:13-19 | `.argv` applied to an item's `:arg` recovers the icon's id and code point |
| `Formatter.ItemXml` | workflow/spec/font_awesome_spec.rb:192-211 | definition of `#item_xml`; when no field holds a line break, taking the line breaks out gives the compact item that `#to_alfred` writes |
| `Formatter.ItemXmlLines` | workflow/spec/font_awesome_spec.rb:199-209 | `#item_xml` is exactly five lines, each ended by a line break: the `item` start tag with `arg` and `uid`, the `title`, `subtitle` and `icon` elements, and the end tag |
| `Formatter.ItemXmlCompact` | workflow/spec/font_awesome_spec.rb:199-246 | each item of the `#to_alfred` document is the `#item_xml` of the same item with its line breaks taken out |
| `Formatter.ParseStartTagRoundTrip` | workflow/spec/font_awesome_spec.rb:225-236 | the `arg` and `uid` attributes read back from an item's start tag are the ones written |
| `Formatter.ParseElementRoundTrip` | workflow/spec/font_awesome_spec.rb:225-236 | the text read back from a `<title>`, `<subtitle>` or `<icon>` element is the one written |
| `Formatter.CatalogItemPrintable` | workflow/spec/font_awesome_spec.rb:171-190 | the item hash of a catalog icon has no character that would break the attribute or text it is written into |
| `Formatter.ParseItemRoundTrip` | workflow/spec/font_awesome_spec.rb:225-236 | reading one rendered item gives its arg, uid, title, subtitle and icon path and leaves what follows it |
| `Formatter.ParseItemsRoundTrip` | workflow/spec/font_awesome_spec.rb:221-236 | reading the rendered items gives one entry per icon, in order |
| `Formatter.AlfredOutput` | workflow/spec/font_awesome_spec.rb:213-247 | definition of the `#to_alfred` output; it is the XML declaration and `<items>`, then the items, then `</items>` and the line break of `puts`; `AlfredOutputRoundTrip` reads it back |
| `Formatter.AlfredOutputRoundTrip` | workflow/spec/font_awesome_spec.rb:213-247 | the document holds exactly one item per selected icon, in selection order, with arg = id, triple bar, code point; uid `timestamp-id`, title `id` and icon `./icons/fa-id.png` |
| `Workflow.FontAwesome.constructor` | workflow/spec/font_awesome_spec.rb:213-219 | in the model, a new object built on a well-formed table holds that table's catalog narrowed by its queries (the whole catalog with none), and keeps the class invariant `Valid` |
| `Workflow.FontAwesome.SelectInPlace` | workflow/spec/font_awesome_spec.rb:81-169 | `icons` becomes the selection of its old value by the keywords, that selection is returned, and `Valid` is kept |
| `Workflow.FontAwesome.ToAlfred` | workflow/spec/font_awesome_spec.rb:213-247 | the output is the rendered document of the current icons; it reads back as one item per icon, in order, and `.argv` of each item's arg gives that icon's id and code point |
| `PinnedCases.ArgvAdjust` | workflow/spec/font_awesome_spec.rb:13-19 | `.argv` of `adjust`, triple bar, `f042` gives `adjust` and `f042` |
| `PinnedCases.HelpersAdjust` | workflow/spec/font_awesome_spec.rb:22-49 | `fa-adjust` and `http://fontawesome.io/icon/adjust/` |
| `PinnedCases.StarHalf` | workflow/spec/font_awesome_spec.rb:250-274 | `star-half-o` and its alias `star-half-empty` both resolve to `f123`, and each keeps its own id |
| `PinnedCases.AppleItemHash` | workflow/spec/font_awesome_spec.rb:171-190 | the six values of `apple`'s item hash |

## Left out

- `.to_character_reference`: the tests fix three code points of a hard-coded allow-list and give no rule, so there is nothing to derive.
- The Bundler setup check: it is dependency loading.
- The 549-entry catalog, the alias table, `Fixtures.icon_ids` and the size, first-id and last-id checks: the data is a parameter (`IconTable`), so no count or id is fixed.
- The check that the catalog does not include the strings `icon` and `awesome`: it compares icon objects with strings, so it holds for any catalog.
- `Time.now` and Timecop: the Unix time is the `timestamp` argument.
- Writing to standard output and parsing the output with REXML: the model returns the text `puts` writes, including its final line break. The small reader `ParseAlfred` stands in for the REXML queries.
- XML escaping: ids and code points come from the fixed catalog, which is taken to be well formed (`WellFormed`: free of `<`, `&`, `"`, `|` and line breaks, with non-empty code points). The formatting functions accept any text; only the read-back lemmas and the class invariant rely on this.
- `Icons.NewIcon`: an id that resolves neither directly nor through an alias gives None. Whether the implementation instead builds an icon with a nil code point is not visible from the tests.
- `Workflow.FontAwesome.SelectInPlace`: the filtering reassigns a `seq` field. The identity of the Ruby array, and aliasing of it by callers, are not modelled.
- Case handling of keywords: every keyword and id in the tests is lower-case (workflow/spec/font_awesome_spec.rb:83, 96, 114, 132, 153, 162), so it is not pinned down; the model matches case-sensitively.
- `Formatter.Argv`: the model reads only the first argument, with Ruby's `split` semantics (trailing empty fields dropped, a missing field nil), and gives None when there is no argument. The tests call `.argv` with one argument only (workflow/spec/font_awesome_spec.rb:15-16), so they do not show what the implementation does with more arguments or none.
- `Workflow.FontAwesome.constructor`: the model applies the queries when the object is built. The tests only call `new(queries).to_alfred` (workflow/spec/font_awesome_spec.rb:216, 244), so they do not show whether the constructor or `#to_alfred` applies them; the document written is the same either way.
- The `#item_xml` and `#to_alfred` texts of `apple` and `bookmark` are not stated as literal strings. `ItemXmlLines` states the line structure of every `#item_xml`, `ItemXmlCompact` ties it to the items of `#to_alfred`, and `AlfredOutputRoundTrip` reads the whole document back.
