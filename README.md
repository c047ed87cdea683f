# File browser search and escaping, modelled in Dafny

The file browser in `docs/victims/app.js` loads a JSON list of relative file
paths and shows one card per path: the file's name as the card title and two
links, "Open" and "Download", into the `db/` storage folder. A search box
narrows the list. This project models the parts of that script that compute
values, as pure Dafny functions with lemmas:

- **`escapeHtml`** (module `Html`): each of `&`, `<`, `>`, `"` and `'` is
  replaced by its character reference (`&amp;`, `&lt;`, `&gt;`, `&quot;`,
  `&#39;`). Every other character is copied. A falsy argument gives `""`.
  Its partner is a strict left-to-right decoder, `Unescape`. The project proves
  that decoding inverts encoding, and that whatever the decoder accepts is an
  encoding.
- **the filename filter of `render`** (module `Search`): the query is
  lower-cased and trimmed once. An entry is kept when the query is empty or
  occurs in the lower-cased basename of the entry, that is, the text after its
  last `/`. Kept entries stay in their original order. The string primitives
  it uses (`toLowerCase`, `trim`, `split("/").pop()`, `includes`) are in
  module `Strings`.
- **what `render` puts on the page** (module `View`): either the empty-state
  message or one card per filtered entry. A card holds the escaped basename as
  its title and `DB_PREFIX + escapeHtml(relPath)` as the target of both its
  links. The page is modelled as a value. The loop that builds the cards,
  `AppendCards`, is a method proved equal to the specification function
  `Cards`; `Render` is proved equal to `PageFor` of the filtered list.

Module `Wrappers` holds `Option` and JavaScript's `v || ""`. `None` stands for
any falsy non-string argument such as `null` or `undefined`.

Modelling choices:

- Strings are `seq<char>` over Unicode scalar values.
- `toLowerCase` is modelled on ASCII only: `A`–`Z` become `a`–`z`, and every
  other character is kept.
- `trim` removes leading and trailing characters from ECMAScript's
  WhiteSpace and LineTerminator set. That set is tab, line tabulation, form feed,
  space, no-break space, U+1680, U+2000–U+200A, U+202F, U+205F, U+3000, the
  byte order mark, LF, CR, U+2028 and U+2029.
- The set of entries is a parameter. In the script it is the module-level
  `entries` variable set by `loadList`.

The query is a plain case-insensitive substring of the basename (lines
26-29). The link targets are built with `escapeHtml` (lines 50-51).

## Model

| member | source | states |
|---|---|---|
| Html.EscapeChar | docs/victims/app.js:15-21 | a character outside `& < > " '` is copied unchanged; each of the five becomes a reference that starts with `&`, ends with `;`, has no further `&` and holds none of `< > " '` |
| Html.EscapeHtml | docs/victims/app.js:14-22 | the output is never shorter than the input, is empty exactly when the input is, and contains no `<`, `>`, `"` or `'` |
| Html.EscapeHtmlValue | docs/victims/app.js:15 | a missing (falsy) argument is first replaced by `""` and so encodes to `""`; a string argument encodes as `EscapeHtml` |
| Html.EscapeConcat | docs/victims/app.js:15-21 | the encoder works character by character: encoding a concatenation is the concatenation of the encodings |
| Html.EscapeSingle | docs/victims/app.js:15-21 | a one-character string encodes to exactly that character's replacement |
| Html.EscapeUnchangedIff | docs/victims/app.js:15 | encoding leaves a string unchanged if and only if it holds none of the five special characters |
| Html.AmpersandStartsReference | docs/victims/app.js:15-21 | every `&` in encoded text starts one of `&amp;`, `&lt;`, `&gt;`, `&quot;`, `&#39;` |
| Html.DecodeReference | docs/victims/app.js:16-20 | recognises a prefix exactly when it is one of the five references, and returns the special character whose replacement it is |
| Html.DecodeAfterReplacement | docs/victims/app.js:16-20 | the five references are prefix-free: a replacement followed by any text is decoded as that character first, and the rest is the following text |
| Html.UnescapeEscape | docs/victims/app.js:14-22 | round trip: decoding the five references left to right recovers the original string |
| Html.EscapeUnescape | docs/victims/app.js:14-22 | the converse: any text the decoder accepts is exactly the encoding of what it decodes to |
| Html.EscapeInjective | docs/victims/app.js:14-22 | two strings with the same encoding are equal |
| Wrappers.OrEmpty | docs/victims/app.js:26 | a falsy filter becomes `""`: the result is empty exactly when the value is missing or empty, otherwise it is the string itself |
| Strings.ToLower | docs/victims/app.js:26 | `toLowerCase` on a string: same length, each character mapped by `LowerChar`; its meaning is given by `ToLowerIdempotent` and `ToLowerOfLower` |
| Strings.TrimStart | docs/victims/app.js:26 | the leading half of `trim`: drops the run counted by `LeadingWhitespace` |
| Strings.TrimEnd | docs/victims/app.js:26 | the trailing half of `trim`: cuts at `TrailingWhitespaceStart` |
| Strings.Trim | docs/victims/app.js:26 | `trim()`; specified by `TrimSlice`, `TrimDropsWhitespace` and `TrimEdges`, which together determine it, and by `TrimEmptyIff` and `TrimIdempotent` |
| Strings.Last | docs/victims/app.js:28 | `pop()` on the parts of a split; its meaning for a joined list is `JoinEndsWithLast` |
| Strings.Includes | docs/victims/app.js:29 | `includes`: tries every start position from the left; specified by `IncludesIff` |
| Strings.LowerChar | docs/victims/app.js:26 | `toLowerCase` per character: no upper-case letter remains, A–Z move to the same position in a–z, all other characters are kept |
| Strings.ToLowerIdempotent | docs/victims/app.js:26 | a lower-cased string has no upper-case letter, and lower-casing it again changes nothing |
| Strings.ToLowerOfLower | docs/victims/app.js:29 | lower-casing a string without upper-case letters is the identity |
| Strings.LeadingWhitespace | docs/victims/app.js:26 | the leading run `trim` removes ends at the end of the string or at a character that is not whitespace |
| Strings.TrailingWhitespaceStart | docs/victims/app.js:26 | the trailing run `trim` removes starts at the beginning of the string or right after a character that is not whitespace |
| Strings.LeadingAreWhitespace | docs/victims/app.js:26 | every character removed from the front is whitespace |
| Strings.TrailingAreWhitespace | docs/victims/app.js:26 | every character removed from the back is whitespace |
| Strings.TrimSlice | docs/victims/app.js:26 | `trim` keeps one contiguous slice of its input, starting right after the leading whitespace |
| Strings.TrimDropsWhitespace | docs/victims/app.js:26 | everything `trim` removes, before or after the slice it keeps, is whitespace |
| Strings.TrimEdges | docs/victims/app.js:26 | a trimmed string is empty or neither starts nor ends with whitespace |
| Strings.TrimEmptyIff | docs/victims/app.js:26 | `trim` gives `""` if and only if every character of the input is whitespace |
| Strings.TrimIdempotent | docs/victims/app.js:26 | trimming a trimmed string changes nothing |
| Strings.LowerKeepsWhitespace | docs/victims/app.js:26 | lower-casing a character neither creates nor removes whitespace |
| Strings.Split | docs/victims/app.js:28 | `split("/")` returns at least one part, and no part contains the separator |
| Strings.JoinSplit | docs/victims/app.js:28 | joining the parts of a split with the separator gives back the original string |
| Strings.SplitJoin | docs/victims/app.js:28 | splitting parts joined by the separator gives back those parts, when none of them contains it |
| Strings.JoinEndsWithLast | docs/victims/app.js:28 | the last part (`pop()`) is a suffix of the whole; it is the whole string exactly when there is one part, and otherwise comes right after a separator |
| Strings.IncludesIff | docs/victims/app.js:29 | `includes` holds if and only if the query occurs at some index of the text |
| Search.Normalize | docs/victims/app.js:26 | lower-cases the filter text, then trims it; specified by `NormalizeShape` and `NormalizeEmptyIff` |
| Search.Basename | docs/victims/app.js:28 | `split("/").pop()`; specified by `BasenameShape` with `TailUnique`, `BasenameNoSlash` and `BasenameAfterDir` |
| Search.Keeps | docs/victims/app.js:29 | the predicate passed to `entries.filter`; specified by `KeepsIff`, `KeepsEmptyGuardRedundant` and `KeepsIgnoresDirectory` |
| Search.Select | docs/victims/app.js:27-30 | `entries.filter(...)` for a normalised query; specified by `SelectIsSubsequence` with `KeptIndices`, `SelectMembership`, `SelectLength` and `SelectIdempotent` |
| Search.Filter | docs/victims/app.js:26-30 | the list `render` shows for a filter text; specified by `FilterExact`, `FilterIsSubsequence`, `FilterBlank` and `FilterIdempotent` |
| Search.NormalizeShape | docs/victims/app.js:26 | the normalised query has no upper-case letter and no surrounding whitespace, and normalising it again changes nothing |
| Search.NormalizeEmptyIff | docs/victims/app.js:26 | the normalised query is empty if and only if the filter text is empty or all whitespace |
| Search.BasenameShape | docs/victims/app.js:28 | the basename is a suffix of the path, contains no `/`, and is either the whole path or comes right after a `/` |
| Search.TailUnique | docs/victims/app.js:28 | at most one suffix of a path has the shape of `BasenameShape`, so that shape determines the basename |
| Search.BasenameNoSlash | docs/victims/app.js:28 | a path without `/` is its own basename |
| Search.BasenameAfterDir | docs/victims/app.js:28 | `dir + "/" + name` has basename `name` whatever `dir` is, when `name` has no `/` |
| Search.KeepsIff | docs/victims/app.js:28-29 | an entry is kept if and only if the query is empty or occurs at some index of the lower-cased basename |
| Search.KeepsEmptyGuardRedundant | docs/victims/app.js:29 | the empty-query short-circuit never changes the outcome: the empty query occurs in every basename |
| Search.KeepsIgnoresDirectory | docs/victims/app.js:28-29 | a directory part before the last `/` never makes an entry match or fail |
| Search.KeptIndices | docs/victims/app.js:27-30 | the positions of the kept entries: in range, strictly increasing, and a position is listed if and only if its entry is kept |
| Search.SelectIsSubsequence | docs/victims/app.js:27-30 | the filtered list is exactly the entries at the kept positions, in order |
| Search.SelectLength | docs/victims/app.js:27 | the filtered list is never longer than the list of entries |
| Search.SelectMembership | docs/victims/app.js:27-30 | a value is in the filtered list if and only if it is an entry and is kept |
| Search.SelectAll | docs/victims/app.js:29 | with the empty query the filtered list is the entry list itself |
| Search.SelectConcat | docs/victims/app.js:27-30 | filtering a concatenation gives the concatenation of the filtered parts |
| Search.SelectIdempotent | docs/victims/app.js:27-30 | filtering the filtered list again with the same query changes nothing |
| Search.FilterBlank | docs/victims/app.js:26-30 | an empty or whitespace-only filter shows every entry, unchanged and in order |
| Search.FilterExact | docs/victims/app.js:26-30 | an entry is shown if and only if it is listed and the normalised query is empty or occurs in its lower-cased basename |
| Search.FilterIsSubsequence | docs/victims/app.js:26-30 | the shown list is the subsequence of entries at exactly the kept positions, no longer than the entry list |
| Search.FilterIdempotent | docs/victims/app.js:26-30 | re-filtering the shown list with the same filter changes nothing |
| View.Href | docs/victims/app.js:50-51 | `DB_PREFIX + escapeHtml(relPath)`, with `DB_PREFIX` the constant `"db/"` of line 4, starts with `db/`, the rest decodes back to the path, and it contains no `<`, `>`, `"` or `'`, so it cannot leave the quoted `href` attribute |
| View.HrefInjective | docs/victims/app.js:50-51 | different paths never get the same link target |
| View.CardTitleDecodes | docs/victims/app.js:45-48 | the card title contains no markup character and decodes to the entry's basename |
| View.CardFor | docs/victims/app.js:45-51 | one card: `escapeHtml` of the basename as title, `Href` of the path as link target; specified by `CardTitleDecodes` and `Href` |
| View.Cards | docs/victims/app.js:41-56 | one card per shown entry, in the same order, each equal to `CardFor` of its entry |
| View.PageFor | docs/victims/app.js:32-39 | the empty-state message is shown exactly when the filtered list is empty |
| View.AppendCards | docs/victims/app.js:41-56 | the loop yields the cards of the filtered entries, one per entry and in the same order |
| View.Render | docs/victims/app.js:24-56 | `render(filter)` shows the page for the filtered list: the message when it is empty, otherwise one card per shown entry |
| View.RenderWithoutFilterShowsAll | docs/victims/app.js:24-26 | with a missing filter argument every entry is shown |

## Left out

- `loadList` (lines 59-73) is left out because it is network I/O. This covers the `fetch` with a cache-busting timestamp, the `res.ok` and `Array.isArray` checks, the error message, and the reassignment of `entries` to the array or to `[]`. The model takes the entry list as a parameter.
- DOM work is left out because it is presentation. This covers `getElementById`, clearing `innerHTML`, toggling `display`, `createElement`, CSS classes, the card markup around the title and links, `appendChild`, and the event listeners (lines 6-10, 25, 33-34, 38-39, 42-43, 47-55, 75-81). `View.Render` returns the page as a value instead.
- Strings.LowerChar: only ASCII letters are lower-cased. Full Unicode `toLowerCase` is a library table, and some characters lengthen or change context there.
- Strings.IsWhitespace: the set of ECMAScript whitespace code points is written out as a fixed list. The Zs category taken from the Unicode database is not.
- JavaScript strings are UTF-16 code unit sequences and may hold lone surrogates. Dafny's `char` is a Unicode scalar value, so lone surrogates are not modelled. The five special characters and `/` are all ASCII, so encoding, splitting and substring search agree otherwise.
- Wrappers.OrEmpty: a truthy non-string argument, such as a number, is converted by `String(...)` in the script. The model accepts only strings or a missing value. Non-string entries in the JSON list, on which `split` would throw, are not modelled either.
- The regular-expression engine behind `.replace(/[&<>"']/g, ...)` is modelled as a map over characters.
