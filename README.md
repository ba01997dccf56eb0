# Currency-format normaliser of the dashboard route

This project models the string logic of the merchant dashboard page in
`app/routes/app.dashboard.jsx` and proves properties of it.

- The dashboard receives the shop's two money formats, `moneyFormat` and
  `moneyWithCurrencyFormat`.
- `processFormat` normalises each format in four steps:
  1. Decode HTML entities.
  2. If the decoded text already carries the marker `class="currency-changer"`, return it unchanged.
  3. Otherwise remove every `<…>` tag (the global regex replace `/<[^>]*>/g`).
  4. Wrap what is left in `<span class="currency-changer">…</span>`.
- The two results form the pair `{withCurrency, withoutCurrency}`.
- The route also takes the shop name from the session's shop domain by
  removing `.myshopify.com` (first occurrence only), and builds the
  theme-editor deep link from that name.

Everything here is pure, so the model is Dafny functions and lemmas in two modules:

- `Strings` (`strings.dfy`) holds the JavaScript string operations the route
  uses: `includes` (`Contains`) and `replace` with a plain-string pattern
  (`RemoveFirst`). Both are built on `IndexOf`, the leftmost-occurrence
  search that `includes` and `replace` perform. It also has a subsequence
  relation.
- `Dashboard` (`dashboard.dfy`) holds the route's own logic: `StripHtml`,
  `HasCurrencyChanger`, `ProcessFormat`, `ProcessFormats`, `ShopName` and
  `ThemeEditorUrl`.

The browser entity decoder is a parameter `decode: string -> string` of
every operation that uses it. No property depends on what it does. Where a
lemma needs its behaviour on specific strings, it asks for that in a
`requires` clause.

The regex replace is modelled as a left-to-right scan:

- At a `<` that has a `>` somewhere after it, everything up to and including
  the first such `>` is dropped.
- Every other character is kept.

This matches how `/<[^>]*>/g` matches: `[^>]*` cannot cross a `>`, and a `<`
with no later `>` starts no match.

Behaviour worth knowing:

- `processFormat` is not idempotent. The second pass decodes entities again,
  so `&amp;amp;` becomes `&amp;` inside the wrapper on the first pass and `&`
  on the second (`ReprocessCanChangeOutput`). A second pass is a no-op whenever
  decoding leaves the first output unchanged
  (`ReprocessIsNoOpWhenDecodingIsStable`). The output itself always passes
  `hasCurrencyChanger` (the first `ensures` of `ProcessFormat`), but the
  second pass tests the decoded output, so it takes the pass-through branch
  only when decoding keeps the marker.
- A `>` with no `<` before it is never removed. Nothing is truncated at it
  (`StripHtmlKeepsPlainPrefix`). Only a `<` followed later by a `>` starts a
  removed span.

## Model

| member | source | states |
|---|---|---|
| Strings.IndexOfSpec | app/routes/app.dashboard.jsx:12 | the leftmost-occurrence search that `replace` and `includes` perform returns the leftmost index at which the pattern occurs, and reports "absent" only when it occurs nowhere |
| Strings.Contains | app/routes/app.dashboard.jsx:69 | `includes` is true exactly when the pattern occurs at some index |
| Strings.RemoveFirst | app/routes/app.dashboard.jsx:12 | `replace` with a string pattern and empty replacement returns the input unchanged when the pattern is absent; otherwise it cuts out exactly the leftmost occurrence, so the result is shorter by the pattern's length |
| Dashboard.StripHtml | app/routes/app.dashboard.jsx:66 | the tag-stripped text is a subsequence of the input (only deletions) and holds no `<` followed anywhere later by `>` |
| Dashboard.StripHtmlUnchangedIffNoTag | app/routes/app.dashboard.jsx:66 | stripping leaves a string unchanged if and only if it holds no `<` followed later by `>` |
| Dashboard.StripHtmlWithoutOpenIsIdentity | app/routes/app.dashboard.jsx:66 | a string without `<` is returned unchanged |
| Dashboard.StripHtmlIdempotent | app/routes/app.dashboard.jsx:66 | stripping twice gives the same result as stripping once |
| Dashboard.StripHtmlNotLonger | app/routes/app.dashboard.jsx:66 | the stripped text is never longer than the input |
| Dashboard.StripHtmlAtTag | app/routes/app.dashboard.jsx:66 | at a leading `<` whose first later `>` is at index `k + 1`, everything through that `>` is removed and scanning resumes after it |
| Dashboard.StripHtmlKeepsFirst | app/routes/app.dashboard.jsx:66 | a first character that is not a `<` with a later `>` is kept, and scanning resumes after it |
| Dashboard.StripHtmlKeepsPlainPrefix | app/routes/app.dashboard.jsx:66 | text before the first `<`, including any `>` in it, is kept verbatim and the rest is stripped on its own |
| Dashboard.StripHtmlDropsTag | app/routes/app.dashboard.jsx:66 | a `<`, a body without `>`, and the `>` after it are removed entirely, whatever the body holds (a `<` too) |
| Dashboard.StripHtmlKeepsUnclosedTail | app/routes/app.dashboard.jsx:66 | text after the last `>`, including any `<` in it, is kept verbatim |
| Dashboard.StripHtmlTaggedText | app/routes/app.dashboard.jsx:66 | a format of the shape `<o>text<c>tail` (such as `<b>${{amount}}</b> USD`) strips to `text` followed by `tail` |
| Dashboard.HasCurrencyChanger | app/routes/app.dashboard.jsx:69 | a format counts as already customised exactly when the marker `class="currency-changer"` occurs in it at some index |
| Dashboard.WrappedHasMarker | app/routes/app.dashboard.jsx:69-81 | the wrapping `<span class="currency-changer">` element always contains the marker, whatever it wraps |
| Dashboard.NoQuoteNoMarker | app/routes/app.dashboard.jsx:69 | a string without a `"` never counts as already customised |
| Dashboard.ProcessFormat | app/routes/app.dashboard.jsx:72-82 | the output always contains the marker. When the decoded format has the marker, the output is exactly the decoded format. Otherwise the output is the marker element opening, then the tag-stripped decoded format, then `</span>`; this inner text is tag-free and a subsequence of the decoded format |
| Dashboard.ProcessFormatEmpty | app/routes/app.dashboard.jsx:80-81 | the empty format becomes an empty marker element |
| Dashboard.ProcessFormatPlainText | app/routes/app.dashboard.jsx:80-81 | plain text with no `<` and no `"` (such as `${{amount}}`) is wrapped as it is |
| Dashboard.ProcessFormatTaggedText | app/routes/app.dashboard.jsx:80-81 | `<o>text<c>tail`, with no `"` and no entities (such as `<b>${{amount}}</b> USD`), becomes the marker element around `text` followed by `tail` |
| Dashboard.ProcessFormatPlainExample | app/routes/app.dashboard.jsx:72-82 | with a decoder that leaves it alone, `${{amount}}` becomes `<span class="currency-changer">${{amount}}</span>` |
| Dashboard.ProcessFormatTaggedExample | app/routes/app.dashboard.jsx:72-82 | with a decoder that leaves it alone, `<b>${{amount}}</b> USD` becomes `<span class="currency-changer">${{amount}} USD</span>` |
| Dashboard.ProcessFormatKeepsWrapped | app/routes/app.dashboard.jsx:76-77 | a format already wrapped in the marker element is returned unchanged when decoding leaves it alone |
| Dashboard.MarkerFoundAfterDecoding | app/routes/app.dashboard.jsx:74-77 | a raw format without the marker whose decoding is a marker element is returned decoded, not wrapped again: detection runs after decoding |
| Dashboard.ReprocessIsNoOpWhenDecodingIsStable | app/routes/app.dashboard.jsx:72-82 | processing an output again returns it unchanged whenever decoding leaves that output alone |
| Dashboard.ReprocessCanChangeOutput | app/routes/app.dashboard.jsx:72-82 | with a decoder that turns `&amp;` into `&`, processing `&amp;amp;` twice differs from processing it once, so the step is not idempotent in general |
| Dashboard.ProcessFormats | app/routes/app.dashboard.jsx:85-88 | `withCurrency` is the normalised `moneyWithCurrencyFormat` and `withoutCurrency` the normalised `moneyFormat`; both carry the marker |
| Dashboard.ShopName | app/routes/app.dashboard.jsx:12 | the shop name is the session shop with only the leftmost `.myshopify.com` removed, and is unchanged where the suffix is absent |
| Dashboard.ShopNameOfShopDomain | app/routes/app.dashboard.jsx:12 | for a session shop `X.myshopify.com` where `X` does not contain the suffix, the shop name is exactly `X` |
| Dashboard.ThemeEditorUrl | app/routes/app.dashboard.jsx:97 | the link is `https://`, then the shop name, then `.myshopify.com`, then the theme-editor path and query with the app's activation id |
| Dashboard.ThemeEditorUrlForSession | app/routes/app.dashboard.jsx:97 | for a session shop `X.myshopify.com` as above, the link begins with `https://`, the original session shop, and `/admin/` |

## Left out

- The browser entity decoder (`decodeHtmlEntities`, lines 59-63): it is a DOM side effect (a `textarea` round trip). It is the abstract parameter `decode`, and no property depends on its internals.
- The `loader` (lines 8-35): session authentication, the GraphQL request and JSON parsing are I/O and foreign calls. The session shop and the two formats are inputs.
- The chat-widget script injection (lines 38-48): DOM manipulation with no logic to state.
- `handleCopy` (lines 91-95): clipboard access and a timer that resets the "copied" label.
- React state and effects (`useState`, `useEffect`, `setProcessedFormats`) and all rendering (lines 99-203), including the hard-coded settings link. `ProcessFormats` is the value the effect stores.
- `CurrencySelector`: app/components/CurrencySelector is not part of this model.
- Concrete instances are proved by instantiating the generic lemmas (`ProcessFormatPlainExample`, `ProcessFormatTaggedExample`). Evaluating these functions directly on string literals is too costly for the verifier, so no instance is proved that way.
- Unicode detail: JavaScript strings are UTF-16 code units and Dafny's `string` is a sequence of characters. The operations here only compare and cut at ASCII characters, so nothing in the model depends on the difference.
