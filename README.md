# luogu-badge, modelled in Dafny

Two HTTP handlers produce SVG badges. `api/rating.ts` reads a Hydro user's reputation sub-scores. `api/tag.ts` reads a Luogu user's colour tier and badge tag. Both then ask a badge renderer for `label-message-color.svg` and pass its SVG back. This project models the sequential core of both handlers:

- the badge-text escaper: double `-` and `_`, then `encodeURIComponent`;
- the two colour classifiers;
- the shaping of each upstream answer into the info record, with the `.catch` fallback;
- the renderer request (path, query values, profile link);
- query-parameter normalisation and the choice of response.

Modules, one concept each:

- `Wrappers`: `Option`.
- `Utf8`: UTF-8 octets of one scalar value (section 3 of RFC 3629), and the strict decoder.
- `UriComponent`: `encodeURIComponent` (section 19.2.6 of ECMA-262, percent-encoding per section 2.1 of RFC 3986). It also holds `decodeURIComponent`, used as the reference inverse.
- `BadgeEscape`: the `escape` function, which is identical in both source files and is modelled once.
- `Badge`: the parts both handlers share: `QueryValue`, the badge path, the profile link, `Respond`.
- `Rating` and `Tag`: one module per handler.

A Dafny `char` is a Unicode scalar value, so strings here are sequences of scalar values and lone surrogates cannot occur.

Outside inputs are parameters:

- the upstream answer is a function from the username to an abstract outcome;
- the renderer is a function from the request to an abstract outcome;
- `toFixed(2)`'s text is a function parameter (`fixed2`);
- `geta` is a function parameter.

Behaviour worth noting:

- A lookup that fails without throwing gives a record with no `uid` (api/rating.ts:37,40; api/tag.ts:31,34), so the link ends in `undefined`. Only the `.catch` records carry uid 0. `Tag.NotFoundRequest` states this.
- Doubling before or after percent-encoding gives the same text, because `-` and `_` are unescaped and no `%XX` triple contains them (`BadgeEscape.EscapeOrderIrrelevant`).
- A found Hydro user without `rpInfo` makes `userrp.problem` throw. The `.catch` then substitutes uid 0 (`Rating.FailureDefaults`).
- The rating classifier also takes negative ratings, which get `808080`.
- The tier table gives 7 distinct colours for its 8 names. Together with the default `808080`, that makes 8 colours in all.
- The default usernames differ: `yangrenrui` for rating, `yangrenruiYRR` for tag.

## Model

| member | source | states |
|---|---|---|
| `Utf8.EncodeScalar` | api/rating.ts:14 | 1 to 4 octets; the lead octet announces the count; every other octet is a continuation octet; one octet exactly for ASCII |
| `Utf8.DecodeEncode` | api/rating.ts:14 | decoding the UTF-8 octets of any scalar value gives it back |
| `Utf8.EncodeDecode` | api/rating.ts:14 | the decoder accepts only encodings: whatever it decodes re-encodes to the same octets (no overlong forms, surrogates or values above U+10FFFF) |
| `UriComponent.EncodeUnreserved` | api/rating.ts:14 | a string of unescaped characters (`A-Z a-z 0-9 - _ . ! ~ * ' ( )`) is its own encoding |
| `UriComponent.DecodeEncodeComponent` | api/rating.ts:14 | decodeURIComponent undoes encodeURIComponent on every string |
| `UriComponent.EncodeIsEncodedForm` | api/rating.ts:14 | the output is a sequence of unescaped characters and `%XX` triples with upper-case hex digits |
| `UriComponent.EncodeCharSeparators` | api/rating.ts:14 | an encoded character contains `-` (or `_`) exactly when it is `-` (or `_`), which stay as they are |
| `BadgeEscape.DoubleSeparatorsCons` | api/rating.ts:14 | the two `replace` calls turn each `-` into `--` and each `_` into `__` and leave every other character unchanged, one character at a time |
| `BadgeEscape.DoubleExample` | api/rating.ts:14 | `"a-b_c"` becomes `"a--b__c"` before encoding |
| `BadgeEscape.EscapeExample` | api/rating.ts:14 | `escape("a-b_c")` is `"a--b__c"` |
| `BadgeEscape.ReplacementsCommute` | api/rating.ts:14 | doing the `_` replacement first gives the same result: the calls touch disjoint characters |
| `BadgeEscape.CollapseDouble` | api/rating.ts:14 | collapsing `--` to `-` and `__` to `_` recovers the input of the doubling |
| `BadgeEscape.EscapeRoundTrip` | api/rating.ts:13-15 | decodeURIComponent then collapse gives back the input of `escape` (the same function is at api/tag.ts:14-16) |
| `BadgeEscape.EscapeIsEncodedForm` | api/rating.ts:13-15 | every character of `escape`'s output is unescaped or part of a `%XX` triple with upper-case hex |
| `BadgeEscape.EscapeHyphensPaired` | api/rating.ts:13-15 | read left to right, every `-` in `escape`'s output pairs with the next one |
| `BadgeEscape.EscapeEvenHyphenRuns` | api/tag.ts:14-16 | every maximal run of `-` in `escape`'s output has even length |
| `BadgeEscape.EscapeOrderIrrelevant` | api/rating.ts:14 | doubling after encoding gives the same text as doubling before it |
| `BadgeEscape.EscapeHead` | api/rating.ts:14 | the escaped text is non-empty and starts with `-` exactly when the input does |
| `Badge.ParamValue` | api/rating.ts:74-77 | absent gives the default, a single value is kept, a repeated parameter gives its first value (also api/tag.ts:64-67) |
| `Badge.RepeatedTakesFirst` | api/tag.ts:64-67 | `?username=a&username=b` uses `a`, whatever the default |
| `Badge.ParseBadgePath` | api/rating.ts:66 | from `escape(label)-escape(message)-color.svg`, splitting at the first unpaired `-` and unescaping gives back label, message and colour, when the message is non-empty and does not start with `-` and the colour has no `-` |
| `Badge.LeadingHyphenAmbiguous` | api/tag.ts:56 | when the message starts with `-` the path is ambiguous: (`a-`, `-b`) and (`a--`, `b`) give the same path |
| `Badge.LinkRoundTrip` | api/rating.ts:60 | the link is the prefix followed by text from which the uid (or its absence, `undefined`) is read back |
| `Badge.Respond` | api/rating.ts:80-90 | status 200 exactly when the renderer answered ok, with `Content-Type: image/svg+xml;charset=utf-8`, `Cache-Control: public, max-age=43200` and the SVG; otherwise 500 with body `error` (also api/tag.ts:70-80) |
| `Badge.ErrorResponseUniform` | api/tag.ts:59 | a non-ok renderer answer and a failed renderer call give the same 500 response |
| `Rating.AccumulateScore` | api/rating.ts:41-46 | the four conditional additions compute the sum of the sub-scores that are present |
| `Rating.ScoreOfFields` | api/rating.ts:43-46 | absent sub-scores contribute 0, present ones their value |
| `Rating.Fixed2Value` | api/rating.ts:48 | the numeric value of `toFixed(2)` lies within half a hundredth of the sum and, below 10^21 in magnitude, is a whole number of hundredths |
| `Rating.FetchRating` | api/rating.ts:37-48 | the post-fetch branching, with its accumulator and early returns, yields the record (or the throw) that `FetchedRating` specifies |
| `Rating.UidAbsentIffNotFound` | api/rating.ts:37-40 | the record has no uid exactly when the answer was non-ok or the user was null |
| `Rating.FailureDefaults` | api/rating.ts:79 | non-ok or null user gives rating 0, `N/A` and no uid; a throw, including a missing `rpInfo`, gives rating 0, `N/A` and uid 0 |
| `Rating.FoundUser` | api/rating.ts:41-48 | a found user gets uid `_id`; a zero sum gives `unrated` and rating 0; otherwise the text is the two-decimal rendering; the rating is within half a hundredth of the sum |
| `Rating.PositiveRatingFromScore` | api/rating.ts:47-48 | a positive rating only comes from a found user with sub-scores, and carries that user's `_id` |
| `Rating.RatingColor` | api/rating.ts:17-26 | each of the 8 colours is returned exactly on its band: at least 430, [360,430), [240,360), [160,240), [80,160), [40,80), [20,40), below 20 (negatives included) |
| `Rating.RatingColorIsBand` | api/rating.ts:17-26 | the colour is the palette entry indexed by how many of the thresholds 20/40/80/160/240/360/430 the rating meets |
| `Rating.RatingColorMonotone` | api/rating.ts:17-26 | a larger rating never lands in a lower band |
| `Rating.RatingBands` | api/rating.ts:17-26 | the 8 colours are distinct; each threshold lands in its own band, and values just below it land in the band beneath |
| `Rating.RatingRequestReadsBack` | api/rating.ts:51-66 | when the text is non-empty and does not start with `-`, the renderer path reads back as username, text and band colour; the link starts with the profile prefix and reads back as the uid. A text starting with `-` (a negative sum's `toFixed` text such as `-3.00`) gives an ambiguous path (`Badge.LeadingHyphenAmbiguous`) |
| `Rating.HandleRating` | api/rating.ts:73-90 | the handler's response is `Respond` of the renderer's answer to the request built from the normalised username and style and the fetched (or caught) record |
| `Tag.UidAbsentIffNotFound` | api/tag.ts:31-36 | the record has no uid exactly when the answer was non-ok or listed no user |
| `Tag.FailureDefaults` | api/tag.ts:69 | non-ok or empty list gives `Gray`, `N/A`, empty tag and no uid; a throw gives the same with uid 0 |
| `Tag.FirstUserOnly` | api/tag.ts:35-36 | only `users[0]` matters: tier is its `color`, text is `geta(color)` followed by `名`, uid is its `uid`, tag is its `badge` |
| `Tag.TierColor` | api/tag.ts:18-28 | exact, case-sensitive table: each colour is returned exactly for its names (Brown and Cheater share `ad8b00`), `808080` exactly for any other name |
| `Tag.TierColorTotal` | api/tag.ts:18-28 | every string gets one of the palette colours |
| `Tag.TierPaletteAttained` | api/tag.ts:18-28 | every palette colour is given to some name, and the palette colours are distinct |
| `Tag.TierColorExact` | api/tag.ts:24-27 | `""`, `gray` and `purple` give `808080`; Brown and Cheater give the same colour |
| `Tag.EscapedTagText` | api/tag.ts:42-45 | escaping the tag and then overwriting the local when the tag is empty gives `TagMessage` |
| `Tag.NoTagMessage` | api/tag.ts:43-45 | an empty tag gives the message `%E6%97%A0TAG` |
| `Tag.BuildTagRequest` | api/tag.ts:39-56 | `getBadgeImage` as written builds the request `TagRequest` specifies |
| `Tag.TagRequestReadsBack` | api/tag.ts:40-56 | when the tag does not start with `-`, the renderer path reads back as username, shown tag (`无TAG` for an empty one) and tier colour; the link starts with the profile prefix and reads back as the uid. A badge starting with `-` gives an ambiguous path (`Badge.LeadingHyphenAmbiguous`) |
| `Tag.NotFoundRequest` | api/tag.ts:34 | an empty user list gives colour `bfbfbf`, message `%E6%97%A0TAG` and a link ending in `undefined` |
| `Tag.HandleTag` | api/tag.ts:63-81 | the handler's response is `Respond` of the renderer's answer to the request built from the normalised username and style and the fetched (or caught) record |

## Left out

- Network calls (`node-fetch`) and the Vercel request and response objects: upstream and renderer outcomes are abstract datatypes, and the handlers take them as function parameters.
- JSON decoding and the GraphQL query literal: a malformed payload is the `HydroFailed`/`LuoguFailed` outcome.
- `URLSearchParams` serialisation and the base64 `logo` constants: the request holds the query values (`longCache`, `style`, `link`), not the serialised query string.
- `console.log` of the query string.
- Floating point. The sub-score sum is a `real` rather than a double. The text of `toFixed(2)` is the parameter `fixed2`. `Fixed2Value` gives its number on the exact real value. Sub-scores that are NaN or not numbers are not modelled.
- `geta` is not defined in the file that calls it, so it is a parameter. An exception it might throw is not modelled; the `.catch` at api/tag.ts:69 would then substitute the default record.
- Upstream fields of unexpected types are not modelled. For example, a `null` badge would make `escape` throw, and the handler would answer 500.
- `IntDecimal` writes any integer uid in plain digits. The exponent form JavaScript uses for magnitudes of 10^21 and above is not modelled.
- The renderer's own reading of the path is not part of this model. `ParsePath` is a reference reading that splits at the first unpaired `-`.
- A repeated parameter always has a first value (`Repeated(first, rest)`): query parsing produces an array only when a parameter is repeated.
- The URIError of `encodeURIComponent` on lone surrogates cannot occur, because the `char` type excludes them.
- Headers the platform adds to the 500 response are not modelled.
- The promise sequencing of the two calls is modelled as straight-line composition. The unused `node-html-parser` import is left out.
