# csp-hashes, modelled in Dafny

This project models the two pure transforms at the core of `csp-hashes`. Node stream plumbing sits around both of them and is not modelled.

- **Hash collection and token formatting (`lib/index.js`).**
  - `collectHashes` walks a parsed HTML document and fills a `script` and a `style` bucket. Each bucket holds `elements` and `attributes` token lists, and its `all` getter concatenates them. Four rules apply in a fixed order:
    - inline `script`/`style` bodies without `src`;
    - `style` attributes;
    - event-handler attributes (`/^on/i` on the name);
    - `javascript:` URLs (`/^javascript:/i` on the value).
  - `makeCspHash`/`createCspHash` format a token as `'` + algorithm + `-` + base64 of the digest + `'`.
  - `hashstream` validates its options, then handles each record:
    - it collects the hashes and calls the callback;
    - in replace mode only, it takes the callback's result as the new contents.
- **CSP meta neutraliser (`lib/removeCspMeta.js`).** This stage performs one case-insensitive, leftmost, non-global substitution of `("?Content-Security-Policy"?)(\s+)(content=")([^"]+)"` by `$1$2$3$2"`. It reports `EBADINPUT` for missing or empty contents.

Files and modules:

| file | module | contents |
|---|---|---|
| `wrappers.dfy` | `Wrappers` | `Option`, `Result` |
| `ascii.dfy` | `Ascii` | ASCII case folding (the `i` flag of a non-unicode JavaScript regex), case-insensitive literal test `CiAt` |
| `base64.dfy` | `Base64` | encoder of section 4 of RFC 4648, and a strict decoder as its partner |
| `html.dfy` | `Html` | a parsed document, flattened in document order: elements with tag, attributes in declaration order, inner HTML |
| `csphash.dfy` | `CspHash` | algorithms, the token format, a token reader as its partner |
| `collector.dfy` | `Collector` | the four collection rules, buckets, `CollectHashes` |
| `records.dfy` | `Records` | the file record (path, optional contents) |
| `hashstream.dfy` | `Hashstream` | option validation, the per-record transform, a run over many records |
| `cspmeta.dfy` | `CspMeta` | the pattern's language `Matches`, a deterministic matcher `MatchAt`, the leftmost search, the rewrite, the stage |

The SHA-2 digest is a function-valued parameter `digest: (Algo, string) -> seq<byte>`. The HTML parser is a parameter `parse: string -> Document`. The user callback is a parameter of the configuration.

The regex is modelled in two ways. `Matches(s, m)` is the regex's language: every split of a span into the pattern's groups. `MatchAt` is the matcher that takes each part the only way it can go. It is proved sound and complete for `Matches`, and there is at most one match per start. So the leftmost start fixes the match the engine reports, whatever its backtracking order.

## Model

| member | source | states |
|---|---|---|
| Base64.Value | lib/index.js:62 | an accepted base64 character decodes to the 6-bit value whose alphabet symbol it is |
| Base64.Encode | lib/index.js:62 | the padded encoding has four characters for every started group of three bytes |
| Base64.EncodeAlphabet | lib/index.js:62 | an encoding uses only the RFC 4648 alphabet and `=` |
| Base64.DecodeEncode | lib/index.js:62 | decoding the encoding of any byte string gives that byte string back |
| Base64.EncodeInjective | lib/index.js:62 | distinct digests give distinct base64 texts |
| CspHash.ParseAlgo | lib/index.js:93 | a name is accepted only as the name of the algorithm it yields |
| CspHash.ParseAlgoExact | lib/index.js:93 | the algorithm test accepts a name exactly when it is `sha256`, `sha384` or `sha512` |
| CspHash.MakeCspHash | lib/index.js:61-65 | a token is a quote, the six-letter algorithm name, `-`, the base64 of the digest, and a quote, and its middle decodes to the digest |
| CspHash.CreateCspHash | lib/index.js:73-75 | the algorithm defaults to `sha256`, and otherwise the given one is used |
| CspHash.TokenRoundTrip | lib/index.js:61-65 | reading a token gives back its algorithm and digest |
| CspHash.TokenEquality | lib/index.js:61-65 | two tokens are equal exactly when their algorithms and digests are equal |
| CspHash.CreateCspHashDefault | lib/index.js:73-75 | `createCspHash(input)` equals `createCspHash(input, 'sha256')` and carries the SHA-256 digest |
| Html.AttrValue | lib/index.js:32 | `attr(name)` is present exactly when some attribute has the name, and is the value of the first such attribute |
| Collector.Bucket.All | lib/index.js:111-120 | `all` is `elements` followed by `attributes`, element by element |
| Collector.SelectedFrom | lib/index.js:26 | the selected positions are in range, strictly increasing, and contain exactly the elements the selector matches |
| Collector.RuleTokensExact | lib/index.js:25-33 | an element rule gives exactly one token per selected element, in document order, hashing its body or `style` value |
| Collector.RuleTokensAppend | lib/index.js:26-28 | element tokens of a concatenated document are the tokens of the first part followed by those of the second |
| Collector.SrcElementIgnored | lib/index.js:26 | a `script` or `style` element with `src` adds nothing to its tag's element tokens, wherever it stands |
| Collector.JsUrlBody | lib/index.js:47 | `split(/^javascript:/i)[1]` is the value without its 11-character prefix, possibly empty |
| Collector.AttrListTokensCount | lib/index.js:39-50 | no deduplication: attribute tokens number the handler matches plus the URL matches |
| Collector.AttrListTokensMembership | lib/index.js:39-50 | a token is produced exactly when some attribute gives it under the handler rule or the URL rule |
| Collector.AttrListTokensAppend | lib/index.js:39-50 | attribute tokens follow declaration order |
| Collector.FlatAttrsMembership | lib/index.js:38-39 | the attributes visited are exactly those of the document's elements |
| Collector.ScriptAttributesExact | lib/index.js:35-51 | over the whole document, the count is handler matches plus URL matches, and a token occurs exactly when some attribute of some element contributes it |
| Collector.ScriptAttributesOrder | lib/index.js:38-51 | an element's attribute tokens sit between those of the elements before and after it |
| Collector.HandlerAndJsUrl | lib/index.js:40-49 | a handler whose value is a `javascript:` URL gives two tokens: the full value, then the text after the prefix |
| Collector.JsUrlAnchored | lib/index.js:36-45 | the URL rule is anchored: any character placed in front of a `javascript:` URL (`jjavascript:x`, ` javascript:x`) makes the value no longer match |
| Collector.CollectHashes | lib/index.js:22-52 | script and style element tokens and style-attribute tokens are exactly one per selected element in document order; script attribute tokens have the stated count and membership |
| Collector.InlineAndExternalScript | lib/index.js:26-28 | an inline script and an external script give one element token and no attribute tokens |
| Collector.StyleAttributeScenario | lib/index.js:31-33 | a `style` attribute gives one style-attribute token and no style-element token |
| Hashstream.MakeHashstream | lib/index.js:87-99 | the stage is built exactly when the algorithm is accepted and the callback is a function; a bad algorithm is reported first; the default algorithm is `sha256`; replace mode is on exactly when the `replace` option is truthy, so the default is off |
| Hashstream.ReplaceIsTruthiness | lib/index.js:126 | `replace: 1`, `'yes'`, `{}` and `true` turn replace mode on; `undefined`, `null`, `0`, `NaN`, `''` and `false` leave it off |
| Hashstream.NoOptionsRejected | lib/index.js:87-99 | calling without options fails on the missing callback |
| Hashstream.ProcessRecord | lib/index.js:103-133 | the callback gets the path and the collected hashes, and the content only in replace mode; without replace the record is unchanged; with replace its contents become the callback's result |
| Hashstream.ReplaceWithSameContent | lib/index.js:126-128 | in replace mode a callback that returns its content leaves the record unchanged |
| Hashstream.CollectedAreHashes | lib/index.js:124 | every collected token is the hash function applied to some text |
| Hashstream.TokensUseConfiguredAlgo | lib/index.js:124 | every token the callback gets is a well-formed token of the configured algorithm |
| Hashstream.ProcessAll | lib/index.js:101-135 | records are processed one by one and independently, in order |
| Hashstream.Run | lib/index.js:87-137 | an invalid option fails before any record is processed; otherwise every record goes through the transform |
| CspMeta.WsRunEnd | lib/removeCspMeta.js:20 | `\s+` can only stop at the end of the whitespace run |
| CspMeta.QuoteFreeEnd | lib/removeCspMeta.js:20 | `[^"]+` can only stop at the next quote or the end of the text |
| CspMeta.MatchAtSound | lib/removeCspMeta.js:20 | whatever the matcher reports is a match of the pattern |
| CspMeta.MatchAtComplete | lib/removeCspMeta.js:20 | every match of the pattern is found by the matcher at its start |
| CspMeta.MatchUnique | lib/removeCspMeta.js:20 | at most one match starts at any position |
| CspMeta.FindFirstSpec | lib/removeCspMeta.js:19-21 | the search returns the first position from which the matcher succeeds, or reports that there is none |
| CspMeta.FindFirstLeftmost | lib/removeCspMeta.js:19-21 | the search finds nothing exactly when the pattern matches nowhere, and otherwise the match with the smallest start |
| CspMeta.FindFirstIsLeftmost | lib/removeCspMeta.js:19-21 | the search returns a match exactly when it is the leftmost one |
| CspMeta.RewriteShape | lib/removeCspMeta.js:19-21 | the substitution keeps everything before the value, puts `$2` in its place, and keeps the closing quote and the rest |
| CspMeta.RewriteNoMatch | lib/removeCspMeta.js:19-21 | without a match the text is unchanged |
| CspMeta.RewriteLeftmost | lib/removeCspMeta.js:19-21 | only the leftmost match is rewritten, and the text before its value and from its closing quote on is kept |
| CspMeta.SpliceMatchesAgain | lib/removeCspMeta.js:20 | after the rewrite the same tag still matches, with the whitespace run as its value |
| CspMeta.NoEarlierMatch | lib/removeCspMeta.js:19-21 | the rewrite creates no match that starts before the rewritten one |
| CspMeta.RewriteResult | lib/removeCspMeta.js:19-21 | after the rewrite the first match is the same tag, and its value is whitespace only |
| CspMeta.RewriteIdempotent | lib/removeCspMeta.js:19-21 | rewriting twice is rewriting once |
| CspMeta.EmptyValueNeverMatches | lib/removeCspMeta.js:20 | `content=""` is never matched |
| CspMeta.MatchesIgnoreCase | lib/removeCspMeta.js:20 | texts equal up to ASCII letter case match at the same places |
| CspMeta.RemoveCspMeta | lib/removeCspMeta.js:15-28 | missing or empty contents give `EBADINPUT` with the record untouched; otherwise the path is kept and the contents are rewritten |
| CspMeta.RewriteNonEmpty | lib/removeCspMeta.js:19-22 | a non-empty text stays non-empty, so the stage accepts its own output |
| CspMeta.RemoveCspMetaIdempotent | lib/removeCspMeta.js:15-28 | passing an accepted record through the stage again changes nothing and reports no error |
| CspMeta.RemoveCspMetaBlanksValue | lib/removeCspMeta.js:19-22 | after the stage the first CSP value is whitespace only, so it is empty once trimmed |

## Left out

- Node `Transform` streams are not modelled: object mode, `done` callbacks, error and finish events. One record is a pure function, and a run over many records is a sequence.
- Cheerio parsing and `$(el).html()` serialisation are not modelled. A document is a pre-parsed, flattened, document-order sequence of elements with an opaque `inner` string, and `parse` is a parameter.
- The SHA-2 digest from `node:crypto` is an uninterpreted parameter `digest`.
- `createCspHash` with an algorithm name other than the three SHA-2 names is not modelled; `node:crypto` decides what that does. `CreateCspHash` takes one of the three algorithms.
- `Buffer` decoding and encoding (`toString`, `Buffer.from(s, enc)`) are not modelled. Contents are a string of characters.
- JavaScript strings are sequences of UTF-16 code units, while Dafny `char` is a Unicode scalar value. Surrogate pairs are not modelled.
- `for...in` puts integer-like attribute names first. That ordering is not modelled: attributes are visited in declaration order. Duplicate attribute names are not merged.
- Hashstream.MakeHashstream: a non-string `algo` is coerced to a string by `RegExp.test`; the model takes the algorithm option as a string or `undefined`. `replace` is modelled by its truthiness; BigInt and symbol values are not among the modelled values.
- Hashstream.ProcessRecord: requires contents. A record without contents reaches `cheerio.load(null)`, and in replace mode `null.toString()`; both belong to code outside this model.
- A callback that returns a non-string in replace mode is not modelled; `Buffer.from` decides what then happens.
- `removeCspMeta` on a value that is not a record object (for example `null`) is not modelled; the model's records always have a path.
- `index.js` is a re-export only. `eslint.config.js` is lint configuration.
