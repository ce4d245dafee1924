# HttpUtils URL encoding, in Dafny

A model of the URL utilities of the AWS Android SDK core
(`com.amazonaws.util.HttpUtils`), with proofs about it:

- `urlEncode(value, path)`. It runs `java.net.URLEncoder.encode` on the
  value, then a fix-up pass. The pass scans left to right for `+`, `*`,
  `%7E` and `%2F` and rewrites each match to `%20`, `%2A`, `~`, and (in
  path mode only) `/`. The headline result (`HttpUtils.FixUpOfFormEncoding`,
  used by `HttpUtils.UrlEncode`) is that this two-stage pipeline equals a
  direct RFC 3986 encoder. That encoder keeps the unreserved characters of
  section 2.3 of RFC 3986 (plus `/` in path mode) and writes every other
  octet as an upper-case `%XX` escape (section 2.1).
- `isUsingNonDefaultPort(uri)` and `usePayloadForQueryParameters(request)`.
- `encodeParameters(request)`: the `&`-joined, form-encoded `name=value`
  query string. It is proved to split back into its parameters.
- `appendUri(baseUri, path[, escapeDoubleSlash])`. It keeps one slash
  between the base and the path, appends the path-mode encoding of the
  path, and can optionally escape `//`.

Modules:

| file | module | content |
|---|---|---|
| `wrappers.dfy` | `Wrappers` | `Option`, which stands for a Java null |
| `percent.dfy` | `Percent` | octets, `%XX` escapes, the reference decoder `Decode` |
| `url_encoder.dfy` | `UrlEncoder` | `URLEncoder.encode` as a per-octet function; round trip |
| `rfc3986.dfy` | `Rfc3986` | the direct RFC 3986 encoder; round trip, slash facts |
| `delimited.dfy` | `Delimited` | joining and splitting on a separator character |
| `http_utils.dfy` | `HttpUtils` | the methods of `HttpUtils` and the lemmas about them |

The loops of the source are Dafny methods proved against specification
functions:
- the `Matcher.find` loop (`HttpUtils.FixUpPass`, `HttpUtils.Find`) against `HttpUtils.FixUp`;
- the entry loop of `encodeParameters` against `HttpUtils.Query`.

The non-looping operations are functions or straight-line methods.

Details of the source that the model keeps:
- The fix-up pass scans forward with `Matcher.find` (HttpUtils.java:79).
- `appendUri` removes exactly one trailing `/` from the base (:193-195).
- A base that already ends in `//`, or a `//` in the path when escaping is
  off, stays in the result.

All source paths below are under `aws-android-sdk-core/src/main/java/com/amazonaws/util/`.

## Model

| member | source | states |
|---|---|---|
| HttpUtils.UrlEncode | aws-android-sdk-core/src/main/java/com/amazonaws/util/HttpUtils.java:68-101 | null gives ""; otherwise the result is exactly the RFC 3986 encoding of the value's octets (path mode keeps '/') |
| HttpUtils.FixUpOfFormEncoding | aws-android-sdk-core/src/main/java/com/amazonaws/util/HttpUtils.java:74-96 | the fix-up pass applied to URLEncoder's output equals the direct RFC 3986 encoding, for every value and both modes |
| HttpUtils.FixUpOfFormEncodingAt | aws-android-sdk-core/src/main/java/com/amazonaws/util/HttpUtils.java:76-96 | the same from any position where the rest of the text is a form encoding |
| HttpUtils.FixUpUnit | aws-android-sdk-core/src/main/java/com/amazonaws/util/HttpUtils.java:79-93 | the pass turns the form encoding of one octet into that octet's RFC 3986 encoding and resumes right after it |
| HttpUtils.TokenUnit | aws-android-sdk-core/src/main/java/com/amazonaws/util/HttpUtils.java:82-92 | for ' ', '*', '~', '/': the form encoding is matched and replaced by the RFC 3986 encoding |
| HttpUtils.LiteralUnit | aws-android-sdk-core/src/main/java/com/amazonaws/util/HttpUtils.java:79-95 | a literal kept by both encoders is copied |
| HttpUtils.EscapeUnit | aws-android-sdk-core/src/main/java/com/amazonaws/util/HttpUtils.java:79-95 | any other octet's escape is copied unchanged |
| HttpUtils.FormEncodingSplit | aws-android-sdk-core/src/main/java/com/amazonaws/util/HttpUtils.java:74 | URLEncoder's output is the first octet's encoding followed by the rest's |
| HttpUtils.FixUp | aws-android-sdk-core/src/main/java/com/amazonaws/util/HttpUtils.java:76-96 | the effect of the whole loop on the form-encoded text: FixUpFrom from the first character |
| HttpUtils.FixUpFrom | aws-android-sdk-core/src/main/java/com/amazonaws/util/HttpUtils.java:79-95 | the effect of the loop from one position on: where an alternative of the pattern matches, its replacement is written and the scan resumes after the match; elsewhere one character is copied and the scan moves on by one |
| HttpUtils.FixUpPass | aws-android-sdk-core/src/main/java/com/amazonaws/util/HttpUtils.java:76-96 | the find / appendReplacement / appendTail loop computes FixUp: each match, left to right without overlap, replaced; the rest copied |
| HttpUtils.Find | aws-android-sdk-core/src/main/java/com/amazonaws/util/HttpUtils.java:79 | Matcher.find: the leftmost match at or after the position, with its end; no match before it, or none at all |
| HttpUtils.FixUpRound | aws-android-sdk-core/src/main/java/com/amazonaws/util/HttpUtils.java:80-92 | one iteration: text before the match plus Rewrite of the matched group keeps the loop invariant, resuming at the match's end |
| HttpUtils.FixUpAdvance | aws-android-sdk-core/src/main/java/com/amazonaws/util/HttpUtils.java:92 | appendReplacement: copying the unmatched text then the replacement is the pass's effect up to the end of the match |
| HttpUtils.MatchAt | aws-android-sdk-core/src/main/java/com/amazonaws/util/HttpUtils.java:41-54 | the compiled pattern with the alternatives "+", "*", "%7E", "%2F", at one position: a reported match lies within the text |
| HttpUtils.MatchText | aws-android-sdk-core/src/main/java/com/amazonaws/util/HttpUtils.java:41-54 | a match of the pattern is exactly the text of one of its four alternatives |
| HttpUtils.MatchToken | aws-android-sdk-core/src/main/java/com/amazonaws/util/HttpUtils.java:41-54 | conversely, where an alternative's text occurs the pattern matches that alternative |
| HttpUtils.Rewrite | aws-android-sdk-core/src/main/java/com/amazonaws/util/HttpUtils.java:80-90 | the comparison chain: the replacement of "+", "*", "%7E" or "%2F" percent-decodes to the octet the group form-decodes to; any other text is left as it is |
| HttpUtils.Replacement | aws-android-sdk-core/src/main/java/com/amazonaws/util/HttpUtils.java:82-90 | what the pass writes for each alternative: "%20" for "+", "%2A" for "*", "~" for "%7E", and for "%2F" "/" in path mode and "%2F" otherwise |
| HttpUtils.RewriteToken | aws-android-sdk-core/src/main/java/com/amazonaws/util/HttpUtils.java:82-90 | the string comparisons pick "%20", "%2A", "~", and "/" (path mode) or the unchanged "%2F" for the four alternatives |
| HttpUtils.ReplacementKeepsOctet | aws-android-sdk-core/src/main/java/com/amazonaws/util/HttpUtils.java:82-90 | each replacement decodes to the same octet as the text it replaces, and holds no '+' or '*' |
| HttpUtils.ReplacementNoPlusOrStar | aws-android-sdk-core/src/main/java/com/amazonaws/util/HttpUtils.java:82-90 | no replacement holds '+' or '*' |
| HttpUtils.FixUpNoPlusOrStar | aws-android-sdk-core/src/main/java/com/amazonaws/util/HttpUtils.java:76-96 | the output of the pass holds no '+' and no '*' for any input |
| HttpUtils.SkipPlain | aws-android-sdk-core/src/main/java/com/amazonaws/util/HttpUtils.java:92-95 | a stretch with no match in it is copied to the output unchanged |
| HttpUtils.FixUpCopiesPlain | aws-android-sdk-core/src/main/java/com/amazonaws/util/HttpUtils.java:95-96 | a text with no match is returned unchanged |
| HttpUtils.FixUpCopiesTail | aws-android-sdk-core/src/main/java/com/amazonaws/util/HttpUtils.java:95 | appendTail: the text after the last match is copied unchanged |
| HttpUtils.PassLiteral | aws-android-sdk-core/src/main/java/com/amazonaws/util/HttpUtils.java:79-95 | a character where no alternative starts is copied |
| HttpUtils.PassToken | aws-android-sdk-core/src/main/java/com/amazonaws/util/HttpUtils.java:79-92 | a match is replaced by its alternative's replacement |
| HttpUtils.EscapeMatchesNothing | aws-android-sdk-core/src/main/java/com/amazonaws/util/HttpUtils.java:41-54 | inside an escape other than %7E and %2F no alternative starts at any of its three positions |
| HttpUtils.EscapeNotRewritten | aws-android-sdk-core/src/main/java/com/amazonaws/util/HttpUtils.java:79-95 | such an escape (a literal '%' becomes "%25", for one) passes the fix-up unchanged |
| HttpUtils.LiteralOctet | aws-android-sdk-core/src/main/java/com/amazonaws/util/HttpUtils.java:74 | letters, digits, '.', '-', '_' are kept literally by both encoders and start no match |
| HttpUtils.TokenOctet | aws-android-sdk-core/src/main/java/com/amazonaws/util/HttpUtils.java:82-90 | for ' ', '*', '~', '/' the form encoding is the matched text and the replacement is the RFC 3986 encoding |
| HttpUtils.EscapedOctet | aws-android-sdk-core/src/main/java/com/amazonaws/util/HttpUtils.java:74 | every other octet is written as the same "%XX" by both encoders |
| UrlEncoder.EncodeByte | aws-android-sdk-core/src/main/java/com/amazonaws/util/HttpUtils.java:74 | one octet: letters, digits, '.', '-', '*', '_' literal, space as '+', every other octet as its "%XX" escape; only form characters appear |
| UrlEncoder.Encode | aws-android-sdk-core/src/main/java/com/amazonaws/util/HttpUtils.java:74 | URLEncoder.encode: only letters, digits, '.', '-', '*', '_', '+' and '%' appear, and the output is at least as long as the input |
| UrlEncoder.DecodeEncode | aws-android-sdk-core/src/main/java/com/amazonaws/util/HttpUtils.java:74 | form decoding recovers the octets from URLEncoder's output: the encoding is injective |
| UrlEncoder.DecodeEncodeByte | aws-android-sdk-core/src/main/java/com/amazonaws/util/HttpUtils.java:74 | the encoding of one octet decodes back to that octet, whatever follows |
| UrlEncoder.PercentStartsEscape | aws-android-sdk-core/src/main/java/com/amazonaws/util/HttpUtils.java:74-79 | every '%' of URLEncoder's output starts a complete "%XX" escape, so matches of %7E / %2F are whole escapes |
| UrlEncoder.NoQueryDelimiters | aws-android-sdk-core/src/main/java/com/amazonaws/util/HttpUtils.java:149-152 | the form encoding never contains '&' or '=' |
| Rfc3986.DecodeEncode | aws-android-sdk-core/src/main/java/com/amazonaws/util/HttpUtils.java:68-101 | percent-decoding recovers the octets from urlEncode's output in both modes |
| Rfc3986.DecodeEncodeByte | aws-android-sdk-core/src/main/java/com/amazonaws/util/HttpUtils.java:68-101 | one octet's RFC 3986 encoding decodes back to it, whatever follows |
| Rfc3986.UnreservedUnchanged | aws-android-sdk-core/src/main/java/com/amazonaws/util/HttpUtils.java:82-87 | a value made only of unreserved characters (including '~') is returned as it is |
| Rfc3986.SlashCount | aws-android-sdk-core/src/main/java/com/amazonaws/util/HttpUtils.java:88-89 | in path mode the output has exactly as many '/' as the value |
| Rfc3986.NoSlashByDefault | aws-android-sdk-core/src/main/java/com/amazonaws/util/HttpUtils.java:88-89 | outside path mode no '/' survives |
| Rfc3986.PathModeOnlyKeepsSlashes | aws-android-sdk-core/src/main/java/com/amazonaws/util/HttpUtils.java:88-89 | the two modes differ only in '/': escaping each '/' of the path-mode output gives the default output |
| Rfc3986.EscapeSlashesAppend | aws-android-sdk-core/src/main/java/com/amazonaws/util/HttpUtils.java:88-89 | escaping slashes distributes over concatenation |
| HttpUtils.IsUsingNonDefaultPort | aws-android-sdk-core/src/main/java/com/amazonaws/util/HttpUtils.java:112-124 | throws exactly when the scheme is absent; otherwise true exactly for a positive port other than the lower-cased scheme's default (http 80, https 443) |
| HttpUtils.ToLower | aws-android-sdk-core/src/main/java/com/amazonaws/util/HttpUtils.java:113 | String.toLowerCase on ASCII: each upper-case letter A-Z lowered, every other character kept, the length unchanged |
| HttpUtils.NonDefaultPortCases | aws-android-sdk-core/src/main/java/com/amazonaws/util/HttpUtils.java:116-123 | with a scheme it returns false exactly for port <= 0, http with 80, or https with 443 |
| HttpUtils.SchemeCaseIgnored | aws-android-sdk-core/src/main/java/com/amazonaws/util/HttpUtils.java:113 | the answer does not depend on the scheme's letter case |
| HttpUtils.UsePayloadForQueryParameters | aws-android-sdk-core/src/main/java/com/amazonaws/util/HttpUtils.java:126-131 | true exactly for a POST request without content |
| HttpUtils.EncodedPair | aws-android-sdk-core/src/main/java/com/amazonaws/util/HttpUtils.java:149-158 | one entry as the loop appends it: the form-encoded name, "=", and the form-encoded value, a null value giving the empty string |
| HttpUtils.Query | aws-android-sdk-core/src/main/java/com/amazonaws/util/HttpUtils.java:141-164 | the return value when no name is null: null for no parameters, otherwise the encoded pairs in iteration order joined with '&' |
| HttpUtils.EncodeParameters | aws-android-sdk-core/src/main/java/com/amazonaws/util/HttpUtils.java:141-164 | null exactly when there are no parameters; a NullPointerException exactly when some name is null (URLEncoder.encode at :149); otherwise the form-encoded pairs in iteration order joined with '&' |
| HttpUtils.QueryStep | aws-android-sdk-core/src/main/java/com/amazonaws/util/HttpUtils.java:153-158 | one iteration: '&' unless first, then name=value, extends the joined prefix by one pair |
| HttpUtils.PairsUpToSnoc | aws-android-sdk-core/src/main/java/com/amazonaws/util/HttpUtils.java:148-158 | one more entry adds exactly its encoded pair at the end |
| HttpUtils.ParseQuery | aws-android-sdk-core/src/main/java/com/amazonaws/util/HttpUtils.java:141-164 | when no name is null, the query splits at '&' into one piece per parameter, each splitting at '=' into a name and value that decode back to the parameter |
| HttpUtils.NullValueReadsAsEmpty | aws-android-sdk-core/src/main/java/com/amazonaws/util/HttpUtils.java:150-152 | a null value gives "name=", the same pair as an empty value |
| Delimited.JoinSnoc | aws-android-sdk-core/src/main/java/com/amazonaws/util/HttpUtils.java:153-158 | joining one more part adds one separator and that part |
| Delimited.SplitJoin | aws-android-sdk-core/src/main/java/com/amazonaws/util/HttpUtils.java:153-158 | splitting undoes joining when no part holds the separator |
| HttpUtils.AppendUri | aws-android-sdk-core/src/main/java/com/amazonaws/util/HttpUtils.java:186-209 | the slash handling of the source, then the urlEncode path-mode encoding of the path, "//" replaced when asked |
| HttpUtils.AppendUriDefault | aws-android-sdk-core/src/main/java/com/amazonaws/util/HttpUtils.java:170-172 | the two-argument overload is the three-argument one with escaping off |
| HttpUtils.ComposeUriWithPath | aws-android-sdk-core/src/main/java/com/amazonaws/util/HttpUtils.java:189-203 | with a path: the base minus its one trailing '/' if the path starts with '/' and the base ends with one, the base plus '/' if neither does, else the base unchanged, then the encoded path; one '/' between them unless the base ends in "//"; the path part decodes back to the path and, when escaping, holds no "//" |
| HttpUtils.ComposeUriParts | aws-android-sdk-core/src/main/java/com/amazonaws/util/HttpUtils.java:189-203 | the same exact choice of prefix, followed by the encoded path, with the base never encoded |
| HttpUtils.ComposeUriJunction | aws-android-sdk-core/src/main/java/com/amazonaws/util/HttpUtils.java:190-198 | unless the base ends in "//", the prefix ends in '/' exactly when the encoded path does not start with one |
| HttpUtils.EncodedPathDecodes | aws-android-sdk-core/src/main/java/com/amazonaws/util/HttpUtils.java:199-203 | the appended part decodes back to the path and, when doubled slashes are escaped, holds no "//" |
| HttpUtils.EncodedPath | aws-android-sdk-core/src/main/java/com/amazonaws/util/HttpUtils.java:199-202 | the path as appendUri appends it: its path-mode urlEncode, with "//" replaced by "/%2F" when escaping is asked for |
| HttpUtils.ComposeUri | aws-android-sdk-core/src/main/java/com/amazonaws/util/HttpUtils.java:188-208 | the value of appendUri case for case; everything of the base but at most its last character starts the result, unencoded |
| HttpUtils.ComposeUriWithoutPath | aws-android-sdk-core/src/main/java/com/amazonaws/util/HttpUtils.java:204-206 | with no path the base is returned, with '/' appended exactly when it lacks one |
| HttpUtils.ComposeUriIdempotent | aws-android-sdk-core/src/main/java/com/amazonaws/util/HttpUtils.java:204-206 | composing the result again with no path changes nothing |
| HttpUtils.EncodedPathFirst | aws-android-sdk-core/src/main/java/com/amazonaws/util/HttpUtils.java:190-199 | the encoded path starts with '/' exactly when the path does |
| HttpUtils.EscapeDoubleSlashes | aws-android-sdk-core/src/main/java/com/amazonaws/util/HttpUtils.java:201 | String.replace("//", "/%2F") left to right without overlap: no "//" remains and the first character is kept |
| HttpUtils.EscapeDoubleSlashesKeepsDecoding | aws-android-sdk-core/src/main/java/com/amazonaws/util/HttpUtils.java:200-202 | replacing "//" by "/%2F" does not change what the text decodes to (malformed stays malformed) |
| HttpUtils.EscapeDoubleSlashesSkipsThree | aws-android-sdk-core/src/main/java/com/amazonaws/util/HttpUtils.java:201 | three characters without '/' are copied by the replacement |
| HttpUtils.EscapeDoubleSlashesSkipsOne | aws-android-sdk-core/src/main/java/com/amazonaws/util/HttpUtils.java:201 | a first character other than '/' is copied by the replacement |
| HttpUtils.DoubleSlashKeepsDecoding | aws-android-sdk-core/src/main/java/com/amazonaws/util/HttpUtils.java:201 | a leading "//" becomes "/%2F", decoding to the same two slashes |
| HttpUtils.EscapeKeepsDecoding | aws-android-sdk-core/src/main/java/com/amazonaws/util/HttpUtils.java:201 | a leading escape is copied and decodes as before |
| HttpUtils.MalformedStaysMalformed | aws-android-sdk-core/src/main/java/com/amazonaws/util/HttpUtils.java:201 | a '%' that starts no escape stays one: both texts fail to decode |
| HttpUtils.LiteralKeepsDecoding | aws-android-sdk-core/src/main/java/com/amazonaws/util/HttpUtils.java:201 | any other leading character is copied and decodes as before |

## Left out

- The conversion of a Java string (UTF-16) to its UTF-8 octets. Values that get encoded are given as octets. `path.length() > 0` and `path.startsWith("/")` are read on those octets, where they mean the same.
- `String.toLowerCase` is modelled on ASCII letters only. Only "http" and "https" are compared after it, and they are ASCII.
- The catch blocks for `UnsupportedEncodingException`: UTF-8 is always supported, so they cannot be reached.
- The regular-expression engine. The compiled pattern is modelled by `HttpUtils.MatchAt`, a direct test for the four literal alternatives.
- `Matcher.appendReplacement`'s treatment of `$` and `\` in the replacement. The four possible replacements hold neither character.
- `fetchFile`, `getUserAgent`, and the connection and socket timeouts. These are network I/O and configuration.
- `Request` beyond the HTTP method, whether content is present, and the parameters. The parameter map is taken as a sequence in its iteration order, so key uniqueness and the order a given map yields are not modelled.
- A null `baseUri`. The source would throw a NullPointerException in `appendUri`.
