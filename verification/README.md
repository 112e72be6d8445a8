# summer: URL builder, request helpers, repeat renderer and model filter, in Dafny

A Dafny model of three pure pieces of the summer web framework:

- **`RequestUtils`**:
  - the private `UrlBuilder`, which parses a URL into a path, an optional extension and an insertion-ordered multimap of query parameters, edits them, and writes the URL back;
  - the helpers around it: user-agent engine classification, forward-aware URL reconstruction, `serializeParameters`, `contextRelative` and `isMethodBrowserSupported`.
- **`RepeatComponentRenderer`**: `encodeBegin`, `encodeChildren`, `encodeEnd` and `getRendersChildren`. Each is a function that returns the trace of `ResponseWriter` calls it makes.
- **`AbstractResponseView`**: `filterModel`, which drops Spring `BindingResult` entries, and the view's extension property.

## Modules

- `wrappers.dfy` (`Wrappers`): `Option`, which stands for Java's null.
- `java_strings.dfy` (`JavaStrings`): the `java.lang.String` operations the code relies on.
  - `indexOf`, and `split` with its rule that trailing empty pieces are dropped.
  - `contains`, `endsWith`, `replaceAll` on a literal, and `equalsIgnoreCase`.
  - The laws these operations obey.
- `param_map.dfy` (`ParamMap`): the `LinkedHashMap<String, List<String>>` of parameters.
  - It is an association list: `put` on an existing key keeps its place, and a new key goes last.
  - `addParameter`, `setParameter` and `removeParameter` are defined on it.
- `url_builder.dfy` (`UrlBuilder`): the builder's constructor, the literal-pair and query-string operations, `addPath`/`removePath`, and `toString`.
- `url_round_trip.dfy` (`UrlRoundTrip`): the round trips between `toString` and the constructor, and the exact conditions under which each holds.
- `url_examples.dfy` (`UrlExamples`): concrete behaviours. For any codec, `a=1&b=2&a=3` is written back grouped by key, a trailing '.' is lost, and so on.
- `request_utils.dfy` (`RequestUtils`): the request helpers. The request becomes a `Request` value holding the strings the helpers read.
- `markup.dfy` (`Markup`): writer events, and a checker for well-formed traces. In a well-formed trace, elements close innermost first and attributes appear only inside a start tag.
- `repeat_renderer.dfy` (`RepeatRenderer`): the renderer.
- `response_view.dfy` (`ResponseView`): the model filter and the extension property.

Inputs:

- Code the model does not define becomes function parameters:
  - `StringUtils.encode` and `StringUtils.decode` become `encode` and `decode`;
  - `ComponentUtils.shouldWriteAttribute` becomes `shouldWrite`.
- What `ComponentUtils` and `ObjectUtils.size` resolve for a component becomes fields of the `Repeat` datatype.

## Model

| member | source | states |
|---|---|---|
| `JavaStrings.IndexOf` | modules/core/src/main/java/com/asual/summer/core/util/RequestUtils.java:237 | The position of the first occurrence of the character; `None` (-1) exactly when it does not occur |
| `JavaStrings.Split` | modules/core/src/main/java/com/asual/summer/core/util/RequestUtils.java:270 | `split` with one separator: the whole input when the separator is absent, otherwise the pieces between separators with the trailing empty ones dropped |
| `JavaStrings.RawSplitAllEmpty` | modules/core/src/main/java/com/asual/summer/core/util/RequestUtils.java:270-271 | Every piece is empty exactly when the input is nothing but separators, which is when `split` returns an empty array |
| `JavaStrings.DropTrailingEmptyLength` | modules/core/src/main/java/com/asual/summer/core/util/RequestUtils.java:271-272 | More than `k` pieces survive exactly when some piece at position `k` or later is non-empty |
| `JavaStrings.SplitKeepsSome` | modules/core/src/main/java/com/asual/summer/core/util/RequestUtils.java:270-271 | When the separator occurs, `split` returns some piece exactly when the input is not all separators, and its first piece is the text before the first separator |
| `JavaStrings.SplitKeepsSecond` | modules/core/src/main/java/com/asual/summer/core/util/RequestUtils.java:271-272 | When the separator occurs, `split` returns a second piece exactly when the text after the first separator is not all separators |
| `JavaStrings.SplitSecondPiece` | modules/core/src/main/java/com/asual/summer/core/util/RequestUtils.java:272-273 | The second piece of `split` is the text between the first and the second separator, so anything after a second `=` is ignored |
| `JavaStrings.SplitJoin` | modules/core/src/main/java/com/asual/summer/core/util/RequestUtils.java:331 | Splitting non-empty, separator-free pieces joined by the separator gives back the pieces |
| `JavaStrings.ContainsIff` | modules/core/src/main/java/com/asual/summer/core/util/RequestUtils.java:139 | `Pattern.find` of a literal holds exactly when the literal occurs at some position |
| `JavaStrings.ReplaceAllOnce` | modules/core/src/main/java/com/asual/summer/core/util/RequestUtils.java:331 | `replaceAll` of a literal replaces one occurrence between parts that cannot hold another, and changes nothing else |
| `ParamMap.AddManyIsSingles` | modules/core/src/main/java/com/asual/summer/core/util/RequestUtils.java:286-298 | Adding an array or collection at once equals adding its elements one by one as single values, in order |
| `ParamMap.Get` | modules/core/src/main/java/com/asual/summer/core/util/RequestUtils.java:281-282 | A key has values exactly when it is one of the map's keys |
| `ParamMap.Put` | modules/core/src/main/java/com/asual/summer/core/util/RequestUtils.java:299 | `put` gives the key its new values and leaves every other key's values alone. An existing key keeps its position; a new key goes last |
| `ParamMap.Remove` | modules/core/src/main/java/com/asual/summer/core/util/RequestUtils.java:324-327 | `removeParameter` deletes the key and leaves every other key's values and order alone |
| `ParamMap.Add` | modules/core/src/main/java/com/asual/summer/core/util/RequestUtils.java:278-302 | A null value changes nothing. Otherwise the key's earlier values are kept and the new ones appended, other keys are untouched, and a new key goes last |
| `ParamMap.Set` | modules/core/src/main/java/com/asual/summer/core/util/RequestUtils.java:314-322 | A null value removes the key. Otherwise the key's values become exactly the new ones, in the key's old position, and other keys are untouched |
| `ParamMap.AddAdd` | modules/core/src/main/java/com/asual/summer/core/util/RequestUtils.java:278-302 | Two adds under one key equal one add of both value lists, in order |
| `ParamMap.SetIsPut` | modules/core/src/main/java/com/asual/summer/core/util/RequestUtils.java:314-317 | Setting a non-null value is a `put` of its strings |
| `ParamMap.SetAfterAdd` | modules/core/src/main/java/com/asual/summer/core/util/RequestUtils.java:314-317 | A set discards whatever earlier adds put under the key |
| `ParamMap.SetAfterSet` | modules/core/src/main/java/com/asual/summer/core/util/RequestUtils.java:314-322 | After a set with a non-null value, a second set under the same key wins |
| `ParamMap.SetAfterRemove` | modules/core/src/main/java/com/asual/summer/core/util/RequestUtils.java:314-327 | Setting a key after removing it puts the key last |
| `ParamMap.RemoveTwice` | modules/core/src/main/java/com/asual/summer/core/util/RequestUtils.java:324-327 | Removing a key twice is removing it once |
| `ParamMap.PutPut` | modules/core/src/main/java/com/asual/summer/core/util/RequestUtils.java:299 | A second `put` under one key overrides the first and keeps the first one's position |
| `ParamMap.RemovePut` | modules/core/src/main/java/com/asual/summer/core/util/RequestUtils.java:316-325 | Removing a key after a `put` is removing it from the original map |
| `ParamMap.DistinctKept` | modules/core/src/main/java/com/asual/summer/core/util/RequestUtils.java:234 | `put` and `remove` keep the keys distinct |
| `UrlBuilder.DotScan` | modules/core/src/main/java/com/asual/summer/core/util/RequestUtils.java:239 | The regex `\.[^/]*$` matches at the first '.' after which no '/' occurs |
| `UrlBuilder.ExtensionDot` | modules/core/src/main/java/com/asual/summer/core/util/RequestUtils.java:239 | The match is the first '.' of the last '/'-segment, and there is none when that segment holds no '.' |
| `UrlRoundTrip.ExtensionDotAt` | modules/core/src/main/java/com/asual/summer/core/util/RequestUtils.java:239 | A '.' in the last segment with no earlier '.' in that segment is exactly where the regex match starts |
| `UrlBuilder.SplitExtension` | modules/core/src/main/java/com/asual/summer/core/util/RequestUtils.java:238-240 | The path part is the path when there is no extension. Otherwise it is `path + "." + extension`, the extension holds no '/', and the path's last segment holds no '.' |
| `UrlBuilder.ParsePair` | modules/core/src/main/java/com/asual/summer/core/util/RequestUtils.java:269-272 | A literal pair names nothing when it is empty or only '='. Otherwise the name is the text before the first '='. The value is null when only '=' follow, else the decoded text up to the next '=' |
| `UrlBuilder.SplitPieces` | modules/core/src/main/java/com/asual/summer/core/util/RequestUtils.java:270-272 | How many pieces `split("=")` keeps, and which texts the first two are |
| `UrlBuilder.AddPair` | modules/core/src/main/java/com/asual/summer/core/util/RequestUtils.java:268-276 | `addParameter(String)`: no-op for empty or value-less pairs; otherwise adds the decoded value under the name |
| `UrlBuilder.SetPair` | modules/core/src/main/java/com/asual/summer/core/util/RequestUtils.java:304-312 | `setParameter(String)`: no-op for an empty or '='-only pair. A value-less pair removes the name. Otherwise the parameters become those of `set(name, decoded value)`, so the name holds just that value and every other key is untouched |
| `UrlBuilder.AddEach` | modules/core/src/main/java/com/asual/summer/core/util/RequestUtils.java:332-334 | Adding pairs in order never drops a key, reorders keys or loses a value, and keeps keys distinct |
| `UrlBuilder.SetEach` | modules/core/src/main/java/com/asual/summer/core/util/RequestUtils.java:343-345 | Setting pairs in order keeps path, extension and distinct keys |
| `UrlRoundTrip.SetEachAppend` | modules/core/src/main/java/com/asual/summer/core/util/RequestUtils.java:340-346 | Setting pairs in two batches equals setting them all in order |
| `UrlRoundTrip.SetEachLastPair` | modules/core/src/main/java/com/asual/summer/core/util/RequestUtils.java:304-312 | After any earlier pairs, a final literal pair `n=w` leaves `n` holding just `decode(w)`, and the parameters are those of one `set` on the earlier result |
| `UrlBuilder.SetDistinct` | modules/core/src/main/java/com/asual/summer/core/util/RequestUtils.java:314-327 | One literal set keeps the keys distinct |
| `UrlBuilder.AddParameters` | modules/core/src/main/java/com/asual/summer/core/util/RequestUtils.java:329-337 | An empty query changes nothing; otherwise the keys only grow, in order, and stay distinct |
| `UrlBuilder.SetParameters` | modules/core/src/main/java/com/asual/summer/core/util/RequestUtils.java:340-348 | An empty query changes nothing; path, extension and distinct keys are kept |
| `UrlBuilder.Parse` | modules/core/src/main/java/com/asual/summer/core/util/RequestUtils.java:236-244 | The part before the first '?' is the path, or `path + "." + extension`. A URL without '?' has no parameters, and keys are distinct |
| `UrlBuilder.TrimLeadingSlash` | modules/core/src/main/java/com/asual/summer/core/util/RequestUtils.java:258 | `replaceFirst("^/", "")` drops exactly one leading '/' |
| `UrlBuilder.AddPath` | modules/core/src/main/java/com/asual/summer/core/util/RequestUtils.java:257-260 | The new path is the old one, then '/', then the segment without one leading '/'; the old path is not inspected, so two slashes remain when it ends in '/' or the segment starts with "//" |
| `UrlBuilder.RemovePath` | modules/core/src/main/java/com/asual/summer/core/util/RequestUtils.java:263-266 | A path ending in the text loses that suffix; any other path is unchanged |
| `UrlBuilder.StripTrailingSlash` | modules/core/src/main/java/com/asual/summer/core/util/RequestUtils.java:353 | `(.+)/$` removes one trailing '/' unless the path is just "/" |
| `UrlBuilder.ToString` | modules/core/src/main/java/com/asual/summer/core/util/RequestUtils.java:350-375 | The output starts with the path and extension part, and is exactly that when there are no parameters |
| `UrlBuilder.AppendGroups` | modules/core/src/main/java/com/asual/summer/core/util/RequestUtils.java:361-373 | The parameter loop only appends to what was written before |
| `UrlBuilder.AppendGroupsShape` | modules/core/src/main/java/com/asual/summer/core/util/RequestUtils.java:361-373 | The first key's group follows '?', or '&' when the text already holds a '?'. The groups follow in key order, joined by '&' |
| `UrlBuilder.GroupsArePairs` | modules/core/src/main/java/com/asual/summer/core/util/RequestUtils.java:361-373 | When every key has values, the groups joined by '&' are all `key=encode(v)` pairs joined by '&' |
| `UrlRoundTrip.SplitExtensionNone` | modules/core/src/main/java/com/asual/summer/core/util/RequestUtils.java:239-240 | A path whose last segment has no '.' has no extension |
| `UrlRoundTrip.SplitExtensionSome` | modules/core/src/main/java/com/asual/summer/core/util/RequestUtils.java:239-240 | A '.'-free last segment followed by `.ext` splits back into the path and `ext` |
| `UrlRoundTrip.BaseSplits` | modules/core/src/main/java/com/asual/summer/core/util/RequestUtils.java:352-360 | The text `toString` writes before the query splits back into the same path and extension |
| `UrlRoundTrip.BaseWithExtension` | modules/core/src/main/java/com/asual/summer/core/util/RequestUtils.java:352-360 | The path part `toString` writes for path `p` and extension `e` is `p.e` exactly when `e` is non-empty, does not start with '.', and `p` is not a longer-than-one-character path ending in '/' |
| `UrlRoundTrip.ParseNoQuery` | modules/core/src/main/java/com/asual/summer/core/util/RequestUtils.java:241-243 | A URL without '?' is only split into path and extension |
| `UrlRoundTrip.AddLiteralPair` | modules/core/src/main/java/com/asual/summer/core/util/RequestUtils.java:268-276 | `n=w` with a non-empty `w` and no other '=' adds `decode(w)` under `n` |
| `UrlRoundTrip.SetLiteralPair` | modules/core/src/main/java/com/asual/summer/core/util/RequestUtils.java:304-312 | `n=w` with a non-empty `w` and no other '=' sets `n` to `decode(w)` alone |
| `UrlRoundTrip.SetBarePair` | modules/core/src/main/java/com/asual/summer/core/util/RequestUtils.java:304-321 | `n=` makes the value null, so `setParameter` removes `n` |
| `UrlRoundTrip.SetLastWins` | modules/core/src/main/java/com/asual/summer/core/util/RequestUtils.java:340-348 | Of two pairs for one key, `setParameters` keeps only the last value |
| `UrlRoundTrip.EntitySeparates` | modules/core/src/main/java/com/asual/summer/core/util/RequestUtils.java:331 | `&amp;` separates pairs exactly as `&` does |
| `UrlRoundTrip.AddEachAppend` | modules/core/src/main/java/com/asual/summer/core/util/RequestUtils.java:332-334 | Adding pairs in two batches equals adding them all in order |
| `UrlRoundTrip.GroupRebuild` | modules/core/src/main/java/com/asual/summer/core/util/RequestUtils.java:268-276 | Reading back the written pairs of one key, into a table that lacks the key, appends that key with all its values in order |
| `UrlRoundTrip.TableRebuild` | modules/core/src/main/java/com/asual/summer/core/util/RequestUtils.java:329-338 | Reading back the written pairs of a table with distinct, codec-safe keys appends the whole table, keys and values in order |
| `UrlRoundTrip.QueryRebuild` | modules/core/src/main/java/com/asual/summer/core/util/RequestUtils.java:329-338 | `addParameters` applied to the query text of a non-empty surviving table rebuilds exactly that table |
| `UrlRoundTrip.AddThenRemovePath` | modules/core/src/main/java/com/asual/summer/core/util/RequestUtils.java:257-266 | `removePath` of the segment `addPath` appended restores the builder |
| `UrlRoundTrip.ParseToString` | modules/core/src/main/java/com/asual/summer/core/util/RequestUtils.java:236-244 | Constructing from `toString` gives the builder back, when its path, extension and parameters survive the text form |
| `UrlRoundTrip.ToStringParse` | modules/core/src/main/java/com/asual/summer/core/util/RequestUtils.java:236-244 | A URL without '?' is written back unchanged exactly when its extension is non-empty, does not start with '.', and does not follow a trailing '/' |
| `UrlRoundTrip.PlainUrlRoundTrip` | modules/core/src/main/java/com/asual/summer/core/util/RequestUtils.java:237-240 | A URL with no '?' and no '.' in its last segment is written back unchanged |
| `UrlExamples.BarePairsAddNothing` | modules/core/src/main/java/com/asual/summer/core/util/RequestUtils.java:268-276 | `a` and `a=` add nothing |
| `UrlExamples.SecondEqualsIgnored` | modules/core/src/main/java/com/asual/summer/core/util/RequestUtils.java:270-272 | In `a=x=y` the value is `decode("x")` |
| `UrlExamples.TrailingDotLost` | modules/core/src/main/java/com/asual/summer/core/util/RequestUtils.java:352-359 | `a.` is written back as `a` |
| `UrlExamples.DoubledDotCollapses` | modules/core/src/main/java/com/asual/summer/core/util/RequestUtils.java:352-357 | `a..b` is written back as `a.b` |
| `UrlExamples.HiddenFileSlashDropped` | modules/core/src/main/java/com/asual/summer/core/util/RequestUtils.java:353 | `d/.x` is written back as `d.x` |
| `UrlExamples.ExampleQueryPieces` | modules/core/src/main/java/com/asual/summer/core/util/RequestUtils.java:331 | `a=1&b=2&a=3` falls into its three pairs |
| `UrlExamples.AddRepeated` | modules/core/src/main/java/com/asual/summer/core/util/RequestUtils.java:278-302 | A repeated key keeps its first position and collects the new value after the old one |
| `UrlExamples.ExampleParse` | modules/core/src/main/java/com/asual/summer/core/util/RequestUtils.java:236-244 | `p?a=1&b=2&a=3` parses to `a` with two values, then `b` |
| `UrlExamples.TwoKeysWritten` | modules/core/src/main/java/com/asual/summer/core/util/RequestUtils.java:350-375 | A two-key table is written key by key, each key's values together |
| `UrlExamples.RepeatedKeyGrouped` | modules/core/src/main/java/com/asual/summer/core/util/RequestUtils.java:350-375 | `p?a=1&b=2&a=3` is written back as `p?a=..&a=..&b=..` |
| `RequestUtils.GetEngine` | modules/core/src/main/java/com/asual/summer/core/util/RequestUtils.java:168-179 | A null user agent gives null. Any answer is one of gecko, trident, presto and webkit |
| `RequestUtils.EngineTestHolds` | modules/core/src/main/java/com/asual/summer/core/util/RequestUtils.java:168-179 | The tests are tried in the order gecko, trident, presto, webkit: the first that holds decides the answer, the answer's own test holds, and null comes exactly when no test holds |
| `RequestUtils.MsieWithoutCompatibleIsGecko` | modules/core/src/main/java/com/asual/summer/core/util/RequestUtils.java:136-142 | A Mozilla user agent with "MSIE" but without "compatible" or "WebKit" is gecko, because gecko is tried first |
| `RequestUtils.MozillaOperaIsGecko` | modules/core/src/main/java/com/asual/summer/core/util/RequestUtils.java:136-142 | A Mozilla user agent with "Opera" but without "compatible" or "WebKit" is gecko, not presto |
| `RequestUtils.NeverGeckoWhenCompatible` | modules/core/src/main/java/com/asual/summer/core/util/RequestUtils.java:136-142 | A user agent with "compatible" or "WebKit" is never gecko |
| `RequestUtils.NeverTridentWhenOpera` | modules/core/src/main/java/com/asual/summer/core/util/RequestUtils.java:144-150 | A user agent with "Opera" is never trident |
| `RequestUtils.SpoofingOperaIsPresto` | modules/core/src/main/java/com/asual/summer/core/util/RequestUtils.java:136-179 | "compatible", "MSIE" and "Opera" together classify as presto |
| `RequestUtils.WebKitExcludesOthers` | modules/core/src/main/java/com/asual/summer/core/util/RequestUtils.java:144-179 | webkit is answered exactly for "WebKit" without "Opera" and without "MSIE" |
| `RequestUtils.GetRequestUri` | modules/core/src/main/java/com/asual/summer/core/util/RequestUtils.java:55-61 | The forward URI when set, otherwise the request URI |
| `RequestUtils.GetQueryString` | modules/core/src/main/java/com/asual/summer/core/util/RequestUtils.java:63-69 | When the forward URI is set, the forward query even if null; otherwise the request query |
| `RequestUtils.GetUrl` | modules/core/src/main/java/com/asual/summer/core/util/RequestUtils.java:71-73 | The URI, and `"?" + query` only when the query is non-null |
| `RequestUtils.ForwardedUrlIgnoresRequest` | modules/core/src/main/java/com/asual/summer/core/util/RequestUtils.java:55-73 | A forwarded request's own URI and query do not affect its URL |
| `RequestUtils.DirectUrlIgnoresForwardQuery` | modules/core/src/main/java/com/asual/summer/core/util/RequestUtils.java:63-73 | A request that was not forwarded ignores the forward query |
| `RequestUtils.UrlSplitsBack` | modules/core/src/main/java/com/asual/summer/core/util/RequestUtils.java:71-73 | For a URI without '?', splitting the URL at '?' gives back the URI and the query; the URL holds '?' exactly when there is a query |
| `RequestUtils.UrlBuilderOfRequest` | modules/core/src/main/java/com/asual/summer/core/util/RequestUtils.java:75-81 | The request's builder is the URI's path and extension with the query's parameters added |
| `RequestUtils.UrlBuilderWithoutQuery` | modules/core/src/main/java/com/asual/summer/core/util/RequestUtils.java:75-81 | With no query and no '.' in the last segment, the builder writes the URI back unchanged |
| `RequestUtils.SerializeParameters` | modules/core/src/main/java/com/asual/summer/core/util/RequestUtils.java:189-197 | The output is every `key=encode(value)` in map order, each key's values in order, joined by '&' |
| `RequestUtils.SerializedPairsSplitBack` | modules/core/src/main/java/com/asual/summer/core/util/RequestUtils.java:189-197 | Splitting the output at '&' gives back the pairs when no key or encoded value holds '&'. An empty map gives "" |
| `RequestUtils.ToStringIsSerialized` | modules/core/src/main/java/com/asual/summer/core/util/RequestUtils.java:189-197 | `toString` of a builder whose keys all have values writes the path, '?' and the `serializeParameters` text of its map |
| `RequestUtils.StripContext` | modules/core/src/main/java/com/asual/summer/core/util/RequestUtils.java:202 | A URI that starts with the context path is that path followed by the result, where the result keeps the rest if it already starts with '/' and otherwise gets a '/' in front of it; any other URI is returned unchanged |
| `RequestUtils.ContextRelative` | modules/core/src/main/java/com/asual/summer/core/util/RequestUtils.java:199-208 | Null and URIs not starting with '/' come back unchanged. With the flag false the result starts with '/'; with it true, with the context path |
| `RequestUtils.FlagPrefixesContext` | modules/core/src/main/java/com/asual/summer/core/util/RequestUtils.java:203-205 | With the flag, the result is the context path before the flag-less result |
| `RequestUtils.ContextPathRoundTrip` | modules/core/src/main/java/com/asual/summer/core/util/RequestUtils.java:199-208 | `contextPath + s`, with `s` starting with '/', is cut back to `s`; with the flag it is returned unchanged |
| `RequestUtils.ContextPrefixInsideSegment` | modules/core/src/main/java/com/asual/summer/core/util/RequestUtils.java:202 | `/application` under the context `/app` becomes `/lication` |
| `RequestUtils.StripContextSegment` | modules/core/src/main/java/com/asual/summer/core/util/RequestUtils.java:202 | Corrected stripping: only a URI inside the context loses it |
| `RequestUtils.ContextRelativeInSegment` | modules/core/src/main/java/com/asual/summer/core/util/RequestUtils.java:199-208 | The corrected `contextRelative` keeps the null, non-'/' and flag contracts |
| `RequestUtils.InSegmentStripsWholeSegments` | modules/core/src/main/java/com/asual/summer/core/util/RequestUtils.java:199-208 | Corrected: a URI outside the context is unchanged. A URI inside it is cut at the boundary and restored by prefixing the context path |
| `RequestUtils.InSegmentKeepsOutsideUri` | modules/core/src/main/java/com/asual/summer/core/util/RequestUtils.java:202 | Corrected: `/application` under `/app` is left alone |
| `RequestUtils.SameIgnoringCaseIsUpper` | modules/core/src/main/java/com/asual/summer/core/util/RequestUtils.java:133 | Against an upper-case letter, case-blind equality is equality after upper-casing |
| `RequestUtils.BrowserMethodIsUpperGetOrPost` | modules/core/src/main/java/com/asual/summer/core/util/RequestUtils.java:132-134 | A method is browser-supported exactly when its upper-case form is GET or POST |
| `RequestUtils.BrowserMethodExamples` | modules/core/src/main/java/com/asual/summer/core/util/RequestUtils.java:132-134 | "get" and "PoSt" are supported; "PUT" and null are not |
| `RepeatRenderer.PutAttr` | modules/core/src/main/java/com/asual/summer/core/faces/RepeatComponentRenderer.java:59 | `attrs.put`: the entry is present, other entries are kept, and an existing name keeps its place |
| `RepeatRenderer.PutAttrDistinct` | modules/core/src/main/java/com/asual/summer/core/faces/RepeatComponentRenderer.java:51-66 | `put` into the attribute map keeps its names distinct, so each attribute name is written at most once |
| `RepeatRenderer.WrittenAttributes` | modules/core/src/main/java/com/asual/summer/core/faces/RepeatComponentRenderer.java:62-66 | An attribute is written exactly when the map holds it with a non-null value and `shouldWriteAttribute` allows its name: every written event is such an entry, and every such entry is written |
| `RepeatRenderer.ComponentClassHidesTagAttributes` | modules/core/src/main/java/com/asual/summer/core/faces/RepeatComponentRenderer.java:51-56 | With a component class, only `class` can be written, and nothing without classes |
| `RepeatRenderer.ClassesJoined` | modules/core/src/main/java/com/asual/summer/core/faces/RepeatComponentRenderer.java:57-60 | With classes, `class` is the classes joined by single spaces, written exactly when allowed |
| `RepeatRenderer.NoClassesNoAttributes` | modules/core/src/main/java/com/asual/summer/core/faces/RepeatComponentRenderer.java:51-66 | No classes and no tag attributes means no attribute is written |
| `RepeatRenderer.PlaceholderShape` | modules/core/src/main/java/com/asual/summer/core/faces/RepeatComponentRenderer.java:69-83 | The placeholder: `tr`/`td` for `tbody`, `td` for `tr`, bare text otherwise. Each writes the text once and is well formed |
| `RepeatRenderer.EncodeBegin` | modules/core/src/main/java/com/asual/summer/core/faces/RepeatComponentRenderer.java:39-92 | Without a tag, only the option. With one, the trace is exactly: the start tag, the written attributes in map order, then the empty-state text (inside `tr` and `td` for `tbody`, inside `td` for `tr`, bare otherwise), then the option element when the option text is non-empty. Texts: the empty-state text when written, then the option text |
| `RepeatRenderer.TagPartFacts` | modules/core/src/main/java/com/asual/summer/core/faces/RepeatComponentRenderer.java:45-84 | The tag part writes the empty-state text only for an empty value with a `dataEmpty` |
| `RepeatRenderer.OptionFacts` | modules/core/src/main/java/com/asual/summer/core/faces/RepeatComponentRenderer.java:86-91 | The option writes its text exactly when non-empty |
| `RepeatRenderer.EncodeChildren` | modules/core/src/main/java/com/asual/summer/core/faces/RepeatComponentRenderer.java:94-101 | Each child is encoded once, in order, with no other output |
| `RepeatRenderer.EncodeEnd` | modules/core/src/main/java/com/asual/summer/core/faces/RepeatComponentRenderer.java:103-109 | `End(tag)` with a tag, nothing without |
| `RepeatRenderer.RendersChildren` | modules/core/src/main/java/com/asual/summer/core/faces/RepeatComponentRenderer.java:111-113 | The renderer renders its children |
| `RepeatRenderer.RenderWellFormed` | modules/core/src/main/java/com/asual/summer/core/faces/RepeatComponentRenderer.java:39-109 | Begin, children and end together are well formed for every component |
| `RepeatRenderer.NoTagNoElement` | modules/core/src/main/java/com/asual/summer/core/faces/RepeatComponentRenderer.java:103-109 | Without a tag the output is the option and the children, and the only text is the option's |
| `RepeatRenderer.PlaceholderRun` | modules/core/src/main/java/com/asual/summer/core/faces/RepeatComponentRenderer.java:69-83 | The placeholder closes what it opens inside any open elements |
| `RepeatRenderer.TagPartRun` | modules/core/src/main/java/com/asual/summer/core/faces/RepeatComponentRenderer.java:45-84 | The tag part leaves exactly the component's element open |
| `RepeatRenderer.ChildrenRun` | modules/core/src/main/java/com/asual/summer/core/faces/RepeatComponentRenderer.java:94-101 | Encoding children opens and closes no element |
| `ResponseView.FilterModel` | modules/core/src/main/java/com/asual/summer/core/view/AbstractResponseView.java:40-48 | No `BindingResult` remains. Every other entry is kept with its key and value, and the keys are a subset, so the result is no larger |
| `ResponseView.DroppedKeys` | modules/core/src/main/java/com/asual/summer/core/view/AbstractResponseView.java:42-46 | The keys dropped are exactly those holding a `BindingResult` |
| `ResponseView.FilterIdempotent` | modules/core/src/main/java/com/asual/summer/core/view/AbstractResponseView.java:40-48 | Filtering twice equals filtering once |
| `ResponseView.FilterKeepsCleanModel` | modules/core/src/main/java/com/asual/summer/core/view/AbstractResponseView.java:40-48 | A model without `BindingResult` values comes back equal |
| `ResponseView.FilterAddOther` | modules/core/src/main/java/com/asual/summer/core/view/AbstractResponseView.java:42-46 | Filtering commutes with adding a non-`BindingResult` entry |
| `ResponseView.FilterAddBinding` | modules/core/src/main/java/com/asual/summer/core/view/AbstractResponseView.java:42-46 | Adding a `BindingResult` entry drops its key and nothing else |
| `ResponseView.SetExtension` | modules/core/src/main/java/com/asual/summer/core/view/AbstractResponseView.java:32-38 | `getExtension` after `setExtension(e)` returns `e` |
| `ResponseView.SetExtensionTwice` | modules/core/src/main/java/com/asual/summer/core/view/AbstractResponseView.java:36-38 | The last extension set wins |

## Left out

- **Live request access**: `getRequest`, `getAttribute`/`setAttribute`, `getHeader`, `getUserAgent`, `isValidation`, `isAjaxRequest`, `isGetRequest`, `isPostRequest`, `getError`, `getErrorCode`, `getServletContext`, `setApplicationContext`.
  - These are servlet and Spring plumbing.
  - The helpers that read the request take what they read as fields of `Request`.
- **`getParameterMap`, `getParameter`, `getParameterValues`**: they depend on `ObjectUtils.convert`, which is not part of this model.
- **`StringUtils.encode`/`decode`**: these are arbitrary functions. A null `decode` result is not modelled.
- **`StringUtils.isEmpty`** is taken as null-or-empty, and `StringUtils.join` as joining with the separator.
- **Java regex generality**:
  - The context path in `contextRelative` and the text in `removePath` are treated as literals, without metacharacters.
  - `$` matching before a final line terminator is not modelled.
  - `(.+)` refusing to cross a line terminator is not modelled.
- **Iteration order of hash maps**:
  - The attribute map and the map given to `serializeParameters` are sequences in their iteration order.
  - `HashMap`'s actual order is not modelled.
- **`equalsIgnoreCase`** is modelled for upper-case ASCII words without I or K. Case mappings beyond LATIN SMALL LETTER LONG S are not modelled.
- **Renderer output**:
  - Writer escaping, `ComponentUtils.writeAttribute` formatting and the actual HTML are not modelled.
  - Attribute values are their written text.
  - A child's `encodeAll` is one opaque `Child` event.
- **Parameter values**: `addParameter(name, Object)` receives values already turned into text with `String.valueOf`. The datatype records which values are single and which are arrays or collections.
- **`setPath` and `setExtension` of the builder**: plain field updates, modelled by datatype update.
- **`HTMLView`**: JSF lifecycle glue with no pure behaviour.
- **`filterModel` leaving its input untouched**: this holds by construction, since the model is a pure function over immutable maps.
- **`ParamMap.Get`**: its contract states only when a key is present. The values it returns are pinned down by the contracts of `Put`, `Add`, `Set` and `Remove`.
- **`ParamMap.Add`**: a primitive array such as `int[]` makes `addParameter` throw ClassCastException at its `(Object[])` cast (RequestUtils.java:289). `Many` stands only for object arrays and collections, so that exception path is not modelled.
- **`RequestUtils.SerializeParameters`**: null keys (written as `null=`), null value arrays (a NullPointerException in the inner loop) and null elements passed to `encode` are not modelled. Keys and values are strings and every key holds a list.
- **`UrlBuilder.SetEach`**: its own contract states only what is kept (path, extension, distinct keys). The values follow from `UrlRoundTrip.SetEachAppend` and `UrlRoundTrip.SetEachLastPair`, which fix the effect of the final pair.
- **`UrlBuilder.SetParameters`**: its contract states what is kept, not the resulting values. That the last pair for a key wins is proved for two pairs of one key (`UrlRoundTrip.SetLastWins`), not for arbitrary query strings.
- **`UrlBuilder.ToString`**: its own contract states only the prefix. The full shape is `UrlBuilder.AppendGroupsShape`, and the exact round trips are in `UrlRoundTrip`.
- **`RequestUtils.GetEngine`**: there are no concrete user-agent examples. Deciding substring absence on long literals is beyond what the verifier does cheaply, so the classification is stated for symbolic user agents.

## Findings

| source | as written | input that shows it | evidently intended | confidence | as-written member | corrected member |
|---|---|---|---|---|---|---|
| modules/core/src/main/java/com/asual/summer/core/util/RequestUtils.java:202 | `replaceFirst("^" + contextPath + "/?", "/")` strips the context path even when it ends inside the URI's first segment | context path `/app`, URI `/application`: result `/lication` (`/app/lication` with the flag) | strip the context path only when the URI lies inside the context, i.e. it equals the context path or continues with '/' | medium, not executed | `RequestUtils.ContextPrefixInsideSegment` | `RequestUtils.InSegmentStripsWholeSegments` |
