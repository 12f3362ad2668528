# EPSG-code discovery and selection for the Mundialis WMS map

This project models, in Dafny, the logic of `src/App.tsx` of the
leaflet-crs-test map viewer that decides which coordinate reference systems
(EPSG codes) the projection selector offers and which CRS the map is built
with:

- `fetchWmsCRS`, once the WMS GetCapabilities document has been fetched and
  parsed: pick the first `Layer` whose first `Name` descendant is exactly
  `TOPO-OSM-WMS`; collect its `CRS` texts then its `SRS` texts, or, only when
  that list is empty, the whole document's; keep the texts matching
  `/EPSG:\d+/`, replace each by its leftmost match, and drop repeats keeping
  the first occurrence (`filter((v, i, a) => a.indexOf(v) === i)`).
- The `SUPPORTED_EPSG` table (`EPSG:3857`, `EPSG:4326`), the `usable` filter,
  the fallback to every key of the table with an advisory message, and the
  CRS resolution `SUPPORTED_EPSG[code] || L.CRS.EPSG3857`.
- The `App` component's state (`epsgOptions`, `selectedEPSG`, `error`) as a
  class whose methods are the outcomes of the fetch effect and the selector's
  `onChange`; the CRS and the map key are functions of the selected code.

Modules:

| file | module | what it holds |
|---|---|---|
| wrappers.dfy | `Wrappers` | `Option`, for JavaScript's `undefined` results |
| sequences.dfy | `Sequences` | `find`, `indexOf`, `filter` and the `indexOf` de-duplication, with their properties |
| epsg_pattern.dfy | `EpsgPattern` | the regular expression `/EPSG:\d+/`: `exec`, `test`, `match(...)[0]` |
| capabilities.dfy | `Capabilities` | the parsed document, the target layer, tag collection with fallback, the extraction |
| supported_crs.dfy | `SupportedCrs` | the supported table, `usable`/`finalList`, CRS resolution |
| app.dfy | `AppComponent` | class `App`: the state cells and their transitions |

The parsed XML is not modelled as XML. A `Document` is the sequence of its
`Layer` elements in document order, each given by the text of its first
`Name` descendant (absent when it has none) and the texts of its `CRS` and
`SRS` descendants, together with the texts of every `CRS` and `SRS` element
of the document. CRS objects are the two members of the datatype `Crs`.
The request itself is a parameter: `App.Mount` receives either the parsed
document or the fact that the request threw.

Points where the code behaves differently from a loose reading of it, and
which the model follows as written:

- The fallback to root-level `CRS`/`SRS` happens only when the target layer's
  tag list is empty, and it is decided before the EPSG filter. A target layer
  whose texts hold no EPSG code therefore yields no codes, and the root codes
  are never consulted (`Capabilities.FallbackPrecedesFilter`).
- `getElementsByTagName` returns descendants, not children: the texts of a
  layer include those of layers nested inside it, and the first `Name`
  descendant may belong to a nested layer. The abstract `Layer` record
  carries exactly what those calls return.
- The two failure kinds produce the same options but different advisory
  messages (`NoUsableCodes` and `FetchFailed`). When some code is usable the
  error is left as it was, not cleared.
- Offered codes are filtered to the supported table before the selector sees
  them, so only `EPSG:3857` and `EPSG:4326` are ever offered.

## Model

| member | source | states |
|---|---|---|
| `Sequences.FindIndex` | src/App.tsx:44-47 | `Array.prototype.find`: the position returned satisfies the callback and none before it does; nothing is returned exactly when no element satisfies it |
| `Sequences.IndexOf` | src/App.tsx:73 | `indexOf`: the first position holding the value, and -1 exactly when the value is absent |
| `Sequences.Filter` | src/App.tsx:71 | `filter`: every kept element passes the callback and comes from the input, and every input element that passes is kept |
| `Sequences.FilterCounts` | src/App.tsx:71 | a filter keeps every occurrence of a value that passes the callback and none of a value that fails it: the count of each value in the result is its count in the input when it passes, zero otherwise |
| `Sequences.FilterIsSubsequence` | src/App.tsx:89 | a filter keeps the order of its input: the result is a subsequence of it |
| `Sequences.FilterKeepsAll` | src/App.tsx:71 | a filter that every element passes returns its input unchanged |
| `Sequences.FirstOccurrencesUpTo` | src/App.tsx:73 | the `filter((v, i, a) => a.indexOf(v) === i)` pass over the first `n` positions, keeping position `i` exactly when `indexOf` returns `i`; its properties are the three `FirstOccurrencesUpTo...` lemmas below |
| `Sequences.FirstOccurrences` | src/App.tsx:73 | the same pass over the whole list; `Sequences.FirstOccurrencesSpec` and `Sequences.FirstOccurrencesUnique` state what it returns |
| `Sequences.FirstOccurrencesUpToBelow` | src/App.tsx:73 | every value kept from a prefix has its first occurrence inside that prefix |
| `Sequences.FirstOccurrencesUpToOrdered` | src/App.tsx:73 | the values kept from a prefix stand in first-occurrence order |
| `Sequences.FirstOccurrencesUpToComplete` | src/App.tsx:73 | every value of a prefix is kept |
| `Sequences.FirstOccurrencesSpec` | src/App.tsx:73 | the de-duplicated list has no repeats, holds exactly the values of its input, in first-occurrence order, and is a subsequence of the input |
| `Sequences.OrderedBySameKeyEqual` | src/App.tsx:73 | two lists with the same values, both in first-occurrence order, are equal |
| `Sequences.FirstOccurrencesUnique` | src/App.tsx:73 | the de-duplicated list is the only list holding the input's values in first-occurrence order |
| `Sequences.FirstOccurrencesOfDistinct` | src/App.tsx:73 | de-duplicating a list without repeats returns it unchanged |
| `EpsgPattern.DigitRunEnd` | src/App.tsx:72 | the greedy `\d+`: the run ends at the end of the text or at the first non-digit, and holds only ASCII digits |
| `EpsgPattern.LeftmostFrom` | src/App.tsx:71-72 | the regular-expression scan: the first position at or after the start where `EPSG:` is followed by a digit, and none when there is no such position |
| `EpsgPattern.Exec` | src/App.tsx:71-72 | the leftmost match of `/EPSG:\d+/`, its digit run taken maximally; no match exactly when no position matches |
| `EpsgPattern.Test` | src/App.tsx:71 | `test` holds exactly when `EPSG:` followed by a digit stands at some position of the text |
| `EpsgPattern.IsMatchOf` | src/App.tsx:72 | what `match(...)[0]` yields from a text: a well-formed code (`EPSG:` and one or more digits) standing at the leftmost matching position, followed by the end of the text or a non-digit; `EpsgPattern.MatchOfUnique` states that a text has at most one |
| `EpsgPattern.MatchOfUnique` | src/App.tsx:72 | a text has at most one match text: the leftmost position and the greedy digit run fix it |
| `EpsgPattern.MatchText` | src/App.tsx:72 | the text of the match is the match text of the input in the sense of `EpsgPattern.IsMatchOf`: a well-formed code at the leftmost matching position with its digit run taken whole |
| `EpsgPattern.CodeMatchesItself` | src/App.tsx:71-72 | extracting from a well-formed code gives the code back |
| `EpsgPattern.NoMatchWithoutE` | src/App.tsx:71 | no match starts where there is no `E` |
| `EpsgPattern.LowerCaseNotMatched` | src/App.tsx:71 | the pattern is case-sensitive: `epsg:4326` does not match |
| `EpsgPattern.UrnNotMatched` | src/App.tsx:71 | an OGC URN such as `urn:ogc:def:crs:EPSG::4326` does not match |
| `EpsgPattern.LeftmostWins` | src/App.tsx:72 | in `EPSG:EPSG:4326` the match is the later `EPSG:4326`, since the first prefix has no digit |
| `EpsgPattern.DigitRunIsMaximal` | src/App.tsx:72 | in `EPSG:3857 EPSG:4326` the match is the leftmost code, cut at the space |
| `Capabilities.IsTarget` | src/App.tsx:44-47 | the `find` callback: the layer's first `Name` descendant exists and its text is exactly `TOPO-OSM-WMS`; `Capabilities.TargetLayer` states the search |
| `Capabilities.TargetLayer` | src/App.tsx:43-47 | the first layer in document order whose first `Name` text is exactly `TOPO-OSM-WMS`; none exactly when no layer has that name |
| `Capabilities.LayerTags` | src/App.tsx:50-59 | `crsTags`: the target layer's `CRS` texts then its `SRS` texts, nothing without a target; `Capabilities.SourceTagsSpec` states its use |
| `Capabilities.RootTags` | src/App.tsx:62-69 | `rootCRS`: every `CRS` text of the document then every `SRS` text; `Capabilities.SourceTagsSpec` states its use |
| `Capabilities.SourceTags` | src/App.tsx:70 | `crsTags.length ? crsTags : rootCRS`; `Capabilities.SourceTagsSpec` and `Capabilities.FallbackPrecedesFilter` state which texts it picks |
| `Capabilities.HasCode` | src/App.tsx:71 | the first `filter` callback holds exactly when the pattern matches: the empty-text guard never rejects a text with a match |
| `Capabilities.CodesOf` | src/App.tsx:72 | the `map` step yields, position by position, the match text of each kept text, a well-formed code |
| `Capabilities.MappedCodes` | src/App.tsx:70-72 | the list after `filter` and `map` is no longer than the texts and holds only well-formed codes; `Capabilities.MappedCodesSpec` and `Capabilities.MappedCodesSnoc` state its values and order |
| `Capabilities.MappedCodesSnoc` | src/App.tsx:70-72 | the list after `filter` and `map` is built text by text in order: empty for no texts, and appending a text appends its match text when it has one, nothing otherwise |
| `Capabilities.MappedCodesSpec` | src/App.tsx:70-72 | the mapped codes are exactly the leftmost matches of the texts that have one; texts with no match, the empty text included, contribute nothing |
| `Capabilities.ExtractCodes` | src/App.tsx:70-76 | the list `fetchWmsCRS` returns holds well-formed codes, none twice; `Capabilities.ExtractCodesSpec` states the rest |
| `Capabilities.ExtractCodesSpec` | src/App.tsx:70-76 | the returned list: well-formed codes, none twice, exactly the leftmost matches of the source texts, in first-occurrence order, a subsequence of the mapped list |
| `Capabilities.SourceTagsSpec` | src/App.tsx:50-70 | without a target layer the document's `CRS` then `SRS` texts are used; with one, its `CRS` then `SRS` texts, unless that list is empty |
| `Capabilities.FallbackPrecedesFilter` | src/App.tsx:61-73 | a target layer whose texts hold no code yields an empty list, whatever the rest of the document holds |
| `Capabilities.DistinctCodesExtractUnchanged` | src/App.tsx:70-73 | a tag list of distinct well-formed codes is returned exactly as listed |
| `Capabilities.TargetLayerExample` | src/App.tsx:43-76 | a target layer listing `EPSG:4326` then `EPSG:3857` yields `["EPSG:4326", "EPSG:3857"]` |
| `SupportedCrs.Keys` | src/App.tsx:90 | `Object.keys`: the keys of the table in insertion order |
| `SupportedCrs.Lookup` | src/App.tsx:27-30 | a code has an entry exactly when it is a key of the table, and the entry is the one the table pairs with it |
| `SupportedCrs.SupportedKeysSpec` | src/App.tsx:27-30 | the keys are `EPSG:3857` then `EPSG:4326`, without repeats, and they are the only supported codes |
| `SupportedCrs.IsSupported` | src/App.tsx:89 | the `usable` callback `SUPPORTED_EPSG[code]` holds exactly for the keys of the table |
| `SupportedCrs.Usable` | src/App.tsx:89 | `usable` holds exactly the supported codes of the list, as a subsequence of it |
| `SupportedCrs.OfferFor` | src/App.tsx:89-96 | the options are never empty and all supported; the advisory is set exactly when no code of the list is supported, and then every key is offered; otherwise the options are exactly the supported codes, in list order |
| `SupportedCrs.Resolve` | src/App.tsx:107-109 | a supported code resolves to its table entry, any other code to EPSG:3857; the result is EPSG4326 exactly for `EPSG:4326` |
| `SupportedCrs.OfferExample` | src/App.tsx:89-96 | the list `["EPSG:4326", "EPSG:3857"]` is offered unchanged, without the advisory |
| `AppComponent.App.constructor` | src/App.tsx:80-82 | no options, `EPSG:3857` selected, no error |
| `AppComponent.App.FetchSucceeded` | src/App.tsx:87-96 | options become the offer for the list, the no-usable-code advisory is set only when nothing is usable (otherwise the error is kept), the selection is untouched, and every option is supported |
| `AppComponent.App.FetchFailedWith` | src/App.tsx:97-103 | options become every key of the table, the fetch-failure advisory is set, the selection is untouched |
| `AppComponent.App.Mount` | src/App.tsx:84-105 | the effect applies the outcome of the request: a parsed document through the extraction and the offer, a thrown request through the failure branch; afterwards the selector has options, all supported, and the selection is unchanged |
| `AppComponent.App.Select` | src/App.tsx:112-122 | only the selection changes; the map key changes exactly when a different code is chosen; choosing an offered code gives that code's table CRS |
| `AppComponent.App.CurrentCrs` | src/App.tsx:107-109 | the map's CRS is the table entry of the selected code, or EPSG:3857 when it has none |
| `AppComponent.App.MapKey` | src/App.tsx:111-112 | the map key is the selected code; `AppComponent.App.Select` states that it changes exactly when a different code is chosen |

## Left out

- XML parsing (`DOMParser`, `getElementsByTagName`, `textContent`): a foreign library; its result is the abstract `Document`. `parseFromString` does not throw on malformed XML, and `fetch` does not throw on an HTTP error status, so a malformed or error response reaches the model as whatever `Document` the parser returns, possibly empty or partial; only a request that throws takes the failure branch.
- The HTTP request, the `async` effect wrapper and its scheduling, and `console.log`/`console.warn`: I/O and event-loop plumbing. In particular the model does not capture a selection made while the request is still pending being interleaved with the effect; each method is one atomic state update.
- React rendering, the Leaflet `MapContainer`, `WMSTileLayer`, `Marker` and `Popup`, and the global default-icon override: UI and foreign code. The map key is modelled; the remount it causes is the library's.
- Leaflet's CRS objects and projection mathematics: the CRS values are the opaque members of `Crs`.
- vite.config.ts: development-server proxy configuration for Vite's own proxy; not part of this model.
- The exact advisory message texts: two tags of `Advisory` stand for them.
- `SupportedCrs.Lookup`: property names inherited from `Object.prototype` (`toString`, `constructor`, ...) would be truthy in `SUPPORTED_EPSG[code]`; the model treats them as absent. The extracted codes are all of the form `EPSG:<digits>`, and the selector only offers supported keys, so such a name never reaches the table in practice.
- `AppComponent.App.Select`: accepts any code, as `setSelectedEPSG` does; that the `<select>` element only emits offered codes is a property of the browser, stated as the hypothesis of its last postcondition rather than as a requirement.
