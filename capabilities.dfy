/** `fetchWmsCRS` after the document has been fetched and parsed: choose the
    target layer, collect its `CRS`/`SRS` texts (or the whole document's),
    keep the texts that contain an EPSG code, map each to its leftmost code
    and drop repeated codes.

    The parsed XML is described by what the pipeline reads from it: for each
    `Layer` element in document order, the text of its first `Name`
    descendant (when it has one) and the texts of its `CRS` and `SRS`
    descendants; and the texts of all `CRS` and `SRS` elements of the
    document. Every text is an element's `textContent`, which is a string,
    so the `|| ""` defaults never apply. */
module Capabilities {
  import opened Wrappers
  import opened Sequences
  import opened EpsgPattern

  /** The layer whose projections are offered. */
  const TargetLayerName: string := "TOPO-OSM-WMS"

  datatype Layer = Layer(firstName: Option<string>, crs: seq<string>, srs: seq<string>)

  datatype Document = Document(layers: seq<Layer>, crs: seq<string>, srs: seq<string>)

  /** The `find` callback: a first `Name` descendant whose text is exactly the
      target name. */
  predicate IsTarget(l: Layer)
  {
    l.firstName == Some(TargetLayerName)
  }

  /** `layers.find(...)`: the first target layer in document order. */
  function TargetLayer(doc: Document): (r: Option<Layer>)
    ensures r.None? <==> forall i :: 0 <= i < |doc.layers| ==> !IsTarget(doc.layers[i])
    ensures r.Some? ==> exists i :: 0 <= i < |doc.layers| && doc.layers[i] == r.value
                                    && IsTarget(r.value)
                                    && forall j :: 0 <= j < i ==> !IsTarget(doc.layers[j])
  {
    match FindIndex(doc.layers, IsTarget)
    case None => None
    case Some(i) => Some(doc.layers[i])
  }

  /** `crsTags`: the target's `CRS` texts, then its `SRS` texts; nothing
      without a target. */
  function LayerTags(doc: Document): seq<string>
  {
    match TargetLayer(doc)
    case None => []
    case Some(l) => l.crs + l.srs
  }

  /** `rootCRS`: every `CRS` text of the document, then every `SRS` text. */
  function RootTags(doc: Document): seq<string>
  {
    doc.crs + doc.srs
  }

  /** `crsTags.length ? crsTags : rootCRS` */
  function SourceTags(doc: Document): seq<string>
  {
    if |LayerTags(doc)| > 0 then LayerTags(doc) else RootTags(doc)
  }

  /** The first `filter` callback: `s && /EPSG:\d+/.test(s)`. */
  predicate HasCode(s: string)
    ensures HasCode(s) <==> Test(s)
  {
    s != "" && Test(s)
  }

  /** The `map` callback applied to the kept texts: `s.match(/EPSG:\d+/)![0]`. */
  function CodesOf(kept: seq<string>): (r: seq<string>)
    requires forall i :: 0 <= i < |kept| ==> HasCode(kept[i])
    ensures |r| == |kept|
    ensures forall i :: 0 <= i < |r| ==> IsEpsgCode(r[i])
    ensures forall i :: 0 <= i < |r| ==> IsMatchOf(kept[i], r[i])
  {
    seq(|kept|, i requires 0 <= i < |kept| && HasCode(kept[i]) => MatchText(kept[i]))
  }

  /** The list after `filter` and `map`, before de-duplication. */
  function MappedCodes(tags: seq<string>): (r: seq<string>)
    ensures |r| <= |tags|
    ensures forall i :: 0 <= i < |r| ==> IsEpsgCode(r[i])
  {
    CodesOf(Filter(tags, HasCode))
  }

  /** The list `fetchWmsCRS` returns for a parsed document. */
  function ExtractCodes(doc: Document): (codes: seq<string>)
    ensures NoDuplicates(codes)
    ensures forall i :: 0 <= i < |codes| ==> IsEpsgCode(codes[i])
  {
    var mapped := MappedCodes(SourceTags(doc));
    FirstOccurrencesSpec(mapped);
    FirstOccurrences(mapped)
  }

  /** The codes of a tag list are exactly the leftmost matches of its texts,
      and every text without a match, the empty one included, contributes
      nothing. */
  lemma MappedCodesSpec(tags: seq<string>)
    ensures forall c :: c in MappedCodes(tags) ==> IsEpsgCode(c)
    ensures forall c :: c in MappedCodes(tags) <==>
              exists t :: t in tags && Test(t) && MatchText(t) == c
    ensures (forall t :: t in tags ==> !Test(t)) ==> MappedCodes(tags) == []
  {
    var kept := Filter(tags, HasCode);
    var r := MappedCodes(tags);
    forall c | c in r ensures exists t :: t in tags && Test(t) && MatchText(t) == c {
      var i :| 0 <= i < |r| && r[i] == c;
      assert kept[i] in tags && Test(kept[i]) && MatchText(kept[i]) == c;
    }
    forall c | exists t :: t in tags && Test(t) && MatchText(t) == c ensures c in r {
      var t :| t in tags && Test(t) && MatchText(t) == c;
      var i :| 0 <= i < |tags| && tags[i] == t;
      assert t != "" by { assert |MatchText(t)| > 0; }
      assert t in kept;
      var j :| 0 <= j < |kept| && kept[j] == t;
      assert r[j] == c;
    }
    assert |kept| > 0 ==> kept[0] in kept;
  }

  /** The mapped list is built text by text, in order: nothing for no
      texts, and appending a text appends its match text when it has one
      and nothing otherwise. */
  lemma {:induction false} MappedCodesSnoc(tags: seq<string>, t: string)
    ensures MappedCodes([]) == []
    ensures MappedCodes(tags + [t]) ==
              MappedCodes(tags) + (if HasCode(t) then [MatchText(t)] else [])
  {
    assert (tags + [t])[..|tags + [t]| - 1] == tags;
  }

  /** The list returned for a document: well-formed codes, none twice,
      exactly the leftmost matches of the source texts, in the order of
      their first occurrence in the mapped list, of which it is a
      subsequence. */
  lemma ExtractCodesSpec(doc: Document)
    ensures NoDuplicates(ExtractCodes(doc))
    ensures forall c :: c in ExtractCodes(doc) ==> IsEpsgCode(c)
    ensures forall c :: c in ExtractCodes(doc) <==>
              exists t :: t in SourceTags(doc) && Test(t) && MatchText(t) == c
    ensures InFirstOccurrenceOrder(ExtractCodes(doc), MappedCodes(SourceTags(doc)))
    ensures IsSubsequence(ExtractCodes(doc), MappedCodes(SourceTags(doc)))
  {
    var mapped := MappedCodes(SourceTags(doc));
    MappedCodesSpec(SourceTags(doc));
    FirstOccurrencesSpec(mapped);
    assert forall c :: c in ExtractCodes(doc) <==> c in mapped;
  }

  /** Which texts feed the extraction: those of the first target layer when
      it has any, otherwise the whole document's. */
  lemma SourceTagsSpec(doc: Document)
    ensures (forall i :: 0 <= i < |doc.layers| ==> !IsTarget(doc.layers[i])) ==>
              SourceTags(doc) == doc.crs + doc.srs
    ensures forall i :: 0 <= i < |doc.layers| && IsTarget(doc.layers[i])
                        && (forall j :: 0 <= j < i ==> !IsTarget(doc.layers[j])) ==>
              SourceTags(doc) == (if |doc.layers[i].crs + doc.layers[i].srs| > 0
                                  then doc.layers[i].crs + doc.layers[i].srs
                                  else doc.crs + doc.srs)
  {
    forall i | 0 <= i < |doc.layers| && IsTarget(doc.layers[i])
                && (forall j :: 0 <= j < i ==> !IsTarget(doc.layers[j]))
      ensures TargetLayer(doc) == Some(doc.layers[i])
    {
      var k :| 0 <= k < |doc.layers| && doc.layers[k] == TargetLayer(doc).value
               && IsTarget(doc.layers[k]) && forall j :: 0 <= j < k ==> !IsTarget(doc.layers[j]);
      assert !(k < i) && !(i < k);
    }
  }

  /** The fallback is chosen before the EPSG filter: a target layer whose
      only texts hold no code yields no code, whatever the document's other
      texts say. */
  lemma FallbackPrecedesFilter(doc: Document)
    requires TargetLayer(doc).Some?
    requires |LayerTags(doc)| > 0
    requires forall t :: t in LayerTags(doc) ==> !Test(t)
    ensures ExtractCodes(doc) == []
  {
    MappedCodesSpec(LayerTags(doc));
  }

  /** A tag list of distinct well-formed codes is extracted unchanged. */
  lemma DistinctCodesExtractUnchanged(tags: seq<string>)
    requires forall i :: 0 <= i < |tags| ==> IsEpsgCode(tags[i])
    requires NoDuplicates(tags)
    ensures FirstOccurrences(MappedCodes(tags)) == tags
  {
    forall i | 0 <= i < |tags| ensures HasCode(tags[i]) && MatchText(tags[i]) == tags[i] {
      CodeMatchesItself(tags[i]);
    }
    FilterKeepsAll(tags, HasCode);
    assert MappedCodes(tags) == tags;
    FirstOccurrencesOfDistinct(tags);
  }

  /** A capabilities document whose target layer lists EPSG:4326 and then
      EPSG:3857 yields those two codes in that order. */
  lemma TargetLayerExample(root: seq<string>)
    ensures var doc := Document([Layer(Some(TargetLayerName), ["EPSG:4326", "EPSG:3857"], [])], root, []);
            ExtractCodes(doc) == ["EPSG:4326", "EPSG:3857"]
  {
    var doc := Document([Layer(Some(TargetLayerName), ["EPSG:4326", "EPSG:3857"], [])], root, []);
    var tags := ["EPSG:4326", "EPSG:3857"];
    assert IsTarget(doc.layers[0]);
    assert SourceTags(doc) == tags;
    assert IsEpsgCode(tags[0]) && IsEpsgCode(tags[1]);
    assert tags[0][5] != tags[1][5];
    DistinctCodesExtractUnchanged(tags);
  }
}
