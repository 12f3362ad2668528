/** `SUPPORTED_EPSG`: the projections the map can use without extra
    projection definitions, the filter of fetched codes against it, the
    fallback list, and the resolution of a code to a CRS.

    The table is a JavaScript object literal, whose `Object.keys` come back
    in insertion order, so it is modelled as an ordered list of entries. */
module SupportedCrs {
  import opened Wrappers
  import opened Sequences

  /** The CRS objects of the mapping library, taken as opaque values. */
  datatype Crs = EPSG3857 | EPSG4326

  const SupportedTable: seq<(string, Crs)> := [("EPSG:3857", EPSG3857), ("EPSG:4326", EPSG4326)]

  /** The CRS `||` falls back to when a code has no entry. */
  const DefaultCrs: Crs := EPSG3857

  /** `Object.keys(table)`: the keys in insertion order. */
  function Keys(table: seq<(string, Crs)>): (ks: seq<string>)
    ensures |ks| == |table|
    ensures forall i :: 0 <= i < |table| ==> ks[i] == table[i].0
  {
    if |table| == 0 then [] else [table[0].0] + Keys(table[1..])
  }

  /** `Object.keys(SUPPORTED_EPSG)` */
  const SupportedKeys: seq<string> := Keys(SupportedTable)

  /** `SUPPORTED_EPSG[code]`: the entry for `code`, or `undefined`. */
  function Lookup(code: string): (r: Option<Crs>)
    ensures r.Some? <==> code in SupportedKeys
    ensures r.Some? ==> (code, r.value) in SupportedTable
  {
    match FindIndex(SupportedTable, (e: (string, Crs)) => e.0 == code)
    case None => None
    case Some(i) => Some(SupportedTable[i].1)
  }

  /** The `filter` callback `(code) => SUPPORTED_EPSG[code]`: a CRS object is truthy. */
  predicate IsSupported(code: string)
    ensures IsSupported(code) <==> code in SupportedKeys
  {
    Lookup(code).Some?
  }

  lemma SupportedKeysSpec()
    ensures SupportedKeys == ["EPSG:3857", "EPSG:4326"]
    ensures NoDuplicates(SupportedKeys)
    ensures forall c :: IsSupported(c) <==> c == "EPSG:3857" || c == "EPSG:4326"
  {
  }

  /** `usable`: the fetched codes that have a table entry, in their order. */
  function Usable(list: seq<string>): (r: seq<string>)
    ensures forall c :: c in r <==> c in list && IsSupported(c)
    ensures IsSubsequence(r, list)
  {
    FilterIsSubsequence(list, IsSupported);
    Filter(list, IsSupported)
  }

  /** What a settled fetch offers: the list of options and whether the
      advisory message is shown. */
  datatype Offer = Offer(options: seq<string>, advisory: bool)

  /** `finalList` and the `!usable.length` test: the usable codes when there
      are any, otherwise every key of the table with the advisory. */
  function OfferFor(list: seq<string>): (o: Offer)
    ensures |o.options| > 0
    ensures forall c :: c in o.options ==> IsSupported(c)
    ensures o.advisory <==> forall c :: c in list ==> !IsSupported(c)
    ensures o.advisory ==> o.options == SupportedKeys
    ensures !o.advisory ==> forall c :: c in o.options <==> c in list && IsSupported(c)
    ensures !o.advisory ==> IsSubsequence(o.options, list)
  {
    var usable := Usable(list);
    assert |usable| > 0 ==> usable[0] in usable;
    if |usable| > 0 then Offer(usable, false) else Offer(SupportedKeys, true)
  }

  /** `SUPPORTED_EPSG[code] || L.CRS.EPSG3857` */
  function Resolve(code: string): (crs: Crs)
    ensures IsSupported(code) ==> (code, crs) in SupportedTable
    ensures !IsSupported(code) ==> crs == DefaultCrs
    ensures crs == EPSG4326 <==> code == "EPSG:4326"
  {
    match Lookup(code)
    case Some(c) => c
    case None => DefaultCrs
  }

  /** Both codes of the worked example are supported, so they are offered
      as they are, without the advisory. */
  lemma OfferExample()
    ensures OfferFor(["EPSG:4326", "EPSG:3857"]) == Offer(["EPSG:4326", "EPSG:3857"], false)
  {
    var list := ["EPSG:4326", "EPSG:3857"];
    SupportedKeysSpec();
    FilterKeepsAll(list, IsSupported);
  }
}
