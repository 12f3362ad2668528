/** The state of the `App` component: the offered codes (`epsgOptions`),
    the chosen code (`selectedEPSG`) and the advisory (`error`), changed by
    the outcome of the capability fetch and by the projection selector. The
    CRS and the map key are derived from the chosen code. */
module AppComponent {
  import opened Wrappers
  import opened Capabilities
  import opened SupportedCrs

  /** The two advisory messages: no usable code in the document, or the
      fetch (or a step after it) threw. */
  datatype Advisory = NoUsableCodes | FetchFailed

  /** How the request for the capability document ended: with a parsed
      document, or with an exception. */
  datatype FetchOutcome = Fetched(doc: Document) | Failed

  /** The code the selector starts on, before any fetch settles. */
  const InitialSelection: string := "EPSG:3857"

  class App {
    var options: seq<string>
    var selected: string
    var error: Option<Advisory>

    /** Every offered code has an entry in the supported table. */
    predicate Valid()
      reads this
    {
      forall i :: 0 <= i < |options| ==> IsSupported(options[i])
    }

    /** The selector has options: some fetch outcome has been applied. */
    predicate Settled()
      reads this
    {
      |options| > 0
    }

    /** The three `useState` initial values. */
    constructor ()
      ensures Valid() && !Settled()
      ensures options == [] && selected == InitialSelection && error == None
    {
      options := [];
      selected := InitialSelection;
      error := None;
    }

    /** The `try` branch of the effect after `fetchWmsCRS` returned `list`:
        offer the usable codes, or every supported key with the advisory;
        the error is left as it was when some code is usable. */
    method FetchSucceeded(list: seq<string>)
      modifies this
      ensures options == OfferFor(list).options
      ensures error == if OfferFor(list).advisory then Some(NoUsableCodes) else old(error)
      ensures selected == old(selected)
      ensures Valid() && Settled()
    {
      var usable := Usable(list);
      var finalList := if |usable| > 0 then usable else SupportedKeys;
      options := finalList;
      if |usable| == 0 {
        error := Some(NoUsableCodes);
      }
    }

    /** The `catch` branch of the effect: every supported key, and the
        fetch-failure advisory. */
    method FetchFailedWith()
      modifies this
      ensures options == SupportedKeys && error == Some(FetchFailed)
      ensures selected == old(selected)
      ensures Valid() && Settled()
    {
      options := SupportedKeys;
      error := Some(FetchFailed);
    }

    /** The whole effect: apply the outcome of the request. */
    method Mount(outcome: FetchOutcome)
      modifies this
      ensures outcome.Fetched? ==> options == OfferFor(ExtractCodes(outcome.doc)).options
      ensures outcome.Fetched? ==>
                error == if OfferFor(ExtractCodes(outcome.doc)).advisory then Some(NoUsableCodes) else old(error)
      ensures outcome.Failed? ==> options == SupportedKeys && error == Some(FetchFailed)
      ensures selected == old(selected)
      ensures Valid() && Settled()
    {
      match outcome
      case Fetched(doc) => FetchSucceeded(ExtractCodes(doc));
      case Failed => FetchFailedWith();
    }

    /** The selector's `onChange`: choose `code`; nothing else changes. */
    method Select(code: string)
      modifies this
      ensures selected == code && options == old(options) && error == old(error)
      ensures MapKey() != old(MapKey()) <==> code != old(selected)
      ensures old(Valid()) && code in old(options) ==> (code, CurrentCrs()) in SupportedTable
    {
      selected := code;
    }

    /** The `useMemo` CRS: the table entry of the chosen code, or the default. */
    function CurrentCrs(): (crs: Crs)
      reads this
      ensures IsSupported(selected) ==> (selected, crs) in SupportedTable
      ensures !IsSupported(selected) ==> crs == DefaultCrs
    {
      Resolve(selected)
    }

    /** `mapKey`: the identity the map container is re-created under. */
    function MapKey(): string
      reads this
    {
      selected
    }
  }
}
