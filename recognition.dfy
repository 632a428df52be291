/**
  * The scanner endpoints: `scan_monument` classifies what the vision engine
  * reports against the published sites, and `get_scanner_status` counts the
  * reference library.
  */
module Recognition {
  import opened Base
  import opened Text
  import opened Seqs
  import opened Records
  import opened VisionEngine

  const NotRecognized := "Landmark not recognized. Please adjust your angle or lighting."
  const SystemFailure := "System failure during image processing."
  const Verification := "Geometric Match Confirmed"
  const NodeName := "Inkwake Vision v2.5"

  /** The JSON body `scan_monument` answers with, by its `status` field. */
  datatype ScanResponse =
    | ScanError(message: string)
    | PartialMatch(message: string, siteId: string)
    | ScanSuccess(siteId: string, verification: string)

  function PartialMessage(id: string): string {
    "Landmark identified as " + id + ", but the digital scroll is not yet published."
  }

  /** The site id the engine returned, when it is truthy. */
  function RecognizedId(r: Recognition): Option<string> {
    if r.Matched? && r.siteId != "" then Some(r.siteId) else None
  }

  /** Some record of the sites file carries `id` under its `"id"` key. */
  predicate Published(sites: seq<Site>, id: string) {
    exists k :: 0 <= k < |sites| && sites[k].id == Text(id)
  }

  /**
    * `scan_monument` for the uploaded bytes `contents`, the reference
    * library `listing` and the sites file `data`. An exception from the
    * engine or from `json.load` is caught as a system failure; the sites file
    * is consulted only after a truthy id, and a missing file means success.
    */
  function ScanMonument(o: Oracles, contents: Bytes, listing: seq<string>, data: Store<Site>): (resp: ScanResponse)
    ensures resp == ScanError(SystemFailure) <==>
      Identify(o, contents, listing).Err?
      || (RecognizedId(Identify(o, contents, listing).value).Some? && data.Unparsable?)
    ensures resp == ScanError(NotRecognized) <==>
      Identify(o, contents, listing).Ok? && RecognizedId(Identify(o, contents, listing).value).None?
    ensures resp.ScanSuccess? ==>
      && Identify(o, contents, listing) == Ok(Matched(resp.siteId))
      && resp.verification == Verification
      && (data.NoFile? || (data.Records? && Published(data.items, resp.siteId)))
    ensures resp.PartialMatch? ==>
      && Identify(o, contents, listing) == Ok(Matched(resp.siteId))
      && resp.message == PartialMessage(resp.siteId)
      && data.Records? && !Published(data.items, resp.siteId)
    ensures Identify(o, contents, listing).Ok? && RecognizedId(Identify(o, contents, listing).value).Some?
            && data.Records? && !Published(data.items, RecognizedId(Identify(o, contents, listing).value).value) ==>
      var id := RecognizedId(Identify(o, contents, listing).value).value;
      resp == PartialMatch(PartialMessage(id), id)
  {
    match Identify(o, contents, listing)
    case Err(_) => ScanError(SystemFailure)
    case Ok(r) =>
      match RecognizedId(r)
      case None => ScanError(NotRecognized)
      case Some(id) =>
        match data
        case NoFile => ScanSuccess(id, Verification)
        case Unparsable => ScanError(SystemFailure)
        case Records(sites) =>
          if Published(sites, id) then ScanSuccess(id, Verification) else PartialMatch(PartialMessage(id), id)
  }

  /**
    * The scan succeeds exactly when the engine picks an entry and the sites
    * file is missing or publishes that entry's id; the id names an image file
    * of the reference library.
    */
  lemma ScanSucceedsOnPublishedMatch(o: Oracles, contents: Bytes, listing: seq<string>, data: Store<Site>)
    ensures ScanMonument(o, contents, listing, data).ScanSuccess? <==>
      exists id :: Identify(o, contents, listing) == Ok(Matched(id))
                && (data.NoFile? || (data.Records? && Published(data.items, id)))
    ensures ScanMonument(o, contents, listing, data).ScanSuccess? ==>
      exists k :: 0 <= k < |listing| && IsImageName(listing[k])
               && ScanMonument(o, contents, listing, data).siteId == SiteIdOf(listing[k])
  {
    var r := Identify(o, contents, listing);
    if r.Ok? && r.value.Matched? {
      MatchedIdNamesAnImageFile(o, contents, listing, r.value.siteId);
    }
  }

  /** "Not recognized" is exactly the engine's None: an id it returns is never empty. */
  lemma NotRecognizedIsNoMatch(o: Oracles, contents: Bytes, listing: seq<string>, data: Store<Site>)
    ensures ScanMonument(o, contents, listing, data) == ScanError(NotRecognized) <==>
      Identify(o, contents, listing) == Ok(NoMatch)
  {
    var r := Identify(o, contents, listing);
    if r.Ok? && r.value.Matched? {
      MatchedIdNamesAnImageFile(o, contents, listing, r.value.siteId);
    }
  }

  // ---------------------------------------------------------------------
  // get_scanner_status
  // ---------------------------------------------------------------------

  /** The JSON body of `get_scanner_status`. */
  datatype ScannerStatus = ScannerStatus(node: string, referenceLibrarySize: nat, active: bool)

  /** The files the status endpoint counts: case-sensitive `.jpg` or `.png`. */
  predicate CountedReference(f: string) {
    EndsWith(f, ".jpg") || EndsWith(f, ".png")
  }

  /** `get_scanner_status`, where `listing` is `None` when the reference directory is missing. */
  function GetScannerStatus(listing: Option<seq<string>>): (st: ScannerStatus)
    ensures st.node == NodeName && st.active
    ensures listing.None? ==> st.referenceLibrarySize == 0
    ensures listing.Some? ==> st.referenceLibrarySize <= |listing.value|
  {
    match listing
    case None => ScannerStatus(NodeName, 0, true)
    case Some(files) => ScannerStatus(NodeName, |Filter(files, CountedReference)|, true)
  }

  /**
    * The status count is the number of names ending exactly in `.jpg` or
    * `.png`: none for an empty directory, and one more for each such name.
    */
  lemma StatusCountsExactSuffixes(files: seq<string>, f: string)
    ensures GetScannerStatus(Some([])).referenceLibrarySize == 0
    ensures GetScannerStatus(Some(files + [f])).referenceLibrarySize ==
      GetScannerStatus(Some(files)).referenceLibrarySize + (if EndsWith(f, ".jpg") || EndsWith(f, ".png") then 1 else 0)
  {
    FilterSnoc(files, f, CountedReference);
  }

  lemma LowerOfSuffix(s: string, suffix: string)
    requires EndsWith(s, suffix)
    ensures EndsWith(Lower(s), Lower(suffix))
  {
    var l := Lower(s);
    var n := |s| - |suffix|;
    assert forall i :: 0 <= i < |suffix| ==> l[n..][i] == LowerChar(s[n + i]) == LowerChar(suffix[i]);
  }

  /**
    * Every file the status endpoint counts is one the engine compares
    * against, so the reported library size never exceeds the number of files
    * the engine considers.
    */
  lemma StatusCountsOnlyEngineImages(files: seq<string>)
    ensures forall f :: CountedReference(f) ==> IsImageName(f)
    ensures GetScannerStatus(Some(files)).referenceLibrarySize <= |Filter(files, IsImageName)|
  {
    assert Lower(".jpg") == ".jpg" && Lower(".png") == ".png";
    forall f | CountedReference(f) ensures IsImageName(f) {
      if EndsWith(f, ".jpg") {
        LowerOfSuffix(f, ".jpg");
      } else {
        LowerOfSuffix(f, ".png");
      }
    }
    FilterLengthMonotone(files, CountedReference, IsImageName);
  }

  /** The count is not the engine's library: upper-case and `.jpeg` files are compared but not counted. */
  lemma StatusUndercountsLibrary()
    ensures IsImageName("gate.JPG") && IsImageName("tower.jpeg")
    ensures GetScannerStatus(Some(["gate.JPG", "tower.jpeg"])).referenceLibrarySize == 0
  {
    var a, b := "gate.JPG", "tower.jpeg";
    assert Lower(a)[4..] == ".jpg";
    assert Lower(b)[5..] == ".jpeg";
    assert a[4..] != ".jpg" && a[4..] != ".png";
    assert b[6..] != ".jpg" && b[6..] != ".png";
    assert Filter([b], CountedReference) == [];
    assert [a, b][1..] == [b];
  }
}
