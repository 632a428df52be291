/**
  * Landmark recognition (`VisionEngine.process_and_match` and its wrapper
  * `identify_landmark`). The OpenCV calls -- image decoding, ORB detection,
  * FLANN k=2 matching and RANSAC homography -- are given as oracles; what is
  * modelled is the decision logic around them: the decode and keypoint gates,
  * the extension filter, Lowe's ratio test, the "more than 15 good matches"
  * gate, the inlier count, the strict-greater running best over the directory
  * listing and the final "more than 20" acceptance threshold.
  */
module VisionEngine {
  import opened Base
  import opened Text
  import Seqs

  type Bytes = seq<bv8>

  /** A decoded single-channel raster; only the oracles look inside it. */
  datatype Image = Image(width: nat, height: nat, pixels: seq<bv8>)

  /** What `orb.detectAndCompute` returns: how many keypoints, and the descriptor matrix or None. */
  datatype FeatureSet = FeatureSet(keypointCount: nat, descriptors: Option<seq<seq<bv8>>>)

  /** One neighbour reported by `knnMatch`: query descriptor, reference descriptor, Hamming distance. */
  datatype DMatch = DMatch(queryIdx: nat, trainIdx: nat, distance: nat)

  /**
    * The foreign calls. `knn` is None when `knnMatch` raises; `homography` is
    * the RANSAC inlier mask (one flag per correspondence), None when OpenCV
    * returns no mask.
    */
  datatype Oracles = Oracles(
    decode: Bytes -> Option<Image>,
    read: string -> Option<Image>,
    detect: Image -> FeatureSet,
    knn: (FeatureSet, FeatureSet) -> Option<seq<seq<DMatch>>>,
    homography: (FeatureSet, FeatureSet, seq<DMatch>) -> Option<seq<bool>>)

  /** The value `process_and_match` returns: None, or the id of the recognised site. */
  datatype Recognition = NoMatch | Matched(siteId: string)

  /** The exception that escapes `process_and_match`: a kNN row that is not a pair (tuple unpacking fails). */
  datatype EngineError = KnnRowNotPair

  const MinKeypoints: nat := 10
  /** `len(good_matches) > 15` */
  const MinGoodMatches: nat := 16
  /** `max_verified_matches > 20` */
  const AcceptThreshold: nat := 20
  /** Lowe's ratio 0.75 as 3/4 */
  const RatioNum: nat := 3
  const RatioDen: nat := 4
  const ReferenceDir := "static/reference_monuments/"

  /** The library's file filter: the lower-cased name ends in .jpg, .png or .jpeg. */
  predicate IsImageName(name: string) {
    var l := Lower(name);
    EndsWith(l, ".jpg") || EndsWith(l, ".png") || EndsWith(l, ".jpeg")
  }

  /** `os.path.splitext(filename)[0]`: the site id a reference file stands for. */
  function SiteIdOf(filename: string): string {
    SplitExt(filename).0
  }

  /** A feature set the engine is willing to match: descriptors present and at least 10 keypoints. */
  predicate Sufficient(f: FeatureSet) {
    f.descriptors.Some? && f.keypointCount >= MinKeypoints
  }

  /** The query's features when it decodes and passes the keypoint gate. */
  function QueryFeatures(o: Oracles, query: Bytes): Option<FeatureSet> {
    match o.decode(query)
    case None => None
    case Some(img) =>
      var f := o.detect(img);
      if Sufficient(f) then Some(f) else None
  }

  // ---------------------------------------------------------------------
  // Lowe's ratio test
  // ---------------------------------------------------------------------

  /** A two-neighbour row whose nearest distance is below num/den of the second. */
  predicate PassesRatio(row: seq<DMatch>, num: nat, den: nat) {
    |row| == 2 && den * row[0].distance < num * row[1].distance
  }

  /**
    * The good matches of the ratio test with ratio num/den: the nearest
    * neighbour of each passing row, in row order. None when some row does not
    * hold exactly two neighbours.
    */
  function Kept(rows: seq<seq<DMatch>>, num: nat, den: nat): (r: Option<seq<DMatch>>)
    ensures r.Some? <==> forall k :: 0 <= k < |rows| ==> |rows[k]| == 2
    ensures r.Some? ==> |r.value| <= |rows|
    decreases |rows|
  {
    if rows == [] then Some([])
    else
      var init := rows[..|rows| - 1];
      var row := rows[|rows| - 1];
      assert forall k :: 0 <= k < |init| ==> init[k] == rows[k];
      match Kept(init, num, den)
      case None => None
      case Some(good) =>
        if |row| != 2 then None
        else if den * row[0].distance < num * row[1].distance then Some(good + [row[0]])
        else Some(good)
  }

  /** The nearest neighbour of every row. */
  function Nearest(rows: seq<seq<DMatch>>): (ms: seq<DMatch>)
    requires forall k :: 0 <= k < |rows| ==> |rows[k]| >= 1
    ensures |ms| == |rows|
    ensures forall k :: 0 <= k < |rows| ==> ms[k] == rows[k][0]
  {
    seq(|rows|, k requires 0 <= k < |rows| => rows[k][0])
  }

  // ---------------------------------------------------------------------
  // One reference entry
  // ---------------------------------------------------------------------

  /** Why a reference entry was skipped, or how many inliers it verified. */
  datatype EntryOutcome =
    | NotAnImage
    | Unreadable
    | TooFewKeypoints
    | KnnFailed
    | MalformedRow
    | TooFewGoodMatches(good: nat)
    | NoMask(good: nat)
    | Verified(good: nat, inliers: nat)
  {
    /** What the entry offers to the running best: its inliers, or 0 when skipped. */
    function Score(): nat {
      if Verified? then inliers else 0
    }
  }

  /** `np.sum(mask)` over a 0/1 mask. */
  function CountTrue(mask: seq<bool>): (n: nat)
    ensures n <= |mask|
    ensures n == multiset(mask)[true]
  {
    assert mask != [] ==> mask == [mask[0]] + mask[1..];
    if mask == [] then 0 else (if mask[0] then 1 else 0) + CountTrue(mask[1..])
  }

  /** One iteration of the library loop, for the reference file `name`. */
  function Assess(o: Oracles, qf: FeatureSet, name: string): EntryOutcome {
    if !IsImageName(name) then NotAnImage
    else
      match o.read(ReferenceDir + name)
      case None => Unreadable
      case Some(img) =>
        var rf := o.detect(img);
        if !Sufficient(rf) then TooFewKeypoints
        else
          match o.knn(qf, rf)
          case None => KnnFailed
          case Some(rows) =>
            match Kept(rows, RatioNum, RatioDen)
            case None => MalformedRow
            case Some(good) =>
              if |good| < MinGoodMatches then TooFewGoodMatches(|good|)
              else
                match o.homography(qf, rf, good)
                case None => NoMask(|good|)
                case Some(mask) => Verified(|good|, CountTrue(mask))
  }

  /** The score of every entry of the listing, in listing order. */
  function ScoresOf(o: Oracles, qf: FeatureSet, names: seq<string>): (cs: seq<nat>)
    ensures |cs| == |names|
    ensures forall i :: 0 <= i < |names| ==> cs[i] == Assess(o, qf, names[i]).Score()
  {
    seq(|names|, i requires 0 <= i < |names| => Assess(o, qf, names[i]).Score())
  }

  /** Some entry of the listing reaches the ratio test with a kNN row that is not a pair. */
  predicate AnyMalformed(o: Oracles, qf: FeatureSet, names: seq<string>) {
    exists i :: 0 <= i < |names| && Assess(o, qf, names[i]).MalformedRow?
  }

  // ---------------------------------------------------------------------
  // Best-of selection
  // ---------------------------------------------------------------------

  /** The running maximum, starting from 0 and replaced only on strictly larger scores. */
  function MaxOf(cs: seq<nat>): (m: nat)
    ensures forall i :: 0 <= i < |cs| ==> cs[i] <= m
    ensures m == 0 || m in cs
  {
    if cs == [] then 0
    else
      var init := cs[..|cs| - 1];
      assert forall i :: 0 <= i < |init| ==> init[i] == cs[i];
      var m := MaxOf(init);
      if cs[|cs| - 1] > m then cs[|cs| - 1] else m
  }

  /** The first position holding `x`. */
  function FirstIndexOf(cs: seq<nat>, x: nat): (k: nat)
    requires x in cs
    ensures k < |cs| && cs[k] == x
    ensures forall j :: 0 <= j < k ==> cs[j] != x
  {
    var init := cs[..|cs| - 1];
    assert forall j :: 0 <= j < |init| ==> init[j] == cs[j];
    if x in init then FirstIndexOf(init, x) else |cs| - 1
  }

  /** `k` is the earliest position of a maximal score. */
  predicate IsEarliestMax(cs: seq<nat>, k: int) {
    && 0 <= k < |cs|
    && (forall j :: 0 <= j < |cs| ==> cs[j] <= cs[k])
    && (forall j :: 0 <= j < k ==> cs[j] < cs[k])
  }

  /** The threshold decision on the best score and the id of the entry that first reached it. */
  function Select(names: seq<string>, cs: seq<nat>): Recognition
    requires |names| == |cs|
  {
    var best := MaxOf(cs);
    if best > AcceptThreshold then Matched(SiteIdOf(names[FirstIndexOf(cs, best)])) else NoMatch
  }

  /** The outcome of `process_and_match(query)` against the directory listing `listing`. */
  function Identify(o: Oracles, query: Bytes, listing: seq<string>): Result<Recognition, EngineError> {
    match QueryFeatures(o, query)
    case None => Ok(NoMatch)
    case Some(qf) =>
      if AnyMalformed(o, qf, listing) then Err(KnnRowNotPair)
      else Ok(Select(listing, ScoresOf(o, qf, listing)))
  }

  // ---------------------------------------------------------------------
  // The imperative engine
  // ---------------------------------------------------------------------

  /** The ratio-test loop: `good_matches` built by appending, aborting on a row that is not a pair. */
  method RatioTest(matches: seq<seq<DMatch>>) returns (good: Option<seq<DMatch>>)
    ensures good == Kept(matches, RatioNum, RatioDen)
  {
    var acc: seq<DMatch> := [];
    for i := 0 to |matches|
      invariant Kept(matches[..i], RatioNum, RatioDen) == Some(acc)
    {
      var row := matches[i];
      assert matches[..i + 1][..i] == matches[..i];
      if |row| != 2 {
        assert !Kept(matches[..i + 1], RatioNum, RatioDen).Some?;
        return None;
      }
      var m, n := row[0], row[1];
      if RatioDen * m.distance < RatioNum * n.distance {
        acc := acc + [m];
      }
    }
    assert matches[..|matches|] == matches;
    good := Some(acc);
  }

  /** How the running best changes when one more score is seen. */
  lemma BestAfterOneMore(cs: seq<nat>, s: nat)
    ensures MaxOf(cs + [s]) == if s > MaxOf(cs) then s else MaxOf(cs)
    ensures s > MaxOf(cs) ==> FirstIndexOf(cs + [s], s) == |cs|
    ensures s <= MaxOf(cs) && MaxOf(cs) > 0 ==> FirstIndexOf(cs + [s], MaxOf(cs)) == FirstIndexOf(cs, MaxOf(cs))
  {
    assert (cs + [s])[..|cs|] == cs;
  }

  /** Extending the scanned prefix of the listing by one entry. */
  lemma PrefixStep(o: Oracles, qf: FeatureSet, listing: seq<string>, i: nat)
    requires i < |listing|
    ensures ScoresOf(o, qf, listing[..i + 1]) == ScoresOf(o, qf, listing[..i]) + [Assess(o, qf, listing[i]).Score()]
    ensures AnyMalformed(o, qf, listing[..i + 1]) <==> AnyMalformed(o, qf, listing[..i]) || Assess(o, qf, listing[i]).MalformedRow?
  {
    var pre := listing[..i];
    assert listing[..i + 1] == pre[..i] + [listing[i]] + pre[i..];
    Seqs.InsertedAtSlices(pre, i, listing[i]);
    InsertedMalformed(o, qf, pre, listing[..i + 1], i, listing[i]);
  }

  /** The body of the library loop for one file: each early `continue` of the source becomes a skip outcome. */
  method CompareEntry(o: Oracles, qf: FeatureSet, filename: string) returns (outcome: EntryOutcome)
    ensures outcome == Assess(o, qf, filename)
  {
    if !IsImageName(filename) {
      return NotAnImage;
    }
    var refImg := o.read(ReferenceDir + filename);
    if refImg.None? {
      return Unreadable;
    }
    var rf := o.detect(refImg.value);
    if rf.descriptors.None? || rf.keypointCount < MinKeypoints {
      return TooFewKeypoints;
    }
    var matches := o.knn(qf, rf);
    if matches.None? {
      return KnnFailed;
    }
    var good := RatioTest(matches.value);
    if good.None? {
      return MalformedRow;
    }
    if |good.value| > 15 {
      var mask := o.homography(qf, rf, good.value);
      if mask.Some? {
        return Verified(|good.value|, CountTrue(mask.value));
      }
      return NoMask(|good.value|);
    }
    return TooFewGoodMatches(|good.value|);
  }

  /** The library scan of `process_and_match`, once the query has passed its gates. */
  method ScanLibrary(o: Oracles, qf: FeatureSet, listing: seq<string>)
    returns (r: Result<Recognition, EngineError>)
    ensures r == if AnyMalformed(o, qf, listing) then Err(KnnRowNotPair) else Ok(Select(listing, ScoresOf(o, qf, listing)))
  {
    var bestMatchId: Option<string> := None;
    var maxVerified: nat := 0;
    for i := 0 to |listing|
      invariant !AnyMalformed(o, qf, listing[..i])
      invariant maxVerified == MaxOf(ScoresOf(o, qf, listing[..i]))
      invariant maxVerified > 0 ==>
        bestMatchId == Some(SiteIdOf(listing[FirstIndexOf(ScoresOf(o, qf, listing[..i]), maxVerified)]))
    {
      var filename := listing[i];
      var outcome := CompareEntry(o, qf, filename);
      PrefixStep(o, qf, listing, i);
      BestAfterOneMore(ScoresOf(o, qf, listing[..i]), outcome.Score());
      if outcome.MalformedRow? {
        return Err(KnnRowNotPair);
      }
      if outcome.Verified? && outcome.inliers > maxVerified {
        maxVerified := outcome.inliers;
        bestMatchId := Some(SiteIdOf(filename));
      }
    }
    assert listing[..|listing|] == listing;
    if maxVerified > AcceptThreshold {
      r := Ok(Matched(bestMatchId.value));
    } else {
      r := Ok(NoMatch);
    }
  }

  /**
    * `process_and_match`: decode and gate the query, then scan the listing
    * keeping the first entry with the strictly largest inlier count, and
    * accept it only above the threshold.
    */
  method ProcessAndMatch(o: Oracles, queryBytes: Bytes, listing: seq<string>)
    returns (r: Result<Recognition, EngineError>)
    ensures r == Identify(o, queryBytes, listing)
  {
    var queryImg := o.decode(queryBytes);
    if queryImg.None? {
      return Ok(NoMatch);
    }
    var qf := o.detect(queryImg.value);
    if qf.descriptors.None? || qf.keypointCount < MinKeypoints {
      return Ok(NoMatch);
    }
    r := ScanLibrary(o, qf, listing);
  }

  /** `identify_landmark`: the module-level entry point over the single shared engine. */
  method IdentifyLandmark(o: Oracles, imageBytes: Bytes, listing: seq<string>)
    returns (r: Result<Recognition, EngineError>)
    ensures r == Identify(o, imageBytes, listing)
  {
    r := ProcessAndMatch(o, imageBytes, listing);
  }

  // ---------------------------------------------------------------------
  // Properties of the engine
  // ---------------------------------------------------------------------

  lemma EarliestMaxUnique(cs: seq<nat>, k1: int, k2: int)
    requires IsEarliestMax(cs, k1) && IsEarliestMax(cs, k2)
    ensures k1 == k2
  {
    assert cs[k1] <= cs[k2] && cs[k2] <= cs[k1];
  }

  /**
    * The threshold decision: no match exactly when every score is at most 20;
    * otherwise the id of the earliest entry holding the maximal score.
    */
  lemma SelectIsEarliestMaximum(names: seq<string>, cs: seq<nat>)
    requires |names| == |cs|
    ensures Select(names, cs) == NoMatch <==> forall j :: 0 <= j < |cs| ==> cs[j] <= AcceptThreshold
    ensures forall k :: IsEarliestMax(cs, k) && cs[k] > AcceptThreshold ==> Select(names, cs) == Matched(SiteIdOf(names[k]))
    ensures Select(names, cs).Matched? ==>
      exists k :: IsEarliestMax(cs, k) && cs[k] > AcceptThreshold && Select(names, cs).siteId == SiteIdOf(names[k])
  {
    var m := MaxOf(cs);
    if m > AcceptThreshold {
      var k0 := FirstIndexOf(cs, m);
      assert IsEarliestMax(cs, k0);
      forall k | IsEarliestMax(cs, k) && cs[k] > AcceptThreshold
        ensures Select(names, cs) == Matched(SiteIdOf(names[k]))
      {
        EarliestMaxUnique(cs, k, k0);
      }
    } else {
      forall k | IsEarliestMax(cs, k) ensures cs[k] <= AcceptThreshold {
      }
    }
  }

  /**
    * `process_and_match` on a query that passes its gates and a library with
    * well-formed kNN rows: None exactly when no entry verifies more than 20
    * inliers; otherwise the id of the first entry in listing order whose
    * inlier count is maximal (later entries with the same count lose).
    */
  lemma IdentifyChoosesEarliestBest(o: Oracles, query: Bytes, listing: seq<string>)
    requires QueryFeatures(o, query).Some?
    requires !AnyMalformed(o, QueryFeatures(o, query).value, listing)
    ensures var cs := ScoresOf(o, QueryFeatures(o, query).value, listing);
      && (Identify(o, query, listing) == Ok(NoMatch) <==> forall j :: 0 <= j < |cs| ==> cs[j] <= AcceptThreshold)
      && (forall k :: IsEarliestMax(cs, k) && cs[k] > AcceptThreshold ==>
            Identify(o, query, listing) == Ok(Matched(SiteIdOf(listing[k]))))
      && (Identify(o, query, listing).Ok? && Identify(o, query, listing).value.Matched? ==>
            exists k :: IsEarliestMax(cs, k) && cs[k] > AcceptThreshold
                     && Identify(o, query, listing).value.siteId == SiteIdOf(listing[k]))
  {
    SelectIsEarliestMaximum(listing, ScoresOf(o, QueryFeatures(o, query).value, listing));
  }

  /** A query that does not decode, or has no descriptors or fewer than 10 keypoints, yields None whatever the library holds. */
  lemma RejectedQueryIgnoresLibrary(o: Oracles, query: Bytes, listing1: seq<string>, listing2: seq<string>)
    requires QueryFeatures(o, query).None?
    ensures Identify(o, query, listing1) == Identify(o, query, listing2) == Ok(NoMatch)
  {
  }

  /** An empty library never yields a match. */
  lemma EmptyLibraryNeverMatches(o: Oracles, query: Bytes)
    ensures Identify(o, query, []) == Ok(NoMatch)
  {
  }

  /** A zero score inserted anywhere does not change the threshold decision. */
  lemma SelectIgnoresZero(names: seq<string>, cs: seq<nat>, names': seq<string>, cs': seq<nat>, p: nat, name: string)
    requires |names| == |cs|
    requires Seqs.InsertedAt(names, names', p, name) && Seqs.InsertedAt(cs, cs', p, 0)
    ensures Select(names', cs') == Select(names, cs)
  {
    if MaxOf(cs) <= AcceptThreshold {
      forall j | 0 <= j < |cs'| ensures cs'[j] <= AcceptThreshold {
        if j < p {
          assert cs'[j] == cs[j];
        } else if j > p {
          assert cs'[j] == cs[j - 1];
        }
      }
      SelectWhenAllBelow(names, cs);
      SelectWhenAllBelow(names', cs');
    } else {
      var k := FirstIndexOf(cs, MaxOf(cs));
      assert IsEarliestMax(cs, k);
      var k' := if k < p then k else k + 1;
      assert cs'[k'] == cs[k] && names'[k'] == names[k];
      forall j | 0 <= j < |cs'| ensures cs'[j] <= cs'[k'] && (j < k' ==> cs'[j] < cs'[k']) {
        if j < p {
          assert cs'[j] == cs[j];
        } else if j > p {
          assert cs'[j] == cs[j - 1];
        }
      }
      SelectAtEarliestMax(names, cs, k);
      SelectAtEarliestMax(names', cs', k');
    }
  }

  lemma SelectWhenAllBelow(names: seq<string>, cs: seq<nat>)
    requires |names| == |cs|
    requires forall j :: 0 <= j < |cs| ==> cs[j] <= AcceptThreshold
    ensures Select(names, cs) == NoMatch
  {
    SelectIsEarliestMaximum(names, cs);
  }

  lemma SelectAtEarliestMax(names: seq<string>, cs: seq<nat>, k: nat)
    requires |names| == |cs|
    requires IsEarliestMax(cs, k) && cs[k] > AcceptThreshold
    ensures Select(names, cs) == Matched(SiteIdOf(names[k]))
  {
    SelectIsEarliestMaximum(names, cs);
  }

  /** Scoring a listing with a skipped entry inserted inserts a zero score. */
  lemma InsertedScores(o: Oracles, qf: FeatureSet, listing: seq<string>, withName: seq<string>, p: nat, name: string)
    requires Seqs.InsertedAt(listing, withName, p, name)
    requires Assess(o, qf, name).Score() == 0
    ensures Seqs.InsertedAt(ScoresOf(o, qf, listing), ScoresOf(o, qf, withName), p, 0)
  {
  }

  /** Whether a listing with `name` inserted holds a malformed kNN row. */
  lemma InsertedMalformed(o: Oracles, qf: FeatureSet, listing: seq<string>, withName: seq<string>, p: nat, name: string)
    requires Seqs.InsertedAt(listing, withName, p, name)
    ensures AnyMalformed(o, qf, withName) <==> AnyMalformed(o, qf, listing) || Assess(o, qf, name).MalformedRow?
  {
    Seqs.InsertedExists(listing, withName, p, name, n => Assess(o, qf, n).MalformedRow?);
  }

  /** The entry outcomes that the library loop passes over with a `continue`, short of the ratio test. */
  predicate SkipsEarly(e: EntryOutcome) {
    e.NotAnImage? || e.Unreadable? || e.TooFewKeypoints? || e.KnnFailed?
  }

  /**
    * A file the engine skips before the ratio test -- no image extension, not
    * readable, too few keypoints, or a failing kNN call -- changes nothing,
    * wherever it sits in the listing.
    */
  lemma SkippedEntryIsHarmless(o: Oracles, query: Bytes, listing: seq<string>, p: nat, name: string)
    requires p <= |listing|
    requires QueryFeatures(o, query).Some? ==> SkipsEarly(Assess(o, QueryFeatures(o, query).value, name))
    ensures Identify(o, query, listing[..p] + [name] + listing[p..]) == Identify(o, query, listing)
  {
    var withName := listing[..p] + [name] + listing[p..];
    Seqs.InsertedAtSlices(listing, p, name);
    if QueryFeatures(o, query).Some? {
      var qf := QueryFeatures(o, query).value;
      InsertedScores(o, qf, listing, withName, p, name);
      InsertedMalformed(o, qf, listing, withName, p, name);
      SelectIgnoresZero(listing, ScoresOf(o, qf, listing), withName, ScoresOf(o, qf, withName), p, name);
    }
  }

  /** A name without an image extension, or a file that does not decode, changes nothing. */
  lemma UnusableFileIsHarmless(o: Oracles, query: Bytes, listing: seq<string>, p: nat, name: string)
    requires p <= |listing|
    requires !IsImageName(name) || o.read(ReferenceDir + name).None?
    ensures Identify(o, query, listing[..p] + [name] + listing[p..]) == Identify(o, query, listing)
  {
    SkippedEntryIsHarmless(o, query, listing, p, name);
  }

  /** A reference image without descriptors or with fewer than 10 keypoints changes nothing. */
  lemma WeakReferenceIsHarmless(o: Oracles, query: Bytes, listing: seq<string>, p: nat, name: string)
    requires p <= |listing|
    requires IsImageName(name) && o.read(ReferenceDir + name).Some?
    requires !Sufficient(o.detect(o.read(ReferenceDir + name).value))
    ensures Identify(o, query, listing[..p] + [name] + listing[p..]) == Identify(o, query, listing)
  {
    SkippedEntryIsHarmless(o, query, listing, p, name);
  }

  /** A reference whose `knnMatch` call raises is skipped and the scan goes on: it changes nothing. */
  lemma KnnFailureIsHarmless(o: Oracles, query: Bytes, listing: seq<string>, p: nat, name: string)
    requires p <= |listing|
    requires IsImageName(name) && o.read(ReferenceDir + name).Some?
    requires QueryFeatures(o, query).Some?
    requires o.knn(QueryFeatures(o, query).value, o.detect(o.read(ReferenceDir + name).value)).None?
    ensures Identify(o, query, listing[..p] + [name] + listing[p..]) == Identify(o, query, listing)
  {
    SkippedEntryIsHarmless(o, query, listing, p, name);
  }

  /** The recognised id is the stem of an image file of the listing, and never empty. */
  lemma MatchedIdNamesAnImageFile(o: Oracles, query: Bytes, listing: seq<string>, id: string)
    requires Identify(o, query, listing) == Ok(Matched(id))
    ensures exists k :: 0 <= k < |listing| && IsImageName(listing[k]) && id == SiteIdOf(listing[k])
    ensures id != ""
  {
    var qf := QueryFeatures(o, query).value;
    var cs := ScoresOf(o, qf, listing);
    var k := FirstIndexOf(cs, MaxOf(cs));
    assert Assess(o, qf, listing[k]).Score() > 0;
    assert IsImageName(listing[k]);
    assert |listing[k]| >= 4;
  }

  /** Length of the image extension `IsImageName` matched. */
  function ImageExtLen(name: string): nat {
    if EndsWith(Lower(name), ".jpeg") then 5 else 4
  }

  /** The matched extension is a dot followed by letters. */
  lemma ImageExtShape(name: string)
    requires IsImageName(name)
    ensures ImageExtLen(name) <= |name|
    ensures name[|name| - ImageExtLen(name)] == '.'
    ensures forall j :: |name| - ImageExtLen(name) < j < |name| ==> name[j] != '.'
  {
    var l := Lower(name);
    var e := ImageExtLen(name);
    var ext := l[|l| - e..];
    assert ext == ".jpeg" || ext == ".jpg" || ext == ".png";
    assert ext[0] == '.';
    assert forall j :: 0 < j < e ==> ext[j] != '.';
    forall j | |name| - e <= j < |name| ensures (name[j] == '.') == (j == |name| - e) {
      assert l[j] == ext[j - (|name| - e)];
      assert l[j] == LowerChar(name[j]);
    }
  }

  /**
    * The id derived from a listed image file is the file name without its
    * image extension, provided something other than dots precedes the
    * extension; a name like ".jpg" is its own id.
    */
  lemma ImageFileId(name: string)
    requires IsImageName(name) && '/' !in name
    ensures var e := ImageExtLen(name);
      && e <= |name|
      && ((exists i :: 0 <= i < |name| - e && name[i] != '.') ==> SiteIdOf(name) == name[..|name| - e])
      && ((forall i :: 0 <= i < |name| - e ==> name[i] == '.') ==> SiteIdOf(name) == name)
  {
    ImageExtShape(name);
    SplitExtAtLastDot(name, |name| - ImageExtLen(name));
  }

  /** Under a well-behaved homography oracle (one mask flag per correspondence). */
  ghost predicate MasksMatchCorrespondences(o: Oracles) {
    forall q, r, g :: o.homography(q, r, g).Some? ==> |o.homography(q, r, g).value| == |g|
  }

  /**
    * An entry scores only after more than 15 good matches, and its inlier
    * count never exceeds its good matches, which never exceed its kNN rows.
    */
  lemma VerifiedEntryBounds(o: Oracles, qf: FeatureSet, name: string)
    requires MasksMatchCorrespondences(o)
    requires Assess(o, qf, name).Score() > 0
    ensures IsImageName(name)
    ensures Assess(o, qf, name).Verified?
    ensures MinGoodMatches <= Assess(o, qf, name).good
    ensures Assess(o, qf, name).inliers <= Assess(o, qf, name).good
  {
    var img := o.read(ReferenceDir + name).value;
    var rf := o.detect(img);
    var good := Kept(o.knn(qf, rf).value, RatioNum, RatioDen).value;
    assert |o.homography(qf, rf, good).value| == |good|;
  }

  // ---------------------------------------------------------------------
  // Properties of the ratio test
  // ---------------------------------------------------------------------

  lemma NearestAppend(a: seq<seq<DMatch>>, b: seq<seq<DMatch>>)
    requires forall k :: 0 <= k < |a| ==> |a[k]| >= 1
    requires forall k :: 0 <= k < |b| ==> |b[k]| >= 1
    ensures forall k :: 0 <= k < |a + b| ==> |(a + b)[k]| >= 1
    ensures Nearest(a + b) == Nearest(a) + Nearest(b)
  {
  }

  /** Every row the filter keeps passes the ratio test, so its second distance is positive. */
  lemma PassingRows(rows: seq<seq<DMatch>>, num: nat, den: nat)
    ensures var passing := Seqs.Filter(rows, row => PassesRatio(row, num, den));
      forall k :: 0 <= k < |passing| ==> PassesRatio(passing[k], num, den) && passing[k][1].distance > 0
  {
    var keep := row => PassesRatio(row, num, den);
    var passing := Seqs.Filter(rows, keep);
    Seqs.FilterMembers(rows, keep);
    assert forall k :: 0 <= k < |passing| ==> passing[k] in passing;
  }

  /**
    * The good matches are the nearest neighbours of exactly the rows that
    * pass the ratio test, in row order; a row whose second distance is 0
    * never passes.
    */
  lemma {:induction false} KeptIsNearestOfPassingRows(rows: seq<seq<DMatch>>, num: nat, den: nat)
    requires Kept(rows, num, den).Some?
    ensures var passing := Seqs.Filter(rows, row => PassesRatio(row, num, den));
      && (forall k :: 0 <= k < |passing| ==> PassesRatio(passing[k], num, den) && passing[k][1].distance > 0)
      && Kept(rows, num, den).value == Nearest(passing)
    decreases |rows|
  {
    var keep := row => PassesRatio(row, num, den);
    PassingRows(rows, num, den);
    if rows != [] {
      var init := rows[..|rows| - 1];
      var last := rows[|rows| - 1];
      assert rows == init + [last];
      assert forall k :: 0 <= k < |init| ==> init[k] == rows[k];
      KeptIsNearestOfPassingRows(init, num, den);
      Seqs.FilterSnoc(init, last, keep);
      var tail := if keep(last) then [last] else [];
      NearestAppend(Seqs.Filter(init, keep), tail);
    }
  }

  lemma {:induction false} MulLess(c: nat, x: int, y: int)
    requires c > 0 && x < y
    ensures c * x < c * y
  {
    if c > 1 {
      MulLess(c - 1, x, y);
    }
  }

  lemma {:induction false} MulAtMost(c: nat, x: int, y: int)
    requires x <= y
    ensures c * x <= c * y
  {
    if c > 0 {
      MulAtMost(c - 1, x, y);
    }
  }

  /** num1/den1 <= num2/den2 and a/b < num1/den1 give a/b < num2/den2, cross-multiplied. */
  lemma RatioImplication(a: nat, b: nat, n1: nat, d1: nat, n2: nat, d2: nat)
    requires d1 > 0 && d2 > 0
    requires n1 * d2 <= n2 * d1
    requires d1 * a < n1 * b
    ensures d2 * a < n2 * b
  {
    MulLess(d2, d1 * a, n1 * b);
    MulAtMost(b, n1 * d2, n2 * d1);
    assert d1 * (d2 * a) < d1 * (n2 * b);
    if n2 * b <= d2 * a {
      MulAtMost(d1, n2 * b, d2 * a);
    }
  }

  /**
    * Tightening the ratio never adds good matches: with num1/den1 <= num2/den2,
    * every row passing the tighter test passes the looser one, and the
    * tighter test keeps at most as many matches.
    */
  lemma {:induction false} TighterRatioKeepsFewer(rows: seq<seq<DMatch>>, num1: nat, den1: nat, num2: nat, den2: nat)
    requires den1 > 0 && den2 > 0
    requires num1 * den2 <= num2 * den1
    requires Kept(rows, num1, den1).Some?
    ensures forall k :: 0 <= k < |rows| && PassesRatio(rows[k], num1, den1) ==> PassesRatio(rows[k], num2, den2)
    ensures |Kept(rows, num1, den1).value| <= |Kept(rows, num2, den2).value|
    decreases |rows|
  {
    forall k | 0 <= k < |rows| && PassesRatio(rows[k], num1, den1)
      ensures PassesRatio(rows[k], num2, den2)
    {
      RatioImplication(rows[k][0].distance, rows[k][1].distance, num1, den1, num2, den2);
    }
    if rows != [] {
      var init := rows[..|rows| - 1];
      assert forall k :: 0 <= k < |init| ==> init[k] == rows[k];
      TighterRatioKeepsFewer(init, num1, den1, num2, den2);
    }
  }
}
