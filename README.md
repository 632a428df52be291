# Inkwake heritage guide — verified model of the decision logic

This project is a Dafny model of the logic inside the Inkwake Tamil heritage
tour guide, a FastAPI application. It covers five parts:

- **Landmark recognition** (`vision_engine.dfy`). The ORB / FLANN / RANSAC
  pipeline of `VisionEngine.process_and_match` and `identify_landmark`.
  - The OpenCV calls (decode, read, detect, knn, homography) are oracle
    functions.
  - What is modelled and proved is the logic around them: the decode and
    keypoint gates, the extension filter, Lowe's ratio test written as
    `4·d1 < 3·d2`, the "more than 15 good matches" gate, the inlier count, the
    strict-greater running best and the "more than 20" threshold.
  - The loops are imperative methods, each proved against a specification
    function:
    - the ratio-test loop `RatioTest` against `Kept`;
    - one iteration, `CompareEntry`, against `Assess`;
    - the library scan `ScanLibrary`, and `ProcessAndMatch` around it,
      against `Identify`.
- **Scanner endpoints** (`recognition.dfy`). `scan_monument` classifies the
  engine's answer against the sites file. `get_scanner_status` counts the
  reference library.
- **Admin portal** (`admin.dfy`).
  - The session check and login.
  - The slug and gallery parsing.
  - The traveller registry and the site create / update / delete routes.
  - The two JSON list files are the fields of the class
    `Admin.HeritageVault`, and the routes are its methods.
- **Explorer page** (`explorer.dfy`). The sorted, de-duplicated dynasty
  buttons, the case-insensitive dynasty filter and the search. Also the
  fallback taken when reading or filtering raises.
- **Oracle chatbot** (`chatbot.dfy`).
  - The error reply of `ask_oracle`.
  - For `voice_guide`: voice selection, `" ".join(text.split())` clean-up,
    the empty-payload rejection and the speech outcomes.

There are four supporting modules:

- `base.dfy`: Option and Result.
- `text.dfy`: ASCII lower-casing, Python whitespace, `strip`, `split`/`join`,
  `split()` into words, `os.path.splitext` and lexicographic order.
- `seqs.dfy`: order-preserving filters, including a filter whose test can
  raise.
- `records.dfy`: the site and user records, a field that may be missing or
  null, and a list file that may be missing or unparsable.

Python exceptions are modelled as explicit outcomes:

- A `None` where `.lower()` reads a JSON null.
- `AnyAbsentId` where `s["id"]` raises `KeyError`.
- `Err(KnnRowNotPair)` where a kNN row cannot be unpacked into two
  neighbours.
- `Unparsable` where `json.load` raises.

## Model

| member | source | states |
|---|---|---|
| VisionEngine.ProcessAndMatch | app/services/vision_engine.py:21-79 | The result is exactly `Identify`. None when the query does not decode or has no descriptors or fewer than 10 keypoints. An error when some considered entry yields a kNN row that is not a pair. Otherwise the earliest best-scoring entry's id when its score exceeds 20. |
| VisionEngine.IdentifyLandmark | app/services/vision_engine.py:84-89 | The wrapper returns the engine's result unchanged. |
| VisionEngine.ScanLibrary | app/services/vision_engine.py:35-79 | The loop over the listing keeps a strict-greater running best. It is proved to return the threshold decision on the earliest maximum of the entry scores, or the error of a malformed row. |
| VisionEngine.CompareEntry | app/services/vision_engine.py:39-76 | One loop iteration equals `Assess`. Each early `continue` is a skip outcome worth 0. Homography is tried only with more than 15 good matches. |
| VisionEngine.RatioTest | app/services/vision_engine.py:59-63 | The appending loop builds exactly `Kept(matches, 3, 4)`. It aborts on a row that is not a pair. |
| VisionEngine.Kept | app/services/vision_engine.py:59-63 | The good matches exist exactly when every row holds two neighbours. There are never more good matches than rows. |
| VisionEngine.KeptIsNearestOfPassingRows | app/services/vision_engine.py:59-63 | The good matches are the nearest neighbours of the rows passing the ratio test, in row order. A kept row's second distance is positive, so a row whose second distance is 0 is never kept. |
| VisionEngine.TighterRatioKeepsFewer | app/services/vision_engine.py:62 | A stricter ratio keeps a subset of the rows and never more good matches. |
| VisionEngine.CountTrue | app/services/vision_engine.py:73 | The inlier count is the number of true entries of the mask, and so at most the mask's length. |
| VisionEngine.VerifiedEntryBounds | app/services/vision_engine.py:40-73 | Assume the homography oracle returns one flag per correspondence. Then an entry with a positive score is an image file, had at least 16 good matches, and has no more inliers than good matches. |
| VisionEngine.MaxOf | app/services/vision_engine.py:36-75 | The running best starting at 0 bounds every score and is 0 or one of them. |
| VisionEngine.SelectIsEarliestMaximum | app/services/vision_engine.py:74-79 | The result is None exactly when no score exceeds 20. An earliest maximal score above 20 gives that entry's id. A match always comes from an earliest maximum. |
| VisionEngine.IdentifyChoosesEarliestBest | app/services/vision_engine.py:35-79 | For a query that passes the gates, a match names the earliest entry in listing order with the highest verified count, and that count exceeds 20. |
| VisionEngine.EarliestMaxUnique | app/services/vision_engine.py:74-76 | At most one position is the earliest maximum, so the choice is well defined. |
| VisionEngine.RejectedQueryIgnoresLibrary | app/services/vision_engine.py:24-33 | A query that fails decoding or the keypoint gate gives None whatever the library holds. |
| VisionEngine.EmptyLibraryNeverMatches | app/services/vision_engine.py:35-79 | An empty listing never yields a match. |
| VisionEngine.SelectIgnoresZero | app/services/vision_engine.py:74-79 | Inserting a zero score anywhere does not change the decision, so an entry with count 0 is never chosen. |
| VisionEngine.SkippedEntryIsHarmless | app/services/vision_engine.py:39-57 | Inserting, anywhere in the listing, an entry that the loop skips before the ratio test leaves the result unchanged. The skipped entries are: not an image, unreadable, too few keypoints, or a failed kNN call. |
| VisionEngine.UnusableFileIsHarmless | app/services/vision_engine.py:40-47 | A name without an image extension, or a file that does not decode, changes nothing wherever it is listed. |
| VisionEngine.WeakReferenceIsHarmless | app/services/vision_engine.py:49-51 | A reference image without descriptors or with fewer than 10 keypoints changes nothing wherever it is listed. |
| VisionEngine.KnnFailureIsHarmless | app/services/vision_engine.py:54-57 | A reference whose `knnMatch` raises is skipped and the scan goes on. The result is as if the file were not listed. |
| VisionEngine.MatchedIdNamesAnImageFile | app/services/vision_engine.py:39-79 | A recognised id is the `splitext` stem of an image file of the listing, and it is never empty. |
| VisionEngine.ImageFileId | app/services/vision_engine.py:76 | For an image name without `/`, the id is the name without its last extension (`a.b.jpg` gives `a.b`), unless the name is only dots before it. |
| Recognition.ScanMonument | app/api/recognition.py:12-53 | There are four outcomes. A system failure exactly when the engine raises, or a truthy id meets an unparsable sites file. "Not recognized" exactly for a falsy id. Success only for a match that is published or has no sites file. A partial match, carrying the id and its message, exactly for a match that the existing file does not publish. |
| Recognition.ScanSucceedsOnPublishedMatch | app/api/recognition.py:32-49 | Success happens exactly when the engine matches an id and the file is missing or publishes it. The id then names an image file of the library. |
| Recognition.NotRecognizedIsNoMatch | app/api/recognition.py:25-29 | "Not recognized" is exactly the engine's None. |
| Recognition.GetScannerStatus | app/api/recognition.py:55-68 | The node name is fixed and `active` is always true. The count is 0 without a directory and at most the number of files otherwise. |
| Recognition.StatusCountsExactSuffixes | app/api/recognition.py:61-62 | The count is 0 for an empty directory. Each further name adds one exactly when it ends, case-sensitively, in `.jpg` or `.png`. |
| Recognition.StatusCountsOnlyEngineImages | app/api/recognition.py:62 | Every counted `.jpg`/`.png` file is one the engine compares. So the reported size is at most the engine's library size. |
| Recognition.StatusUndercountsLibrary | app/api/recognition.py:62 | The count is case-sensitive and omits `.jpeg`. `gate.JPG` and `tower.jpeg` are engine images, but none is counted. |
| Admin.AdminPassword | app/api/admin.py:21 | The password is the environment value when set, else `admin123`. |
| Admin.GetCurrentUser | app/api/admin.py:32-37 | Succeeds exactly when the `admin_session` cookie equals `authenticated`. Fails with 401 otherwise. |
| Admin.Login | app/api/admin.py:44-50 | Always a 303 redirect. The session cookie is set exactly when the password matches. Dashboard or error URL accordingly. |
| Admin.LoginGrantsSession | app/api/admin.py:32-50 | The cookie a login sets passes the session check exactly when the password was right. |
| Admin.SiteId | app/api/admin.py:182 | The slug is the name with each space replaced by `-` and every other character ASCII lower-cased. So it holds no spaces or upper-case letters. |
| Admin.SiteIdIdempotent | app/api/admin.py:182 | Slugging a slug changes nothing. |
| Admin.SiteIdCollides | app/api/admin.py:182 | Names equal up to ASCII case get the same id. |
| Admin.SiteIdDashesForSpaces | app/api/admin.py:182 | Writing dashes for spaces in a name does not change its id, so "Big Temple" and "Big-Temple" collide. |
| Admin.UploadFileName | app/api/admin.py:168-169 | The file name agrees with the slug character by character, except that spaces become `_` instead of `-`. It is followed by exactly the extension of the uploaded file's name. |
| Admin.CleanPiecesShape | app/api/admin.py:184 | The comprehension keeps at most one entry per piece, each non-empty and stripped. |
| Admin.CleanPiecesCommaFree | app/api/admin.py:184 | Comma-free pieces give comma-free entries. |
| Admin.ParseGalleryWellFormed | app/api/admin.py:184 | Gallery entries are non-empty, stripped and comma-free, at most one per comma-separated piece. An empty field gives an empty gallery. |
| Admin.GalleryRoundTrip | app/api/admin.py:184 | Parsing the comma-join of a well-formed gallery returns it, entry for entry and in order. |
| Admin.NewSiteRecord | app/api/admin.py:166-187 | The new record's id is the slug and its name is the form's name. An uploaded file wins the image. Otherwise a given `image_url` is stored verbatim, even when empty. Without upload or URL the image is null. |
| Admin.ApplyUpdate | app/api/admin.py:209-226 | An update keeps the record's id. It writes every other form field exactly as `add_site` would. The image is the upload when there is one; otherwise a truthy `image_url`; otherwise the old image stays. |
| Admin.UpdateAgreesWithNewRecord | app/api/admin.py:209-226 | With a new image, the update equals the new record that `add_site` would build, with the old id kept. |
| Admin.UpdatedSites | app/api/admin.py:208-226 | Same length as the input. Every record with the old id is updated; every other record is unchanged. |
| Admin.UpdateKeepsIds | app/api/admin.py:208-226 | The update keeps the list length and every id. Records with other ids are untouched. |
| Admin.UpdateIsIdempotent | app/api/admin.py:208-226 | Applying the same edit twice equals applying it once. |
| Admin.FirstWithId | app/api/admin.py:144 | The lookup finds a record exactly when one carries the id, and it returns the first such record. |
| Admin.FirstWithIdAt | app/api/admin.py:144 | The lookup returns the record at the first index carrying the id. |
| Admin.FirstWithIdOfPrefix | app/api/admin.py:144 | Appending records never changes a lookup that already succeeds. |
| Admin.EditPageSeesUpdate | app/api/admin.py:144 | After an update, the lookup returns the first matching record with the form applied. |
| Admin.AddedSiteIsShadowed | app/api/admin.py:181-187 | There is no duplicate-id check: after adding a clashing slug, the lookup still returns the older record. |
| Admin.AddedSiteIsFound | app/api/admin.py:181-187 | Without a clash, the lookup returns the appended record. |
| Admin.DeleteRemovesEveryMatch | app/api/admin.py:239 | After the filter, no record carries the id. Every other record stays, in order (a subsequence). |
| Admin.DeleteUserRemovesOnlyThatName | app/api/admin.py:118 | No traveller of that name remains. Every other traveller keeps their multiplicity. |
| Admin.HeritageVault.constructor | app/api/admin.py:27-29 | A missing users file is created as an empty list. |
| Admin.HeritageVault.LogUser | app/api/admin.py:89-110 | Appends the traveller at the end. A missing or corrupt file is replaced by a list holding just them. The status is `success`. The sites are unchanged. |
| Admin.HeritageVault.DeleteUser | app/api/admin.py:112-121 | 401 without a session. A corrupt file raises and is left alone. A missing file is left alone. Otherwise the file holds the filter that drops the name. |
| Admin.HeritageVault.ClearAllUsers | app/api/admin.py:123-128 | With a session, the users file becomes the empty list. Without one, nothing changes. |
| Admin.HeritageVault.EditSitePage | app/api/admin.py:137-153 | 401 without a session; a server error on a corrupt file. The edit form shows the first record with the id. The NotFound redirect happens exactly when the file is missing or holds no such record. |
| Admin.HeritageVault.AddSite | app/api/admin.py:155-191 | With a session, the file becomes the old records (or none when missing or corrupt) followed by exactly one new record. Users are unchanged. |
| Admin.HeritageVault.UpdateSite | app/api/admin.py:193-231 | The loop is proved to write back `UpdatedSites`. A record without an id raises before anything is written. A missing file gives a plain redirect. |
| Admin.HeritageVault.DeleteSite | app/api/admin.py:233-242 | With a session and a readable file, the file holds the records whose id differs. A corrupt file raises; a missing file is left alone. |
| Explorer.ExplorerHome | app/api/explorer.py:24-62 | `active_filter` is the dynasty when truthy, else `All`. The search query is echoed. When filtering raises, the page shows no sites and the placeholder buttons. |
| Explorer.CategoriesSortedSet | app/api/explorer.py:36-38 | The buttons are strictly ascending, hence without repeats, and are exactly the truthy categories. |
| Explorer.AscendingListIsUnique | app/api/explorer.py:36-38 | A strictly ascending list is determined by its elements, so `sorted(set(...))` has only one answer. |
| Explorer.ExplorerListsSelectedSites | app/api/explorer.py:28-57 | When nothing raises, the sites are the records passing the active filters, in archive order. A record is listed exactly when it is in the archive and selected. |
| Explorer.NullCategoryRaises | app/api/explorer.py:41-45 | An active dynasty filter that reads a null category raises. |
| Explorer.NullNameRaises | app/api/explorer.py:51-57 | A search that reads a null name of a record the dynasty filter kept raises. |
| Explorer.ExplorerFallsBack | app/api/explorer.py:59-62 | An unparsable archive, a null category under an active filter, or a null name under a search gives the fallback page. |
| Explorer.DynastyIgnoresCase | app/api/explorer.py:41-45 | Dynasties equal up to case show the same sites and buttons. |
| Explorer.NoFilterShowsArchive | app/api/explorer.py:41-47 | With no dynasty (or exactly `All`) and no search, the whole archive is listed and the active filter is `All`. |
| Chatbot.AskOracle | app/api/chatbot.py:29-55 | Success exactly when the engine answers, with the answer passed through. An error otherwise, with the greeting message. |
| Chatbot.OracleErrorHidesCause | app/api/chatbot.py:49-55 | The error reply does not depend on the exception and starts with `Vanakkam <username>`. |
| Chatbot.VoiceFor | app/api/chatbot.py:66 | The Tamil voice exactly when `lang == "ta"`; the English voice otherwise. |
| Chatbot.Normalize | app/api/chatbot.py:69 | The cleaned text is single-spaced and has the same words as the input. It is empty exactly when the input is all whitespace. |
| Chatbot.NormalizeIdempotent | app/api/chatbot.py:69 | Cleaning twice is cleaning once. |
| Chatbot.NormalizedHasNoOuterSpace | app/api/chatbot.py:69 | Cleaned text has no leading or trailing whitespace. |
| Chatbot.VoiceGuide | app/api/chatbot.py:59-93 | No speech call exactly for an all-whitespace text, answered with `400: Text payload empty`. The call carries the cleaned text and chosen voice. The audio URL only when the file is written. A TTS failure gives `Voice Node Offline` with its message; a missing file gives the IO failure. |
| Chatbot.VoiceGuideSeesOnlyWords | app/api/chatbot.py:69-83 | Texts with the same words produce the same speech call and response. |
| Text.Words | app/api/chatbot.py:69 | `split()` yields non-empty whitespace-free words. There are none exactly for an all-whitespace string. |
| Text.WordsOfJoin | app/api/chatbot.py:69 | Splitting the single-space join of words gives the words back. |
| Text.Split | app/api/admin.py:184 | `split(",")` yields at least one piece and no piece holds the separator. |
| Text.JoinOfSplit | app/api/admin.py:184 | Joining the pieces of a split restores the string. |
| Text.SplitOfJoin | app/api/admin.py:184 | Splitting a join of separator-free pieces gives the pieces back. |
| Text.SplitExt | app/api/admin.py:168 | `splitext` splits the name into stem and extension. The extension is empty or a single dot-led component without `/`, and a non-empty name has a non-empty stem. |
| Text.SplitExtAtLastDot | app/services/vision_engine.py:76 | For a name without `/`, the extension starts at the last dot unless only dots precede it. |
| Text.LexLessTotal | app/api/explorer.py:36 | String order is total on distinct strings. With irreflexivity and transitivity, this makes `sorted` well defined. |
| Seqs.FilterOrFailIsFilter | app/api/explorer.py:42-45 | A comprehension whose test can raise, when it does not raise, is the ordinary order-preserving filter. |
| Seqs.Filter | app/api/admin.py:239 | A comprehension with an `if` keeps an order-preserving subsequence of its input, never longer than the input. |
| Seqs.FilterCounts | app/api/admin.py:118 | Every element that passes is kept as often as it occurs, and nothing else is kept. |
| Seqs.FilterMembers | app/api/admin.py:239 | A filtered list holds exactly the elements that pass. |

## Left out

- The OpenCV internals (image decoding, ORB detection, FLANN/LSH matching,
  RANSAC homography) are oracle functions. They are floating-point,
  randomised foreign code, and their geometry is not verified.
- File-system and JSON I/O is not modelled:
  - The directory listing and the loaded lists are given sequences, in
    `os.listdir` order.
  - A JSON file is missing, unparsable or a list of records.
  - The `shutil` upload copy and the writes back are not modelled.
  - Keys beyond those the handlers read, and non-string values under
    `id`/`name`/`category`/`district`, are not represented.
- `log_user`'s `except` branch is not modelled. It answers for I/O errors and
  for a users file whose JSON is not a list, where `users.append` raises.
- Unicode case mapping and Unicode whitespace are not modelled.
  `lower()` is ASCII lower-casing. `split()` uses the ASCII whitespace set
  (including `\x1c`–`\x1f`).
- Clocks and randomness are parameters:
  - The timestamp of `log_user`.
  - The `uuid4().hex[:8]` token of the audio file name.
- The Edge-TTS service is the `TtsOutcome` parameter. The AI engine behind
  `ask_oracle` is a `Result` parameter; its retrieval and failover are not
  modelled.
- The following are template or HTTP plumbing without decision logic and are
  not modelled:
  - `login_page`, `logout`, `admin_dashboard`, `add_site_page`.
  - `get_sites_json`.
  - `clear_audio_cache` with its `purge_files` background deletion.
  - Cookie attributes other than the value.
- Concurrency is not modelled: simultaneous requests rewriting the same file,
  and the hourly cleanup thread of the application.
- The FastAPI exception responses are abstracted:
  - `Unauthorized` stands for the 401 `HTTPException`.
  - `ServerError` stands for an uncaught exception in an admin route.
- The `print` and `logger.error` calls in the `except` branches are not
  modelled; they only write diagnostics and do not change any response. They
  are at explorer.py:60, recognition.py:52 and chatbot.py:50, 82 and 92.
- Coordinates are `real` values. Float rounding is not modelled.
