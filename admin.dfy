/**
  * The admin portal: the session check, login, the traveller registry and
  * the create, update and delete operations on the heritage sites, over the
  * two JSON list files the portal rewrites.
  */
module Admin {
  import opened Base
  import opened Text
  import opened Seqs
  import opened Records

  const SessionValue := "authenticated"
  const DefaultPassword := "admin123"
  const Dashboard := "/admin/dashboard"
  const LoginFailed := "/admin/login?error=InvalidPassword"
  const EditNotFound := "/admin/dashboard?error=NotFound"
  const ImageUrlPrefix := "/static/images/"
  const SeeOther: nat := 303
  const Unauthenticated: nat := 401

  // ---------------------------------------------------------------------
  // Session and login
  // ---------------------------------------------------------------------

  /** `os.getenv("ADMIN_PASSWORD", "admin123")`, with `env` the variable's value if set. */
  function AdminPassword(env: Option<string>): (pwd: string)
    ensures env.None? ==> pwd == DefaultPassword
    ensures env.Some? ==> pwd == env.value
  {
    env.GetOr(DefaultPassword)
  }

  /** `get_current_user`, given the `admin_session` cookie if the request carries one: `Err(401)` when it is not "authenticated". */
  function GetCurrentUser(cookie: Option<string>): (r: Result<bool, nat>)
    ensures r.Ok? <==> cookie == Some(SessionValue)
    ensures r.Ok? ==> r.value
    ensures r.Err? ==> r.error == Unauthenticated
  {
    if cookie != Some(SessionValue) then Err(Unauthenticated) else Ok(true)
  }

  predicate Authorized(cookie: Option<string>) {
    GetCurrentUser(cookie).Ok?
  }

  /** A redirect and the `admin_session` cookie it sets, if any. */
  datatype LoginResponse = LoginResponse(location: string, status: nat, setCookie: Option<string>)

  /** `login(password)` against the configured password `adminPwd`. */
  function Login(password: string, adminPwd: string): (resp: LoginResponse)
    ensures resp.status == SeeOther
    ensures resp.setCookie.Some? <==> password == adminPwd
    ensures resp.location == (if password == adminPwd then Dashboard else LoginFailed)
  {
    if password == adminPwd then LoginResponse(Dashboard, SeeOther, Some(SessionValue))
    else LoginResponse(LoginFailed, SeeOther, None)
  }

  /** The cookie set by a login opens every guarded route exactly when the password was right. */
  lemma LoginGrantsSession(password: string, env: Option<string>)
    ensures Authorized(Login(password, AdminPassword(env)).setCookie) <==> password == AdminPassword(env)
    ensures env.None? ==> (Authorized(Login(password, AdminPassword(env)).setCookie) <==> password == "admin123")
  {
  }

  // ---------------------------------------------------------------------
  // Ids, upload names and galleries
  // ---------------------------------------------------------------------

  /** `name.lower().replace(" ", "-")`: the slug a new site is stored under. */
  function SiteId(name: string): (id: string)
    ensures |id| == |name|
    ensures forall i :: 0 <= i < |name| ==> id[i] == if name[i] == ' ' then '-' else LowerChar(name[i])
    ensures ' ' !in id
    ensures forall i :: 0 <= i < |id| ==> !('A' <= id[i] <= 'Z')
  {
    ReplaceChar(Lower(name), ' ', '-')
  }

  /** Slugging a slug changes nothing. */
  lemma SiteIdIdempotent(name: string)
    ensures SiteId(SiteId(name)) == SiteId(name)
  {
    var id := SiteId(name);
    assert forall i :: 0 <= i < |id| ==> LowerChar(id[i]) == id[i];
  }

  /** Names equal up to ASCII case share a slug. */
  lemma SiteIdCollides(n1: string, n2: string)
    requires Lower(n1) == Lower(n2)
    ensures SiteId(n1) == SiteId(n2)
  {
  }

  /** Writing dashes for spaces does not change the slug: "Big Temple" and "Big-Temple" collide. */
  lemma SiteIdDashesForSpaces(name: string)
    ensures SiteId(ReplaceChar(name, ' ', '-')) == SiteId(name)
  {
    assert LowerChar('-') == '-';
  }

  /** `f"{name.lower().replace(' ', '_')}{ext}"` with `ext` the extension of the uploaded file's name. */
  function UploadFileName(name: string, uploadName: string): (f: string)
    ensures |f| == |name| + |SplitExt(uploadName).1| && f[|name|..] == SplitExt(uploadName).1
    ensures forall i :: 0 <= i < |name| ==> f[i] == if name[i] == ' ' then '_' else SiteId(name)[i]
    ensures ' ' !in f[..|name|]
  {
    ReplaceChar(Lower(name), ' ', '_') + SplitExt(uploadName).1
  }

  /** `[u.strip() for u in parts if u.strip()]`. */
  function CleanPieces(parts: seq<string>): seq<string> {
    if parts == [] then []
    else
      var u := Strip(parts[0]);
      (if u != "" then [u] else []) + CleanPieces(parts[1..])
  }

  /** Every entry is non-empty and without outer whitespace. */
  predicate AllStripped(xs: seq<string>) {
    forall k :: 0 <= k < |xs| ==> xs[k] != "" && IsStripped(xs[k])
  }

  /** No entry holds a comma. */
  predicate CommaFree(xs: seq<string>) {
    forall k :: 0 <= k < |xs| ==> ',' !in xs[k]
  }

  /** One cleaning step: the first piece's stripped text, if any, followed by the rest cleaned. */
  lemma CleanPiecesUnfold(parts: seq<string>)
    requires parts != []
    ensures var u := Strip(parts[0]);
      CleanPieces(parts) == (if u != "" then [u] else []) + CleanPieces(parts[1..])
  {
  }

  /** Cleaning keeps at most one entry per piece, each non-empty and without outer whitespace. */
  lemma {:induction false} CleanPiecesShape(parts: seq<string>)
    ensures |CleanPieces(parts)| <= |parts|
    ensures AllStripped(CleanPieces(parts))
    decreases |parts|
  {
    if parts != [] {
      var rest := CleanPieces(parts[1..]);
      CleanPiecesShape(parts[1..]);
      var u := Strip(parts[0]);
      var head := if u != "" then [u] else [];
      CleanPiecesUnfold(parts);
      forall k | 0 <= k < |head + rest| ensures (head + rest)[k] != "" && IsStripped((head + rest)[k]) {
        if k >= |head| {
          assert (head + rest)[k] == rest[k - |head|];
        }
      }
    }
  }

  /** Comma-free pieces give comma-free entries. */
  lemma {:induction false} CleanPiecesCommaFree(parts: seq<string>)
    requires CommaFree(parts)
    ensures CommaFree(CleanPieces(parts))
    decreases |parts|
  {
    if parts != [] {
      var rest := CleanPieces(parts[1..]);
      assert CommaFree(parts[1..]) by {
        assert forall k :: 0 <= k < |parts[1..]| ==> parts[1..][k] == parts[k + 1];
      }
      CleanPiecesCommaFree(parts[1..]);
      var u := Strip(parts[0]);
      CleanPiecesUnfold(parts);
      if u != "" {
        assert ',' !in u by {
          assert ',' !in parts[0];
        }
        forall k | 0 <= k < |[u] + rest| ensures ',' !in ([u] + rest)[k] {
          if k > 0 {
            assert ([u] + rest)[k] == rest[k - 1];
          }
        }
      }
    }
  }

  /** The gallery a comma-separated `gallery_urls` field yields. */
  function ParseGallery(urls: string): seq<string> {
    CleanPieces(Split(urls, ','))
  }

  /** Every gallery entry the form yields is non-empty, stripped and comma-free; an empty field yields no gallery. */
  lemma ParseGalleryWellFormed(urls: string)
    ensures forall k :: 0 <= k < |ParseGallery(urls)| ==> GalleryEntry(ParseGallery(urls)[k])
    ensures |ParseGallery(urls)| <= |Split(urls, ',')|
    ensures urls == "" ==> ParseGallery(urls) == []
  {
    var parts := Split(urls, ',');
    var g := CleanPieces(parts);
    CleanPiecesShape(parts);
    CleanPiecesCommaFree(parts);
    forall k | 0 <= k < |g| ensures GalleryEntry(g[k]) {
      assert g[k] != "" && IsStripped(g[k]);
      assert ',' !in g[k];
    }
    if urls == "" {
      assert parts == [""];
      CleanPiecesUnfold(parts);
    }
  }

  /** A well-formed gallery entry: non-empty, without outer whitespace, without a comma. */
  predicate GalleryEntry(u: string) {
    u != "" && IsStripped(u) && ',' !in u
  }

  lemma {:induction false} CleanPiecesOfClean(parts: seq<string>)
    requires forall k :: 0 <= k < |parts| ==> GalleryEntry(parts[k])
    ensures CleanPieces(parts) == parts
    decreases |parts|
  {
    if parts != [] {
      StripOfStripped(parts[0]);
      CleanPiecesOfClean(parts[1..]);
      assert parts == [parts[0]] + parts[1..];
    }
  }

  /**
    * Writing a gallery back as `", "`-free comma-joined text and parsing it
    * gives the same gallery: the form round-trips every well-formed gallery.
    */
  lemma GalleryRoundTrip(gallery: seq<string>)
    requires forall k :: 0 <= k < |gallery| ==> GalleryEntry(gallery[k])
    ensures ParseGallery(Join(gallery, ',')) == gallery
  {
    if gallery == [] {
      assert Split("", ',') == [""];
    } else {
      SplitOfJoin(gallery, ',');
      CleanPiecesOfClean(gallery);
    }
  }

  // ---------------------------------------------------------------------
  // Site records
  // ---------------------------------------------------------------------

  /** The form fields of `add_site` and `update_site`; `upload` is the uploaded file's name, if a file came. */
  datatype SiteForm = SiteForm(
    name: string,
    category: string,
    district: string,
    historyText: string,
    culture: string,
    lat: real,
    lng: real,
    videoUrl: string,
    galleryUrls: string,
    imageUrl: Option<string>,
    upload: Option<string>)

  /** `/static/images/<slug>_<ext>` for an upload with a truthy file name. */
  function UploadedImage(form: SiteForm): Option<string> {
    if Truthy(form.upload) then Some(ImageUrlPrefix + UploadFileName(form.name, form.upload.value)) else None
  }

  /** The record `add_site` appends. */
  function NewSiteRecord(form: SiteForm): (s: Site)
    ensures s.id == Text(SiteId(form.name)) && s.name == Text(form.name)
    ensures UploadedImage(form).Some? ==> s.imageUrl == Text(UploadedImage(form).value)
    ensures UploadedImage(form).None? && form.imageUrl.Some? ==> s.imageUrl == Text(form.imageUrl.value)
    ensures UploadedImage(form).None? && form.imageUrl.None? ==> s.imageUrl == Null
  {
    var image :=
      match UploadedImage(form)
      case Some(path) => Text(path)
      case None => if form.imageUrl.Some? then Text(form.imageUrl.value) else Null;
    Site(Text(SiteId(form.name)), Text(form.name), Text(form.category), Text(form.district), image,
         ParseGallery(form.galleryUrls), form.videoUrl, form.historyText, form.culture,
         Coordinates(form.lat, form.lng))
  }

  /** The changes `update_site` makes to a matching record: its id stays, a falsy `image_url` keeps the old image. */
  function ApplyUpdate(s: Site, form: SiteForm): (u: Site)
    ensures u.id == s.id
    ensures u == NewSiteRecord(form).(id := s.id, imageUrl := u.imageUrl)
    ensures UploadedImage(form).Some? ==> u.imageUrl == Text(UploadedImage(form).value)
    ensures UploadedImage(form).None? && Truthy(form.imageUrl) ==> u.imageUrl == Text(form.imageUrl.value)
    ensures UploadedImage(form).None? && !Truthy(form.imageUrl) ==> u.imageUrl == s.imageUrl
  {
    var image :=
      match UploadedImage(form)
      case Some(path) => Text(path)
      case None => if Truthy(form.imageUrl) then Text(form.imageUrl.value) else s.imageUrl;
    s.(imageUrl := image, name := Text(form.name), category := Text(form.category),
       district := Text(form.district), historyText := form.historyText, culture := form.culture,
       videoUrl := form.videoUrl, gallery := ParseGallery(form.galleryUrls),
       coordinates := Coordinates(form.lat, form.lng))
  }

  /** With a new image, an update gives the record `add_site` would build from the same form, under the old id. */
  lemma UpdateAgreesWithNewRecord(s: Site, form: SiteForm)
    requires UploadedImage(form).Some? || Truthy(form.imageUrl)
    ensures ApplyUpdate(s, form) == NewSiteRecord(form).(id := s.id)
  {
  }

  function UpdateOne(s: Site, oldId: string, form: SiteForm): Site {
    if s.id == Text(oldId) then ApplyUpdate(s, form) else s
  }

  /** The list `update_site` writes back: every record with id `oldId` updated, the others as they were. */
  function UpdatedSites(sites: seq<Site>, oldId: string, form: SiteForm): (r: seq<Site>)
    ensures |r| == |sites|
    ensures forall k :: 0 <= k < |sites| ==> r[k] == UpdateOne(sites[k], oldId, form)
  {
    seq(|sites|, k requires 0 <= k < |sites| => UpdateOne(sites[k], oldId, form))
  }

  /** Some record lacks the `"id"` key, so `s["id"]` raises `KeyError`. */
  predicate AnyAbsentId(sites: seq<Site>) {
    exists k :: 0 <= k < |sites| && sites[k].id.Absent?
  }

  /** `next((s for s in sites if s.get("id") == site_id), None)`. */
  function FirstWithId(sites: seq<Site>, id: string): (r: Option<Site>)
    ensures r.Some? <==> exists k :: 0 <= k < |sites| && sites[k].id == Text(id)
    ensures r.Some? ==> exists k :: 0 <= k < |sites| && sites[k] == r.value && sites[k].id == Text(id)
                                   && forall j :: 0 <= j < k ==> sites[j].id != Text(id)
  {
    if sites == [] then None
    else if sites[0].id == Text(id) then Some(sites[0])
    else
      var r := FirstWithId(sites[1..], id);
      assert forall k :: 1 <= k < |sites| ==> sites[k] == sites[1..][k - 1];
      if r.Some? then
        var k :| 0 <= k < |sites[1..]| && sites[1..][k] == r.value && sites[1..][k].id == Text(id)
                 && forall j :: 0 <= j < k ==> sites[1..][j].id != Text(id);
        assert sites[k + 1] == r.value;
        r
      else r
  }

  /** The records `delete_site` keeps. */
  function OtherIds(id: string): Site -> bool {
    (s: Site) => s.id != Text(id)
  }

  /** The records `delete_user` keeps. */
  function OtherNames(username: string): User -> bool {
    (u: User) => u.name != Text(username)
  }

  // ---------------------------------------------------------------------
  // Properties of the record operations
  // ---------------------------------------------------------------------

  /** After `delete_site(id)` the edit page finds no site with that id, and every other record stays, in order. */
  lemma DeleteRemovesEveryMatch(sites: seq<Site>, id: string)
    ensures FirstWithId(Filter(sites, OtherIds(id)), id).None?
    ensures forall s :: s in Filter(sites, OtherIds(id)) <==> s in sites && s.id != Text(id)
    ensures IsSubsequence(Filter(sites, OtherIds(id)), sites)
  {
    var kept := Filter(sites, OtherIds(id));
    FilterMembers(sites, OtherIds(id));
    forall k | 0 <= k < |kept| ensures kept[k].id != Text(id) {
      assert kept[k] in kept;
    }
  }

  /** After `delete_user(username)` no traveller of that name is left, and everyone else stays, as often as before. */
  lemma DeleteUserRemovesOnlyThatName(users: seq<User>, username: string)
    ensures forall u :: u in Filter(users, OtherNames(username)) <==> u in users && u.name != Text(username)
    ensures forall u: User :: u.name != Text(username) ==> multiset(Filter(users, OtherNames(username)))[u] == multiset(users)[u]
  {
    FilterCounts(users, OtherNames(username));
    FilterMembers(users, OtherNames(username));
  }

  /**
    * `add_site` appends without checking for a clash: when a site with the
    * new slug already exists, the edit page keeps finding the old one.
    */
  lemma AddedSiteIsShadowed(sites: seq<Site>, form: SiteForm)
    requires FirstWithId(sites, SiteId(form.name)).Some?
    ensures FirstWithId(sites + [NewSiteRecord(form)], SiteId(form.name)) == FirstWithId(sites, SiteId(form.name))
  {
    FirstWithIdOfPrefix(sites, [NewSiteRecord(form)], SiteId(form.name));
  }

  /** With no clash, the edit page finds the record `add_site` appended. */
  lemma AddedSiteIsFound(sites: seq<Site>, form: SiteForm)
    requires FirstWithId(sites, SiteId(form.name)).None?
    ensures FirstWithId(sites + [NewSiteRecord(form)], SiteId(form.name)) == Some(NewSiteRecord(form))
  {
    var all := sites + [NewSiteRecord(form)];
    assert forall j :: 0 <= j < |sites| ==> all[j] == sites[j];
    FirstWithIdAt(all, SiteId(form.name), |sites|);
  }

  /** The lookup returns the record at the first index carrying the id. */
  lemma {:induction false} FirstWithIdAt(sites: seq<Site>, id: string, k: nat)
    requires k < |sites| && sites[k].id == Text(id)
    requires forall j :: 0 <= j < k ==> sites[j].id != Text(id)
    ensures FirstWithId(sites, id) == Some(sites[k])
    decreases k
  {
    if k > 0 {
      assert sites[0].id != Text(id);
      FirstWithIdAt(sites[1..], id, k - 1);
    }
  }

  lemma {:induction false} FirstWithIdOfPrefix(a: seq<Site>, b: seq<Site>, id: string)
    requires FirstWithId(a, id).Some?
    ensures FirstWithId(a + b, id) == FirstWithId(a, id)
    decreases |a|
  {
    if a[0].id != Text(id) {
      assert (a + b)[1..] == a[1..] + b;
      FirstWithIdOfPrefix(a[1..], b, id);
    }
  }

  /** `update_site` leaves every id, and the number of records, as it was, so it never renames a page. */
  lemma UpdateKeepsIds(sites: seq<Site>, oldId: string, form: SiteForm)
    ensures |UpdatedSites(sites, oldId, form)| == |sites|
    ensures forall k :: 0 <= k < |sites| ==> UpdatedSites(sites, oldId, form)[k].id == sites[k].id
    ensures forall k :: 0 <= k < |sites| && sites[k].id != Text(oldId) ==> UpdatedSites(sites, oldId, form)[k] == sites[k]
  {
  }

  /** Submitting the same edit twice stores the same records as submitting it once. */
  lemma UpdateIsIdempotent(sites: seq<Site>, oldId: string, form: SiteForm)
    ensures UpdatedSites(UpdatedSites(sites, oldId, form), oldId, form) == UpdatedSites(sites, oldId, form)
  {
  }

  /** After an update the edit page shows the first matching record with the form applied. */
  lemma EditPageSeesUpdate(sites: seq<Site>, oldId: string, form: SiteForm)
    requires FirstWithId(sites, oldId).Some?
    ensures FirstWithId(UpdatedSites(sites, oldId, form), oldId) == Some(ApplyUpdate(FirstWithId(sites, oldId).value, form))
  {
    var us := UpdatedSites(sites, oldId, form);
    var k :| 0 <= k < |sites| && sites[k] == FirstWithId(sites, oldId).value && sites[k].id == Text(oldId)
             && forall j :: 0 <= j < k ==> sites[j].id != Text(oldId);
    assert forall j :: 0 <= j < k ==> us[j].id == sites[j].id;
    FirstWithIdAt(us, oldId, k);
  }

  // ---------------------------------------------------------------------
  // The portal and its files
  // ---------------------------------------------------------------------

  /** What a route of the portal answers. */
  datatype AdminPage =
    | Unauthorized
    | Redirect(url: string)
    | ServerError
    | EditForm(site: Site)

  /** The two list files the portal owns: `sites_info.json` and `users_info.json`. */
  class HeritageVault {
    var sitesFile: Store<Site>
    var usersFile: Store<User>

    /** Importing the router: the users file is created as an empty list when missing. */
    constructor (sites: Store<Site>, users: Store<User>)
      ensures sitesFile == sites
      ensures usersFile == (if users.NoFile? then Records([]) else users)
      ensures !usersFile.NoFile?
    {
      sitesFile := sites;
      usersFile := if users.NoFile? then Records([]) else users;
    }

    /**
      * `log_user`: appends the traveller with the given timestamp; a missing
      * or unreadable users file is replaced by a list holding just them.
      */
    method LogUser(name: string, email: string, phone: string, timestamp: string) returns (status: string)
      modifies this
      ensures status == "success"
      ensures usersFile == Records(old(usersFile).ItemsOrEmpty() + [User(Text(name), email, phone, timestamp)])
      ensures sitesFile == old(sitesFile)
    {
      var users := usersFile.ItemsOrEmpty();
      users := users + [User(Text(name), email, phone, timestamp)];
      usersFile := Records(users);
      status := "success";
    }

    /** `delete_user(username)`: removes every traveller whose name is `username`. */
    method DeleteUser(cookie: Option<string>, username: string) returns (page: AdminPage)
      modifies this
      ensures !Authorized(cookie) ==> page == Unauthorized && usersFile == old(usersFile)
      ensures Authorized(cookie) && old(usersFile).Unparsable? ==> page == ServerError && usersFile == old(usersFile)
      ensures Authorized(cookie) && old(usersFile).NoFile? ==> page == Redirect(Dashboard) && usersFile == old(usersFile)
      ensures Authorized(cookie) && old(usersFile).Records? ==>
        page == Redirect(Dashboard) && usersFile == Records(Filter(old(usersFile).items, OtherNames(username)))
      ensures sitesFile == old(sitesFile)
    {
      if GetCurrentUser(cookie).Err? {
        return Unauthorized;
      }
      match usersFile
      case NoFile =>
        page := Redirect(Dashboard);
      case Unparsable =>
        page := ServerError;
      case Records(users) =>
        usersFile := Records(Filter(users, OtherNames(username)));
        page := Redirect(Dashboard);
    }

    /** `clear_all_users`: the users file becomes an empty list. */
    method ClearAllUsers(cookie: Option<string>) returns (page: AdminPage)
      modifies this
      ensures !Authorized(cookie) ==> page == Unauthorized && usersFile == old(usersFile)
      ensures Authorized(cookie) ==> page == Redirect(Dashboard) && usersFile == Records([])
      ensures sitesFile == old(sitesFile)
    {
      if GetCurrentUser(cookie).Err? {
        return Unauthorized;
      }
      usersFile := Records([]);
      page := Redirect(Dashboard);
    }

    /** `edit_site_page(site_id)`: the first record with that id, or the not-found redirect. */
    function EditSitePage(cookie: Option<string>, siteId: string): (page: AdminPage)
      reads this
      ensures page == Unauthorized <==> !Authorized(cookie)
      ensures page == ServerError <==> Authorized(cookie) && sitesFile.Unparsable?
      ensures page.EditForm? ==>
        && sitesFile.Records? && page.site in sitesFile.items && page.site.id == Text(siteId)
        && page.site == FirstWithId(sitesFile.items, siteId).value
      ensures page == Redirect(EditNotFound) <==>
        Authorized(cookie) && (sitesFile.NoFile? || (sitesFile.Records? && !exists k :: 0 <= k < |sitesFile.items| && sitesFile.items[k].id == Text(siteId)))
    {
      if GetCurrentUser(cookie).Err? then Unauthorized
      else
        match sitesFile
        case Unparsable => ServerError
        case NoFile => Redirect(EditNotFound)
        case Records(sites) =>
          match FirstWithId(sites, siteId)
          case None => Redirect(EditNotFound)
          case Some(s) => EditForm(s)
    }

    /**
      * `add_site`: appends the new record; a missing or unreadable sites file
      * is replaced by a list holding just the new record.
      */
    method AddSite(cookie: Option<string>, form: SiteForm) returns (page: AdminPage)
      modifies this
      ensures !Authorized(cookie) ==> page == Unauthorized && sitesFile == old(sitesFile)
      ensures Authorized(cookie) ==>
        page == Redirect(Dashboard) && sitesFile == Records(old(sitesFile).ItemsOrEmpty() + [NewSiteRecord(form)])
      ensures usersFile == old(usersFile)
    {
      if GetCurrentUser(cookie).Err? {
        return Unauthorized;
      }
      var record := NewSiteRecord(form);
      sitesFile := Records(sitesFile.ItemsOrEmpty() + [record]);
      page := Redirect(Dashboard);
    }

    /**
      * `update_site(old_id)`: the loop over the records. A record without an
      * `"id"` key raises before anything is written back.
      */
    method UpdateSite(cookie: Option<string>, oldId: string, form: SiteForm) returns (page: AdminPage)
      modifies this
      ensures !Authorized(cookie) ==> page == Unauthorized && sitesFile == old(sitesFile)
      ensures Authorized(cookie) && old(sitesFile).NoFile? ==> page == Redirect(Dashboard) && sitesFile == old(sitesFile)
      ensures Authorized(cookie) && old(sitesFile).Unparsable? ==> page == ServerError && sitesFile == old(sitesFile)
      ensures Authorized(cookie) && old(sitesFile).Records? && AnyAbsentId(old(sitesFile).items) ==>
        page == ServerError && sitesFile == old(sitesFile)
      ensures Authorized(cookie) && old(sitesFile).Records? && !AnyAbsentId(old(sitesFile).items) ==>
        page == Redirect(Dashboard) && sitesFile == Records(UpdatedSites(old(sitesFile).items, oldId, form))
      ensures usersFile == old(usersFile)
    {
      if GetCurrentUser(cookie).Err? {
        return Unauthorized;
      }
      match sitesFile
      case NoFile =>
        return Redirect(Dashboard);
      case Unparsable =>
        return ServerError;
      case Records(sites) =>
        var updated: seq<Site> := [];
        for i := 0 to |sites|
          invariant sitesFile == old(sitesFile) && usersFile == old(usersFile)
          invariant !AnyAbsentId(sites[..i])
          invariant updated == UpdatedSites(sites[..i], oldId, form)
        {
          var s := sites[i];
          if s.id.Absent? {
            assert sites[i].id.Absent?;
            return ServerError;
          }
          if s.id == Text(oldId) {
            s := ApplyUpdate(s, form);
          }
          UpdatePrefixStep(sites, i, oldId, form);
          updated := updated + [s];
        }
        assert sites[..|sites|] == sites;
        sitesFile := Records(updated);
        page := Redirect(Dashboard);
    }

    /** `delete_site(site_id)`: removes every record with that id. */
    method DeleteSite(cookie: Option<string>, siteId: string) returns (page: AdminPage)
      modifies this
      ensures !Authorized(cookie) ==> page == Unauthorized && sitesFile == old(sitesFile)
      ensures Authorized(cookie) && old(sitesFile).Unparsable? ==> page == ServerError && sitesFile == old(sitesFile)
      ensures Authorized(cookie) && old(sitesFile).NoFile? ==> page == Redirect(Dashboard) && sitesFile == old(sitesFile)
      ensures Authorized(cookie) && old(sitesFile).Records? ==>
        page == Redirect(Dashboard) && sitesFile == Records(Filter(old(sitesFile).items, OtherIds(siteId)))
      ensures usersFile == old(usersFile)
    {
      if GetCurrentUser(cookie).Err? {
        return Unauthorized;
      }
      match sitesFile
      case NoFile =>
        page := Redirect(Dashboard);
      case Unparsable =>
        page := ServerError;
      case Records(sites) =>
        sitesFile := Records(Filter(sites, OtherIds(siteId)));
        page := Redirect(Dashboard);
    }
  }

  /** Extending the scanned prefix of `update_site`'s loop by one record. */
  lemma UpdatePrefixStep(sites: seq<Site>, i: nat, oldId: string, form: SiteForm)
    requires i < |sites|
    ensures UpdatedSites(sites[..i + 1], oldId, form) == UpdatedSites(sites[..i], oldId, form) + [UpdateOne(sites[i], oldId, form)]
    ensures AnyAbsentId(sites[..i + 1]) <==> AnyAbsentId(sites[..i]) || sites[i].id.Absent?
  {
    var pre, next := sites[..i], sites[..i + 1];
    assert forall j :: 0 <= j < i ==> next[j] == pre[j];
    if AnyAbsentId(next) {
      var j :| 0 <= j < i + 1 && next[j].id.Absent?;
      if j < i {
        assert pre[j].id.Absent?;
      }
    }
  }
}
