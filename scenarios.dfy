/** What the repository's tests check, stated as client methods of the store
    and the service and proved from their contracts alone. */
module Scenarios {
  import opened Errors
  import opened Entities
  import opened Queries
  import opened Repo
  import opened App
  import Grpc
  import Server

  /** A service over two fresh, empty stores, as the server and the tests build it. */
  method FreshService() returns (svc: AdService)
    ensures fresh(svc) && fresh(svc.ads) && fresh(svc.users)
    ensures svc.Valid()
    ensures svc.ads.items == map[] && svc.ads.next == 0
    ensures svc.users.items == map[] && svc.users.next == 0
  {
    var adRepo := new Store<Ad>();
    var userRepo := new Store<User>();
    svc := new AdService(adRepo, userRepo);
  }

  /** Two adds on a fresh store both succeed and occupy ids 0 and 1. */
  method RepoAddTwice<T(==)>(x: T, y: T) returns (e1: Option<Error>, e2: Option<Error>, contents: map<int, T>)
    ensures e1 == None && e2 == None
    ensures contents == map[0 := x, 1 := y]
  {
    var repo := new Store<T>();
    e1 := repo.Add(x);
    e2 := repo.Add(y);
    contents := repo.items;
  }

  /** Updating the two occupied ids succeeds and a later Get sees the new
      values; updating the unoccupied id 2 fails with DefunctEntity. */
  method RepoUpdate() returns (errs: seq<Option<Error>>, got: seq<Result<int>>)
    ensures errs == [None, None, Some(DefunctEntity)]
    ensures got == [Ok(2), Ok(3), Err(DefunctEntity)]
  {
    var repo := new Store<int>();
    var _ := repo.Add(1);
    var _ := repo.Add(2);
    var u0 := repo.Update(0, 2);
    var u1 := repo.Update(1, 3);
    var u2 := repo.Update(2, 4);
    errs := [u0, u1, u2];
    var g0 := repo.Get(0);
    var g1 := repo.Get(1);
    var g2 := repo.Get(2);
    got := [g0, g1, g2];
  }

  /** On any store, Get succeeds exactly when CheckIdExist says the id is
      occupied, and fails with DefunctEntity otherwise. */
  method RepoGetAgreesWithCheck<T(==)>(repo: Store<T>, id: int) returns (r: Result<T>, occupied: bool)
    ensures r.Ok? <==> occupied
    ensures !occupied ==> r == Err(DefunctEntity)
  {
    r := repo.Get(id);
    occupied := repo.CheckIdExist(id);
  }

  /** A deleted id is never handed out again: after add, delete, add the
      second record sits at id 1 and id 0 stays free. */
  method RepoIdsNotReused<T(==)>(x: T, y: T) returns (contents: map<int, T>)
    ensures contents == map[1 := y]
  {
    var repo := new Store<T>();
    var _ := repo.Add(x);
    var _ := repo.Delete(0);
    var _ := repo.Add(y);
    contents := repo.items;
  }

  /** Three ads created in a row through the service get ids 0, 1 and 2. */
  method ConsecutiveAdIds(now: int) returns (ids: seq<int>, errs: seq<Option<Error>>)
    ensures ids == [0, 1, 2]
    ensures errs == [None, None, None]
  {
    var svc := FreshService();
    var user, _ := svc.CreateUser("Test User", "test@testing.ru");
    var a0, e0 := svc.CreateAd("hello", "world", user.ID, now);
    var a1, e1 := svc.CreateAd("hello", "world", user.ID, now);
    var a2, e2 := svc.CreateAd("hello", "world", user.ID, now);
    ids := [a0.ID, a1.ID, a2.ID];
    errs := [e0, e1, e2];
  }

  /** A new ad carries the given title, text and author, is unpublished, is
      created at `now` and has never been updated. */
  method CreateAdFields(now: int) returns (ad: Ad, err: Option<Error>)
    requires now != 0
    ensures err == None
    ensures ad == Ad(0, "hello", "world", 0, false, now, 0)
    ensures ad.CreatedAt != 0 && ad.UpdatedAt == 0
  {
    var svc := FreshService();
    var user, _ := svc.CreateUser("Test User", "test@testing.ru");
    ad, err := svc.CreateAd("hello", "world", user.ID, now);
  }

  /** An empty title, a 101-character title, an empty text and a 501-character
      text are each refused with ValidationError, and nothing is stored. */
  method CreateAdRejectsBadLengths(now: int, longTitle: string, longText: string) returns (errs: seq<Option<Error>>, stored: int)
    requires |longTitle| == 101 && |longText| == 501
    ensures errs == [Some(ValidationError), Some(ValidationError), Some(ValidationError), Some(ValidationError)]
    ensures stored == 0
  {
    var svc := FreshService();
    var user, _ := svc.CreateUser("Test User", "test@testing.ru");
    var _, e0 := svc.CreateAd("", "world", user.ID, now);
    var _, e1 := svc.CreateAd(longTitle, "world", user.ID, now);
    var _, e2 := svc.CreateAd("title", "", user.ID, now);
    var _, e3 := svc.CreateAd("title", longText, user.ID, now);
    errs := [e0, e1, e2, e3];
    stored := |svc.ads.items|;
  }

  /** A user may not publish or edit another user's ad; both edits are
      refused with PermissionDenied, which the gRPC port reports as such. */
  method ForeignEditsDenied(now: int) returns (e1: Option<Error>, e2: Option<Error>)
    ensures e1 == Some(Error.PermissionDenied) && e2 == Some(Error.PermissionDenied)
    ensures Grpc.StatusOf(Grpc.ChangeAdStatus, e1) == Grpc.Code.PermissionDenied
    ensures Grpc.StatusOf(Grpc.UpdateAd, e2) == Grpc.Code.PermissionDenied
  {
    var svc := FreshService();
    var owner, _ := svc.CreateUser("Test User", "test@testing.ru");
    var ad, _ := svc.CreateAd("hello", "world", owner.ID, now);
    var other, _ := svc.CreateUser("Test User", "test@testing.ru");
    var _, c := svc.ChangeAdStatus(ad.ID, other.ID, true);
    var _, u := svc.UpdateAd(ad.ID, other.ID, "title", "text", now);
    e1, e2 := c, u;
  }

  /** Publishing, unpublishing and unpublishing again all succeed, and the
      returned ad carries the requested flag each time. */
  method ChangeStatusSequence(now: int) returns (flags: seq<bool>, errs: seq<Option<Error>>)
    ensures flags == [true, false, false]
    ensures errs == [None, None, None]
  {
    var svc := FreshService();
    var user, _ := svc.CreateUser("Test User", "test@testing.ru");
    var ad, _ := svc.CreateAd("hello", "world", user.ID, now);
    var a1, e1 := svc.ChangeAdStatus(ad.ID, user.ID, true);
    var a2, e2 := svc.ChangeAdStatus(a1.ID, user.ID, false);
    var a3, e3 := svc.ChangeAdStatus(a2.ID, user.ID, false);
    flags := [a1.Published, a2.Published, a3.Published];
    errs := [e1, e2, e3];
  }

  /** Setting the same published flag twice succeeds both times, returns the
      same ad and leaves the store as the first call left it. */
  method ChangeAdStatusIdempotent(svc: AdService, adId: int, userId: int, published: bool)
    returns (ad1: Ad, err1: Option<Error>, ad2: Ad, err2: Option<Error>)
    requires svc.Valid()
    modifies svc.ads
    ensures svc.Valid()
    ensures err1 == None ==> err2 == None && ad2 == ad1 && ad1.Published == published
    ensures err1 == None ==> svc.ads.items == old(svc.ads.items)[adId := ad1]
  {
    ad1, err1 := svc.ChangeAdStatus(adId, userId, published);
    ghost var afterFirst := svc.ads.items;
    ad2, err2 := svc.ChangeAdStatus(adId, userId, published);
    if err1 == None {
      assert afterFirst[adId := ad1] == afterFirst;
    }
  }

  /** Updating an ad replaces title and text and stamps the update time, while
      the creation time is kept. */
  method UpdateAdFields(created: int, updated: int) returns (ad: Ad, err: Option<Error>)
    requires updated != 0
    ensures err == None
    ensures ad == Ad(0, "привет", "мир", 0, false, created, updated)
    ensures ad.UpdatedAt != 0
  {
    var svc := FreshService();
    var user, _ := svc.CreateUser("Test User", "test@testing.ru");
    var first, _ := svc.CreateAd("hello", "world", user.ID, created);
    ad, err := svc.UpdateAd(first.ID, user.ID, "привет", "мир", updated);
  }

  /** The ads of the listing test: a published and an unpublished ad by user 0
      and an unpublished ad by user 1, all created at `now`. */
  method ListingFixture(now: int) returns (svc: AdService)
    ensures fresh(svc) && fresh(svc.ads) && fresh(svc.users)
    ensures svc.Valid()
    ensures svc.ads.next == 3
    ensures svc.ads.items == map[
      0 := Ad(0, "hello", "world", 0, true, now, 0),
      1 := Ad(1, "hello2", "world2", 0, false, now, 0),
      2 := Ad(2, "hello3", "world3", 1, false, now, 0)]
  {
    svc := FreshService();
    var user, _ := svc.CreateUser("Test User", "test@testing.ru");
    assert user.ID == 0;
    var first, _ := svc.CreateAd("hello", "world", user.ID, now);
    assert svc.ads.items == map[0 := Ad(0, "hello", "world", 0, false, now, 0)];
    var _, _ := svc.ChangeAdStatus(first.ID, user.ID, true);
    assert svc.ads.items == map[0 := Ad(0, "hello", "world", 0, true, now, 0)];
    var _, _ := svc.CreateAd("hello2", "world2", user.ID, now);
    var user2, _ := svc.CreateUser("Test User2", "test2@testing.ru");
    assert user2.ID == 1;
    var _, _ := svc.CreateAd("hello3", "world3", user2.ID, now);
  }

  /** Listing the unpublished ads of user 0 yields exactly one ad, the second. */
  method ListAdsFilters(now: int) returns (listed: seq<Ad>)
    ensures listed == [Ad(1, "hello2", "world2", 0, false, now, 0)]
  {
    var svc := ListingFixture(now);
    var a0 := Ad(0, "hello", "world", 0, true, now, 0);
    var a1 := Ad(1, "hello2", "world2", 0, false, now, 0);
    var a2 := Ad(2, "hello3", "world3", 1, false, now, 0);
    var q := ListQuery(false, 0, 0);
    assert ValuesBelow(svc.ads.items, 3) == [a0, a1, a2] by {
      assert ValuesBelow(svc.ads.items, 1) == [a0];
      assert ValuesBelow(svc.ads.items, 2) == [a0, a1];
    }
    assert !Matches(a0, q) && Matches(a1, q) && !Matches(a2, q);
    assert Select([a0], q) == [] by {
      assert [a0][..0] == [];
    }
    assert Select([a0, a1], q) == [a1] by {
      assert [a0, a1][..1] == [a0];
    }
    assert Select([a0, a1, a2], q) == [a1] by {
      assert [a0, a1, a2][..2] == [a0, a1];
    }
    var err;
    listed, err := svc.ListAds(false, 0, 0);
  }

  /** Of the titles "hello" and "best cat", only "hello" contains "ell". */
  lemma SearchExample()
    ensures Contains("hello", "ell")
    ensures !Contains("best cat", "ell")
  {
    assert "ell" <= "hello"[1..];
    assert !Contains("t", "ell");
    assert "cat"[1..] == "at" && !Contains("at", "ell");
    assert "cat"[0] != 'e' && !Contains("cat", "ell");
    assert " cat"[1..] == "cat" && " cat"[0] != 'e' && !Contains(" cat", "ell");
    assert "t cat"[1..] == " cat" && "t cat"[0] != 'e' && !Contains("t cat", "ell");
    assert "st cat"[1..] == "t cat" && "st cat"[0] != 'e' && !Contains("st cat", "ell");
    assert "est cat"[1..] == "st cat" && "est cat"[1] != 'l' && !Contains("est cat", "ell");
    assert "best cat"[1..] == "est cat" && "best cat"[0] != 'e';
  }

  /** The ads of the search test: a published "hello" and an unpublished
      "best cat", both by user 0. */
  method SearchFixture(now: int) returns (svc: AdService)
    ensures fresh(svc) && fresh(svc.ads) && fresh(svc.users)
    ensures svc.Valid()
    ensures svc.ads.next == 2
    ensures svc.ads.items == map[
      0 := Ad(0, "hello", "world", 0, true, now, 0),
      1 := Ad(1, "best cat", "not for sale", 0, false, now, 0)]
  {
    svc := FreshService();
    var user, _ := svc.CreateUser("Oleg", "");
    assert user.ID == 0;
    var first, _ := svc.CreateAd("hello", "world", user.ID, now);
    assert svc.ads.items == map[0 := Ad(0, "hello", "world", 0, false, now, 0)];
    var _, _ := svc.ChangeAdStatus(first.ID, user.ID, true);
    assert svc.ads.items == map[0 := Ad(0, "hello", "world", 0, true, now, 0)];
    var _, _ := svc.CreateAd("best cat", "not for sale", user.ID, now);
  }

  /** Filtering the two search-test ads by "ell" keeps only the "hello" ad. */
  lemma SearchSelectsHello(a0: Ad, a1: Ad)
    requires a0.Title == "hello" && a1.Title == "best cat"
    ensures Select([a0, a1], SearchQuery("ell")) == [a0]
  {
    SearchExample();
    assert [a0, a1][..1] == [a0] && [a0][..0] == [];
  }

  /** Searching "ell" over ads titled "hello" and "best cat" finds exactly one
      ad, the published "hello". */
  method SearchAdsFinds(now: int) returns (found: seq<Ad>)
    ensures found == [Ad(0, "hello", "world", 0, true, now, 0)]
  {
    var svc := SearchFixture(now);
    var a0 := Ad(0, "hello", "world", 0, true, now, 0);
    var a1 := Ad(1, "best cat", "not for sale", 0, false, now, 0);
    assert ValuesBelow(svc.ads.items, 2) == [a0, a1] by {
      assert ValuesBelow(svc.ads.items, 1) == [a0];
    }
    SearchSelectsHello(a0, a1);
    var err;
    found, err := svc.SearchAds("ell");
  }

  /** After the author deletes an ad, GetAd reports DefunctAd, which the gRPC
      port answers with InvalidArgument. */
  method DeleteAdThenGet(now: int) returns (delErr: Option<Error>, getErr: Option<Error>)
    ensures delErr == None && getErr == Some(DefunctAd)
    ensures Grpc.StatusOf(Grpc.GetAd, getErr) == Grpc.Code.InvalidArgument
  {
    var svc := FreshService();
    var user, _ := svc.CreateUser("Test User", "test@testing.ru");
    var ad, _ := svc.CreateAd("hello", "world", user.ID, now);
    var published, _ := svc.ChangeAdStatus(ad.ID, user.ID, true);
    delErr := svc.DeleteAd(published.ID, user.ID);
    var _, e := svc.GetAd(published.ID);
    getErr := e;
  }

  /** On any service, a successful DeleteAd removes exactly that ad: GetAd
      then reports DefunctAd, and every other ad is still there. */
  method DeleteAdRemovesOnlyIt(svc: AdService, adId: int, userId: int) returns (delErr: Option<Error>, getErr: Option<Error>)
    requires svc.Valid()
    modifies svc.ads
    ensures delErr == None ==> getErr == Some(DefunctAd)
    ensures delErr == None ==> forall id :: id in old(svc.ads.items) && id != adId ==>
      id in svc.ads.items && svc.ads.items[id] == old(svc.ads.items)[id]
  {
    delErr := svc.DeleteAd(adId, userId);
    var _, e := svc.GetAd(adId);
    getErr := e;
  }

  /** The setup of the server-interceptor test: user 0 creates, publishes and
      edits ad 0. */
  method EditedAdFixture(now: int) returns (svc: AdService)
    ensures fresh(svc) && fresh(svc.ads) && fresh(svc.users)
    ensures svc.Valid()
    ensures svc.users.items == map[0 := User(0, "Oleg", "")]
    ensures svc.ads.items == map[0 := Ad(0, "привет", "мир", 0, true, now, now)]
  {
    svc := FreshService();
    var user, _ := svc.CreateUser("Oleg", "");
    var ad, _ := svc.CreateAd("hello", "world", user.ID, now);
    var _, _ := svc.ChangeAdStatus(ad.ID, user.ID, true);
    var _, _ := svc.UpdateAd(ad.ID, user.ID, "привет", "мир", now);
  }

  /** Through the gRPC port: a user is created and then updated; the update
      is OK and the response carries the first id, 0, with the new fields. */
  method GrpcUpdateUserKeepsId() returns (response: User, c: Grpc.Code)
    ensures c == Grpc.Code.OK
    ensures response == User(0, "Test User 2", "test2@testing.ru")
  {
    var svc := FreshService();
    var srv := new Server.AdServer(svc);
    var user, _, _ := srv.CreateUser("Oleg", "");
    var updated, code, _ := srv.UpdateUser(user.ID, "Test User 2", "test2@testing.ru");
    response, c := updated, code;
  }

  /** A user publishes and edits an ad, then is deleted: the deletion
      succeeds, the ad goes with the user, and GetUser then reports
      DefunctUser, which the gRPC port answers with InvalidArgument. */
  method DeleteUserCascades(now: int) returns (errs: seq<Option<Error>>)
    ensures errs == [None, None, Some(DefunctAd), Some(DefunctUser)]
    ensures Grpc.StatusOf(Grpc.GetUser, errs[3]) == Grpc.Code.InvalidArgument
  {
    var svc := EditedAdFixture(now);
    var _, g0 := svc.GetAd(0);
    var d := svc.DeleteUser(0);
    assert AdsBy(map[0 := Ad(0, "привет", "мир", 0, true, now, now)], 0) == {0};
    var _, g1 := svc.GetAd(0);
    var _, g2 := svc.GetUser(0);
    errs := [g0, d, g1, g2];
  }

  /** On any service, a successful DeleteUser leaves no ad by that user and
      GetUser then reports DefunctUser. */
  method DeleteUserLeavesNoAds(svc: AdService, userId: int) returns (delErr: Option<Error>, getErr: Option<Error>)
    requires svc.Valid()
    modifies svc.ads, svc.users
    ensures svc.Valid()
    ensures delErr == None ==> getErr == Some(DefunctUser)
    ensures delErr == None ==> forall a :: a in svc.ads.items.Values ==> a.AuthorID != userId
  {
    delErr := svc.DeleteUser(userId);
    var _, e := svc.GetUser(userId);
    getErr := e;
  }

  /** Deleting a user who was never created returns the store's DefunctEntity
      rather than DefunctUser, so the gRPC port answers Unknown. */
  method DeleteMissingUser() returns (err: Option<Error>)
    ensures err == Some(DefunctEntity)
    ensures Grpc.StatusOf(Grpc.DeleteUser, err) == Grpc.Code.Unknown
  {
    var svc := FreshService();
    err := svc.DeleteUser(0);
  }
}
