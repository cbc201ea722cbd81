/** The gRPC port of the ad service. Each handler calls the service, turns its
    error into a status code with Grpc.StatusOf and, when the call failed,
    answers with an empty response. The contracts state which status a client
    sees for each input. */
module Server {
  import opened Errors
  import opened Entities
  import opened Queries
  import opened Repo
  import opened App
  import opened Grpc

  /** The port's `AdService` type: a server over the application. */
  class AdServer {
    const adApp: AdService

    /** The service behind the port keeps its invariant. */
    ghost predicate Valid()
      reads this, adApp, adApp.ads, adApp.users
    {
      adApp.Valid()
    }

    /** A port over the service it is given. */
    constructor (a: AdService)
      requires a.Valid()
      ensures adApp == a && Valid()
    {
      adApp := a;
    }

    /** OK when the author is stored and title and text are valid; any other
        request is the client's fault. */
    method CreateAd(title: string, text: string, userId: int, now: int)
      returns (ad: Ad, c: Code, ghost err: Option<Error>)
      requires Valid()
      modifies adApp.ads
      ensures Valid()
      ensures c == StatusOf(Rpc.CreateAd, err) && (err == None || err.value in ErrorsOf(Rpc.CreateAd))
      ensures adApp.ads.next == old(adApp.ads.next) + (if c == OK then 1 else 0)
      ensures c == OK <==> userId in adApp.users.items && ValidAd(title, text)
      ensures c != OK ==> c == InvalidArgument && ad == ZeroAd && adApp.ads.items == old(adApp.ads.items)
      ensures c == OK ==>
        ad == Ad(old(adApp.ads.next), title, text, userId, false, now, 0)
        && adApp.ads.items == old(adApp.ads.items)[ad.ID := ad]
    {
      var a, e := adApp.CreateAd(title, text, userId, now);
      err := e;
      c := StatusOf(Rpc.CreateAd, e);
      ad := if c == OK then a else ZeroAd;
    }

    /** OK for the author of a stored ad; PermissionDenied for another stored
        user; a missing user or ad is the client's fault. */
    method ChangeAdStatus(adId: int, userId: int, published: bool)
      returns (ad: Ad, c: Code, ghost err: Option<Error>)
      requires Valid()
      modifies adApp.ads
      ensures Valid()
      ensures c == StatusOf(Rpc.ChangeAdStatus, err) && (err == None || err.value in ErrorsOf(Rpc.ChangeAdStatus))
      ensures adApp.ads.next == old(adApp.ads.next)
      ensures c == OK <==>
        userId in adApp.users.items && adId in old(adApp.ads.items) && old(adApp.ads.items)[adId].AuthorID == userId
      ensures c == Code.PermissionDenied <==>
        userId in adApp.users.items && adId in old(adApp.ads.items) && old(adApp.ads.items)[adId].AuthorID != userId
      ensures c == InvalidArgument <==> userId !in adApp.users.items || adId !in old(adApp.ads.items)
      ensures c != OK ==> ad == ZeroAd && adApp.ads.items == old(adApp.ads.items)
      ensures c == OK ==>
        ad == old(adApp.ads.items)[adId].(Published := published)
        && adApp.ads.items == old(adApp.ads.items)[adId := ad]
    {
      var a, e := adApp.ChangeAdStatus(adId, userId, published);
      err := e;
      c := StatusOf(Rpc.ChangeAdStatus, e);
      ad := if c == OK then a else ZeroAd;
    }

    /** As ChangeAdStatus, and an invalid title or text from the author is the
        client's fault too. */
    method UpdateAd(adId: int, userId: int, title: string, text: string, now: int)
      returns (ad: Ad, c: Code, ghost err: Option<Error>)
      requires Valid()
      modifies adApp.ads
      ensures Valid()
      ensures c == StatusOf(Rpc.UpdateAd, err) && (err == None || err.value in ErrorsOf(Rpc.UpdateAd))
      ensures adApp.ads.next == old(adApp.ads.next)
      ensures c == OK <==>
        userId in adApp.users.items && adId in old(adApp.ads.items) && old(adApp.ads.items)[adId].AuthorID == userId
        && ValidAd(title, text)
      ensures c == Code.PermissionDenied <==>
        userId in adApp.users.items && adId in old(adApp.ads.items) && old(adApp.ads.items)[adId].AuthorID != userId
      ensures c == InvalidArgument <==>
        userId !in adApp.users.items || adId !in old(adApp.ads.items)
        || (old(adApp.ads.items)[adId].AuthorID == userId && !ValidAd(title, text))
      ensures c != OK ==> ad == ZeroAd && adApp.ads.items == old(adApp.ads.items)
      ensures c == OK ==>
        ad == old(adApp.ads.items)[adId].(Title := title, Text := text, UpdatedAt := now)
        && adApp.ads.items == old(adApp.ads.items)[adId := ad]
    {
      var a, e := adApp.UpdateAd(adId, userId, title, text, now);
      err := e;
      c := StatusOf(Rpc.UpdateAd, e);
      ad := if c == OK then a else ZeroAd;
    }

    /** OK with the stored ad, or InvalidArgument for a missing one. */
    method GetAd(adId: int) returns (ad: Ad, c: Code, ghost err: Option<Error>)
      ensures c == StatusOf(Rpc.GetAd, err) && (err == None || err.value in ErrorsOf(Rpc.GetAd))
      ensures c == OK <==> adId in adApp.ads.items
      ensures c == OK ==> ad == adApp.ads.items[adId]
      ensures c != OK ==> c == InvalidArgument && ad == ZeroAd
    {
      var a, e := adApp.GetAd(adId);
      err := e;
      c := StatusOf(Rpc.GetAd, e);
      ad := if c == OK then a else ZeroAd;
    }

    /** OK for the author of a stored ad, PermissionDenied for another user, and
        InvalidArgument for a missing user; a missing ad gets Unknown. */
    method DeleteAd(adId: int, userId: int) returns (c: Code, ghost err: Option<Error>)
      requires Valid()
      modifies adApp.ads
      ensures Valid()
      ensures c == StatusOf(Rpc.DeleteAd, err) && (err == None || err.value in ErrorsOf(Rpc.DeleteAd))
      ensures adApp.ads.next == old(adApp.ads.next)
      ensures c == OK <==>
        userId in adApp.users.items && adId in old(adApp.ads.items) && old(adApp.ads.items)[adId].AuthorID == userId
      ensures c == Code.PermissionDenied <==>
        userId in adApp.users.items && adId in old(adApp.ads.items) && old(adApp.ads.items)[adId].AuthorID != userId
      ensures c == InvalidArgument <==> userId !in adApp.users.items
      ensures c == Unknown <==> userId in adApp.users.items && adId !in old(adApp.ads.items)
      ensures c == OK ==> adApp.ads.items == old(adApp.ads.items) - {adId}
      ensures c != OK ==> adApp.ads.items == old(adApp.ads.items)
    {
      var e := adApp.DeleteAd(adId, userId);
      err := e;
      c := StatusOf(Rpc.DeleteAd, e);
    }

    /** Always OK, with the service's listing; the creation-time filter arrives
        already parsed. */
    method ListAds(published: bool, userId: int, timeFilter: int)
      returns (r: seq<Ad>, c: Code, ghost err: Option<Error>)
      requires Valid()
      ensures c == StatusOf(Rpc.ListAds, err) && (err == None || err.value in ErrorsOf(Rpc.ListAds))
      ensures c == OK
      ensures r == Select(ValuesBelow(adApp.ads.items, adApp.ads.next), ListQuery(published, userId, timeFilter))
      ensures forall a :: a in r <==>
        a in adApp.ads.items.Values
        && a.Published == published
        && (userId == -1 || a.AuthorID == userId)
        && (timeFilter == 0 || a.CreatedAt == timeFilter)
    {
      var ads, e := adApp.ListAds(published, userId, timeFilter);
      err := e;
      c := StatusOf(Rpc.ListAds, e);
      r := if c == OK then ads else [];
    }

    /** Always OK, with the ads whose title contains `pattern`. */
    method SearchAds(pattern: string) returns (r: seq<Ad>, c: Code, ghost err: Option<Error>)
      requires Valid()
      ensures c == StatusOf(Rpc.SearchAds, err) && (err == None || err.value in ErrorsOf(Rpc.SearchAds))
      ensures c == OK
      ensures r == Select(ValuesBelow(adApp.ads.items, adApp.ads.next), SearchQuery(pattern))
      ensures forall a :: a in r <==> a in adApp.ads.items.Values && Contains(a.Title, pattern)
    {
      var ads, e := adApp.SearchAds(pattern);
      err := e;
      c := StatusOf(Rpc.SearchAds, e);
      r := if c == OK then ads else [];
    }

    /** Always OK, with the user stored at the id counter, which advances by one. */
    method CreateUser(name: string, email: string) returns (user: User, c: Code, ghost err: Option<Error>)
      requires Valid()
      modifies adApp.users
      ensures Valid()
      ensures c == StatusOf(Rpc.CreateUser, err) && (err == None || err.value in ErrorsOf(Rpc.CreateUser))
      ensures user.ID == old(adApp.users.next) && adApp.users.next == old(adApp.users.next) + 1
      ensures c == OK
      ensures user.ID !in old(adApp.users.items) && user.Name == name && user.Email == email
      ensures adApp.users.items == old(adApp.users.items)[user.ID := user]
    {
      var u, e := adApp.CreateUser(name, email);
      err := e;
      c := StatusOf(Rpc.CreateUser, e);
      user := if c == OK then u else ZeroUser;
    }

    /** OK for a stored user, otherwise InvalidArgument. */
    method UpdateUser(userId: int, name: string, email: string)
      returns (user: User, c: Code, ghost err: Option<Error>)
      requires Valid()
      modifies adApp.users
      ensures Valid()
      ensures c == StatusOf(Rpc.UpdateUser, err) && (err == None || err.value in ErrorsOf(Rpc.UpdateUser))
      ensures adApp.users.next == old(adApp.users.next)
      ensures c == OK <==> userId in old(adApp.users.items)
      ensures c == OK ==> user == User(userId, name, email) && adApp.users.items == old(adApp.users.items)[userId := user]
      ensures c != OK ==> c == InvalidArgument && user == ZeroUser && adApp.users.items == old(adApp.users.items)
    {
      var u, e := adApp.UpdateUser(userId, name, email);
      err := e;
      c := StatusOf(Rpc.UpdateUser, e);
      user := if c == OK then u else ZeroUser;
    }

    /** OK with the stored user, or InvalidArgument for a missing one. */
    method GetUser(userId: int) returns (user: User, c: Code, ghost err: Option<Error>)
      ensures c == StatusOf(Rpc.GetUser, err) && (err == None || err.value in ErrorsOf(Rpc.GetUser))
      ensures c == OK <==> userId in adApp.users.items
      ensures c == OK ==> user == adApp.users.items[userId]
      ensures c != OK ==> c == InvalidArgument && user == ZeroUser
    {
      var u, e := adApp.GetUser(userId);
      err := e;
      c := StatusOf(Rpc.GetUser, e);
      user := if c == OK then u else ZeroUser;
    }

    /** OK for a stored user, whose ads go with them. A missing user comes back
        from the service as the store's DefunctEntity, so the client sees
        Unknown and never InvalidArgument. */
    method DeleteUser(userId: int) returns (c: Code, ghost err: Option<Error>)
      requires Valid()
      modifies adApp.ads, adApp.users
      ensures Valid()
      ensures c == StatusOf(Rpc.DeleteUser, err) && (err == None || err.value in ErrorsOf(Rpc.DeleteUser))
      ensures adApp.ads.next == old(adApp.ads.next) && adApp.users.next == old(adApp.users.next)
      ensures c == OK <==> userId in old(adApp.users.items)
      ensures c != OK ==> c == Unknown
      ensures c == OK ==>
        adApp.users.items == old(adApp.users.items) - {userId}
        && adApp.ads.items == old(adApp.ads.items) - AdsBy(old(adApp.ads.items), userId)
      ensures c != OK ==> adApp.users.items == old(adApp.users.items) && adApp.ads.items == old(adApp.ads.items)
    {
      var e := adApp.DeleteUser(userId);
      err := e;
      c := StatusOf(Rpc.DeleteUser, e);
    }
  }
}
