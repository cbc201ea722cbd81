/** The ad-board domain service: existence, ownership and validation rules
    over one store of ads and one store of users. */
module App {
  import opened Errors
  import opened Entities
  import opened Queries
  import opened Repo

  /** The referential invariant the service keeps between its two stores:
      every record sits at its own id, and every ad's author is a stored user. */
  ghost predicate Consistent(adMap: map<int, Ad>, userMap: map<int, User>) {
    (forall id :: id in adMap ==> adMap[id].ID == id && adMap[id].AuthorID in userMap)
    && (forall id :: id in userMap ==> userMap[id].ID == id)
  }

  /** The ids of the ads written by `userId`. */
  ghost function AdsBy(adMap: map<int, Ad>, userId: int): set<int> {
    set id | id in adMap && adMap[id].AuthorID == userId
  }

  /** Under the invariant, a user who is not stored has written no stored ad. */
  lemma NoAdsByMissingUser(adMap: map<int, Ad>, userMap: map<int, User>, userId: int)
    requires Consistent(adMap, userMap)
    requires userId !in userMap
    ensures AdsBy(adMap, userId) == {}
  {
    forall id | id in adMap
      ensures adMap[id].AuthorID != userId
    {
      assert adMap[id].AuthorID in userMap;
    }
  }

  /** The ids of the ads by `userId` among the first `i` ads of `all`. */
  ghost function DeletedPrefix(all: seq<Ad>, i: int, userId: int): set<int>
    requires 0 <= i <= |all|
  {
    set j | 0 <= j < i && all[j].AuthorID == userId :: all[j].ID
  }

  /** One more ad of the walk adds its id exactly when its author is `userId`. */
  lemma DeletedPrefixStep(all: seq<Ad>, i: int, userId: int)
    requires 0 <= i < |all|
    ensures DeletedPrefix(all, i + 1, userId)
         == DeletedPrefix(all, i, userId) + (if all[i].AuthorID == userId then {all[i].ID} else {})
  {
  }

  /** Removing the ids `done` and then `id` removes `done + {id}`. */
  lemma RemoveOneMore(m: map<int, Ad>, done: set<int>, id: int)
    ensures (m - done) - {id} == m - (done + {id})
  {
  }

  /** The ad map after the cascade has walked the first `i` ads of `all`:
      each ad by `userId` met so far is removed. */
  ghost function CascadeState(before: map<int, Ad>, all: seq<Ad>, i: int, userId: int): map<int, Ad>
    requires 0 <= i <= |all|
    decreases i
  {
    if i == 0 then before
    else if all[i - 1].AuthorID == userId then CascadeState(before, all, i - 1, userId) - {all[i - 1].ID}
    else CascadeState(before, all, i - 1, userId)
  }

  /** The cascade state is the original map without the ids met so far. */
  lemma {:induction false} CascadeStateRemoves(before: map<int, Ad>, all: seq<Ad>, i: int, userId: int)
    requires 0 <= i <= |all|
    ensures CascadeState(before, all, i, userId) == before - DeletedPrefix(all, i, userId)
    decreases i
  {
    if i == 0 {
      assert DeletedPrefix(all, 0, userId) == {};
    } else {
      CascadeStateRemoves(before, all, i - 1, userId);
      DeletedPrefixStep(all, i - 1, userId);
      if all[i - 1].AuthorID == userId {
        RemoveOneMore(before, DeletedPrefix(all, i - 1, userId), all[i - 1].ID);
      }
    }
  }

  /** A snapshot of an ad store that keeps every ad at its own id lists each ad
      once, in strictly ascending id order, and walking all of it visits exactly
      the ads of each author. */
  lemma AdSnapshot(before: map<int, Ad>, n: int, all: seq<Ad>, userId: int)
    requires all == ValuesBelow(before, n)
    requires forall id :: id in before ==> 0 <= id < n && before[id].ID == id
    ensures forall j :: 0 <= j < |all| ==> all[j].ID in before && before[all[j].ID] == all[j]
    ensures forall j, k :: 0 <= j < k < |all| ==> all[j].ID < all[k].ID
    ensures DeletedPrefix(all, |all|, userId) == AdsBy(before, userId)
  {
    var ids := OccupiedBelow(before, n);
    OccupiedBelowSpec(before, n);
    ValuesBelowSpec(before, n);
    assert forall j :: 0 <= j < |all| ==> all[j].ID == ids[j];
    forall id | id in AdsBy(before, userId)
      ensures id in DeletedPrefix(all, |all|, userId)
    {
      assert id in ids;
      var j :| 0 <= j < |ids| && ids[j] == id;
      assert all[j] == before[id];
    }
  }

  /** An ad the cascade has not reached yet is still stored, unchanged. */
  lemma StillStored(before: map<int, Ad>, n: int, all: seq<Ad>, i: int, userId: int)
    requires all == ValuesBelow(before, n)
    requires forall id :: id in before ==> 0 <= id < n && before[id].ID == id
    requires 0 <= i < |all|
    ensures all[i].ID in CascadeState(before, all, i, userId)
    ensures CascadeState(before, all, i, userId)[all[i].ID] == all[i]
  {
    AdSnapshot(before, n, all, userId);
    CascadeStateRemoves(before, all, i, userId);
    assert all[i].ID !in DeletedPrefix(all, i, userId);
  }

  /** Walking the whole snapshot removes exactly the ads by `userId`. */
  lemma CascadeComplete(before: map<int, Ad>, n: int, all: seq<Ad>, userId: int)
    requires all == ValuesBelow(before, n)
    requires forall id :: id in before ==> 0 <= id < n && before[id].ID == id
    ensures CascadeState(before, all, |all|, userId) == before - AdsBy(before, userId)
  {
    AdSnapshot(before, n, all, userId);
    CascadeStateRemoves(before, all, |all|, userId);
  }

  class AdService {
    const ads: Store<Ad>
    const users: Store<User>

    /** Both stores are well formed and consistent with each other. */
    ghost predicate Valid()
      reads this, ads, users
    {
      ads.Valid() && users.Valid() && Consistent(ads.items, users.items)
    }

    /** A service over the two stores it is given. */
    constructor (adRepo: Store<Ad>, userRepo: Store<User>)
      requires adRepo.Valid() && userRepo.Valid()
      requires Consistent(adRepo.items, userRepo.items)
      ensures ads == adRepo && users == userRepo
      ensures Valid()
    {
      ads := adRepo;
      users := userRepo;
    }

    /** Creates an ad by `userId` at time `now`. Fails with DefunctUser when the
        author is not stored, and with ValidationError (returning the unsaved
        candidate) when title or text break the length rule; otherwise stores a
        fresh, unpublished ad at the next id. */
    method CreateAd(title: string, text: string, userId: int, now: int) returns (ad: Ad, err: Option<Error>)
      requires Valid()
      modifies ads
      ensures Valid()
      ensures userId !in users.items ==>
        ad == ZeroAd && err == Some(DefunctUser) && unchanged(ads)
      ensures userId in users.items && !ValidAd(title, text) ==>
        ad == Ad(old(ads.next), title, text, userId, false, now, 0)
        && err == Some(ValidationError) && unchanged(ads)
      ensures userId in users.items && ValidAd(title, text) ==>
        ad == Ad(old(ads.next), title, text, userId, false, now, 0)
        && err == None
        && ad.ID !in old(ads.items)
        && ads.items == old(ads.items)[ad.ID := ad]
        && ads.next == old(ads.next) + 1
    {
      var authorExists := users.CheckIdExist(userId);
      if !authorExists {
        return ZeroAd, Some(DefunctUser);
      }
      var id := ads.GetNextId();
      ad := Ad(id, title, text, userId, false, now, 0);
      if !ValidAd(title, text) {
        return ad, Some(ValidationError);
      }
      err := ads.Add(ad);
    }

    /** Sets the published flag of ad `adId` on behalf of `userId`. Checks, first
        failure wins: the user exists (DefunctUser), the ad exists (DefunctAd),
        the user wrote the ad (PermissionDenied). Only `Published` changes. */
    method ChangeAdStatus(adId: int, userId: int, published: bool) returns (ad: Ad, err: Option<Error>)
      requires Valid()
      modifies ads
      ensures Valid() && ads.next == old(ads.next)
      ensures err != None ==> ads.items == old(ads.items)
      ensures userId !in users.items ==>
        ad == ZeroAd && err == Some(DefunctUser)
      ensures userId in users.items && adId !in old(ads.items) ==>
        ad == ZeroAd && err == Some(DefunctAd)
      ensures userId in users.items && adId in old(ads.items) && old(ads.items)[adId].AuthorID != userId ==>
        ad == old(ads.items)[adId] && err == Some(Error.PermissionDenied)
      ensures userId in users.items && adId in old(ads.items) && old(ads.items)[adId].AuthorID == userId ==>
        ad == old(ads.items)[adId].(Published := published)
        && err == None
        && ads.items == old(ads.items)[adId := ad]
    {
      var userExists := users.CheckIdExist(userId);
      if !userExists {
        return ZeroAd, Some(DefunctUser);
      }
      var adExists := ads.CheckIdExist(adId);
      if !adExists {
        return ZeroAd, Some(DefunctAd);
      }
      var res := ads.Get(adId);
      ad := res.value;
      if ad.AuthorID != userId {
        return ad, Some(Error.PermissionDenied);
      }
      ad := ad.(Published := published);
      err := ads.Update(adId, ad);
    }

    /** Replaces title and text of ad `adId` on behalf of `userId` and stamps
        `UpdatedAt` with `now`. The same three checks as ChangeAdStatus come
        first; validation runs only after the ownership check. */
    method UpdateAd(adId: int, userId: int, title: string, text: string, now: int) returns (ad: Ad, err: Option<Error>)
      requires Valid()
      modifies ads
      ensures Valid() && ads.next == old(ads.next)
      ensures err != None ==> ads.items == old(ads.items)
      ensures userId !in users.items ==>
        ad == ZeroAd && err == Some(DefunctUser)
      ensures userId in users.items && adId !in old(ads.items) ==>
        ad == ZeroAd && err == Some(DefunctAd)
      ensures userId in users.items && adId in old(ads.items) && old(ads.items)[adId].AuthorID != userId ==>
        ad == old(ads.items)[adId] && err == Some(Error.PermissionDenied)
      ensures userId in users.items && adId in old(ads.items) && old(ads.items)[adId].AuthorID == userId
              && !ValidAd(title, text) ==>
        ad == old(ads.items)[adId] && err == Some(ValidationError)
      ensures userId in users.items && adId in old(ads.items) && old(ads.items)[adId].AuthorID == userId
              && ValidAd(title, text) ==>
        ad == old(ads.items)[adId].(Title := title, Text := text, UpdatedAt := now)
        && err == None
        && ads.items == old(ads.items)[adId := ad]
    {
      var userExists := users.CheckIdExist(userId);
      if !userExists {
        return ZeroAd, Some(DefunctUser);
      }
      var adExists := ads.CheckIdExist(adId);
      if !adExists {
        return ZeroAd, Some(DefunctAd);
      }
      var res := ads.Get(adId);
      ad := res.value;
      if ad.AuthorID != userId {
        return ad, Some(Error.PermissionDenied);
      }
      if !ValidAd(title, text) {
        return ad, Some(ValidationError);
      }
      ad := ad.(Title := title, Text := text, UpdatedAt := now);
      err := ads.Update(adId, ad);
    }

    /** The ad stored at `adId`, or DefunctAd. Reads are public: no user check. */
    method GetAd(adId: int) returns (ad: Ad, err: Option<Error>)
      ensures adId in ads.items ==> err == None && ad == ads.items[adId]
      ensures adId !in ads.items ==> err == Some(DefunctAd) && ad == ZeroAd
    {
      var adExists := ads.CheckIdExist(adId);
      if !adExists {
        return ZeroAd, Some(DefunctAd);
      }
      var res := ads.Get(adId);
      ad, err := res.value, None;
    }

    /** Removes ad `adId` on behalf of `userId`, after the same three checks as
        ChangeAdStatus. Exactly that id leaves the ad store. */
    method DeleteAd(adId: int, userId: int) returns (err: Option<Error>)
      requires Valid()
      modifies ads
      ensures Valid() && ads.next == old(ads.next)
      ensures err != None ==> ads.items == old(ads.items)
      ensures userId !in users.items ==> err == Some(DefunctUser)
      ensures userId in users.items && adId !in old(ads.items) ==> err == Some(DefunctAd)
      ensures userId in users.items && adId in old(ads.items) && old(ads.items)[adId].AuthorID != userId ==>
        err == Some(Error.PermissionDenied)
      ensures userId in users.items && adId in old(ads.items) && old(ads.items)[adId].AuthorID == userId ==>
        err == None && ads.items == old(ads.items) - {adId}
    {
      var userExists := users.CheckIdExist(userId);
      if !userExists {
        return Some(DefunctUser);
      }
      var adExists := ads.CheckIdExist(adId);
      if !adExists {
        return Some(DefunctAd);
      }
      var res := ads.Get(adId);
      var ad := res.value;
      if ad.AuthorID != userId {
        return Some(Error.PermissionDenied);
      }
      err := ads.Delete(adId);
    }

    /** The stored ads that pass `q`, in ascending order of id. */
    method Filter(q: Query) returns (r: seq<Ad>)
      requires Valid()
      ensures r == Select(ValuesBelow(ads.items, ads.next), q)
      ensures forall a :: a in r <==> a in ads.items.Values && Matches(a, q)
    {
      var all := ads.GetArray();
      r := [];
      for i := 0 to |all|
        invariant r == Select(all[..i], q)
      {
        assert all[..i + 1][..i] == all[..i];
        if Matches(all[i], q) {
          r := r + [all[i]];
        }
      }
      assert all[..|all|] == all;
      forall a
        ensures a in r <==> a in ads.items.Values && Matches(a, q)
      {
        SelectMember(all, q, a);
      }
    }

    /** The stored ads whose published flag is `pubFilter`, whose author is
        `userFilter` unless that is -1, and whose creation time is `timeFilter`
        unless that is the zero time. Never fails. */
    method ListAds(pubFilter: bool, userFilter: int, timeFilter: int) returns (r: seq<Ad>, err: Option<Error>)
      requires Valid()
      ensures err == None
      ensures r == Select(ValuesBelow(ads.items, ads.next), ListQuery(pubFilter, userFilter, timeFilter))
      ensures forall a :: a in r <==>
        a in ads.items.Values
        && a.Published == pubFilter
        && (userFilter == -1 || a.AuthorID == userFilter)
        && (timeFilter == 0 || a.CreatedAt == timeFilter)
    {
      r := Filter(ListQuery(pubFilter, userFilter, timeFilter));
      err := None;
    }

    /** The stored ads whose title contains `pattern`. Never fails. */
    method SearchAds(pattern: string) returns (r: seq<Ad>, err: Option<Error>)
      requires Valid()
      ensures err == None
      ensures r == Select(ValuesBelow(ads.items, ads.next), SearchQuery(pattern))
      ensures forall a :: a in r <==> a in ads.items.Values && Contains(a.Title, pattern)
    {
      r := Filter(SearchQuery(pattern));
      err := None;
    }

    /** Stores a new user at the next user id; never fails and validates nothing. */
    method CreateUser(name: string, email: string) returns (user: User, err: Option<Error>)
      requires Valid()
      modifies users
      ensures Valid()
      ensures user == User(old(users.next), name, email) && err == None
      ensures user.ID !in old(users.items)
      ensures users.items == old(users.items)[user.ID := user]
      ensures users.next == old(users.next) + 1
    {
      var id := users.GetNextId();
      user := User(id, name, email);
      err := users.Add(user);
    }

    /** Overwrites name and email of user `userId`, or fails with DefunctUser. */
    method UpdateUser(userId: int, name: string, email: string) returns (user: User, err: Option<Error>)
      requires Valid()
      modifies users
      ensures Valid() && users.next == old(users.next)
      ensures userId !in old(users.items) ==>
        user == ZeroUser && err == Some(DefunctUser) && users.items == old(users.items)
      ensures userId in old(users.items) ==>
        user == User(userId, name, email)
        && err == None
        && users.items == old(users.items)[userId := user]
    {
      var userExists := users.CheckIdExist(userId);
      if !userExists {
        return ZeroUser, Some(DefunctUser);
      }
      var res := users.Get(userId);
      user := res.value.(Name := name, Email := email);
      err := users.Update(userId, user);
    }

    /** The user stored at `userId`, or DefunctUser. */
    method GetUser(userId: int) returns (user: User, err: Option<Error>)
      ensures userId in users.items ==> err == None && user == users.items[userId]
      ensures userId !in users.items ==> err == Some(DefunctUser) && user == ZeroUser
    {
      var userExists := users.CheckIdExist(userId);
      if !userExists {
        return ZeroUser, Some(DefunctUser);
      }
      var res := users.Get(userId);
      user, err := res.value, None;
    }

    /** Deletes every ad by `userId`, then the user. While the invariant holds
        the cascade cannot fail: for a stored user exactly their ads and the
        user go; for a missing user nothing changes and the store's
        DefunctEntity comes back. */
    method DeleteUser(userId: int) returns (err: Option<Error>)
      requires Valid()
      modifies ads, users
      ensures Valid()
      ensures ads.next == old(ads.next) && users.next == old(users.next)
      ensures ads.items == old(ads.items) - AdsBy(old(ads.items), userId)
      ensures userId in old(users.items) ==>
        err == None && users.items == old(users.items) - {userId}
      ensures userId !in old(users.items) ==>
        err == Some(DefunctEntity) && ads.items == old(ads.items) && users.items == old(users.items)
    {
      var all := ads.GetArray();
      ghost var before := ads.items;
      var i := 0;
      while i < |all|
        invariant 0 <= i <= |all|
        invariant Valid()
        invariant users.items == old(users.items) && users.next == old(users.next)
        invariant ads.next == old(ads.next)
        invariant ads.items == CascadeState(before, all, i, userId)
      {
        if all[i].AuthorID == userId {
          StillStored(before, ads.next, all, i, userId);
          err := DeleteAd(all[i].ID, userId);
          if err != None {
            return;
          }
        }
        i := i + 1;
      }
      CascadeComplete(before, ads.next, all, userId);
      if userId !in users.items {
        NoAdsByMissingUser(before, users.items, userId);
      }
      err := users.Delete(userId);
    }
  }
}
