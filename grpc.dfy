/** How each gRPC handler of the ad service turns the service's error into a
    status code. Only the classification is modelled; messages and payloads are not. */
module Grpc {
  import opened Errors

  /** The status codes the handlers produce; OK stands for a success response. */
  datatype Code = OK | InvalidArgument | PermissionDenied | Unknown

  /** The handlers of the gRPC ad service, one per service operation. */
  datatype Rpc =
    | CreateAd | ChangeAdStatus | UpdateAd | GetAd | DeleteAd
    | ListAds | SearchAds
    | CreateUser | UpdateUser | GetUser | DeleteUser

  /** The status a handler answers with when the service returned `err`.
      Each handler tests its error kinds in a fixed order, first match wins;
      an error it does not name becomes Unknown. */
  function StatusOf(rpc: Rpc, err: Option<Error>): (c: Code)
    ensures c == OK <==> err == None
    ensures c == Code.PermissionDenied <==>
      err == Some(Error.PermissionDenied) && rpc in {ChangeAdStatus, UpdateAd, DeleteAd}
    ensures rpc in {ListAds, SearchAds, CreateUser} && err != None ==> c == Unknown
    ensures err == Some(DefunctUser) ==>
      (c == InvalidArgument <==> rpc !in {GetAd, ListAds, SearchAds, CreateUser})
    ensures err == Some(DefunctAd) ==>
      (c == InvalidArgument <==> rpc in {ChangeAdStatus, UpdateAd, GetAd})
    ensures err == Some(ValidationError) ==>
      (c == InvalidArgument <==> rpc in {CreateAd, ChangeAdStatus, UpdateAd, DeleteAd})
    ensures err == Some(Error.PermissionDenied) && rpc !in {ChangeAdStatus, UpdateAd, DeleteAd} ==> c == Unknown
    ensures err == Some(DefunctEntity) ==> c == Unknown
  {
    if err == None then OK
    else
      var e := err.value;
      match rpc
      case CreateAd =>
        if e == ValidationError || e == DefunctUser then InvalidArgument
        else Unknown
      case ChangeAdStatus | UpdateAd =>
        if e == Error.PermissionDenied then Code.PermissionDenied
        else if e == ValidationError || e == DefunctUser || e == DefunctAd then InvalidArgument
        else Unknown
      case GetAd =>
        if e == DefunctAd then InvalidArgument else Unknown
      case DeleteAd =>
        if e == Error.PermissionDenied then Code.PermissionDenied
        else if e == ValidationError || e == DefunctUser then InvalidArgument
        else Unknown
      case ListAds | SearchAds | CreateUser =>
        Unknown
      case UpdateUser | GetUser | DeleteUser =>
        if e == DefunctUser then InvalidArgument else Unknown
  }

  /** The intended mapping for every handler: a missing user, a missing ad or
      an invalid ad is the client's fault, a foreign ad is forbidden, and
      anything else is an opaque server error. */
  function IntendedCode(e: Error): Code {
    match e
    case DefunctUser | DefunctAd | ValidationError => InvalidArgument
    case PermissionDenied => Code.PermissionDenied
    case DefunctEntity => Unknown
  }

  /** The errors each service operation can return while its invariant holds.
      The handlers of module Server establish this against the service's
      contracts. */
  function ErrorsOf(rpc: Rpc): set<Error> {
    match rpc
    case CreateAd => {DefunctUser, ValidationError}
    case ChangeAdStatus => {DefunctUser, DefunctAd, Error.PermissionDenied}
    case UpdateAd => {DefunctUser, DefunctAd, Error.PermissionDenied, ValidationError}
    case GetAd => {DefunctAd}
    case DeleteAd => {DefunctUser, DefunctAd, Error.PermissionDenied}
    case ListAds | SearchAds | CreateUser => {}
    case UpdateUser | GetUser => {DefunctUser}
    case DeleteUser => {DefunctEntity}
  }

  /** The status a client should see for error `e` from operation `rpc`.
      For DeleteUser the store's DefunctEntity can only mean that the user is
      missing (see App.NoAdsByMissingUser), which is the client's fault. */
  function IntendedStatus(rpc: Rpc, e: Error): Code {
    if rpc == DeleteUser && e == DefunctEntity then InvalidArgument
    else IntendedCode(e)
  }

  /** On every error a service operation can actually return, the handler
      gives the intended status, with two exceptions, both answered Unknown:
      DeleteAd on a missing ad, and DeleteUser on a missing user. */
  lemma StatusFollowsIntendedMapping(rpc: Rpc, e: Error)
    requires e in ErrorsOf(rpc)
    ensures StatusOf(rpc, Some(e)) == IntendedStatus(rpc, e) <==>
      !(rpc == DeleteAd && e == DefunctAd) && !(rpc == DeleteUser && e == DefunctEntity)
    ensures (rpc == DeleteAd && e == DefunctAd) || (rpc == DeleteUser && e == DefunctEntity) ==>
      StatusOf(rpc, Some(e)) == Unknown && IntendedStatus(rpc, e) == InvalidArgument
  {
  }

  /** The handlers of the three ad-editing operations differ only on a missing
      ad: ChangeAdStatus and UpdateAd report InvalidArgument, DeleteAd Unknown. */
  lemma EditHandlersAgreeExceptMissingAd(e: Error)
    ensures StatusOf(ChangeAdStatus, Some(e)) == StatusOf(UpdateAd, Some(e))
    ensures StatusOf(DeleteAd, Some(e)) == StatusOf(ChangeAdStatus, Some(e)) <==> e != DefunctAd
  {
  }
}
