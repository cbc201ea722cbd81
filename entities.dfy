/** The two records the service stores. Times are integers; 0 is Go's zero time. */
module Entities {

  /** An ad, field for field (ads/ads.go). */
  datatype Ad = Ad(
    ID: int,
    Title: string,
    Text: string,
    AuthorID: int,
    Published: bool,
    CreatedAt: int,
    UpdatedAt: int)

  /** A user: an id, a display name and an email. */
  datatype User = User(ID: int, Name: string, Email: string)

  /** The zero value `ads.Ad{}` returned beside most errors. */
  const ZeroAd := Ad(0, "", "", 0, false, 0, 0)

  /** The zero value `users.User{}` returned beside most errors. */
  const ZeroUser := User(0, "", "")
}
