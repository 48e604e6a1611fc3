/** Resolving an author's display name through the users service, as the
    posts and comments services both do: the username when the lookup
    answers with one, otherwise the id written in decimal. */
module Enrichment {
  import opened Js

  /** What `GET /users/{id}` did: answered with a username ("" when absent
      or empty), or failed (network error, non-2xx status). */
  datatype Lookup = Found(username: string) | LookupFailed

  /** The users service as seen from a caller: the lookup of each id. */
  type Directory = int -> Lookup

  /** The display name; it never fails. */
  function UserName(userId: int, lookup: Lookup): (name: string)
    ensures name != ""
    ensures lookup.Found? && lookup.username != "" ==> name == lookup.username
    ensures !(lookup.Found? && lookup.username != "") ==> name == IntToString(userId)
  {
    match lookup
    case Found(username) => OrElse(username, IntToString(userId))
    case LookupFailed => IntToString(userId)
  }

  /** When no username comes back, the display name still identifies the
      user: reading it back with `parseInt` gives the id. */
  lemma FallbackNameIsId(userId: int, lookup: Lookup)
    requires !(lookup.Found? && lookup.username != "")
    ensures ParseInt(UserName(userId, lookup), false) == Some(userId)
    ensures ParseInt(UserName(userId, lookup), true) == Some(userId)
  {
    ParseIntOfIntToString(userId, false);
    ParseIntOfIntToString(userId, true);
  }
}
