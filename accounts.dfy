/**
  The social API's user accounts (social_media_api/accounts/models.py): users are
  identified by id, and the `followers` many-to-many relates each user to the
  users who follow them, with `following` as its reverse.
 */
module Accounts {
  /** A User row's primary key. */
  type UserId = nat

  /** `user.following`: the users whose followers include `user`. */
  function Following(followers: map<UserId, set<UserId>>, user: UserId): (r: set<UserId>)
    ensures forall v :: v in r <==> v in followers && user in followers[v]
  {
    set v | v in followers && user in followers[v]
  }
}
