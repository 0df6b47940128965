/**
  `IsOwnerOrReadOnly.has_object_permission` (social_media_api/posts/permissions.py):
  reads are open to everyone, writes only to the object's author.
 */
module PostPermissions {
  import opened Wrappers
  import opened Accounts

  /** DRF's `SAFE_METHODS`. */
  const SafeMethods: seq<string> := ["GET", "HEAD", "OPTIONS"]

  /** What the check reads of a request: its method and `getattr(request.user, "id", None)`. */
  datatype Request = Request(httpMethod: string, userId: Option<UserId>)

  /** What the check reads of a post or comment: `getattr(obj, "author_id", None)`. */
  datatype Owned = Owned(authorId: Option<UserId>)

  /**
    A safe method is allowed on any object; any other method is allowed exactly
    when the object's author id equals the requesting user's id, both read as
    `None` when missing. The view is passed but never consulted.
   */
  function HasObjectPermission<View>(request: Request, view: View, obj: Owned): (allowed: bool)
    ensures request.httpMethod in SafeMethods ==> allowed
    ensures request.httpMethod !in SafeMethods ==> (allowed <==> obj.authorId == request.userId)
  {
    if request.httpMethod in SafeMethods then true
    else obj.authorId == request.userId
  }

  /** GET, HEAD and OPTIONS are allowed for every user and every object. */
  lemma SafeMethodsAllowed<View>(userId: Option<UserId>, view: View, obj: Owned)
    ensures HasObjectPermission(Request("GET", userId), view, obj)
    ensures HasObjectPermission(Request("HEAD", userId), view, obj)
    ensures HasObjectPermission(Request("OPTIONS", userId), view, obj)
  {
  }

  /** A user who is not the author is denied every non-safe method. */
  lemma NonAuthorDenied<View>(request: Request, view: View, obj: Owned)
    requires request.httpMethod !in SafeMethods
    requires obj.authorId != request.userId
    ensures !HasObjectPermission(request, view, obj)
  {
  }

  /** The decision is the same whatever view asks. */
  lemma ViewIrrelevant<V, W>(request: Request, v: V, w: W, obj: Owned)
    ensures HasObjectPermission(request, v, obj) == HasObjectPermission(request, w, obj)
  {
  }

  /** Two missing ids compare equal: an anonymous request may write an object that has no author id. */
  lemma MissingIdsMatch<View>(httpMethod: string, view: View)
    ensures HasObjectPermission(Request(httpMethod, None), view, Owned(None))
  {
  }
}
