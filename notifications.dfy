/**
  `create_notification` (social_media_api/notifications/utils.py): a keyword
  dict is built step by step from the recipient, actor, verb and target, then
  exactly one Notification row is created from it and returned.
 */
module Notifications {
  import opened Wrappers
  import opened Accounts

  /** The `target` argument: `None`, a model instance (it has `_meta`), or any other value. */
  datatype Target = NoTarget | Instance(model: string, pk: nat) | Plain(typeName: string)

  /** A content type row, identified by the model it describes. */
  datatype ContentType = ContentType(model: string)

  /** The content type of a model: an opaque tag named by the model. */
  function ContentTypeFor(model: string): ContentType {
    ContentType(model)
  }

  /** What escapes `create_notification` when a lookup fails. */
  datatype Raised = AttributeError

  /**
    `ContentType.objects.get_for_model(m)`: Django reads `m._meta`, so a model
    instance succeeds, while the type of a plain value, which has no `_meta`,
    raises before anything is stored.
   */
  function GetForModel(target: Target): (r: Result<ContentType, Raised>)
    requires !target.NoTarget?
    ensures r.Ok? <==> target.Instance?
    ensures r.Ok? ==> r.value == ContentTypeFor(target.model)
  {
    match target
    case Instance(model, _) => Ok(ContentTypeFor(model))
    case Plain(_) => Err(AttributeError)
  }

  /** A value in the keyword dict. */
  datatype Arg = UserArg(user: UserId) | TextArg(text: string) | TypeArg(contentType: ContentType) | IdArg(id: nat)

  /** A stored Notification row; a missing target is stored as null. */
  datatype Notification = Notification(
    id: nat, recipient: UserId, actor: UserId, verb: string,
    targetContentType: Option<ContentType>, targetObjectId: Option<nat>)

  /** The notification `create_notification` makes for these arguments, apart from its id. */
  ghost predicate Describes(n: Notification, recipient: UserId, actor: UserId, verb: string, target: Target) {
    && n.recipient == recipient && n.actor == actor && n.verb == verb
    && n.targetContentType == (if target.Instance? then Some(ContentTypeFor(target.model)) else None)
    && n.targetObjectId == (if target.Instance? then Some(target.pk) else None)
  }

  /**
    The keyword dict: always the recipient, actor and verb; a model-instance
    target adds its content type and primary key; a `None` target adds nothing;
    any other target makes the first content-type lookup raise, so no dict is
    produced.
   */
  method BuildKwargs(recipient: UserId, actor: UserId, verb: string, target: Target)
    returns (r: Result<map<string, Arg>, Raised>)
    ensures r.Err? <==> target.Plain?
    ensures r.Ok? ==> var kwargs := r.value;
              && "recipient" in kwargs && kwargs["recipient"] == UserArg(recipient)
              && "actor" in kwargs && kwargs["actor"] == UserArg(actor)
              && "verb" in kwargs && kwargs["verb"] == TextArg(verb)
              && ("target_content_type" in kwargs <==> target.Instance?)
              && ("target_object_id" in kwargs <==> target.Instance?)
              && (target.Instance? ==> kwargs["target_content_type"] == TypeArg(ContentTypeFor(target.model))
                                       && kwargs["target_object_id"] == IdArg(target.pk))
              && kwargs.Keys <= {"recipient", "actor", "verb", "target_content_type", "target_object_id"}
  {
    var kwargs := map["recipient" := UserArg(recipient), "actor" := UserArg(actor), "verb" := TextArg(verb)];
    if !target.NoTarget? {
      var first := GetForModel(target);
      if first.Err? {
        return Err(first.error);
      }
      kwargs := kwargs["target_content_type" := TypeArg(first.value)];
      if target.Instance? {
        var contentType := GetForModel(target);
        kwargs := kwargs["target_content_type" := TypeArg(contentType.value)];
        kwargs := kwargs["target_object_id" := IdArg(target.pk)];
      }
      // The pop for a target without `_meta` is never reached: such a target has already raised.
    }
    r := Ok(kwargs);
  }

  /** `Notification.objects.create(**kwargs)`: each column takes its keyword, and a keyword that is absent leaves its column null. */
  function RowFromKwargs(id: nat, kwargs: map<string, Arg>): (n: Notification)
    requires "recipient" in kwargs && kwargs["recipient"].UserArg?
    requires "actor" in kwargs && kwargs["actor"].UserArg?
    requires "verb" in kwargs && kwargs["verb"].TextArg?
    ensures n.id == id && UserArg(n.recipient) == kwargs["recipient"] && UserArg(n.actor) == kwargs["actor"]
    ensures TextArg(n.verb) == kwargs["verb"]
    ensures n.targetContentType.Some? <==> "target_content_type" in kwargs && kwargs["target_content_type"].TypeArg?
    ensures n.targetContentType.Some? ==> kwargs["target_content_type"] == TypeArg(n.targetContentType.value)
    ensures n.targetObjectId.Some? <==> "target_object_id" in kwargs && kwargs["target_object_id"].IdArg?
    ensures n.targetObjectId.Some? ==> kwargs["target_object_id"] == IdArg(n.targetObjectId.value)
  {
    Notification(
      id, kwargs["recipient"].user, kwargs["actor"].user, kwargs["verb"].text,
      if "target_content_type" in kwargs && kwargs["target_content_type"].TypeArg?
      then Some(kwargs["target_content_type"].contentType) else None,
      if "target_object_id" in kwargs && kwargs["target_object_id"].IdArg?
      then Some(kwargs["target_object_id"].id) else None)
  }

  /** The Notification table. */
  class NotificationTable {
    var rows: seq<Notification>
    var nextId: nat

    /** Row ids are issued in increasing order from `nextId`, so no two rows share one. */
    ghost predicate Valid()
      reads this
    {
      && (forall i :: 0 <= i < |rows| ==> rows[i].id < nextId)
      && (forall i, j :: 0 <= i < j < |rows| ==> rows[i].id < rows[j].id)
    }

    constructor ()
      ensures Valid()
      ensures rows == [] && nextId == 0
    {
      rows := [];
      nextId := 0;
    }

    /**
      `create_notification`: appends exactly one row, built from the keyword
      dict, and returns it; a target that is neither `None` nor a model instance
      raises and leaves the table as it was.
     */
    method Create(recipient: UserId, actor: UserId, verb: string, target: Target) returns (r: Result<Notification, Raised>)
      requires Valid()
      modifies this
      ensures Valid()
      ensures r.Err? <==> target.Plain?
      ensures r.Err? ==> rows == old(rows) && nextId == old(nextId)
      ensures r.Ok? ==> rows == old(rows) + [r.value] && nextId == old(nextId) + 1
      ensures r.Ok? ==> r.value.id == old(nextId) && Describes(r.value, recipient, actor, verb, target)
    {
      var kwargs := BuildKwargs(recipient, actor, verb, target);
      if kwargs.Err? {
        return Err(kwargs.error);
      }
      var n := RowFromKwargs(nextId, kwargs.value);
      rows := rows + [n];
      nextId := nextId + 1;
      r := Ok(n);
    }
  }

  /** `after` is `before` with exactly one more row, numbered `id`, the one these arguments describe. */
  ghost predicate NotifiedOnce(before: seq<Notification>, after: seq<Notification>, id: nat,
                               recipient: UserId, actor: UserId, verb: string, target: Target) {
    && |after| == |before| + 1 && after[..|before|] == before
    && after[|before|].id == id && Describes(after[|before|], recipient, actor, verb, target)
  }
}
