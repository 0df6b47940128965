# Django learning-lab core, modelled in Dafny

This project models the parts of the Django learning-lab repository that carry
behaviour of their own rather than framework configuration:

- the books/authors API (`advanced-api-project`): the future-year rule on a
  book's publication year, the nested author writer that creates an author and
  saves its books one by one (with no rollback), the update that deletes an
  author's books before saving the new ones, and the generic create/update views
  that strip the title before saving;
- the blog's tag form (`django_blog`): the comma-separated `tags_text` field,
  prefilled from a post's tags and parsed back on save into get-or-created Tag
  rows that replace the post's tags or are kept pending;
- the social API (`social_media_api`): liking and unliking a post, creating a
  comment, the notifications both send, the owner-or-read-only permission, the
  follow feed, and the default pagination bounds.

Modules, one per source file:

| file | module | source |
|---|---|---|
| `wrappers.dfy` | `Wrappers` | `Option` and `Result` |
| `accounts.dfy` | `Accounts` | the user id and the follow relation of `social_media_api/accounts/models.py` |
| `pystrings.dfy` | `PyStrings` | Python's `str.strip`, `str.split` and `str.join`, used by the views and the form |
| `api_serializers.dfy` | `ApiSerializers` | `advanced-api-project/api/serializers.py` |
| `api_views.dfy` | `ApiViews` | `advanced-api-project/api/views.py` |
| `blog_forms.dfy` | `BlogForms` | `django_blog/blog/forms.py` |
| `blog_tags.dfy` | `BlogTags` | the Tag table as `django_blog/blog/forms.py` uses it (`Tag.objects.get_or_create` and a post's tag set) |
| `notifications.dfy` | `Notifications` | `social_media_api/notifications/utils.py` |
| `post_permissions.dfy` | `PostPermissions` | `social_media_api/posts/permissions.py` |
| `post_views.dfy` | `PostViews` | `social_media_api/posts/views.py` |

Database tables that the source mutates are fields of classes (`Library`,
`TagStore`, `SocialDb`, `NotificationTable`). The serializer, the tag store and
the notification table update their own tables through methods of those
classes; the views (`ApiViews.PerformCreate`, `ApiViews.PerformUpdate`,
`PostViews.LikePost`, `PostViews.UnlikePost`, `PostViews.CreateComment`) are
module-level methods that take the table objects as parameters. Every such
method carries a `modifies` clause and states the new value of every field it
changes, id counters included. The one thing left open is which new tag gets
which new id when a save creates several: the contract says the new tags take
distinct ids from the old counter up, and that the counter moves by exactly the
number of new tags. Pure decisions (validation, parsing, permission, feed, page size) are
functions with lemmas about them. The
current year, the requesting user and the request's query parameters are
parameters.

The nested author writer could be read as validating every entry before
replacing anything, but the code does not work that way: `create`
stores the author before the first book is validated, and `update` deletes the
author's books before the first new entry is validated, so a rejected entry
leaves the earlier writes in place. The model follows the code
(`Library.Create`, `Library.Update`).

## Model

| member | source | states |
|---|---|---|
| ApiSerializers.ValidatePublicationYear | advanced-api-project/api/serializers.py:11-17 | a year is accepted exactly when it is not after the current year, and then returned unchanged; otherwise the error is keyed to `publication_year` and names the current year |
| ApiSerializers.FirstInvalid | advanced-api-project/api/serializers.py:34-37 | the index at which the entry loop stops: every earlier entry passes the year rule, the entry there fails it, or no entry fails |
| ApiSerializers.NewRows | advanced-api-project/api/serializers.py:35-37 | the rows saved for the entries are one per entry, all owned by the injected author, with increasing ids in the block starting at the next free id |
| ApiSerializers.WithoutAuthor | advanced-api-project/api/serializers.py:44 | the delete never lengthens the table and leaves no row of the deleted author |
| ApiSerializers.BooksOfConcat | advanced-api-project/api/serializers.py:44-48 | an author's books in a table built of two parts are that author's books in the first part followed by those in the second |
| ApiSerializers.BooksOfNewRows | advanced-api-project/api/serializers.py:35-37 | the rows saved for a list of entries belong to the injected author alone and carry the entries' fields in order |
| ApiSerializers.BooksOfWithoutAuthor | advanced-api-project/api/serializers.py:44 | deleting an author's books leaves that author with none and every other author's books unchanged |
| ApiSerializers.BooksOfNone | advanced-api-project/api/serializers.py:32 | an author id no row mentions (a freshly created author) owns no books |
| ApiSerializers.WithoutAuthorMembers | advanced-api-project/api/serializers.py:44 | after the delete, exactly the rows of other authors remain |
| ApiSerializers.WithoutAuthorAbove | advanced-api-project/api/serializers.py:44 | the delete introduces no id: a bound below every id of the table is still below every surviving id |
| ApiSerializers.WithoutAuthorIncreasing | advanced-api-project/api/serializers.py:44 | the delete keeps the surviving rows in id order |
| ApiSerializers.Library.InsertBook | advanced-api-project/api/serializers.py:37 | saving a book appends one row under the next id and keeps the tables consistent |
| ApiSerializers.Library.SaveEntries | advanced-api-project/api/serializers.py:34-37 | each entry is validated with the author injected and saved in order; the first rejected entry raises the year error, and the rows saved before it stay |
| ApiSerializers.Library.Create | advanced-api-project/api/serializers.py:30-38 | the author is stored first under a new id; its books are exactly the entries before the first rejected one; other authors' books are unchanged; the result is the author or the year error |
| ApiSerializers.Library.Update | advanced-api-project/api/serializers.py:40-49 | the name is overwritten only when given; without a books key no book changes; with one, the author's old books are deleted and its books become exactly the entries before the first rejected one; other authors' books are unchanged |
| ApiViews.NormalizeTitle | advanced-api-project/api/views.py:50 | the saved title is always present and carries no surrounding whitespace; it is the empty string when the data had none, and otherwise the given title with exactly its leading and trailing whitespace removed (a contiguous slice, everything outside it whitespace); other fields pass through |
| ApiViews.NormalizeTitleIdempotent | advanced-api-project/api/views.py:50 | normalising an already normalised title changes nothing |
| ApiViews.UpdateWithoutTitleBlanksIt | advanced-api-project/api/views.py:64-65 | a partial update without a title saves the empty string as the title, while the year and the author are assigned when present and kept otherwise, and the id is kept |
| ApiViews.PerformCreate | advanced-api-project/api/views.py:48-51 | creating a book adds one row whose title is the stripped validated title and whose other fields are the validated ones |
| ApiViews.PerformUpdate | advanced-api-project/api/views.py:62-65 | updating a book changes only its row, assigning the given fields with the stripped (or empty) title |
| PyStrings.Strip | advanced-api-project/api/views.py:50 | `strip` leaves no leading or trailing whitespace and never lengthens the text |
| PyStrings.StripSlice | django_blog/blog/forms.py:26 | `strip` removes only leading and trailing whitespace: the result is a contiguous slice and everything outside it is whitespace |
| PyStrings.StripIdempotent | advanced-api-project/api/views.py:64 | stripping twice is stripping once |
| PyStrings.StripTrimmed | advanced-api-project/api/views.py:64 | a string without surrounding whitespace strips to itself |
| PyStrings.StripLeadingSpace | django_blog/blog/forms.py:26 | a leading whitespace character does not change the stripped text |
| PyStrings.StripAllSpace | django_blog/blog/forms.py:26 | a piece made only of whitespace strips to the empty string, so the comprehension drops it |
| PyStrings.StripChars | django_blog/blog/forms.py:26 | stripping introduces no character that was not there |
| PyStrings.Split | django_blog/blog/forms.py:26 | splitting on a comma gives at least one piece and no piece contains a comma |
| PyStrings.JoinSplit | django_blog/blog/forms.py:26 | joining the pieces of a split with the separator gives back the original text |
| PyStrings.Join | django_blog/blog/forms.py:19 | the joined text starts with the first piece |
| PyStrings.SplitJoin | django_blog/blog/forms.py:19 | splitting the join of separator-free pieces on that separator gives the pieces back |
| PyStrings.SplitNoSeparator | django_blog/blog/forms.py:26 | text without the separator is a single piece |
| PyStrings.SplitConcat | django_blog/blog/forms.py:26 | splitting text joined at a separator splits each side apart, keeping order |
| PyStrings.SplitCons | django_blog/blog/forms.py:26 | a leading non-separator character belongs to the first piece |
| BlogForms.StrippedNonEmpty | django_blog/blog/forms.py:26 | the comprehension yields at most one name per piece, each non-empty and stripped, and comma-free when the pieces are |
| BlogForms.StrippedNonEmptyConcat | django_blog/blog/forms.py:26 | the comprehension distributes over concatenated piece lists |
| BlogForms.ParseTagNames | django_blog/blog/forms.py:25-26 | every parsed name is non-empty, has no surrounding whitespace and no comma |
| BlogForms.ParseConcat | django_blog/blog/forms.py:26 | the names of `a,b` are the names of `a` followed by those of `b` |
| BlogForms.ParseLeadingSpace | django_blog/blog/forms.py:26 | leading whitespace changes no name |
| BlogForms.ParseBlank | django_blog/blog/forms.py:25-32 | text of only whitespace and commas yields no names, so a committed save clears the post's tags |
| BlogForms.ParsePrefill | django_blog/blog/forms.py:19-26 | the text `", ".join(names)` parses back to the same names whenever each is a valid tag name |
| BlogForms.PrefillText | django_blog/blog/forms.py:19 | the prefill text of a post's tag names parses back to those names whenever each is a valid tag name |
| BlogForms.InitialTagsText | django_blog/blog/forms.py:15-20 | only an instance with a primary key gets an initial value, and that value parses back to its tag names whenever each is a valid tag name |
| BlogTags.TagStore.GetOrCreate | django_blog/blog/forms.py:29 | an existing tag row is reused; a missing name gets exactly one new row under a fresh id |
| BlogTags.TagStore.GetOrCreateAll | django_blog/blog/forms.py:27-30 | after the loop every parsed name has a tag, old tags keep their ids, new ones get fresh ids, the id counter moves by exactly the number of new tags, and the list holds each name's tag in order |
| BlogTags.IssuedCount | django_blog/blog/forms.py:29 | when each newly created tag took the next id in turn, the counter has moved by exactly the number of new tag rows |
| BlogForms.TagSet | django_blog/blog/forms.py:32 | the set given to `post.tags.set` holds exactly the tags of the parsed names |
| BlogForms.TagForm.Save | django_blog/blog/forms.py:22-36 | with commit the post's tag set becomes exactly the parsed names' tags (replacing, not merging); without it the post's tags are untouched and the tag list is kept pending |
| Notifications.GetForModel | social_media_api/notifications/utils.py:11 | the content-type lookup succeeds exactly for a model instance, giving that model's content type, and raises for the type of a plain value |
| Notifications.BuildKwargs | social_media_api/notifications/utils.py:5-19 | a plain (non-model) target raises at the first lookup; otherwise the keyword dict always holds recipient, actor and verb, and holds a content type and object id exactly when the target is a model instance, and nothing else |
| Notifications.RowFromKwargs | social_media_api/notifications/utils.py:20 | each column of the created row takes its keyword, and a column whose keyword is absent is null |
| Notifications.NotificationTable.Create | social_media_api/notifications/utils.py:4-20 | a plain target raises and leaves the table unchanged; otherwise exactly one notification row is appended and returned, with the target's content type and id for an instance target and none for no target |
| PostPermissions.HasObjectPermission | social_media_api/posts/permissions.py:9-13 | safe methods are always allowed; any other method is allowed exactly when the object's author id equals the user's id |
| PostPermissions.SafeMethodsAllowed | social_media_api/posts/permissions.py:10-11 | GET, HEAD and OPTIONS are allowed for every user and object |
| PostPermissions.NonAuthorDenied | social_media_api/posts/permissions.py:13 | a non-author is denied every unsafe method |
| PostPermissions.ViewIrrelevant | social_media_api/posts/permissions.py:9-13 | the decision does not depend on the view |
| PostPermissions.MissingIdsMatch | social_media_api/posts/permissions.py:13 | an object without an author id and a user without an id compare equal, so the write is allowed |
| PostViews.FindPost | social_media_api/posts/views.py:86 | the lookup returns a post with that id, or none exists |
| PostViews.LikePost | social_media_api/posts/views.py:85-92 | an unknown post is 404 with no change; a repeated like answers 200 with no change; a first like adds the pair, answers 201, and notifies the author exactly once unless the liker is the author |
| PostViews.UnlikePost | social_media_api/posts/views.py:101-104 | an unknown post is 404 with no change; otherwise the pair is removed if present, all other likes kept, and the answer is 200 |
| PostViews.CreateComment | social_media_api/posts/views.py:56-61 | the comment is stored with the requester as author, and the post's author is notified exactly once unless they wrote it |
| Accounts.Following | social_media_api/accounts/models.py:17-22 | a user follows exactly the users whose followers include them |
| PostViews.PostsBy | social_media_api/posts/views.py:74 | the filter keeps each post of a listed author as often as it occurs and drops every other post |
| PostViews.InsertNewestFirst | social_media_api/posts/views.py:74 | inserting into a newest-first list keeps it newest first and adds exactly that post |
| PostViews.InsertBehindHead | social_media_api/posts/views.py:74 | the head of a newest-first list is at least as new as anything inserted behind it, and the insertion adds exactly one post |
| PostViews.SortNewestFirst | social_media_api/posts/views.py:74 | the ordering is newest first and a permutation of its input |
| PostViews.Feed | social_media_api/posts/views.py:72-74 | the feed is newest first and holds exactly the posts whose author the user follows, each as often as in the table |
| PostViews.PageSize | social_media_api/posts/views.py:16-19 | the page size is between 1 and 100: a positive requested size capped at 100, otherwise the default 10 |
| PostViews.PageCount | social_media_api/posts/views.py:16-19 | the page count is at least one and is the smallest number of pages of the given size that holds all items |
| PostViews.Page | social_media_api/posts/views.py:16-19 | a page exists exactly for numbers 1 to the page count, holds at most the page size, and lists consecutive items from the page's offset |
| PostViews.PagePosition | social_media_api/posts/views.py:16-19 | index `k` falls on an existing page, `k / size + 1`, at offset `k % size` from that page's start |
| PostViews.PageHoldsEveryItem | social_media_api/posts/views.py:16-19 | every item appears on the page its index selects, at the position its index selects |

## Left out

- The ORM, transactions and the database engine: tables are sequences, maps and sets; no concurrency is modelled.
- The outer validation of the author serializer's nested `books` field runs the year rule before `create`/`update` are called; the model shows what `create` and `update` do with the data they are given, including entries that would fail the rule.
- ApiSerializers.ValidatePublicationYear: the error message text is represented by its field and the year it names, not the formatted string.
- Other field validation (title length, the author foreign key, required fields) belongs to Django REST framework and is not modelled; the views' preconditions say which fields are present.
- `date.today()` is a parameter, the current year.
- The post `super().save(commit=commit)` in the blog form is not modelled: the post is identified by its id. The form's class declaration (a registration form whose fields do not include `tags_text`) is not modelled; the tag logic is modelled as written.
- `get_or_create` raising on duplicate names cannot happen in the model, because the Tag table maps each name to one row.
- BlogTags.TagStore.GetOrCreateAll: which new tag receives which new id is not stated when several are created; the contract gives the set of new ids (distinct, from the old counter up to the new one) and not their order. The `Tag` model itself is not part of this model; its table is a map from name to id.
- The order of `values_list("name")` in the prefill is the order the caller passes.
- Notifications.ContentTypeFor: the content type of a model is an opaque tag named by the model. Passing a model class (rather than an instance) as the target is not modelled. The `pop` for a target without `_meta` is not modelled as a step, because the lookup before it has already raised for such a target.
- Notification timestamps and the unread flag are not modelled.
- Authentication and the view-level permission classes (`IsAuthenticated`, `IsAuthenticatedOrReadOnly`) are not modelled; the requesting user is a parameter.
- `PostViewSet.perform_create`, the search and ordering filters, and comment update and delete are framework configuration and are not modelled.
- PostViews.Feed: posts with equal `created_at` come out in the order the insertion sort gives; the database leaves their order unspecified.
- PostViews.Page: the `last` page keyword, non-integer page numbers and the 404 detail text of the paginator are not modelled.
