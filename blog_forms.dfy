/**
  Tags written as comma-separated text (django_blog/blog/forms.py): the edit
  form is prefilled with the post's tag names joined by ", ", and saving parses
  the text back into names, gets or creates one Tag row per name and either
  replaces the post's tag set or keeps the tags pending for the caller.
 */
module BlogForms {
  import opened Wrappers
  import opened PyStrings
  import opened BlogTags

  /** A name the parser can produce: non-empty, no surrounding whitespace, no comma. */
  predicate IsTagName(name: string) {
    name != [] && Trimmed(name) && ',' !in name
  }

  /** `[t.strip() for t in pieces if t.strip()]`. */
  function StrippedNonEmpty(pieces: seq<string>): (names: seq<string>)
    ensures |names| <= |pieces|
    ensures forall i :: 0 <= i < |names| ==> names[i] != [] && Trimmed(names[i])
    ensures (forall i :: 0 <= i < |pieces| ==> ',' !in pieces[i]) ==> forall i :: 0 <= i < |names| ==> ',' !in names[i]
  {
    if pieces == [] then []
    else
      var name := Strip(pieces[0]);
      StripChars(pieces[0], ',');
      (if name != [] then [name] else []) + StrippedNonEmpty(pieces[1..])
  }

  /** The list comprehension distributes over concatenated piece lists. */
  lemma {:induction false} StrippedNonEmptyConcat(x: seq<string>, y: seq<string>)
    ensures StrippedNonEmpty(x + y) == StrippedNonEmpty(x) + StrippedNonEmpty(y)
  {
    if x == [] {
      assert x + y == y;
    } else {
      assert (x + y)[0] == x[0] && (x + y)[1..] == x[1..] + y;
      StrippedNonEmptyConcat(x[1..], y);
    }
  }

  /** The tag names of `tags_text`: its comma-separated pieces, stripped, empty ones dropped. */
  function ParseTagNames(text: string): (names: seq<string>)
    ensures forall i :: 0 <= i < |names| ==> IsTagName(names[i])
  {
    StrippedNonEmpty(Split(text, ','))
  }

  /** Names keep their input order: the names of `a,b` are those of `a` followed by those of `b`. */
  lemma ParseConcat(a: string, b: string)
    ensures ParseTagNames(a + [','] + b) == ParseTagNames(a) + ParseTagNames(b)
  {
    SplitConcat(a, ',', b);
    StrippedNonEmptyConcat(Split(a, ','), Split(b, ','));
  }

  /** Leading whitespace before the first piece changes no name. */
  lemma ParseLeadingSpace(c: char, text: string)
    requires IsSpace(c)
    ensures ParseTagNames([c] + text) == ParseTagNames(text)
  {
  }

  /** Text made only of whitespace and commas has no tag names (and so, saved, clears the post's tags). */
  lemma {:induction false} ParseBlank(text: string)
    requires forall k :: 0 <= k < |text| ==> IsSpace(text[k]) || text[k] == ','
    ensures ParseTagNames(text) == []
  {
    if text != [] {
      assert text == [text[0]] + text[1..];
      ParseBlank(text[1..]);
      if text[0] == ',' {
        ParseConcat([], text[1..]);
        assert [] + [','] + text[1..] == text;
      } else {
        ParseLeadingSpace(text[0], text[1..]);
      }
    }
  }

  /** `", ".join(names)` is the first name, a comma, then a space before the join of the rest. */
  lemma JoinCommaSpace(names: seq<string>)
    requires |names| > 1
    ensures Join(names, ", ") == names[0] + [','] + ([' '] + Join(names[1..], ", "))
  {
  }

  /** `", ".join(names)` parses back to the same names when each one is a valid tag name. */
  lemma {:induction false} ParsePrefill(names: seq<string>)
    ensures (forall i :: 0 <= i < |names| ==> IsTagName(names[i])) ==> ParseTagNames(Join(names, ", ")) == names
  {
    if exists i :: 0 <= i < |names| && !IsTagName(names[i]) {
    } else if names == [] {
      assert Split([], ',') == [[]];
    } else {
      SplitNoSeparator(names[0], ',');
      StripTrimmed(names[0]);
      assert ParseTagNames(names[0]) == [names[0]];
      if |names| > 1 {
        var rest := Join(names[1..], ", ");
        ParsePrefill(names[1..]);
        JoinCommaSpace(names);
        ParseConcat(names[0], [' '] + rest);
        ParseLeadingSpace(' ', rest);
        assert [names[0]] + names[1..] == names;
      }
    }
  }

  /** The prefill text of an existing post: its tag names joined by ", ", from which parsing recovers them. */
  function PrefillText(names: seq<string>): (text: string)
    ensures (forall i :: 0 <= i < |names| ==> IsTagName(names[i])) ==> ParseTagNames(text) == names
  {
    ParsePrefill(names);
    Join(names, ", ")
  }

  /**
    The form's `__init__` prefill: an instance that has a primary key gets the
    joined names of its tags as the initial `tags_text`; an unsaved one gets none.
   */
  function InitialTagsText(hasPk: bool, tagNames: seq<string>): (r: Option<string>)
    ensures r.Some? <==> hasPk
    ensures (forall i :: 0 <= i < |tagNames| ==> IsTagName(tagNames[i])) && r.Some? ==> ParseTagNames(r.value) == tagNames
  {
    if hasPk then Some(PrefillText(tagNames))
    else None
  }

  /** The set of a name-by-name tag list is the set of the names' tags. */
  lemma TagSet(names: seq<string>, tagObjs: seq<TagId>, tags: map<string, TagId>)
    requires |tagObjs| == |names|
    requires forall i :: 0 <= i < |names| ==> names[i] in tags && tagObjs[i] == tags[names[i]]
    ensures (set j | 0 <= j < |tagObjs| :: tagObjs[j]) == (set n | n in names :: tags[n])
  {
  }

  /** The form object; `pendingTags` is `_pending_tags`, absent until a save without commit. */
  class TagForm {
    var pendingTags: Option<seq<TagId>>

    constructor ()
      ensures pendingTags == None
    {
      pendingTags := None;
    }

    /**
      The tag part of `save`: each parsed name, in order, is looked up with
      get-or-create; with `commit` the post's tag set becomes exactly those tags
      (replacing, not merging), otherwise the post's tags are untouched and the
      list is kept pending.
     */
    method Save(store: TagStore, post: PostId, tagsText: Option<string>, commit: bool)
      requires store.Valid()
      modifies this, store
      ensures store.Valid()
      ensures var names := ParseTagNames(tagsText.GetOr(""));
              && store.tags.Keys == old(store.tags).Keys + (set n | n in names)
              && (forall n :: n in old(store.tags) ==> store.tags[n] == old(store.tags)[n])
              && (forall n :: n in store.tags && n !in old(store.tags) ==> store.tags[n] >= old(store.nextTagId))
              && store.nextTagId == old(store.nextTagId) + |store.tags.Keys - old(store.tags).Keys|
              && (if commit then
                    && store.postTags == old(store.postTags)[post := set n | n in names :: store.tags[n]]
                    && pendingTags == old(pendingTags)
                  else
                    && store.postTags == old(store.postTags)
                    && pendingTags.Some? && |pendingTags.value| == |names|
                    && (forall i :: 0 <= i < |names| ==> pendingTags.value[i] == store.tags[names[i]]))
    {
      var names := ParseTagNames(tagsText.GetOr(""));
      var tagObjs := store.GetOrCreateAll(names);
      if commit {
        TagSet(names, tagObjs, store.tags);
        store.postTags := store.postTags[post := set j | 0 <= j < |tagObjs| :: tagObjs[j]];
      } else {
        pendingTags := Some(tagObjs);
      }
    }
  }
}
