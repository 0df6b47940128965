/**
  The Tag table behind django_blog/blog/forms.py: `Tag.objects.get_or_create`
  keeps one row per name and issues ids from a counter, and the form's `save`
  runs it over the parsed names in order.
 */
module BlogTags {
  type TagId = nat
  type PostId = nat

  /** The Tag table (name to id; `get_or_create` keeps names unique) and each post's tag set. */
  class TagStore {
    var tags: map<string, TagId>
    var nextTagId: nat
    var postTags: map<PostId, set<TagId>>

    /** Tag ids are issued in increasing order, so no two names share a row. */
    ghost predicate Valid()
      reads this
    {
      && (forall n :: n in tags ==> tags[n] < nextTagId)
      && (forall n, m :: n in tags && m in tags && n != m ==> tags[n] != tags[m])
    }

    constructor ()
      ensures Valid() && tags == map[] && postTags == map[]
    {
      tags := map[];
      nextTagId := 0;
      postTags := map[];
    }

    /** `Tag.objects.get_or_create(name=name)`: the existing row is reused; a missing one is created once. */
    method GetOrCreate(name: string) returns (tag: TagId, created: bool)
      requires Valid()
      modifies this`tags, this`nextTagId
      ensures Valid()
      ensures created <==> name !in old(tags)
      ensures !created ==> tag == old(tags)[name] && tags == old(tags) && nextTagId == old(nextTagId)
      ensures created ==> tag == old(nextTagId) && tags == old(tags)[name := tag] && nextTagId == old(nextTagId) + 1
      ensures forall n :: n in old(tags) ==> n in tags && tags[n] == old(tags)[n]
    {
      if name in tags {
        tag, created := tags[name], false;
      } else {
        tag, created := nextTagId, true;
        tags := tags[name := tag];
        nextTagId := nextTagId + 1;
      }
    }

    /** The loop of `save`: get or create the tag of each name, in order. */
    method GetOrCreateAll(names: seq<string>) returns (tagObjs: seq<TagId>)
      requires Valid()
      modifies this`tags, this`nextTagId
      ensures Valid()
      ensures tags.Keys == old(tags).Keys + (set n | n in names)
      ensures forall n :: n in old(tags) ==> tags[n] == old(tags)[n]
      ensures forall n :: n in tags && n !in old(tags) ==> tags[n] >= old(nextTagId)
      ensures nextTagId == old(nextTagId) + |tags.Keys - old(tags).Keys|
      ensures |tagObjs| == |names| && forall i :: 0 <= i < |names| ==> tagObjs[i] == tags[names[i]]
    {
      tagObjs := [];
      var i := 0;
      ghost var issued: seq<string> := [];
      while i < |names|
        invariant 0 <= i <= |names|
        invariant Valid()
        invariant Progress(old(tags), old(nextTagId), names[..i], issued, tagObjs, tags, nextTagId)
      {
        ghost var prev, prevNext := tags, nextTagId;
        var tag, created := GetOrCreate(names[i]);
        assert names[..i + 1] == names[..i] + [names[i]];
        ProgressStep(old(tags), old(nextTagId), names[..i], issued, tagObjs, names[i], prev, prevNext, tag, created, tags, nextTagId);
        if created {
          issued := issued + [names[i]];
        }
        tagObjs := tagObjs + [tag];
        i := i + 1;
      }
      assert names[..i] == names;
      IssuedCount(old(tags), old(nextTagId), issued, tags, nextTagId);
    }
  }

  /** The state of the loop of `save` after the names `seen`, from the table `base` with counter `baseNext`. */
  ghost predicate Progress(base: map<string, TagId>, baseNext: nat, seen: seq<string>, issued: seq<string>,
                           tagObjs: seq<TagId>, tags: map<string, TagId>, next: nat)
  {
    && Grown(base, baseNext, seen, tags, next)
    && Issued(base, baseNext, issued, tags, next)
    && Listed(seen, tagObjs, tags)
  }

  /**
    The tag table after `get_or_create` of `seen`: the seen names are added,
    old rows keep their ids, and new rows have ids from `baseNext` to `next`.
   */
  ghost predicate Grown(base: map<string, TagId>, baseNext: nat, seen: seq<string>,
                        tags: map<string, TagId>, next: nat)
  {
    && tags.Keys == base.Keys + (set n | n in seen)
    && (forall n :: n in base ==> tags[n] == base[n])
    && baseNext <= next
    && (forall n :: n in tags && n !in base ==> baseNext <= tags[n] < next)
  }

  /**
    The names `issued` got the ids from `baseNext` on, one each and in order,
    and they are exactly the rows beyond `base`.
   */
  ghost predicate Issued(base: map<string, TagId>, baseNext: nat, issued: seq<string>,
                         tags: map<string, TagId>, next: nat)
  {
    && next == baseNext + |issued|
    && (forall k :: 0 <= k < |issued| ==> issued[k] in tags && issued[k] !in base && tags[issued[k]] == baseNext + k)
    && (forall n :: n in tags && n !in base ==> n in issued)
  }

  /** The list built so far holds the tag of each seen name, in order. */
  ghost predicate Listed(seen: seq<string>, tagObjs: seq<TagId>, tags: map<string, TagId>)
  {
    && |tagObjs| == |seen|
    && forall j :: 0 <= j < |seen| ==> seen[j] in tags && tagObjs[j] == tags[seen[j]]
  }

  /** One `get_or_create` of `name` keeps `Progress`, with `name` seen and its tag appended. */
  lemma ProgressStep(base: map<string, TagId>, baseNext: nat, before: seq<string>, issued: seq<string>,
                     tagObjs: seq<TagId>, name: string, prev: map<string, TagId>, prevNext: nat,
                     tag: TagId, created: bool, tags: map<string, TagId>, next: nat)
    requires Progress(base, baseNext, before, issued, tagObjs, prev, prevNext)
    requires created <==> name !in prev
    requires !created ==> tag == prev[name] && tags == prev && next == prevNext
    requires created ==> tag == prevNext && tags == prev[name := tag] && next == prevNext + 1
    ensures Progress(base, baseNext, before + [name], if created then issued + [name] else issued,
                     tagObjs + [tag], tags, next)
  {
  }

  /** Since each issued name has its own id, the counter has moved by the number of rows beyond `base`. */
  lemma IssuedCount(base: map<string, TagId>, baseNext: nat, issued: seq<string>,
                    tags: map<string, TagId>, next: nat)
    requires Issued(base, baseNext, issued, tags, next)
    ensures next == baseNext + |tags.Keys - base.Keys|
  {
    assert tags.Keys - base.Keys == (set n | n in issued);
    DistinctCount(issued);
  }

  /** A list without repeats has as many distinct elements as entries. */
  lemma {:induction false} DistinctCount(s: seq<string>)
    requires forall i, j :: 0 <= i < j < |s| ==> s[i] != s[j]
    ensures |(set n | n in s)| == |s|
  {
    if s != [] {
      DistinctCount(s[1..]);
      assert (set n | n in s) == (set n | n in s[1..]) + {s[0]};
    }
  }
}
