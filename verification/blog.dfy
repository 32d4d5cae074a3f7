/**
 * The blog document: the fields the pre-save hook derives (slug, read time, excerpt,
 * publication date), the like list with its count, and the view counter.
 */
module BlogModel {
  import opened Common
  import opened Text
  import Slug

  /** One like: who gave it and when (the sub-document's `createdAt` default). */
  datatype Like = Like(user: Id, createdAt: Millis)

  datatype Blog = Blog(
    title: string,
    content: string,
    excerpt: Option<string>,
    slug: Option<string>,
    author: Id,
    published: bool,
    publishedAt: Option<Millis>,
    readTime: nat,
    views: nat,
    likes: seq<Like>)

  /** The paths `isModified` is asked about, and the ones the other operations change. */
  datatype Field = Title | Content | Published | Views | Likes

  const WordsPerMinute: nat := 200
  const ExcerptLength: nat := 200
  const Ellipsis: string := "..."
  /** The schema's `maxlength` for `excerpt`. */
  const ExcerptMaxLength: nat := 300

  /** `content.split(/\s+/).length`. */
  function WordCount(content: string): (n: nat)
    ensures n >= 1
  {
    |Split(content, IsJsSpace)|
  }

  /** The word count is one more than the number of whitespace runs. */
  lemma WordCountCountsRuns(content: string)
    ensures WordCount(content) == 1 + CountRuns(content, IsJsSpace)
  {
  }

  /** `Math.ceil(wordCount / 200)`: the fewest whole minutes that cover the words. */
  function ReadTime(content: string): (minutes: nat)
    ensures minutes >= 1
    ensures (minutes - 1) * WordsPerMinute < WordCount(content) <= minutes * WordsPerMinute
  {
    (WordCount(content) + WordsPerMinute - 1) / WordsPerMinute
  }

  function Min(a: nat, b: nat): nat {
    if a <= b then a else b
  }

  /** `content.substring(0, 200) + '...'`. */
  function GeneratedExcerpt(content: string): (r: string)
    ensures |r| == Min(|content|, ExcerptLength) + |Ellipsis|
    ensures r[..|r| - |Ellipsis|] <= content
    ensures r[|r| - |Ellipsis|..] == Ellipsis
    ensures |r| <= ExcerptMaxLength
  {
    content[..Min(|content|, ExcerptLength)] + Ellipsis
  }

  /** `this.excerpt` is truthy: present and not empty. */
  predicate HasExcerpt(b: Blog) {
    b.excerpt.Some? && b.excerpt.value != []
  }

  /**
   * The pre-save hook. The slug is recomputed only when the title was modified; read
   * time only when the content was; an excerpt is generated only when the content was
   * modified and there is none; the publication date is stamped only when `published`
   * was modified, is true, and no date is recorded yet. Nothing else changes.
   */
  function PreSave(b: Blog, modified: set<Field>, now: Millis): (r: Blog)
    ensures r.(slug := b.slug, readTime := b.readTime, excerpt := b.excerpt, publishedAt := b.publishedAt) == b
    ensures Title in modified ==> r.slug == Some(Slug.Slugify(b.title))
    ensures Title in modified ==> Slug.IsSlug(r.slug.value) && |r.slug.value| <= |b.title|
    ensures Title !in modified ==> r.slug == b.slug
    ensures Content in modified ==>
              r.readTime >= 1 && (r.readTime - 1) * WordsPerMinute < WordCount(b.content) <= r.readTime * WordsPerMinute
    ensures Content !in modified ==> r.readTime == b.readTime
    ensures HasExcerpt(b) ==> r.excerpt == b.excerpt
    ensures r.excerpt != b.excerpt ==> Content in modified && r.excerpt == Some(GeneratedExcerpt(b.content))
    ensures Content in modified ==> HasExcerpt(r)
    ensures b.publishedAt.Some? ==> r.publishedAt == b.publishedAt
    ensures r.publishedAt != b.publishedAt <==> Published in modified && b.published && b.publishedAt.None?
    ensures r.publishedAt != b.publishedAt ==> r.publishedAt == Some(now)
  {
    var b1 := if Title in modified then b.(slug := Some(Slug.Slugify(b.title))) else b;
    var b2 := if Content in modified then b1.(readTime := ReadTime(b1.content)) else b1;
    var b3 := if Content in modified && !HasExcerpt(b2)
              then b2.(excerpt := Some(GeneratedExcerpt(b2.content))) else b2;
    if Published in modified && b3.published && b3.publishedAt.None?
    then b3.(publishedAt := Some(now)) else b3
  }

  /** Saving again with the same modified paths changes nothing more, whatever the time. */
  lemma PreSaveIdempotent(b: Blog, modified: set<Field>, now: Millis, later: Millis)
    ensures PreSave(PreSave(b, modified, now), modified, later) == PreSave(b, modified, now)
  {
  }

  /** The `likesCount` virtual. */
  function LikesCount(b: Blog): nat {
    |b.likes|
  }

  predicate LikedBy(likes: seq<Like>, user: Id) {
    exists i :: 0 <= i < |likes| && likes[i].user == user
  }

  /** The likes given by anyone other than `user`, in order. */
  function OthersLikes(likes: seq<Like>, user: Id): (r: seq<Like>)
    ensures !LikedBy(r, user)
    ensures |r| <= |likes|
    ensures !LikedBy(likes, user) ==> r == likes
    ensures forall l :: l in r <==> l in likes && l.user != user
  {
    if likes == [] then []
    else if likes[0].user == user then OthersLikes(likes[1..], user)
    else
      var rest := OthersLikes(likes[1..], user);
      assert !LikedBy(likes, user) ==> !LikedBy(likes[1..], user) by {
        forall i | 0 <= i < |likes[1..]|
          ensures likes[1..][i] == likes[i + 1]
        {
        }
      }
      var r := [likes[0]] + rest;
      forall i | 0 <= i < |r|
        ensures r[i].user != user
      {
        if i > 0 {
          assert r[i] == rest[i - 1];
        }
      }
      r
  }

  /** Filtering distributes over concatenation, so the kept likes stay in their order. */
  lemma {:induction false} OthersLikesConcat(a: seq<Like>, b: seq<Like>, user: Id)
    ensures OthersLikes(a + b, user) == OthersLikes(a, user) + OthersLikes(b, user)
  {
    if a == [] {
      assert a + b == b;
    } else {
      assert (a + b)[1..] == a[1..] + b;
      OthersLikesConcat(a[1..], b, user);
    }
  }

  /** Others' likes are unaffected by appending a like from `user`. */
  lemma {:induction false} OthersLikesAppend(likes: seq<Like>, l: Like, user: Id)
    requires l.user == user
    ensures OthersLikes(likes + [l], user) == OthersLikes(likes, user)
  {
    if likes == [] {
      assert OthersLikes([l], user) == OthersLikes([], user);
    } else {
      assert (likes + [l])[1..] == likes[1..] + [l];
      OthersLikesAppend(likes[1..], l, user);
    }
  }

  /**
   * `toggleLike`: when `user` has liked the post, all of their likes are removed;
   * otherwise one like from them, stamped `now`, is appended. Others' likes stay as
   * they were, in order.
   */
  function ToggleLike(b: Blog, user: Id, now: Millis): (r: Blog)
    ensures r.(likes := b.likes) == b
    ensures LikedBy(r.likes, user) <==> !LikedBy(b.likes, user)
    ensures OthersLikes(r.likes, user) == OthersLikes(b.likes, user)
    ensures !LikedBy(b.likes, user) ==> r.likes == b.likes + [Like(user, now)]
    ensures LikedBy(b.likes, user) ==> r.likes == OthersLikes(r.likes, user)
  {
    if LikedBy(b.likes, user) then
      b.(likes := OthersLikes(b.likes, user))
    else
      var likes := b.likes + [Like(user, now)];
      assert likes[|b.likes|].user == user;
      OthersLikesAppend(b.likes, Like(user, now), user);
      b.(likes := likes)
  }

  /** Liking and then unliking restores the like list exactly. */
  lemma ToggleTwiceRestores(b: Blog, user: Id, t1: Millis, t2: Millis)
    requires !LikedBy(b.likes, user)
    ensures ToggleLike(ToggleLike(b, user, t1), user, t2) == b
  {
  }

  /** No user appears twice in the like list. */
  predicate UniqueLikers(likes: seq<Like>) {
    forall i, j :: 0 <= i < j < |likes| ==> likes[i].user != likes[j].user
  }

  lemma {:induction false} OthersLikesUnique(likes: seq<Like>, user: Id)
    requires UniqueLikers(likes)
    ensures UniqueLikers(OthersLikes(likes, user))
    ensures forall l :: l in OthersLikes(likes, user) ==> l in likes
  {
    if likes != [] {
      OthersLikesUnique(likes[1..], user);
      if likes[0].user != user {
        var rest := OthersLikes(likes[1..], user);
        assert forall l :: l in rest ==> l.user != likes[0].user by {
          forall l | l in rest ensures l.user != likes[0].user {
            var j :| 0 <= j < |likes[1..]| && likes[1..][j] == l;
            assert likes[j + 1] == l;
          }
        }
      }
    }
  }

  /** With one like per user, the like list's length is the number of users who liked it. */
  lemma {:induction false} UniqueOthersCount(likes: seq<Like>, user: Id)
    requires UniqueLikers(likes) && LikedBy(likes, user)
    ensures |OthersLikes(likes, user)| == |likes| - 1
  {
    if likes[0].user == user {
      forall i | 0 <= i < |likes[1..]|
        ensures likes[1..][i].user != user
      {
        assert likes[1..][i] == likes[i + 1];
      }
    } else {
      var i :| 0 <= i < |likes| && likes[i].user == user;
      assert likes[1..][i - 1].user == user;
      UniqueOthersCount(likes[1..], user);
    }
  }

  /**
   * Toggling keeps one like per user, and then moves `likesCount` by exactly one:
   * up when the user had not liked the post, down when they had.
   */
  lemma ToggleLikeCount(b: Blog, user: Id, now: Millis)
    requires UniqueLikers(b.likes)
    ensures UniqueLikers(ToggleLike(b, user, now).likes)
    ensures LikesCount(ToggleLike(b, user, now)) ==
              if LikedBy(b.likes, user) then LikesCount(b) - 1 else LikesCount(b) + 1
  {
    if LikedBy(b.likes, user) {
      OthersLikesUnique(b.likes, user);
      UniqueOthersCount(b.likes, user);
    } else {
      var r := b.likes + [Like(user, now)];
      forall i, j | 0 <= i < j < |r| ensures r[i].user != r[j].user {
        if j == |b.likes| {
          assert r[i] == b.likes[i];
        }
      }
    }
  }

  /** `incrementViews`: one more view; nothing else changes. */
  function IncrementViews(b: Blog): (r: Blog)
    ensures r.views == b.views + 1
    ensures r.(views := b.views) == b
  {
    b.(views := b.views + 1)
  }

  /**
   * The save that follows a like toggle or a view bump marks only that path as
   * modified, so the hook then derives nothing.
   */
  lemma SaveAfterCountersChangesNothing(b: Blog, user: Id, now: Millis, at: Millis)
    ensures PreSave(IncrementViews(b), {Views}, at) == IncrementViews(b)
    ensures PreSave(ToggleLike(b, user, now), {Likes}, at) == ToggleLike(b, user, now)
  {
  }
}
