/**
 * The cache-aside repository of src/repository.ts: listings and posts are read from the
 * key-value cache first; on a miss the object store is scanned, the text parsed, and the
 * result written to the cache with no expiry.
 *
 * The cache is a map from keys to the values stored under them; the object store is the
 * sequence of its objects, key and text, in listing order. Dates are compared through an
 * abstract key, and the Markdown pipeline that renders a post is a parameter.
 */
module Repository {
  import opened Wrappers
  import opened Text
  import opened Markdown

  const IndexKey: string := "posts:index"
  const KeyPrefix: string := "posts:"

  /** The cache key of one post. */
  function PostKey(slug: string): string {
    KeyPrefix + slug
  }

  /** What the cache holds under a key: the listing, or one rendered post. Both share
      the `posts:` namespace. */
  datatype Cached = Index(posts: seq<PostMeta>) | Page(post: Post)

  type Object = (string, string)

  /** `parseFrontmatter`: the metadata a text declares. */
  type Parser = string -> PostMeta

  // ---------------------------------------------------------------------------
  // specification

  /** `BUCKET.list({prefix})`: the objects under a prefix, in listing order. */
  function Listing(bucket: seq<Object>, prefix: string): (r: seq<Object>)
    ensures forall o :: o in r <==> o in bucket && StartsWith(o.0, prefix)
    decreases |bucket|
  {
    if |bucket| == 0 then []
    else
      var rest := Listing(bucket[..|bucket| - 1], prefix);
      var o := bucket[|bucket| - 1];
      assert forall x :: x in bucket <==> x in bucket[..|bucket| - 1] || x == o;
      if StartsWith(o.0, prefix) then rest + [o] else rest
  }

  /** The metadata of the objects that name a slug, in listing order. */
  function Metas(objects: seq<Object>, parse: Parser): seq<PostMeta>
    decreases |objects|
  {
    if |objects| == 0 then []
    else
      var m := parse(objects[|objects| - 1].1);
      Metas(objects[..|objects| - 1], parse) + (if m.slug != "" then [m] else [])
  }

  /** Newest first: a later date never follows an earlier one. */
  predicate DateDescending(posts: seq<PostMeta>, dateKey: string -> int) {
    forall i, j :: 0 <= i < j < |posts| ==> dateKey(posts[i].date) >= dateKey(posts[j].date)
  }

  /** Puts a post in front of the first one that is not newer. */
  function Insert(p: PostMeta, sorted: seq<PostMeta>, dateKey: string -> int): (r: seq<PostMeta>)
    ensures multiset(r) == multiset(sorted) + multiset{p}
    ensures forall x :: x in r ==> x == p || x in sorted
    decreases |sorted|
  {
    if |sorted| == 0 || dateKey(sorted[0].date) <= dateKey(p.date) then [p] + sorted
    else
      assert sorted == [sorted[0]] + sorted[1..];
      [sorted[0]] + Insert(p, sorted[1..], dateKey)
  }

  /** `posts.sort((a, b) => date(b) - date(a))`: the same posts, newest first
      (`SortDescending`). */
  function SortByDate(posts: seq<PostMeta>, dateKey: string -> int): (r: seq<PostMeta>)
    ensures multiset(r) == multiset(posts)
    decreases |posts|
  {
    if |posts| == 0 then []
    else
      assert posts == [posts[0]] + posts[1..];
      Insert(posts[0], SortByDate(posts[1..], dateKey), dateKey)
  }

  /** The listing `listPosts` builds on a miss. */
  function IndexOf(bucket: seq<Object>, parse: Parser, dateKey: string -> int): seq<PostMeta> {
    SortByDate(Metas(Listing(bucket, "posts/"), parse), dateKey)
  }

  /** The text of the first object whose front matter names the slug. */
  function FirstMatch(objects: seq<Object>, parse: Parser, slug: string): (r: Option<string>)
    ensures r.Some? <==> exists k :: 0 <= k < |objects| && parse(objects[k].1).slug == slug
    decreases |objects|
  {
    if |objects| == 0 then None
    else if parse(objects[0].1).slug == slug then Some(objects[0].1)
    else
      var r := FirstMatch(objects[1..], parse, slug);
      assert forall k :: 1 <= k < |objects| ==> objects[k] == objects[1..][k - 1];
      r
  }

  /** The text `getPost` renders on a miss: posts are searched fully before pages. */
  function SourceOf(bucket: seq<Object>, parse: Parser, slug: string): Option<string> {
    match FirstMatch(Listing(bucket, "posts/"), parse, slug)
    case Some(text) => Some(text)
    case None => FirstMatch(Listing(bucket, "pages/"), parse, slug)
  }

  /** `posts.filter((p) => p.categories?.includes(category))` */
  function InCategory(posts: seq<PostMeta>, category: string): (r: seq<PostMeta>)
    ensures forall m :: m in r <==> m in posts && category in m.categories
    ensures |r| <= |posts|
    decreases |posts|
  {
    if |posts| == 0 then []
    else
      var rest := InCategory(posts[1..], category);
      assert forall m :: m in posts <==> m == posts[0] || m in posts[1..];
      if category in posts[0].categories then [posts[0]] + rest else rest
  }

  /** `posts.findIndex((p) => p.slug === slug)` */
  function FindIndex(posts: seq<PostMeta>, slug: string): (r: Option<nat>)
    ensures r.Some? ==> r.value < |posts| && posts[r.value].slug == slug
    ensures r.Some? ==> forall k :: 0 <= k < r.value ==> posts[k].slug != slug
    ensures r.None? ==> forall k :: 0 <= k < |posts| ==> posts[k].slug != slug
    decreases |posts|
  {
    if |posts| == 0 then None
    else if posts[0].slug == slug then Some(0)
    else
      match FindIndex(posts[1..], slug)
      case None => None
      case Some(i) => Some(i + 1)
  }

  /** The neighbours of a post in a newest-first listing. */
  datatype Adjacent = Adjacent(prev: Option<PostMeta>, next: Option<PostMeta>)

  function AdjacentIn(posts: seq<PostMeta>, slug: string): Adjacent {
    match FindIndex(posts, slug)
    case None => Adjacent(None, None)
    case Some(i) =>
      Adjacent(if i < |posts| - 1 then Some(posts[i + 1]) else None,
               if i > 0 then Some(posts[i - 1]) else None)
  }

  /** The cache without the `posts:` keys. */
  function WithoutPosts(cache: map<string, Cached>): map<string, Cached> {
    map k | k in cache && !StartsWith(k, KeyPrefix) :: cache[k]
  }

  // ---------------------------------------------------------------------------
  // the repository

  class Site {
    var cache: map<string, Cached>
    const bucket: seq<Object>
    /** `new Date(date).getTime()` */
    const dateKey: string -> int
    /** `parseFrontmatter` */
    const parse: Parser
    /** `parseMarkdown` */
    const render: string -> Post
    /** How many list and get calls the object store has served. */
    ghost var bucketReads: nat

    constructor(cache0: map<string, Cached>, bucket0: seq<Object>, dateKey0: string -> int,
                parse0: Parser, render0: string -> Post)
      ensures cache == cache0 && bucket == bucket0 && dateKey == dateKey0
      ensures parse == parse0 && render == render0
      ensures bucketReads == 0
    {
      cache := cache0;
      bucket := bucket0;
      dateKey := dateKey0;
      parse := parse0;
      render := render0;
      bucketReads := 0;
    }

    /** `listPosts()`: the cached value, or the listing built from `posts/` and stored
        under `posts:index`. */
    method ListPosts() returns (r: Cached)
      modifies this
      ensures IndexKey in old(cache) ==>
        r == old(cache)[IndexKey] && cache == old(cache) && bucketReads == old(bucketReads)
      ensures IndexKey !in old(cache) ==>
        r == Index(IndexOf(bucket, parse, dateKey)) && cache == old(cache)[IndexKey := r]
        && bucketReads > old(bucketReads)
    {
      if IndexKey in cache {
        return cache[IndexKey];
      }
      var objects := Listing(bucket, "posts/");
      bucketReads := bucketReads + 1;
      var posts: seq<PostMeta> := [];
      for i := 0 to |objects|
        invariant posts == Metas(objects[..i], parse)
        invariant cache == old(cache) && bucketReads > old(bucketReads)
      {
        assert objects[..i + 1][..i] == objects[..i];
        var text := objects[i].1;
        bucketReads := bucketReads + 1;
        var meta := parse(text);
        if meta.slug != "" {
          posts := posts + [meta];
        }
      }
      assert objects[..|objects|] == objects;
      posts := SortByDate(posts, dateKey);
      r := Index(posts);
      cache := cache[IndexKey := r];
    }

    /** One scan over a listing, stopping at the first object that names the slug. */
    method Search(objects: seq<Object>, slug: string) returns (found: Option<string>)
      modifies this
      ensures found == FirstMatch(objects, parse, slug)
      ensures cache == old(cache) && bucketReads >= old(bucketReads)
    {
      var i := 0;
      while i < |objects|
        invariant i <= |objects|
        invariant FirstMatch(objects[i..], parse, slug) == FirstMatch(objects, parse, slug)
        invariant cache == old(cache) && bucketReads >= old(bucketReads)
      {
        var text := objects[i].1;
        bucketReads := bucketReads + 1;
        var meta := parse(text);
        if meta.slug == slug {
          return Some(text);
        }
        assert objects[i..][1..] == objects[i + 1..];
        i := i + 1;
      }
      return None;
    }

    /** `getPost(slug)`: the cached value, or the first object under `posts/` and then
        `pages/` that names the slug, rendered and stored under `posts:<slug>`; nothing,
        with the cache unchanged, when no object names it. */
    method GetPost(slug: string) returns (r: Option<Cached>)
      modifies this
      ensures PostKey(slug) in old(cache) ==>
        r == Some(old(cache)[PostKey(slug)]) && cache == old(cache) && bucketReads == old(bucketReads)
      ensures PostKey(slug) !in old(cache) && SourceOf(bucket, parse, slug).None? ==>
        r == None && cache == old(cache)
      ensures PostKey(slug) !in old(cache) && SourceOf(bucket, parse, slug).Some? ==>
        var stored := Page(render(SourceOf(bucket, parse, slug).value));
        r == Some(stored) && cache == old(cache)[PostKey(slug) := stored]
    {
      var cacheKey := PostKey(slug);
      if cacheKey in cache {
        return Some(cache[cacheKey]);
      }
      bucketReads := bucketReads + 1;
      var found := Search(Listing(bucket, "posts/"), slug);
      if found.None? {
        bucketReads := bucketReads + 1;
        found := Search(Listing(bucket, "pages/"), slug);
      }
      match found {
        case None =>
          return None;
        case Some(text) =>
          var stored := Page(render(text));
          cache := cache[cacheKey := stored];
          return Some(stored);
      }
    }

    /** `getPostsByCategory(category)`: the listing's posts in the category, in order.
        When the index key holds a post instead of a listing, `filter` is not a function
        of it and the call fails. */
    method PostsByCategory(category: string) returns (r: Option<seq<PostMeta>>)
      modifies this
      ensures var index := if IndexKey in old(cache) then old(cache)[IndexKey] else Index(IndexOf(bucket, parse, dateKey));
        && (index.Index? ==> r == Some(InCategory(index.posts, category)))
        && (index.Page? ==> r == None)
      ensures IndexKey in old(cache) ==> cache == old(cache)
      ensures IndexKey !in old(cache) ==> cache == old(cache)[IndexKey := Index(IndexOf(bucket, parse, dateKey))]
    {
      var posts := ListPosts();
      if posts.Page? {
        return None;
      }
      return Some(InCategory(posts.posts, category));
    }

    /** `getAdjacentPosts(slug)`: in the newest-first listing, `next` is the newer
        neighbour and `prev` the older one. */
    method AdjacentPosts(slug: string) returns (r: Option<Adjacent>)
      modifies this
      ensures var index := if IndexKey in old(cache) then old(cache)[IndexKey] else Index(IndexOf(bucket, parse, dateKey));
        && (index.Index? ==> r == Some(AdjacentIn(index.posts, slug)))
        && (index.Page? ==> r == None)
      ensures IndexKey in old(cache) ==> cache == old(cache)
      ensures IndexKey !in old(cache) ==> cache == old(cache)[IndexKey := Index(IndexOf(bucket, parse, dateKey))]
    {
      var posts := ListPosts();
      if posts.Page? {
        return None;
      }
      return Some(AdjacentIn(posts.posts, slug));
    }

    /** `invalidateCache(slug)`: one post and the listing, or, with no slug, every
        `posts:` key. The store is never read. */
    method InvalidateCache(slug: string)
      modifies this
      ensures slug != "" ==> cache == old(cache) - {PostKey(slug), IndexKey}
      ensures slug == "" ==> cache == WithoutPosts(old(cache))
      ensures bucketReads == old(bucketReads)
    {
      if slug != "" {
        cache := cache - {PostKey(slug)};
        cache := cache - {IndexKey};
        return;
      }
      cache := cache - {IndexKey};
      var keys := set k | k in cache && StartsWith(k, KeyPrefix);
      while keys != {}
        invariant keys <= cache.Keys
        invariant forall k :: k in cache ==> k in old(cache) && cache[k] == old(cache)[k]
        invariant forall k :: k in old(cache) && !StartsWith(k, KeyPrefix) ==> k in cache
        invariant forall k :: k in cache && StartsWith(k, KeyPrefix) ==> k in keys
        invariant bucketReads == old(bucketReads)
        decreases keys
      {
        var k :| k in keys;
        cache := cache - {k};
        keys := keys - {k};
      }
      assert IndexKey in old(cache) ==> StartsWith(IndexKey, KeyPrefix);
    }
  }

  // ---------------------------------------------------------------------------
  // properties

  /** The listing holds exactly the `posts/` objects that name a slug. */
  lemma {:induction false} MetasExact(objects: seq<Object>, parse: Parser, m: PostMeta)
    ensures m in Metas(objects, parse) <==>
      m.slug != "" && exists k :: 0 <= k < |objects| && parse(objects[k].1) == m
    decreases |objects|
  {
    if |objects| > 0 {
      var init := objects[..|objects| - 1];
      MetasExact(init, parse, m);
      assert forall k :: 0 <= k < |init| ==> init[k] == objects[k];
      if m.slug != "" && parse(objects[|objects| - 1].1) != m {
        if exists k :: 0 <= k < |objects| && parse(objects[k].1) == m {
          var k :| 0 <= k < |objects| && parse(objects[k].1) == m;
          assert k < |init|;
        }
      }
    }
  }

  /** A listing built on a miss is newest first and holds exactly the posts under
      `posts/` whose front matter names a slug. */
  lemma IndexExact(bucket: seq<Object>, parse: Parser, dateKey: string -> int, m: PostMeta)
    ensures DateDescending(IndexOf(bucket, parse, dateKey), dateKey)
    ensures m in IndexOf(bucket, parse, dateKey) <==>
      m.slug != "" && exists o :: o in bucket && StartsWith(o.0, "posts/") && parse(o.1) == m
  {
    var objects := Listing(bucket, "posts/");
    SortDescending(Metas(objects, parse), dateKey);
    MetasExact(objects, parse, m);
    assert m in IndexOf(bucket, parse, dateKey) <==> m in multiset(Metas(objects, parse));
    if m.slug != "" && exists o :: o in bucket && StartsWith(o.0, "posts/") && parse(o.1) == m {
      var o :| o in bucket && StartsWith(o.0, "posts/") && parse(o.1) == m;
      assert o in objects;
      var k :| 0 <= k < |objects| && objects[k] == o;
    }
  }

  /** Inserting into a newest-first listing keeps it newest first. */
  lemma {:induction false} InsertDescending(p: PostMeta, sorted: seq<PostMeta>, dateKey: string -> int)
    requires DateDescending(sorted, dateKey)
    ensures DateDescending(Insert(p, sorted, dateKey), dateKey)
    decreases |sorted|
  {
    var r := Insert(p, sorted, dateKey);
    if |sorted| == 0 || dateKey(sorted[0].date) <= dateKey(p.date) {
      forall i, j | 0 <= i < j < |r| ensures dateKey(r[i].date) >= dateKey(r[j].date) {
        if i > 0 { assert r[i] == sorted[i - 1]; }
        assert r[j] == sorted[j - 1];
      }
    } else {
      var rest := Insert(p, sorted[1..], dateKey);
      InsertDescending(p, sorted[1..], dateKey);
      forall i, j | 0 <= i < j < |r| ensures dateKey(r[i].date) >= dateKey(r[j].date) {
        assert r[j] == rest[j - 1];
        if i > 0 {
          assert r[i] == rest[i - 1];
        } else if rest[j - 1] != p {
          assert rest[j - 1] in sorted[1..];
          var k :| 0 <= k < |sorted[1..]| && sorted[1..][k] == rest[j - 1];
          assert sorted[k + 1] == rest[j - 1];
        }
      }
    }
  }

  /** The sorted listing is newest first. */
  lemma {:induction false} SortDescending(posts: seq<PostMeta>, dateKey: string -> int)
    ensures DateDescending(SortByDate(posts, dateKey), dateKey)
    decreases |posts|
  {
    if |posts| > 0 {
      SortDescending(posts[1..], dateKey);
      InsertDescending(posts[0], SortByDate(posts[1..], dateKey), dateKey);
    }
  }

  /** `findIndex` finds the first post with the slug: its neighbours are the posts just
      before and after it, and both are absent for a slug nobody has. */
  lemma AdjacentNeighbours(posts: seq<PostMeta>, slug: string, i: nat)
    requires i < |posts| && posts[i].slug == slug
    requires forall k :: 0 <= k < i ==> posts[k].slug != slug
    ensures AdjacentIn(posts, slug).next == (if i > 0 then Some(posts[i - 1]) else None)
    ensures AdjacentIn(posts, slug).prev == (if i + 1 < |posts| then Some(posts[i + 1]) else None)
  {
    var r := FindIndex(posts, slug);
    assert r.Some?;
    assert r.value == i;
  }

  lemma AdjacentUnknown(posts: seq<PostMeta>, slug: string)
    requires forall k :: 0 <= k < |posts| ==> posts[k].slug != slug
    ensures AdjacentIn(posts, slug) == Adjacent(None, None)
  {
  }

  /** The filter keeps the listing's order: filtering a listing is filtering its front
      part and its back part separately, one after the other. */
  lemma {:induction false} InCategoryAppend(front: seq<PostMeta>, back: seq<PostMeta>, category: string)
    ensures InCategory(front + back, category) == InCategory(front, category) + InCategory(back, category)
    decreases |front|
  {
    if |front| > 0 {
      assert (front + back)[1..] == front[1..] + back;
      InCategoryAppend(front[1..], back, category);
    } else {
      assert front + back == back;
    }
  }

  /** A post's key is the listing's key exactly for the slug `index`: such a post,
      once cached, is what `listPosts` returns. */
  lemma IndexSlugCollides(slug: string)
    ensures PostKey(slug) == IndexKey <==> slug == "index"
  {
    if PostKey(slug) == IndexKey {
      assert slug == PostKey(slug)[|KeyPrefix|..];
    }
  }

  /** Every post key lies in the namespace a full invalidation clears. */
  lemma PostKeysCleared(cache: map<string, Cached>, slug: string)
    ensures PostKey(slug) !in WithoutPosts(cache) && IndexKey !in WithoutPosts(cache)
  {
    assert StartsWith(PostKey(slug), KeyPrefix);
    assert StartsWith(IndexKey, KeyPrefix);
  }
}
