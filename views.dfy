/**
 The three public read views of the blog: the front page (`index`), a
 category's page (`category_posts`) and a post's page (`post_detail`). Each
 is a function of the tables and of the current time `now`; a view either
 answers with the rows it would render or ends in a framework exception.
 */
module Views {
  import opened QuerySets
  import opened Models

  /** How many posts the front page shows. */
  const IndexLimit: nat := 5

  /** The category whose key is `pk` exists and is published. */
  predicate CategoryPublished(categories: seq<Category>, pk: Pk) {
    exists c :: c in categories && c.pk == pk && c.isPublished
  }

  /** A post anyone may read: published, due, and filed under a published category. */
  predicate IsPublic(categories: seq<Category>, p: Post, now: int) {
    && p.isPublished
    && p.pubDate <= now
    && p.category.Some?
    && CategoryPublished(categories, p.category.value)
  }

  /** What the front page lists: the five newest public posts, newest first. */
  function Index(categories: seq<Category>, posts: seq<Post>, now: int): (r: seq<Post>)
    ensures forall p :: p in r ==> IsPublic(categories, p, now)
    ensures multiset(r) <= multiset(posts)
    ensures |r| <= IndexLimit
    ensures forall i, j :: 0 <= i < j < |r| ==> r[i].pubDate >= r[j].pubDate
    ensures forall p :: p in posts && IsPublic(categories, p, now) && p !in r ==>
      |r| == IndexLimit && forall q :: q in r ==> p.pubDate <= q.pubDate
  {
    var public := (p: Post) => IsPublic(categories, p, now);
    PostOrderIsTotalPreorder();
    TopRows(posts, public, NewerOrSame, IndexLimit);
    Slice(OrderBy(Filter(posts, public), NewerOrSame), IndexLimit)
  }

  /** What a category's page renders: the category and its listed posts. */
  datatype CategoryPage = CategoryPage(category: Category, posts: seq<Post>)

  /** A post that the page of category `c` lists at time `now`. */
  predicate ListedUnder(c: Category, p: Post, now: int) {
    p.category == Some(c.pk) && p.isPublished && p.pubDate <= now
  }

  /**
   A category's page: 404 unless a published category has the slug; then all
   of that category's published, due posts, newest first.
   */
  function CategoryPosts(categories: seq<Category>, posts: seq<Post>, slug: string, now: int)
    : (r: Result<CategoryPage>)
    ensures r == Err(Http404) <==> forall c :: c in categories ==> c.slug != slug || !c.isPublished
    ensures UniqueBy(categories, CategorySlug) ==> r != Err(MultipleObjectsReturned)
    ensures r.Err? ==> r.error in {Http404, MultipleObjectsReturned}
    ensures r.Ok? ==> r.value.category in categories
    ensures r.Ok? ==> r.value.category.slug == slug && r.value.category.isPublished
    ensures r.Ok? ==> forall p :: (multiset(r.value.posts)[p] ==
      if ListedUnder(r.value.category, p, now) then multiset(posts)[p] else 0)
    ensures r.Ok? ==> forall i, j :: 0 <= i < j < |r.value.posts| ==>
      r.value.posts[i].pubDate >= r.value.posts[j].pubDate
  {
    var lookup := (c: Category) => c.slug == slug && c.isPublished;
    assert UniqueBy(categories, CategorySlug) ==> AtMostOne(categories, lookup);
    match GetOr404(categories, lookup)
    case Err(e) => Err(e)
    case Ok(category) =>
      var listed := Filter(posts, (p: Post) =>
        && p.category == Some(category.pk)
        && p.isPublished
        && p.pubDate <= now);
      Ok(CategoryPage(category, OrderedPosts(listed)))
  }

  /**
   A post's page: 404 when no post has the key, and also when the post is
   due later than `now`, unpublished, uncategorised or in an unpublished
   category. Nobody is exempt, the post's author included.
   */
  function PostDetail(categories: seq<Category>, posts: seq<Post>, pk: Pk, now: int): (r: Result<Post>)
    ensures (forall p :: p in posts ==> p.pk != pk) ==> r == Err(Http404)
    ensures UniqueBy(posts, PostPk) ==> r != Err(MultipleObjectsReturned)
    ensures r.Err? ==> r.error in {Http404, MultipleObjectsReturned}
    ensures r.Ok? ==> r.value in posts && r.value.pk == pk && IsPublic(categories, r.value, now)
    ensures UniqueBy(posts, PostPk) ==> forall p :: p in posts && p.pk == pk ==>
      && (r == Ok(p) <==> IsPublic(categories, p, now))
      && (r == Err(Http404) <==>
            || p.pubDate > now
            || !p.isPublished
            || p.category == None
            || !CategoryPublished(categories, p.category.value))
  {
    var lookup := (p: Post) => p.pk == pk;
    assert UniqueBy(posts, PostPk) ==> AtMostOne(posts, lookup);
    match GetOr404(posts, lookup)
    case Err(e) => Err(e)
    case Ok(post) =>
      if || post.pubDate > now
         || !post.isPublished
         || (post.category.None? || !CategoryPublished(categories, post.category.value))
      then Err(Http404)
      else Ok(post)
  }

  // ---------------------------------------------------------------------------
  // How the views agree with each other and with the store
  // ---------------------------------------------------------------------------

  /** Every post on the front page opens on its own page. */
  lemma IndexPostsHaveDetail(categories: seq<Category>, posts: seq<Post>, now: int, p: Post)
    requires UniqueBy(posts, PostPk)
    requires p in Index(categories, posts, now)
    ensures PostDetail(categories, posts, p.pk, now) == Ok(p)
  {
    assert p in multiset(Index(categories, posts, now));
    assert p in posts;
  }

  /** Every post on a category's page opens on its own page. */
  lemma CategoryPostsHaveDetail(categories: seq<Category>, posts: seq<Post>, slug: string, now: int, p: Post)
    requires UniqueBy(posts, PostPk)
    requires CategoryPosts(categories, posts, slug, now).Ok?
    requires p in CategoryPosts(categories, posts, slug, now).value.posts
    ensures PostDetail(categories, posts, p.pk, now) == Ok(p)
  {
    var page := CategoryPosts(categories, posts, slug, now).value;
    assert p in multiset(page.posts);
    assert p in posts;
    assert CategoryPublished(categories, page.category.pk);
  }

  /** A post the front page would show is also listed on its category's page. */
  lemma PublicPostsAreListedUnderTheirCategory(categories: seq<Category>, posts: seq<Post>, now: int, p: Post)
    requires UniqueBy(categories, CategoryPk) && UniqueBy(categories, CategorySlug)
    requires p in posts && IsPublic(categories, p, now)
    ensures exists c :: (c in categories && c.pk == p.category.value &&
      var page := CategoryPosts(categories, posts, c.slug, now);
      page == Ok(CategoryPage(c, page.value.posts)) && p in page.value.posts)
  {
    var c :| c in categories && c.pk == p.category.value && c.isPublished;
    var page := CategoryPosts(categories, posts, c.slug, now);
    assert page.Ok? && page.value.category == c;
    assert ListedUnder(c, p, now);
    assert p in multiset(page.value.posts);
  }

  /** Once a post's page opens, it stays open as the clock moves on. */
  lemma DetailStaysVisible(categories: seq<Category>, posts: seq<Post>, pk: Pk, now: int, later: int)
    requires UniqueBy(posts, PostPk)
    requires now <= later
    requires PostDetail(categories, posts, pk, now).Ok?
    ensures PostDetail(categories, posts, pk, later) == PostDetail(categories, posts, pk, now)
  {
    var p := PostDetail(categories, posts, pk, now).value;
    assert p in posts && p.pk == pk;
  }

  /**
   After its category is deleted, a post that was filed under it answers 404,
   though it is still stored.
   */
  lemma DeletedCategoryHidesPosts(categories: seq<Category>, posts: seq<Post>, pk: Pk, now: int, i: nat)
    requires UniqueBy(posts, PostPk)
    requires i < |posts| && posts[i].category == Some(pk)
    ensures PostDetail(RemoveCategory(categories, pk), SetNullCategory(posts, pk), posts[i].pk, now)
            == Err(Http404)
  {
    var after := SetNullCategory(posts, pk);
    assert UniqueBy(after, PostPk) by {
      forall a, b | 0 <= a < b < |after| ensures after[a].pk != after[b].pk {
        assert after[a].pk == posts[a].pk && after[b].pk == posts[b].pk;
      }
    }
    assert after[i] in after && after[i].pk == posts[i].pk && after[i].category == None;
  }
}
