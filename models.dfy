/**
 The blog's entities (Category, Location, Post), their field defaults,
 display strings and default orderings, and a store of the three tables whose
 deletions follow the declared referential actions: removing a category or a
 location clears the link on its posts (SET_NULL), removing an author removes
 the author's posts (CASCADE).
 */
module Models {
  import opened QuerySets

  /** An auto-increment primary key. */
  type Pk = nat

  /** The primary key of a row of the framework's user table. */
  type UserId = nat

  datatype Category = Category(
    pk: Pk,
    title: string,
    description: string,
    slug: string,
    isPublished: bool,
    createdAt: int)
  {
    /** `__str__`: a category is displayed as its title. */
    function ToString(): (s: string)
      ensures s == title
    {
      title
    }
  }

  datatype Location = Location(
    pk: Pk,
    name: string,
    isPublished: bool,
    createdAt: int)
  {
    /** `__str__`: a location is displayed as its name. */
    function ToString(): (s: string)
      ensures s == name
    {
      name
    }
  }

  /**
   A post. `pubDate` is a timestamp and is never null; `category` and
   `location` are nullable foreign keys; `author` is required.
   */
  datatype Post = Post(
    pk: Pk,
    title: string,
    text: string,
    pubDate: int,
    author: UserId,
    location: Option<Pk>,
    category: Option<Pk>,
    isPublished: bool,
    createdAt: int)
  {
    /** `__str__`: a post is displayed as its title. */
    function ToString(): (s: string)
      ensures s == title
    {
      title
    }
  }

  /** The `is_published` value a new row gets: `default=True` unless one is given. */
  function PublishedOrDefault(given: Option<bool>): (b: bool)
    ensures given == None ==> b
    ensures given.Some? ==> b == given.value
  {
    match given
    case None => true
    case Some(flag) => flag
  }

  // ---------------------------------------------------------------------------
  // Default orderings (`Meta.ordering`)
  // ---------------------------------------------------------------------------

  /** `ordering = ["-pub_date"]`: `p` may be listed before `q`. */
  predicate NewerOrSame(p: Post, q: Post) {
    p.pubDate >= q.pubDate
  }

  /** Text columns compare character by character; a prefix comes first. */
  predicate LexLe(a: string, b: string) {
    if a == [] then true
    else if b == [] then false
    else if a[0] != b[0] then a[0] < b[0]
    else LexLe(a[1..], b[1..])
  }

  lemma {:induction false} LexLeTotal(a: string, b: string)
    ensures LexLe(a, b) || LexLe(b, a)
  {
    if a != [] && b != [] && a[0] == b[0] {
      LexLeTotal(a[1..], b[1..]);
    }
  }

  lemma {:induction false} LexLeTransitive(a: string, b: string, c: string)
    requires LexLe(a, b) && LexLe(b, c)
    ensures LexLe(a, c)
  {
    if a != [] && b != [] && c != [] && a[0] == b[0] && b[0] == c[0] {
      LexLeTransitive(a[1..], b[1..], c[1..]);
    }
  }

  /** `ordering = ["title"]` for categories. */
  predicate TitleOrder(c: Category, d: Category) {
    LexLe(c.title, d.title)
  }

  /** `ordering = ["name"]` for locations. */
  predicate NameOrder(l: Location, m: Location) {
    LexLe(l.name, m.name)
  }

  lemma PostOrderIsTotalPreorder()
    ensures TotalPreorder(NewerOrSame)
  {
  }

  lemma CategoryOrderIsTotalPreorder()
    ensures TotalPreorder(TitleOrder)
  {
    forall c: Category, d: Category ensures TitleOrder(c, d) || TitleOrder(d, c) {
      LexLeTotal(c.title, d.title);
    }
    forall c: Category, d: Category, e: Category | TitleOrder(c, d) && TitleOrder(d, e)
      ensures TitleOrder(c, e)
    {
      LexLeTransitive(c.title, d.title, e.title);
    }
  }

  lemma LocationOrderIsTotalPreorder()
    ensures TotalPreorder(NameOrder)
  {
    forall l: Location, m: Location ensures NameOrder(l, m) || NameOrder(m, l) {
      LexLeTotal(l.name, m.name);
    }
    forall l: Location, m: Location, n: Location | NameOrder(l, m) && NameOrder(m, n)
      ensures NameOrder(l, n)
    {
      LexLeTransitive(l.name, m.name, n.name);
    }
  }

  /** The posts table in its default order: newest publication date first. */
  function OrderedPosts(posts: seq<Post>): (r: seq<Post>)
    ensures forall i, j :: 0 <= i < j < |r| ==> r[i].pubDate >= r[j].pubDate
    ensures multiset(r) == multiset(posts)
  {
    PostOrderIsTotalPreorder();
    OrderBy(posts, NewerOrSame)
  }

  /** The categories table in its default order: by title, ascending. */
  function OrderedCategories(categories: seq<Category>): (r: seq<Category>)
    ensures forall i, j :: 0 <= i < j < |r| ==> LexLe(r[i].title, r[j].title)
    ensures multiset(r) == multiset(categories)
  {
    CategoryOrderIsTotalPreorder();
    OrderBy(categories, TitleOrder)
  }

  /** The locations table in its default order: by name, ascending. */
  function OrderedLocations(locations: seq<Location>): (r: seq<Location>)
    ensures forall i, j :: 0 <= i < j < |r| ==> LexLe(r[i].name, r[j].name)
    ensures multiset(r) == multiset(locations)
  {
    LocationOrderIsTotalPreorder();
    OrderBy(locations, NameOrder)
  }

  // ---------------------------------------------------------------------------
  // Table constraints
  // ---------------------------------------------------------------------------

  function CategoryPk(c: Category): Pk { c.pk }
  function CategorySlug(c: Category): string { c.slug }
  function LocationPk(l: Location): Pk { l.pk }
  function PostPk(p: Post): Pk { p.pk }

  predicate HasCategory(categories: seq<Category>, pk: Pk) {
    exists c :: c in categories && c.pk == pk
  }

  predicate HasLocation(locations: seq<Location>, pk: Pk) {
    exists l :: l in locations && l.pk == pk
  }

  predicate SlugTaken(categories: seq<Category>, slug: string) {
    exists c :: c in categories && c.slug == slug
  }

  /** Every non-null foreign key of a post names an existing row. */
  predicate ReferencesResolve(posts: seq<Post>, categories: seq<Category>, locations: seq<Location>) {
    forall p :: p in posts ==>
      && (p.category.Some? ==> HasCategory(categories, p.category.value))
      && (p.location.Some? ==> HasLocation(locations, p.location.value))
  }

  /** The posts table: unique keys below the key sequence, and every link resolves. */
  predicate PostsTableValid(posts: seq<Post>, categories: seq<Category>, locations: seq<Location>, nextPk: Pk) {
    && UniqueBy(posts, PostPk)
    && (forall p :: p in posts ==> p.pk < nextPk)
    && ReferencesResolve(posts, categories, locations)
  }

  // ---------------------------------------------------------------------------
  // Referential actions on delete
  // ---------------------------------------------------------------------------

  /** The categories table without the row whose key is `pk`. */
  function RemoveCategory(categories: seq<Category>, pk: Pk): (r: seq<Category>)
    ensures forall c :: c in r <==> c in categories && c.pk != pk
    ensures forall c :: multiset(r)[c] == if c.pk != pk then multiset(categories)[c] else 0
    ensures UniqueBy(categories, CategoryPk) ==> UniqueBy(r, CategoryPk)
    ensures UniqueBy(categories, CategorySlug) ==> UniqueBy(r, CategorySlug)
  {
    var keep := (c: Category) => c.pk != pk;
    FilterKeepsUnique(categories, keep, CategoryPk);
    FilterKeepsUnique(categories, keep, CategorySlug);
    Filter(categories, keep)
  }

  /** The locations table without the row whose key is `pk`. */
  function RemoveLocation(locations: seq<Location>, pk: Pk): (r: seq<Location>)
    ensures forall l :: l in r <==> l in locations && l.pk != pk
    ensures forall l :: multiset(r)[l] == if l.pk != pk then multiset(locations)[l] else 0
    ensures UniqueBy(locations, LocationPk) ==> UniqueBy(r, LocationPk)
  {
    var keep := (l: Location) => l.pk != pk;
    FilterKeepsUnique(locations, keep, LocationPk);
    Filter(locations, keep)
  }

  /** `on_delete=SET_NULL` for `Post.category`. */
  function SetNullCategory(posts: seq<Post>, pk: Pk): (r: seq<Post>)
    ensures |r| == |posts|
    ensures forall i :: 0 <= i < |r| ==>
      r[i].category == if posts[i].category == Some(pk) then None else posts[i].category
    ensures forall i :: 0 <= i < |r| ==> r[i] == posts[i].(category := r[i].category)
  {
    if posts == [] then []
    else
      var p := posts[0];
      [if p.category == Some(pk) then p.(category := None) else p] + SetNullCategory(posts[1..], pk)
  }

  /** `on_delete=SET_NULL` for `Post.location`. */
  function SetNullLocation(posts: seq<Post>, pk: Pk): (r: seq<Post>)
    ensures |r| == |posts|
    ensures forall i :: 0 <= i < |r| ==>
      r[i].location == if posts[i].location == Some(pk) then None else posts[i].location
    ensures forall i :: 0 <= i < |r| ==> r[i] == posts[i].(location := r[i].location)
  {
    if posts == [] then []
    else
      var p := posts[0];
      [if p.location == Some(pk) then p.(location := None) else p] + SetNullLocation(posts[1..], pk)
  }

  /** `on_delete=CASCADE` for `Post.author`: the posts that outlive the author. */
  function CascadeAuthor(posts: seq<Post>, author: UserId): (r: seq<Post>)
    ensures forall p :: p in r <==> p in posts && p.author != author
    ensures forall p :: multiset(r)[p] == if p.author != author then multiset(posts)[p] else 0
    ensures UniqueBy(posts, PostPk) ==> UniqueBy(r, PostPk)
  {
    var keep := (p: Post) => p.author != author;
    FilterKeepsUnique(posts, keep, PostPk);
    Filter(posts, keep)
  }

  /** Deleting a category keeps the posts table valid against the remaining categories. */
  lemma SetNullCategoryKeepsPostsValid(posts: seq<Post>, categories: seq<Category>,
                                       locations: seq<Location>, nextPk: Pk, pk: Pk)
    requires PostsTableValid(posts, categories, locations, nextPk)
    ensures PostsTableValid(SetNullCategory(posts, pk), RemoveCategory(categories, pk), locations, nextPk)
  {
    var remaining := RemoveCategory(categories, pk);
    var updated := SetNullCategory(posts, pk);
    forall i, j | 0 <= i < j < |updated| ensures PostPk(updated[i]) != PostPk(updated[j]) {
      assert updated[i].pk == posts[i].pk && updated[j].pk == posts[j].pk;
    }
    forall q | q in updated
      ensures q.category.Some? ==> HasCategory(remaining, q.category.value)
      ensures q.location.Some? ==> HasLocation(locations, q.location.value)
      ensures q.pk < nextPk
    {
      var i :| 0 <= i < |updated| && updated[i] == q;
      assert posts[i] in posts;
      if q.category.Some? {
        var c :| c in categories && c.pk == q.category.value;
        assert c in remaining;
      }
    }
  }

  /** Deleting a location keeps the posts table valid against the remaining locations. */
  lemma SetNullLocationKeepsPostsValid(posts: seq<Post>, categories: seq<Category>,
                                       locations: seq<Location>, nextPk: Pk, pk: Pk)
    requires PostsTableValid(posts, categories, locations, nextPk)
    ensures PostsTableValid(SetNullLocation(posts, pk), categories, RemoveLocation(locations, pk), nextPk)
  {
    var remaining := RemoveLocation(locations, pk);
    var updated := SetNullLocation(posts, pk);
    forall i, j | 0 <= i < j < |updated| ensures PostPk(updated[i]) != PostPk(updated[j]) {
      assert updated[i].pk == posts[i].pk && updated[j].pk == posts[j].pk;
    }
    forall q | q in updated
      ensures q.category.Some? ==> HasCategory(categories, q.category.value)
      ensures q.location.Some? ==> HasLocation(remaining, q.location.value)
      ensures q.pk < nextPk
    {
      var i :| 0 <= i < |updated| && updated[i] == q;
      assert posts[i] in posts;
      if q.location.Some? {
        var l :| l in locations && l.pk == q.location.value;
        assert l in remaining;
      }
    }
  }

  /** Removing an author's posts keeps the posts table valid. */
  lemma CascadeAuthorKeepsPostsValid(posts: seq<Post>, categories: seq<Category>,
                                     locations: seq<Location>, nextPk: Pk, author: UserId)
    requires PostsTableValid(posts, categories, locations, nextPk)
    ensures PostsTableValid(CascadeAuthor(posts, author), categories, locations, nextPk)
  {
  }

  // ---------------------------------------------------------------------------
  // The store
  // ---------------------------------------------------------------------------

  /** The three tables, each with its own primary-key sequence. */
  class BlogStore {
    var categories: seq<Category>
    var locations: seq<Location>
    var posts: seq<Post>
    var nextCategoryPk: Pk
    var nextLocationPk: Pk
    var nextPostPk: Pk

    /** Primary keys and slugs are unique, keys are below their sequence, links resolve. */
    ghost predicate Valid()
      reads this
    {
      && UniqueBy(categories, CategoryPk)
      && UniqueBy(categories, CategorySlug)
      && UniqueBy(locations, LocationPk)
      && (forall c :: c in categories ==> c.pk < nextCategoryPk)
      && (forall l :: l in locations ==> l.pk < nextLocationPk)
      && PostsTableValid(posts, categories, locations, nextPostPk)
    }

    constructor ()
      ensures Valid()
      ensures categories == [] && locations == [] && posts == []
    {
      categories, locations, posts := [], [], [];
      nextCategoryPk, nextLocationPk, nextPostPk := 1, 1, 1;
    }

    /** Inserts a category; a slug already in use violates `unique=True`. */
    method AddCategory(title: string, description: string, slug: string, isPublished: Option<bool>, now: int)
      returns (r: Result<Category>)
      requires Valid()
      modifies this
      ensures Valid()
      ensures r.Err? <==> SlugTaken(old(categories), slug)
      ensures r.Err? ==> r.error == IntegrityError
      ensures r.Err? ==> categories == old(categories) && nextCategoryPk == old(nextCategoryPk)
      ensures r.Ok? ==> r.value == Category(old(nextCategoryPk), title, description, slug, PublishedOrDefault(isPublished), now)
      ensures r.Ok? ==> categories == old(categories) + [r.value] && nextCategoryPk == old(nextCategoryPk) + 1
      ensures locations == old(locations) && posts == old(posts)
      ensures nextLocationPk == old(nextLocationPk) && nextPostPk == old(nextPostPk)
    {
      if SlugTaken(categories, slug) {
        r := Err(IntegrityError);
        return;
      }
      var c := Category(nextCategoryPk, title, description, slug, PublishedOrDefault(isPublished), now);
      categories := categories + [c];
      nextCategoryPk := nextCategoryPk + 1;
      r := Ok(c);
    }

    /** Inserts a location. */
    method AddLocation(name: string, isPublished: Option<bool>, now: int) returns (l: Location)
      requires Valid()
      modifies this
      ensures Valid()
      ensures l == Location(old(nextLocationPk), name, PublishedOrDefault(isPublished), now)
      ensures locations == old(locations) + [l] && nextLocationPk == old(nextLocationPk) + 1
      ensures categories == old(categories) && posts == old(posts)
      ensures nextCategoryPk == old(nextCategoryPk) && nextPostPk == old(nextPostPk)
    {
      l := Location(nextLocationPk, name, PublishedOrDefault(isPublished), now);
      locations := locations + [l];
      nextLocationPk := nextLocationPk + 1;
    }

    /** Inserts a post; a link to a missing category or location violates the foreign key. */
    method AddPost(title: string, text: string, pubDate: int, author: UserId,
                   location: Option<Pk>, category: Option<Pk>, isPublished: Option<bool>, now: int)
      returns (r: Result<Post>)
      requires Valid()
      modifies this
      ensures Valid()
      ensures r.Err? <==>
        || (category.Some? && !HasCategory(categories, category.value))
        || (location.Some? && !HasLocation(locations, location.value))
      ensures r.Err? ==> r.error == IntegrityError
      ensures r.Err? ==> posts == old(posts) && nextPostPk == old(nextPostPk)
      ensures r.Ok? ==> r.value == Post(old(nextPostPk), title, text, pubDate, author, location, category,
                                        PublishedOrDefault(isPublished), now)
      ensures r.Ok? ==> posts == old(posts) + [r.value] && nextPostPk == old(nextPostPk) + 1
      ensures categories == old(categories) && locations == old(locations)
      ensures nextCategoryPk == old(nextCategoryPk) && nextLocationPk == old(nextLocationPk)
    {
      if (category.Some? && !HasCategory(categories, category.value))
        || (location.Some? && !HasLocation(locations, location.value))
      {
        r := Err(IntegrityError);
        return;
      }
      var p := Post(nextPostPk, title, text, pubDate, author, location, category,
                    PublishedOrDefault(isPublished), now);
      posts := posts + [p];
      nextPostPk := nextPostPk + 1;
      r := Ok(p);
    }

    /** Deletes a category; its posts stay, with their category cleared. */
    method DeleteCategory(pk: Pk)
      requires Valid()
      modifies this
      ensures Valid()
      ensures categories == RemoveCategory(old(categories), pk)
      ensures posts == SetNullCategory(old(posts), pk)
      ensures locations == old(locations)
      ensures nextCategoryPk == old(nextCategoryPk) && nextLocationPk == old(nextLocationPk)
      ensures nextPostPk == old(nextPostPk)
    {
      SetNullCategoryKeepsPostsValid(posts, categories, locations, nextPostPk, pk);
      var remaining := RemoveCategory(categories, pk);
      var updated := SetNullCategory(posts, pk);
      categories := remaining;
      posts := updated;
    }

    /** Deletes a location; its posts stay, with their location cleared. */
    method DeleteLocation(pk: Pk)
      requires Valid()
      modifies this
      ensures Valid()
      ensures locations == RemoveLocation(old(locations), pk)
      ensures posts == SetNullLocation(old(posts), pk)
      ensures categories == old(categories)
      ensures nextCategoryPk == old(nextCategoryPk) && nextLocationPk == old(nextLocationPk)
      ensures nextPostPk == old(nextPostPk)
    {
      SetNullLocationKeepsPostsValid(posts, categories, locations, nextPostPk, pk);
      var remaining := RemoveLocation(locations, pk);
      var updated := SetNullLocation(posts, pk);
      locations := remaining;
      posts := updated;
    }

    /** Deletes a user: every post the user wrote goes with them. */
    method DeleteUser(author: UserId)
      requires Valid()
      modifies this
      ensures Valid()
      ensures posts == CascadeAuthor(old(posts), author)
      ensures categories == old(categories) && locations == old(locations)
      ensures nextCategoryPk == old(nextCategoryPk) && nextLocationPk == old(nextLocationPk)
      ensures nextPostPk == old(nextPostPk)
    {
      CascadeAuthorKeepsPostsValid(posts, categories, locations, nextPostPk, author);
      posts := CascadeAuthor(posts, author);
    }
  }
}
