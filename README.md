# Blogicum: post visibility and the blog's tables, in Dafny

Blogicum is a small multi-user blog built on Django. This project models two
parts of its `blog` application:

- **The public read views** (`blog/views.py`). The front page (`index`)
  lists the five newest public posts. A category's page (`category_posts`)
  lists that category's due, published posts, or answers 404 when the slug
  does not name a published category. A post's page (`post_detail`) answers
  404 for a missing, future, unpublished or uncategorised post, and for a
  post in an unpublished category. A post is *public* when it is published,
  its publication date has been reached and its category exists and is
  published.
- **The entities and their tables** (`blog/models.py`). Category, Location
  and Post are records with `is_published` defaulting to true. Each has a
  display string and a default ordering. A store holds the three tables, with
  unique primary keys and unique category slugs. Deleting a category or a
  location clears the link on its posts (SET_NULL). Deleting a user removes
  the user's posts (CASCADE).

The part of Django's query interface that the views use is modelled
generically in `queryset.dfy`: `filter`, `order_by`, slicing, `get` and
`get_object_or_404`, with the exceptions they raise. The tables are sequences
of rows in storage order. The current time `now` is an integer parameter.

Files:

- `queryset.dfy` (module `QuerySets`): Option, Result, the framework
  exceptions, and the query operations with their contracts.
- `models.py` becomes `models.dfy` (module `Models`): the records, defaults,
  `__str__`, `Meta.ordering`, the referential actions as table functions,
  and the class `BlogStore`, whose methods change the tables in place.
- `views.py` becomes `views.dfy` (module `Views`): `Index`, `CategoryPosts`,
  `PostDetail` and lemmas relating the views to each other and to deletion.

Three behaviours one might expect of such a blog are not in the code, and the
model follows the code:

- `post_detail` as written has no author exemption. The post's own author
  also gets 404 for a draft, a future post or an uncategorised post.
- `Post.pub_date` is not nullable, so there is no "no date means visible" case.
- `index` shows the first five posts by date, not a page of ten. It attaches
  no comment counts.

## Model

| member | source | states |
|---|---|---|
| `QuerySets.Filter` | blogicum/blog/views.py:21-26 | the result holds exactly the rows that pass the test, each as often as in the table |
| `QuerySets.OrderBy` | blogicum/blog/views.py:27 | the result is sorted by the given key and is a permutation of the input |
| `QuerySets.Slice` | blogicum/blog/views.py:27 | `[:n]` keeps the first n rows, or all rows when there are fewer |
| `QuerySets.TopRows` | blogicum/blog/views.py:19-28 | filter, order and slice give matching rows drawn from the table, in order; a matching row left out means the slice is full of rows ordered before it |
| `QuerySets.FilterAtMostOne` | blogicum/blog/views.py:64-66 | at most one row matches exactly when the filtered table has at most one row |
| `QuerySets.Get` | blogicum/blog/views.py:64-66 | DoesNotExist exactly when no row matches; MultipleObjectsReturned exactly when two rows match; otherwise the single matching row |
| `QuerySets.GetOr404` | blogicum/blog/views.py:39 | as `get`, but no match is Http404 |
| `QuerySets.FilterKeepsUnique` | blogicum/blog/models.py:13-15 | a column unique in a table stays unique after rows are removed |
| `Models.Category.ToString` | blogicum/blog/models.py:33-34 | a category is displayed as its title |
| `Models.Location.ToString` | blogicum/blog/models.py:53-54 | a location is displayed as its name |
| `Models.Post.ToString` | blogicum/blog/models.py:101-102 | a post is displayed as its title |
| `Models.PublishedOrDefault` | blogicum/blog/models.py:21-25 | `is_published` is true unless a value is given, and then it is that value |
| `Models.LexLeTotal` | blogicum/blog/models.py:31 | any two texts are ordered one way or the other |
| `Models.LexLeTransitive` | blogicum/blog/models.py:31 | text order is transitive |
| `Models.CategoryOrderIsTotalPreorder` | blogicum/blog/models.py:31 | ordering by title is a valid sort key |
| `Models.LocationOrderIsTotalPreorder` | blogicum/blog/models.py:51 | ordering by name is a valid sort key |
| `Models.OrderedPosts` | blogicum/blog/models.py:97-99 | the default post order has the newest date first and keeps every row |
| `Models.OrderedCategories` | blogicum/blog/models.py:31 | the default category order is by title ascending and keeps every row |
| `Models.OrderedLocations` | blogicum/blog/models.py:51 | the default location order is by name ascending and keeps every row |
| `Models.RemoveCategory` | blogicum/blog/models.py:8-34 | exactly the rows with another key remain; unique keys and slugs stay unique |
| `Models.RemoveLocation` | blogicum/blog/models.py:37-54 | exactly the rows with another key remain; unique keys stay unique |
| `Models.SetNullCategory` | blogicum/blog/models.py:79-86 | every post stays; a post linked to the deleted category loses the link; no other field and no other post changes |
| `Models.SetNullLocation` | blogicum/blog/models.py:71-78 | every post stays; a post linked to the deleted location loses the link; no other field and no other post changes |
| `Models.CascadeAuthor` | blogicum/blog/models.py:65-70 | exactly the posts by other authors remain, each as often as before |
| `Models.SetNullCategoryKeepsPostsValid` | blogicum/blog/models.py:79-86 | after SET_NULL on a deleted category, post keys stay unique and every remaining link resolves |
| `Models.SetNullLocationKeepsPostsValid` | blogicum/blog/models.py:71-78 | after SET_NULL on a deleted location, post keys stay unique and every remaining link resolves |
| `Models.CascadeAuthorKeepsPostsValid` | blogicum/blog/models.py:65-70 | after CASCADE on a deleted author, post keys stay unique and every link resolves |
| `Models.BlogStore.constructor` | blogicum/blog/models.py:8-102 | the store starts with three empty tables and satisfies its invariant |
| `Models.BlogStore.AddCategory` | blogicum/blog/models.py:13-26 | a slug already in use is rejected and nothing changes; otherwise the new row is appended with a fresh key and the default for `is_published` |
| `Models.BlogStore.AddLocation` | blogicum/blog/models.py:37-46 | the new row is appended with a fresh key and the default for `is_published` |
| `Models.BlogStore.AddPost` | blogicum/blog/models.py:57-92 | a link to a missing category or location is rejected and nothing changes; otherwise the new post is appended |
| `Models.BlogStore.DeleteCategory` | blogicum/blog/models.py:79-86 | the category row goes, its posts lose the link, locations do not change, and the invariant holds |
| `Models.BlogStore.DeleteLocation` | blogicum/blog/models.py:71-78 | the location row goes, its posts lose the link, categories do not change, and the invariant holds |
| `Models.BlogStore.DeleteUser` | blogicum/blog/models.py:65-70 | exactly the user's posts go, categories and locations do not change, and the invariant holds |
| `Views.Index` | blogicum/blog/views.py:15-28 | at most five posts, all public and drawn from the table, newest first; a public post left out is no newer than any listed one, and then five are listed |
| `Views.CategoryPosts` | blogicum/blog/views.py:36-51 | 404 exactly when no published category has the slug; otherwise that category and exactly its published, due posts, newest first; unique slugs rule out MultipleObjectsReturned |
| `Views.PostDetail` | blogicum/blog/views.py:60-77 | 404 when no post has the key; for the post with the key, 404 exactly when it is future, unpublished, uncategorised or in an unpublished category, and otherwise that post |
| `Views.IndexPostsHaveDetail` | blogicum/blog/views.py:19-77 | every post on the front page opens on its own page |
| `Views.CategoryPostsHaveDetail` | blogicum/blog/views.py:39-77 | every post on a category's page opens on its own page |
| `Views.PublicPostsAreListedUnderTheirCategory` | blogicum/blog/views.py:19-51 | a public post is listed on its category's page |
| `Views.DetailStaysVisible` | blogicum/blog/views.py:72-77 | once a post's page opens, it stays open at every later time |
| `Views.DeletedCategoryHidesPosts` | blogicum/blog/views.py:72-77 | after its category is deleted, a post answers 404 though it is still stored |

## Left out

- Rendering: templates, `render` and the context dictionaries. The model returns the rows a view would render.
- `select_related`, query laziness and the database engine. Tables are in-memory sequences of rows.
- The clock: `timezone.now()` is the parameter `now`. Timestamps are integers.
- `created_at` (`auto_now_add`) takes the `now` passed to the insert methods.
- URL routing, the admin configuration, the forms and the static pages. They carry no logic of their own. The forms and the URL table name a Comment entity, an image field and several views that the modelled code does not define, so these are not modelled.
- Pagination, authentication, the author-only edit and delete rules and comments are not implemented in the modelled code.
- Field length limits (`max_length`), the slug's allowed characters and `blank=False` on `Post.category` are form-level validation. The model stores any text and allows a null category.
- The user table belongs to the framework. Posts carry the author's key, and `DeleteUser` applies only the CASCADE rule.
- Text ordering for `Meta.ordering` compares character codes. Database collations are left out.
- Views.Index: posts with equal dates may come out in any order in the database. The model keeps their storage order but proves nothing about ties.
- Views.CategoryPosts: the same holds for ties between posts with equal dates.
- QuerySets.Filter: the contract does not state that the kept rows keep their storage order. It states only which rows remain and how often.
- A post's category counts as published when some category row with that key is published. Under the store's invariant there is exactly one such row.
- The 404 message text is not modelled.
