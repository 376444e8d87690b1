/** The standalone posts page: the same query state as the entry page, but
    `posts` starts as the seed, the displayed list is sorted in place on the
    freshly filtered array, and new posts come from the validator dialog. */
module PostsPageModel {
  import opened StableSort
  import opened PostQuery
  import PostForm

  /** The dialog's form record seen as a post; `id`, `date` and a missing
      image are filled in by `handleAddPost`. */
  function FromForm(d: PostForm.BlogPost): (p: Post)
    ensures p.title == d.title && p.excerpt == d.excerpt && p.author == d.author
    ensures p.category == d.category && p.image == d.image && p.readTime == d.readTime
  {
    Post(0, d.title, d.excerpt, d.author, 0, d.category, d.image, d.readTime)
  }

  class PostsPage {
    var searchTerm: string
    var selectedCategory: string
    var selectedAuthor: string
    var sortBy: string
    var posts: seq<Post>
    /** The module-level seed list the page reads. */
    const blogPosts: seq<Post>
    /** The collation `localeCompare` applies to titles. */
    const localeCompare: (string, string) -> int

    constructor (localeCompare: (string, string) -> int)
      ensures searchTerm == "" && selectedCategory == AllValues && selectedAuthor == AllValues
      ensures sortBy == "newest" && posts == BlogPosts
      ensures blogPosts == BlogPosts && this.localeCompare == localeCompare
    {
      blogPosts := BlogPosts;
      searchTerm := "";
      selectedCategory := AllValues;
      selectedAuthor := AllValues;
      sortBy := "newest";
      posts := BlogPosts;
      this.localeCompare := localeCompare;
    }

    /** `filteredPosts`: the seed filtered into a fresh array, which `.sort`
        then reorders in place; nothing else is touched. */
    method FilteredPosts() returns (shown: array<Post>)
      ensures fresh(shown)
      ensures shown[..] == Query(blogPosts, searchTerm, selectedCategory, selectedAuthor, sortBy, localeCompare)
    {
      var filtered := FilterPosts(blogPosts, searchTerm, selectedCategory, selectedAuthor);
      shown := new Post[|filtered|](i requires 0 <= i < |filtered| => filtered[i]);
      assert shown[..] == filtered;
      SortInPlace(shown, PostOrder(ParseSortKey(sortBy), localeCompare));
    }

    /** `handleAddPost`: prepends the dialog's post with the next id, today's
        date and the placeholder image when it has none. */
    method HandleAddPost(newPost: PostForm.BlogPost, today: int)
      modifies this`posts
      ensures posts == AddPost(old(posts), FromForm(newPost), today)
    {
      posts := AddPost(posts, FromForm(newPost), today);
    }

    /** The "Clear Filters" button: resets the three filters and nothing else. */
    method ClearFilters()
      modifies this`searchTerm, this`selectedCategory, this`selectedAuthor
      ensures searchTerm == "" && selectedCategory == AllValues && selectedAuthor == AllValues
    {
      searchTerm := "";
      selectedCategory := AllValues;
      selectedAuthor := AllValues;
    }
  }

  /** What the page shows: exactly the matching seed posts, no more of them
      than the seed holds ("Showing N of M" has N <= M), ordered by the
      selected key. */
  lemma ShownPosts(page: PostsPage, shown: seq<Post>)
    requires TotalPreorder(LocaleOrder(page.localeCompare))
    requires shown == Query(page.blogPosts, page.searchTerm, page.selectedCategory, page.selectedAuthor,
                            page.sortBy, page.localeCompare)
    ensures forall x :: x in shown <==> x in page.blogPosts && Matches(x, page.searchTerm, page.selectedCategory, page.selectedAuthor)
    ensures |shown| <= |page.blogPosts|
    ensures Sorted(shown, PostOrder(ParseSortKey(page.sortBy), page.localeCompare))
  {
    var seed, term, category, author := page.blogPosts, page.searchTerm, page.selectedCategory, page.selectedAuthor;
    var leq := PostOrder(ParseSortKey(page.sortBy), page.localeCompare);
    QueryMembership(seed, term, category, author, page.sortBy, page.localeCompare);
    PostOrderIsTotalPreorder(ParseSortKey(page.sortBy), page.localeCompare);
    SortBySorted(FilterPosts(seed, term, category, author), leq);
  }
}
