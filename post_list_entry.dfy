/** The post-list entry page: its query state, the seed-derived filter
    options and displayed list, `add`, `clearFilters` and the effect that
    seeds `posts`. */
module PostListEntry {
  import opened Seqs
  import opened PostQuery

  class PostListEntryPage {
    var searchTerm: string
    var selectedCategory: string
    var selectedAuthor: string
    var sortBy: string
    var posts: seq<Post>
    /** The module-level seed list the page reads. */
    const blogPosts: seq<Post>
    /** The collation `localeCompare` applies to titles. */
    const localeCompare: (string, string) -> int

    constructor (localeCompare: (string, string) -> int)
      ensures searchTerm == "" && selectedCategory == AllValues && selectedAuthor == AllValues
      ensures sortBy == "newest" && posts == []
      ensures blogPosts == BlogPosts && this.localeCompare == localeCompare
    {
      blogPosts := BlogPosts;
      searchTerm := "";
      selectedCategory := AllValues;
      selectedAuthor := AllValues;
      sortBy := "newest";
      posts := [];
      this.localeCompare := localeCompare;
    }

    /** The category options: each seed category once. */
    function CategoryOptions(): (r: seq<string>)
      ensures NoDup(r)
      ensures forall c :: c in r <==> exists p :: p in blogPosts && p.category == c
    {
      Categories(blogPosts)
    }

    /** The author options: each seed author once. */
    function AuthorOptions(): (r: seq<string>)
      ensures NoDup(r)
      ensures forall a :: a in r <==> exists p :: p in blogPosts && p.author == a
    {
      Authors(blogPosts)
    }

    /** The displayed list, as written: queried from the seed, not from
        `posts`. A seed post is shown exactly when it matches, so "Showing N
        of M" has N <= M. */
    function FilteredPosts(): (r: seq<Post>)
      reads this
      ensures forall x :: x in r <==> x in blogPosts && Matches(x, searchTerm, selectedCategory, selectedAuthor)
      ensures |r| <= |blogPosts|
    {
      QueryMembership(blogPosts, searchTerm, selectedCategory, selectedAuthor, sortBy, localeCompare);
      Query(blogPosts, searchTerm, selectedCategory, selectedAuthor, sortBy, localeCompare)
    }

    /** The displayed list as evidently intended: queried from `posts`. */
    function FilteredFromPosts(): (r: seq<Post>)
      reads this
      ensures forall x :: x in r <==> x in posts && Matches(x, searchTerm, selectedCategory, selectedAuthor)
      ensures |r| <= |posts|
    {
      QueryMembership(posts, searchTerm, selectedCategory, selectedAuthor, sortBy, localeCompare);
      Query(posts, searchTerm, selectedCategory, selectedAuthor, sortBy, localeCompare)
    }

    /** `add`: prepends the new post with the next id, today's date and the
        placeholder image when it has none. The displayed list does not
        change; queried from `posts`, the new post would show whenever it
        matches. */
    method Add(newPost: Post, today: int)
      modifies this`posts
      ensures posts == AddPost(old(posts), newPost, today)
      ensures FilteredPosts() == old(FilteredPosts())
      ensures posts[0] in FilteredFromPosts() <==> Matches(posts[0], searchTerm, selectedCategory, selectedAuthor)
    {
      posts := AddPost(posts, newPost, today);
    }

    /** `clearFilters`: resets the three filters and nothing else; every
        seed post is then displayed. */
    method ClearFilters()
      modifies this`searchTerm, this`selectedCategory, this`selectedAuthor
      ensures searchTerm == "" && selectedCategory == AllValues && selectedAuthor == AllValues
      ensures multiset(FilteredPosts()) == multiset(blogPosts)
    {
      searchTerm := "";
      selectedCategory := AllValues;
      selectedAuthor := AllValues;
      QueryClearedShowsAll(blogPosts, sortBy, localeCompare);
    }

    /** The mount effect `syncAPIPosts`: `posts` becomes the seed. */
    method SyncApiPosts()
      modifies this`posts
      ensures posts == blogPosts
    {
      posts := blogPosts;
    }
  }

  /** As written, a post added once the effect has seeded `posts` is never
      displayed, whatever the query state. */
  lemma SeededAddNotDisplayed(page: PostListEntryPage, draft: Post, today: int)
    requires page.blogPosts == BlogPosts && page.posts == BlogPosts
    ensures AddPost(page.posts, draft, today)[0] !in page.FilteredPosts()
  {
    AddedPostNotDisplayed(draft, today, page.searchTerm, page.selectedCategory, page.selectedAuthor,
                          page.sortBy, page.localeCompare);
  }
}
