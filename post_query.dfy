/** The query pipeline both post-list pages run on every render: the
    search/category/author filter, the three-key comparator handed to the
    sort, the distinct category and author lists, and the optimistic insert
    of a new post. */
module PostQuery {
  import opened Text
  import opened Seqs
  import opened StableSort

  /** A blog post. `date` is the ISO calendar date as an ordered day number. */
  datatype Post = Post(
    id: int,
    title: string,
    excerpt: string,
    author: string,
    date: int,
    category: string,
    image: string,
    readTime: string)

  /** The selection value that disables the category or author filter. */
  const AllValues: string := "all"

  const PlaceholderImage: string := "/placeholder.svg?height=200&width=400"

  predicate MatchesSearch(p: Post, searchTerm: string) {
    var needle := Lower(searchTerm);
    Contains(Lower(p.title), needle) || Contains(Lower(p.excerpt), needle)
  }

  predicate Matches(p: Post, searchTerm: string, category: string, author: string) {
    && MatchesSearch(p, searchTerm)
    && (category == AllValues || p.category == category)
    && (author == AllValues || p.author == author)
  }

  /** `posts.filter(post => matchesSearch && matchesCategory && matchesAuthor)`:
      exactly the matching posts, each as often as in `posts`, in their order. */
  function FilterPosts(posts: seq<Post>, searchTerm: string, category: string, author: string): (r: seq<Post>)
    ensures forall x :: x in r <==> x in posts && Matches(x, searchTerm, category, author)
    ensures forall x :: multiset(r)[x] == if Matches(x, searchTerm, category, author) then multiset(posts)[x] else 0
    ensures IsSubseq(r, posts)
  {
    if posts == [] then []
    else
      var rest := FilterPosts(posts[1..], searchTerm, category, author);
      assert posts == [posts[0]] + posts[1..];
      if Matches(posts[0], searchTerm, category, author) then
        assert ([posts[0]] + rest)[1..] == rest;
        [posts[0]] + rest
      else
        SubseqSkip(rest, posts[0], posts[1..]);
        rest
  }

  /** The `sortBy` selection; any value other than the three known ones
      falls through to `return 0`. */
  datatype SortKey = Newest | Oldest | ByTitle | Unordered

  function ParseSortKey(sortBy: string): SortKey {
    if sortBy == "newest" then Newest
    else if sortBy == "oldest" then Oldest
    else if sortBy == "title" then ByTitle
    else Unordered
  }

  /** The comparator passed to the sort; `localeCompare` is the runtime's
      collation, given as a parameter. */
  function Compare(key: SortKey, localeCompare: (string, string) -> int, a: Post, b: Post): int {
    match key
    case Newest => b.date - a.date
    case Oldest => a.date - b.date
    case ByTitle => localeCompare(a.title, b.title)
    case Unordered => 0
  }

  /** "`a` may stay in front of `b`": the comparator does not put `b` first. */
  function PostOrder(key: SortKey, localeCompare: (string, string) -> int): (Post, Post) -> bool {
    (a: Post, b: Post) => Compare(key, localeCompare, a, b) <= 0
  }

  function LocaleOrder(localeCompare: (string, string) -> int): (string, string) -> bool {
    (a: string, b: string) => localeCompare(a, b) <= 0
  }

  /** A consistent collation makes every sort key a total preorder on posts. */
  lemma PostOrderIsTotalPreorder(key: SortKey, localeCompare: (string, string) -> int)
    requires TotalPreorder(LocaleOrder(localeCompare))
    ensures TotalPreorder(PostOrder(key, localeCompare))
  {
    var leq := PostOrder(key, localeCompare);
    var lo := LocaleOrder(localeCompare);
    forall a, b ensures leq(a, b) || leq(b, a) {
      if key == ByTitle {
        assert lo(a.title, b.title) || lo(b.title, a.title);
      }
    }
    forall a, b, c | leq(a, b) && leq(b, c) ensures leq(a, c) {
      if key == ByTitle {
        assert lo(a.title, b.title) && lo(b.title, c.title);
      }
    }
  }

  /** The list the page displays: the filtered posts, sorted by `sortBy`. */
  function Query(posts: seq<Post>, searchTerm: string, category: string, author: string,
                 sortBy: string, localeCompare: (string, string) -> int): seq<Post>
  {
    SortBy(FilterPosts(posts, searchTerm, category, author), PostOrder(ParseSortKey(sortBy), localeCompare))
  }

  /** A post is displayed exactly when it matches, and as often as it occurs;
      so "Showing N of M" has N <= M. */
  lemma QueryMembership(posts: seq<Post>, searchTerm: string, category: string, author: string,
                        sortBy: string, localeCompare: (string, string) -> int)
    ensures var r := Query(posts, searchTerm, category, author, sortBy, localeCompare);
      && (forall x :: multiset(r)[x] == if Matches(x, searchTerm, category, author) then multiset(posts)[x] else 0)
      && (forall x :: x in r <==> x in posts && Matches(x, searchTerm, category, author))
      && |r| <= |posts|
  {
    var f := FilterPosts(posts, searchTerm, category, author);
    SortByPermutes(f, PostOrder(ParseSortKey(sortBy), localeCompare));
    SubseqBounds(f, posts);
    var r := Query(posts, searchTerm, category, author, sortBy, localeCompare);
    forall x ensures x in r <==> x in posts && Matches(x, searchTerm, category, author) {
      assert x in r <==> x in multiset(r);
      assert x in f <==> x in multiset(f);
    }
  }

  /** `newest` orders by non-increasing date, `oldest` by non-decreasing
      date, `title` by the collation. */
  lemma QueryOrdered(posts: seq<Post>, searchTerm: string, category: string, author: string,
                     sortBy: string, localeCompare: (string, string) -> int)
    requires TotalPreorder(LocaleOrder(localeCompare))
    ensures var r := Query(posts, searchTerm, category, author, sortBy, localeCompare);
      && (sortBy == "newest" ==> forall i, j :: 0 <= i < j < |r| ==> r[i].date >= r[j].date)
      && (sortBy == "oldest" ==> forall i, j :: 0 <= i < j < |r| ==> r[i].date <= r[j].date)
      && (sortBy == "title" ==> forall i, j :: 0 <= i < j < |r| ==> localeCompare(r[i].title, r[j].title) <= 0)
  {
    var key := ParseSortKey(sortBy);
    PostOrderIsTotalPreorder(key, localeCompare);
    SortBySorted(FilterPosts(posts, searchTerm, category, author), PostOrder(key, localeCompare));
  }

  /** Stability: posts the comparator ties keep their filtered order. */
  lemma QueryStable(posts: seq<Post>, searchTerm: string, category: string, author: string,
                    sortBy: string, localeCompare: (string, string) -> int, p: Post)
    requires TotalPreorder(LocaleOrder(localeCompare))
    ensures var leq := PostOrder(ParseSortKey(sortBy), localeCompare);
      TiedWith(Query(posts, searchTerm, category, author, sortBy, localeCompare), leq, p)
        == TiedWith(FilterPosts(posts, searchTerm, category, author), leq, p)
  {
    var key := ParseSortKey(sortBy);
    PostOrderIsTotalPreorder(key, localeCompare);
    SortByStable(FilterPosts(posts, searchTerm, category, author), PostOrder(key, localeCompare), p);
  }

  /** When no two posts share a date, `oldest` shows exactly the reverse
      of `newest`: stability cannot tell them apart. */
  lemma QueryNewestOldestReverse(posts: seq<Post>, searchTerm: string, category: string, author: string,
                                 localeCompare: (string, string) -> int)
    requires forall x, y :: x in posts && y in posts && x.date == y.date ==> x == y
    ensures Query(posts, searchTerm, category, author, "oldest", localeCompare)
      == Reverse(Query(posts, searchTerm, category, author, "newest", localeCompare))
  {
    var f := FilterPosts(posts, searchTerm, category, author);
    var newer, older := PostOrder(Newest, localeCompare), PostOrder(Oldest, localeCompare);
    assert TotalPreorder(newer);
    SubseqBounds(f, posts);
    SortByConverse(f, newer, older);
  }

  /** An unknown sort key leaves the filtered order as it is. */
  lemma QueryUnknownKeyKeepsOrder(posts: seq<Post>, searchTerm: string, category: string, author: string,
                                  sortBy: string, localeCompare: (string, string) -> int)
    requires sortBy != "newest" && sortBy != "oldest" && sortBy != "title"
    ensures Query(posts, searchTerm, category, author, sortBy, localeCompare)
      == FilterPosts(posts, searchTerm, category, author)
  {
    SortBySortedIsIdentity(FilterPosts(posts, searchTerm, category, author), PostOrder(Unordered, localeCompare));
  }

  /** Sorting the displayed list again by the same key changes nothing. */
  lemma QuerySortIdempotent(posts: seq<Post>, searchTerm: string, category: string, author: string,
                            sortBy: string, localeCompare: (string, string) -> int)
    requires TotalPreorder(LocaleOrder(localeCompare))
    ensures var r := Query(posts, searchTerm, category, author, sortBy, localeCompare);
      SortBy(r, PostOrder(ParseSortKey(sortBy), localeCompare)) == r
  {
    var key := ParseSortKey(sortBy);
    PostOrderIsTotalPreorder(key, localeCompare);
    SortByIdempotent(FilterPosts(posts, searchTerm, category, author), PostOrder(key, localeCompare));
  }

  /** With the filters cleared every post passes: every string contains "". */
  lemma {:induction false} FilterClearedKeepsAll(posts: seq<Post>)
    ensures FilterPosts(posts, "", AllValues, AllValues) == posts
  {
    if posts != [] {
      ContainsEmpty(Lower(posts[0].title));
      FilterClearedKeepsAll(posts[1..]);
    }
  }

  /** So the cleared query shows every post, as a permutation of the list. */
  lemma QueryClearedShowsAll(posts: seq<Post>, sortBy: string, localeCompare: (string, string) -> int)
    ensures multiset(Query(posts, "", AllValues, AllValues, sortBy, localeCompare)) == multiset(posts)
  {
    FilterClearedKeepsAll(posts);
    SortByPermutes(posts, PostOrder(ParseSortKey(sortBy), localeCompare));
  }

  /** `posts.map(post => post.category)`. */
  function CategoryColumn(posts: seq<Post>): (r: seq<string>)
    ensures |r| == |posts| && forall i :: 0 <= i < |posts| ==> r[i] == posts[i].category
    ensures forall c :: c in r <==> exists p :: p in posts && p.category == c
  {
    if posts == [] then [] else [posts[0].category] + CategoryColumn(posts[1..])
  }

  /** `posts.map(post => post.author)`. */
  function AuthorColumn(posts: seq<Post>): (r: seq<string>)
    ensures |r| == |posts| && forall i :: 0 <= i < |posts| ==> r[i] == posts[i].author
    ensures forall a :: a in r <==> exists p :: p in posts && p.author == a
  {
    if posts == [] then [] else [posts[0].author] + AuthorColumn(posts[1..])
  }

  /** `[...new Set(blogPosts.map(post => post.category))]`: each category
      of some post, once. */
  function Categories(posts: seq<Post>): (r: seq<string>)
    ensures NoDup(r)
    ensures forall c :: c in r <==> exists p :: p in posts && p.category == c
  {
    Distinct(CategoryColumn(posts))
  }

  /** `[...new Set(blogPosts.map(post => post.author))]`: each author of some
      post, once. */
  function Authors(posts: seq<Post>): (r: seq<string>)
    ensures NoDup(r)
    ensures forall a :: a in r <==> exists p :: p in posts && p.author == a
  {
    Distinct(AuthorColumn(posts))
  }

  /** `add`: the draft's text fields with a fresh id, today's date and the
      placeholder image when the draft has none, put in front of `posts`. */
  function AddPost(posts: seq<Post>, draft: Post, today: int): (r: seq<Post>)
    ensures |r| == |posts| + 1 && r[1..] == posts
    ensures r[0].id == |posts| + 1 && r[0].date == today
    ensures r[0].image == (if draft.image == "" then PlaceholderImage else draft.image)
    ensures r[0].image != ""
    ensures r[0].title == draft.title && r[0].excerpt == draft.excerpt && r[0].author == draft.author
    ensures r[0].category == draft.category && r[0].readTime == draft.readTime
  {
    var image := if draft.image == "" then PlaceholderImage else draft.image;
    [draft.(id := |posts| + 1, date := today, image := image)] + posts
  }

  /** The ids of `posts` are distinct and lie in 1..|posts|, as the seed's
      ids 1..6 do. */
  ghost predicate IdsWellFormed(posts: seq<Post>) {
    && (forall i :: 0 <= i < |posts| ==> 1 <= posts[i].id <= |posts|)
    && (forall i, j :: 0 <= i < j < |posts| ==> posts[i].id != posts[j].id)
  }

  /** `id = posts.length + 1` keeps ids distinct as long as nothing is ever
      removed. */
  lemma AddPostKeepsIdsWellFormed(posts: seq<Post>, draft: Post, today: int)
    requires IdsWellFormed(posts)
    ensures IdsWellFormed(AddPost(posts, draft, today))
  {
    var r := AddPost(posts, draft, today);
    forall i | 0 < i < |r| ensures r[i] == posts[i - 1] {
    }
  }

  /** The mock seed `blogPosts` (dates as days since 1970-01-01). */
  const SeedImage: string := "https://media2.dev.to/dynamic/image/width=1000,height=420,fit=cover,gravity=auto,format=auto/https%3A%2F%2Fdev-to-uploads.s3.amazonaws.com%2Fuploads%2Farticles%2F15t6fr44mdl8vd73pdpm.png"

  const BlogPosts: seq<Post> := [
    Post(1, "Getting Started with Next.js 15",
      "Learn about the latest features and improvements in Next.js 15, including enhanced performance and new developer tools.",
      "Sarah Johnson", 19737, "Development", SeedImage, "5 min read"),
    Post(2, "The Future of Web Development",
      "Exploring emerging trends and technologies that will shape the future of web development in the coming years.",
      "Mike Chen", 19734, "Technology", SeedImage, "8 min read"),
    Post(3, "Building Responsive Layouts with CSS Grid",
      "Master CSS Grid to create flexible and responsive layouts that work perfectly across all device sizes.",
      "Emily Rodriguez", 19732, "Design", SeedImage, "6 min read"),
    Post(4, "JavaScript Performance Optimization Tips",
      "Discover practical techniques to optimize your JavaScript code for better performance and user experience.",
      "David Kim", 19730, "Development", SeedImage, "7 min read"),
    Post(5, "UX Design Principles for Developers",
      "Essential UX design principles that every developer should know to create better user experiences.",
      "Lisa Wang", 19727, "Design", SeedImage, "4 min read"),
    Post(6, "Introduction to TypeScript",
      "A comprehensive guide to getting started with TypeScript and how it can improve your JavaScript development.",
      "Alex Thompson", 19725, "Development", SeedImage, "9 min read")
  ]

  lemma SeedIdsWellFormed()
    ensures |BlogPosts| == 6
    ensures forall i :: 0 <= i < |BlogPosts| ==> BlogPosts[i].id == i + 1
    ensures IdsWellFormed(BlogPosts)
  {
  }

  /** As written, both pages derive the displayed list from the constant
      seed, so a post added to `posts` never appears: whatever the query, the
      post `add` creates on the seeded list is not displayed. */
  lemma AddedPostNotDisplayed(draft: Post, today: int, searchTerm: string, category: string,
                              author: string, sortBy: string, localeCompare: (string, string) -> int)
    ensures AddPost(BlogPosts, draft, today)[0] !in Query(BlogPosts, searchTerm, category, author, sortBy, localeCompare)
  {
    SeedIdsWellFormed();
    var added := AddPost(BlogPosts, draft, today)[0];
    assert added.id == 7;
    assert added !in BlogPosts;
    QueryMembership(BlogPosts, searchTerm, category, author, sortBy, localeCompare);
  }

  /** Querying the updated `posts` instead shows the new post exactly when it
      matches the filters, and always once the filters are cleared. */
  lemma AddedPostDisplayedFromPosts(posts: seq<Post>, draft: Post, today: int, searchTerm: string,
                                    category: string, author: string, sortBy: string,
                                    localeCompare: (string, string) -> int)
    ensures var added := AddPost(posts, draft, today);
      && (added[0] in Query(added, searchTerm, category, author, sortBy, localeCompare)
          <==> Matches(added[0], searchTerm, category, author))
      && added[0] in Query(added, "", AllValues, AllValues, sortBy, localeCompare)
  {
    var added := AddPost(posts, draft, today);
    QueryMembership(added, searchTerm, category, author, sortBy, localeCompare);
    QueryClearedShowsAll(added, sortBy, localeCompare);
    assert added[0] in multiset(added);
  }
}
