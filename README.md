# react-foundation: post pages, post forms, task reducer and upload cap in Dafny

This project models the logic behind several React components of the
react-foundation exercises:

- **Post query pipeline.** The two blog-post pages, `PostListEntryPage` and
  `PostsPage`, run the same query on every render.
  - A filter: a case-insensitive substring search on the title or excerpt, a
    category selection and an author selection, where `"all"` disables a
    selection.
  - A stable sort by `newest`, `oldest` or `title`. Any other key keeps the
    filtered order.
  - The distinct category and author options.
  - The `add` step: the next id, today's date and a placeholder image,
    placed in front of `posts`.
  - The "clear filters" reset.

  `PostsPage` sorts the freshly filtered array in place. Here that is an
  insertion sort on a Dafny `array`, proved equal to the functional stable
  sort.
- **Post-creation dialogs.**
  - `AddNewPost.tsx`: the hand-written validator (one message per field,
    "required" before "too short"), the submit guard and reset, the change
    handler that blanks a field's error, tag adding and removal, and the
    read-time estimate `ceil(words / 200)` filled in from the content.
  - `add-new-post.tsx`: the schema variant, with inclusive lower and upper
    length bounds, the same helpers, and the resets on a successful submit
    and on a close the dialog itself reports (Escape, the overlay, its close
    button). The Cancel button only clears the open flag and keeps the typed
    values and the tag input.
- **Task reducer.** The reducer of the two context demos: `add` appends,
  `remove` drops every task with the id, and any other action empties the
  list.
- **File upload cap.** The `onChange` handler of the file picker rejects a
  batch that would take the total over five files and prepends an accepted
  batch.

Conventions of the model:

- Dates are whole day numbers. "Today" is a parameter.
- `localeCompare` is a parameter. Every ordering property requires it to
  induce a total preorder.
- `toLowerCase` is ASCII lowering.
- `trim` and `\s` use the ECMAScript whitespace set.
- The URL check on the image is a parameter `isUrl`.

Component state becomes classes whose methods update their fields. The
pipeline, the validators and the reducer are functions. The lemmas state the
properties.

Modules:

- `Text`: lowering, substring search, trimming, word counting, numerals.
- `Seqs`: subsequences, duplicate-free lists, `filter`.
- `StableSort`: the stable sort and its in-place array version.
- `PostQuery`: the query pipeline.
- `PostListEntry`, `PostsPageModel`: the two pages.
- `PostForm`: the form record, tags and the read time.
- `AddNewPost`: the hand-written validator dialog.
- `SchemaPostForm`: the schema dialog.
- `Tasks`: the task reducer.
- `Uploads`: the file upload cap.

## Model

| member | source | states |
|---|---|---|
| Text.Lower | src/modules/posts/post-list/post-list-entry-page.tsx:99-100 | `toLowerCase`: same length, each character lowered. |
| Text.ContainsIffOccurs | src/modules/posts/post-list/post-list-entry-page.tsx:99-100 | `includes` holds exactly when the needle occurs at some index of the haystack. |
| Text.ContainsEmpty | src/modules/posts/post-list/post-list-entry-page.tsx:98-100 | Every string includes `""`. |
| Text.Contains | src/modules/posts/post-list/post-list-entry-page.tsx:99-100 | `includes`: defined by scanning for a prefix match. `ContainsIffOccurs` proves it equal to "occurs at some offset", and `ContainsEmpty` covers the empty needle. |
| Text.Trim | src/modules/posts/AddNewPost.tsx:56 | `trim`: no longer than the input, no whitespace at either end, and empty exactly when the input is all whitespace. |
| Text.TrimIsSlice | src/modules/posts/AddNewPost.tsx:56 | The result of `trim` is a slice of the input, and only whitespace is cut off before and after it. |
| Text.TrimStart | src/modules/posts/AddNewPost.tsx:135 | Leading whitespace dropped: the result is a suffix with a non-space head, and the part dropped is all whitespace. |
| Text.TrimEnd | src/modules/posts/AddNewPost.tsx:135 | Trailing whitespace dropped: the result is a prefix with a non-space last character, and the part dropped is all whitespace. |
| Text.SplitPieces | src/modules/posts/AddNewPost.tsx:160 | `split(/\s+/).length`: at least one piece. `SplitPiecesCountsWords` proves that on trimmed non-blank text it is the number of words. |
| Text.SplitPiecesCountsWords | src/modules/posts/AddNewPost.tsx:160 | On trimmed non-blank text, `split(/\s+/).length` is the number of words (maximal non-space runs). |
| Text.NatToString | src/modules/posts/AddNewPost.tsx:162 | The numeral in the read time is non-empty and all digits. |
| Text.ParseNatToString | src/modules/posts/AddNewPost.tsx:162 | Reading the numeral back gives the number. |
| Seqs.Distinct | src/modules/posts/post-list/post-list-entry-page.tsx:92-93 | `[...new Set(xs)]`: no duplicates, same elements. |
| Seqs.RemoveAll | src/modules/posts/AddNewPost.tsx:147 | `filter(y => y !== x)`: no copy of `x` left, every other element kept as often as before, in order (an order-preserving subsequence). |
| Seqs.RemoveAllIdempotent | src/modules/posts/add-post/add-new-post.tsx:98-101 | Filtering the same value twice is filtering once. |
| Seqs.RemoveAbsent | src/modules/posts/add-post/add-new-post.tsx:98-101 | Filtering out an absent value changes nothing. |
| Seqs.RemoveAllKeepsNoDup | src/modules/posts/AddNewPost.tsx:144-149 | Filtering keeps a duplicate-free list duplicate-free. |
| Seqs.Reverse | src/modules/posts/post-list/post-list-entry-page.tsx:107-110 | The reverse of a list: same length, element `i` is element `n - 1 - i`; `ReversePermutes` and `ReverseConcat` state it permutes and distributes over concatenation. |
| Seqs.ReversePermutes | src/modules/posts/post-list/post-list-entry-page.tsx:107-110 | Reversing keeps every element with its multiplicity. |
| Seqs.SubseqBounds | src/modules/posts/post-list/post-list-entry-page.tsx:157 | A subsequence is no longer than the list, and its elements come from the list. |
| StableSort.SortBy | src/modules/posts/post-list/post-list-entry-page.tsx:106-115 | The stable sort `toSorted` performs (and `.sort` at src/modules/posts/PostsPage.tsx:100): same length; `SortByPermutes`, `SortBySorted`, `SortByStable` and `SortByUnique` state what it computes. |
| StableSort.SortByPermutes | src/modules/posts/post-list/post-list-entry-page.tsx:106 | The sorted list is a permutation of its input. |
| StableSort.SortBySorted | src/modules/posts/post-list/post-list-entry-page.tsx:106-115 | For a total-preorder comparator the result is ordered. |
| StableSort.SortByStable | src/modules/posts/post-list/post-list-entry-page.tsx:106-115 | Stability: each run of tied elements keeps its input order. |
| StableSort.SortBySortedIsIdentity | src/modules/posts/post-list/post-list-entry-page.tsx:114 | An already ordered list is unchanged, e.g. under the all-ties comparator. |
| StableSort.SortByIdempotent | src/modules/posts/post-list/post-list-entry-page.tsx:106-115 | Sorting the sorted list again changes nothing. |
| StableSort.SortedPermutationUnique | src/modules/posts/post-list/post-list-entry-page.tsx:106-115 | Two lists sorted by the same total preorder, holding the same elements with the same multiplicities and listing every run of tied elements in the same order, are equal. |
| StableSort.SortByUnique | src/modules/posts/post-list/post-list-entry-page.tsx:106-115 | Any list that is sorted, a permutation of the input and stable with respect to it is the insertion-sort result: every stable sort engine agrees with this model. |
| StableSort.TiedWithReverse | src/modules/posts/post-list/post-list-entry-page.tsx:107-110 | Reversing a list reverses each of its runs of tied elements. |
| StableSort.SortByConverse | src/modules/posts/post-list/post-list-entry-page.tsx:107-110 | Sorting by the converse comparator gives the reverse of the sorted list when no two distinct elements tie. |
| StableSort.InsertLastSplit | src/modules/posts/PostsPage.tsx:100 | One insertion puts the element right after the last element that does not strictly follow it. |
| StableSort.InsertAt | src/modules/posts/PostsPage.tsx:100 | One in-place insertion pass on the array equals the functional insertion, and the rest of the array is unchanged. |
| StableSort.SortInPlace | src/modules/posts/PostsPage.tsx:100-109 | The in-place `.sort` leaves the array holding the stable sorted sequence of its old contents. |
| PostQuery.MatchesSearch | src/modules/posts/post-list/post-list-entry-page.tsx:98-100 | The lowered title or the lowered excerpt includes the lowered search term. Its properties are stated through `FilterPosts` and `FilterClearedKeepsAll`. |
| PostQuery.Matches | src/modules/posts/post-list/post-list-entry-page.tsx:97-104 | The search matches and the category and author each equal the selection or the selection is `"all"`. `FilterPosts` keeps exactly the posts it holds for. |
| PostQuery.FilterPosts | src/modules/posts/post-list/post-list-entry-page.tsx:96-105 | A post passes iff its lowered title or excerpt contains the lowered search term and the category and author match or are `"all"`. Each passing post is kept as often as it occurs, in order. |
| PostQuery.ParseSortKey | src/modules/posts/post-list/post-list-entry-page.tsx:106-115 | `newest`, `oldest` and `title` select their comparator, and any other string selects the all-ties fallback. `QueryUnknownKeyKeepsOrder` states what the fallback does. |
| PostQuery.Compare | src/modules/posts/post-list/post-list-entry-page.tsx:106-115 | The comparator: date difference for `newest` and `oldest`, `localeCompare` of the titles for `title`, `0` otherwise. `PostOrderIsTotalPreorder` and `QueryOrdered` state its meaning. |
| PostQuery.PostOrderIsTotalPreorder | src/modules/posts/post-list/post-list-entry-page.tsx:106-115 | With a consistent collation, each sort key's comparator is a total preorder. |
| PostQuery.Query | src/modules/posts/post-list/post-list-entry-page.tsx:96-115 | The displayed list: the filtered posts, stably sorted by the selected key. `QueryMembership`, `QueryOrdered`, `QueryStable`, `QueryUnknownKeyKeepsOrder` and `QuerySortIdempotent` state its properties. |
| PostQuery.QueryMembership | src/modules/posts/PostsPage.tsx:90-109 | The displayed list holds exactly the matching posts, as often as they occur, and is no longer than the input ("Showing N of M" has N <= M). |
| PostQuery.QueryOrdered | src/modules/posts/post-list/post-list-entry-page.tsx:106-115 | `newest` gives non-increasing dates, `oldest` non-decreasing dates, and `title` titles in collation order. |
| PostQuery.QueryNewestOldestReverse | src/modules/posts/post-list/post-list-entry-page.tsx:107-110 | When no two posts share a date, "oldest" shows exactly the reverse of "newest". |
| PostQuery.QueryStable | src/modules/posts/PostsPage.tsx:100-109 | Posts with equal keys keep their filtered order. |
| PostQuery.QueryUnknownKeyKeepsOrder | src/modules/posts/post-list/post-list-entry-page.tsx:114 | Any other sort key leaves the filtered order unchanged. |
| PostQuery.QuerySortIdempotent | src/modules/posts/post-list/post-list-entry-page.tsx:106 | Sorting the displayed list again by the same key changes nothing. |
| PostQuery.FilterClearedKeepsAll | src/modules/posts/post-list/post-list-entry-page.tsx:98-104 | With search `""` and both selections `"all"`, every post passes, in order. |
| PostQuery.QueryClearedShowsAll | src/modules/posts/PostsPage.tsx:255-259 | After clearing, the displayed list is a permutation of all posts. |
| PostQuery.CategoryColumn | src/modules/posts/post-list/post-list-entry-page.tsx:92 | `.map(post => post.category)`: one entry per post, entry `i` being post `i`'s category; so a string occurs iff some post has that category. |
| PostQuery.AuthorColumn | src/modules/posts/post-list/post-list-entry-page.tsx:93 | `.map(post => post.author)`: one entry per post, entry `i` being post `i`'s author; so a string occurs iff some post has that author. |
| PostQuery.Categories | src/modules/posts/post-list/post-list-entry-page.tsx:92 | Category options: no duplicates, and a string is an option iff some post has that category. |
| PostQuery.Authors | src/modules/posts/post-list/post-list-entry-page.tsx:93 | Author options: no duplicates, and a string is an option iff some post has that author. |
| PostQuery.AddPost | src/modules/posts/post-list/post-list-entry-page.tsx:117-124 | One post longer. The tail is the old list. The head has id `old length + 1`, today's date, the draft's image or the placeholder when it is empty, and the draft's text fields. |
| PostQuery.AddPostKeepsIdsWellFormed | src/modules/posts/PostsPage.tsx:119-126 | Ids that are distinct and within 1..length stay so after an add. |
| PostQuery.SeedIdsWellFormed | src/modules/posts/post-list/post-list-entry-page.tsx:18-83 | The seed has six posts with ids 1..6. |
| PostQuery.AddedPostNotDisplayed | src/modules/posts/post-list/post-list-entry-page.tsx:96 | As written, the post added to the seeded list is never in the displayed list, whatever the query. |
| PostQuery.AddedPostDisplayedFromPosts | src/modules/posts/post-list/post-list-entry-page.tsx:117-124 | Querying the updated `posts` shows the new post iff it matches, and always once the filters are cleared. |
| PostListEntry.PostListEntryPage.constructor | src/modules/posts/post-list/post-list-entry-page.tsx:86-90 | Initial state: search `""`, both selections `"all"`, sort `newest`, no posts. |
| PostListEntry.PostListEntryPage.CategoryOptions | src/modules/posts/post-list/post-list-entry-page.tsx:92 | The categories of the seed, each once. |
| PostListEntry.PostListEntryPage.AuthorOptions | src/modules/posts/post-list/post-list-entry-page.tsx:93 | The authors of the seed, each once. |
| PostListEntry.PostListEntryPage.FilteredPosts | src/modules/posts/post-list/post-list-entry-page.tsx:96-115 | Exactly the matching seed posts are displayed, no more than the seed holds. |
| PostListEntry.PostListEntryPage.FilteredFromPosts | src/modules/posts/post-list/post-list-entry-page.tsx:117-124 | The intended display from `posts`: exactly its matching posts. |
| PostListEntry.PostListEntryPage.Add | src/modules/posts/post-list/post-list-entry-page.tsx:117-125 | `posts` becomes `AddPost` of the old list. The displayed list is unchanged. In the display from `posts`, the new post shows iff it matches. |
| PostListEntry.PostListEntryPage.ClearFilters | src/modules/posts/post-list/post-list-entry-page.tsx:127-131 | Resets search and both selections, and only those. Afterwards every seed post is displayed. |
| PostListEntry.PostListEntryPage.SyncApiPosts | src/modules/posts/post-list/post-list-entry-page.tsx:133-135 | `posts` becomes the seed. |
| PostListEntry.SeededAddNotDisplayed | src/modules/posts/post-list/post-list-entry-page.tsx:96-124 | Once seeded, a post added through `add` is never displayed. |
| PostsPageModel.FromForm | src/modules/posts/PostsPage.tsx:120-121 | The dialog's record carries over its title, excerpt, author, category, image and read time. |
| PostsPageModel.PostsPage.constructor | src/modules/posts/PostsPage.tsx:79-83 | Initial state: search `""`, both selections `"all"`, sort `newest`, `posts` the seed. |
| PostsPageModel.PostsPage.FilteredPosts | src/modules/posts/PostsPage.tsx:90-109 | Sorts a fresh array holding the filtered seed, changing nothing else. The array ends as the query result. |
| PostsPageModel.PostsPage.HandleAddPost | src/modules/posts/PostsPage.tsx:119-127 | `posts` becomes `AddPost` of the old list and the dialog's post. |
| PostsPageModel.PostsPage.ClearFilters | src/modules/posts/PostsPage.tsx:255-259 | Resets search and both selections, and only those. |
| PostsPageModel.ShownPosts | src/modules/posts/PostsPage.tsx:90-109 | The displayed posts are exactly the matching seed posts, at most as many as the seed, and ordered by the selected key. |
| PostForm.Set | src/modules/posts/AddNewPost.tsx:127 | `{ ...prev, [field]: value }`: the named field takes the value, and every other field and the tags are unchanged. |
| PostForm.AddTag | src/modules/posts/AddNewPost.tsx:134-142 | A non-empty trimmed tag not yet present is appended and the input cleared. Otherwise nothing changes. |
| PostForm.TrimIdempotent | src/modules/posts/AddNewPost.tsx:135-138 | Trimming a trimmed tag changes nothing. |
| PostForm.AddTagKeepsTagsWellFormed | src/modules/posts/AddNewPost.tsx:134-142 | Tags stay duplicate-free, trimmed and non-empty. |
| PostForm.RemoveTag | src/modules/posts/AddNewPost.tsx:144-149 | Every copy of the tag is gone. Every other tag stays as often as before, in order. |
| PostForm.RemoveTagProperties | src/modules/posts/add-post/add-new-post.tsx:97-102 | Removal is idempotent, a no-op for an absent tag, and keeps the tags well formed. |
| PostForm.EstimateMinutes | src/modules/posts/AddNewPost.tsx:158-161 | The minutes are at least 1, and equal `ceil(pieces / 200)` of the trimmed content. |
| PostForm.EstimateCountsWords | src/modules/posts/add-post/add-new-post.tsx:72-76 | For non-blank content the minutes are `ceil(words / 200)`. |
| PostForm.EstimateReadTime | src/modules/posts/AddNewPost.tsx:158-163 | `${readTime} min read`. `EstimateReadTimeWellFormed` proves it never blank and its leading numeral the minute count. |
| PostForm.EstimateReadTimeWellFormed | src/modules/posts/AddNewPost.tsx:162 | The estimate is never blank, and its leading numeral reads back as the minutes. |
| AddNewPost.LengthRule | src/modules/posts/AddNewPost.tsx:56-60 | No error iff the trimmed text is non-blank and the untrimmed length reaches the minimum. "Required" for blank text, "too short" otherwise. |
| AddNewPost.FieldError | src/modules/posts/AddNewPost.tsx:53-86 | The rule each field is checked by: the three text rules, the author and category presence checks, the read-time blank check, nothing for the image. |
| AddNewPost.FormErrors | src/modules/posts/AddNewPost.tsx:53-86 | The `newErrors` record. `FormErrorsAt` and `FormErrorsPerField` prove each field's entry is exactly its rule's outcome, and `ValidIffRulesHold` when it is empty. |
| AddNewPost.FormErrorsAt | src/modules/posts/AddNewPost.tsx:53-86 | A field has an error iff its rule fails, and the error is that rule's message. |
| AddNewPost.FormErrorsPerField | src/modules/posts/AddNewPost.tsx:53-86 | At most one message per field: the entry for each field is exactly its rule's outcome. |
| AddNewPost.ValidIffRulesHold | src/modules/posts/AddNewPost.tsx:53-88 | No errors iff every rule holds. Title, excerpt and content must be non-blank when trimmed and at least 5, 20 and 100 characters long; author and category must be non-empty; read time must be non-blank. |
| AddNewPost.RequiredBeforeTooShort | src/modules/posts/AddNewPost.tsx:56-72 | A blank field always gets "required". "Too short" appears only for a non-blank field under its minimum. |
| AddNewPost.MinimumsCountUntrimmedLength | src/modules/posts/AddNewPost.tsx:58 | The minimum counts the untrimmed text: `"  ab  "` passes the title rule. |
| AddNewPost.TagsAndImageIgnored | src/modules/posts/AddNewPost.tsx:53-88 | Changing the tags or the image never changes the errors. |
| AddNewPost.ClearError | src/modules/posts/AddNewPost.tsx:129-131 | The keys are unchanged, the named field's message is `""` if present, and other messages are unchanged. |
| AddNewPost.CheckLength | src/modules/posts/AddNewPost.tsx:56-60 | One text check adds the rule's message for the field, or nothing. |
| AddNewPost.CheckRequired | src/modules/posts/AddNewPost.tsx:74-76 | One presence check adds the message when the value is missing, or nothing. |
| AddNewPost.CollectErrors | src/modules/posts/AddNewPost.tsx:53-86 | The six checks run in order build exactly `FormErrors`, and `ok` reports whether the record is empty. |
| AddNewPost.AddPostForm.constructor | src/modules/posts/AddNewPost.tsx:33-48 | Closed, no errors, empty form, empty tag input. |
| AddNewPost.AddPostForm.ValidateForm | src/modules/posts/AddNewPost.tsx:53-88 | Stores exactly the per-field errors, and returns true iff none was recorded. By `ValidIffRulesHold`, that is iff every rule holds. |
| AddNewPost.AddPostForm.HandleSubmit | src/modules/posts/AddNewPost.tsx:90-124 | A form with some error records its errors, submits nothing, and keeps its data and open flag. A form with no error is submitted as it was, then reset to empty, closed, and its errors cleared. |
| AddNewPost.AddPostForm.HandleInputChange | src/modules/posts/AddNewPost.tsx:126-132 | Only the named field changes, and only that field's error is blanked. |
| AddNewPost.AddPostForm.AddTagFromInput | src/modules/posts/AddNewPost.tsx:134-142 | Tags and input become `AddTag` of the old ones. Nothing else changes. |
| AddNewPost.AddPostForm.RemoveTagFromForm | src/modules/posts/AddNewPost.tsx:144-149 | Tags become `RemoveTag` of the old ones. Nothing else changes. |
| AddNewPost.AddPostForm.HandleContentChange | src/modules/posts/AddNewPost.tsx:166-172 | Content always set. Read time set to the estimate only for non-blank content. Errors of the fields set are blanked. |
| AddNewPost.AddPostForm.SetCurrentTag | src/modules/posts/AddNewPost.tsx:286 | The tag input takes the typed value. |
| AddNewPost.AddPostForm.SetOpen | src/modules/posts/AddNewPost.tsx:175 | Only the open flag changes. |
| AddNewPost.ContentChangeSatisfiesReadTimeRule | src/modules/posts/AddNewPost.tsx:166-172 | After a non-blank content change, the read-time rule holds. |
| SchemaPostForm.AcceptsIffBounds | src/modules/posts/add-post/add-new-post.tsx:19-34 | Accepted iff title is in [5,100], excerpt in [20,200], content in [100,10000], author, category and read time are non-empty, and the image is empty or a URL. |
| SchemaPostForm.Bounded | src/modules/posts/add-post/add-new-post.tsx:20-28 | A `min`/`max` rule: the minimum is checked first, both bounds inclusive. `AcceptsIffBounds` and `UpperBoundsInclusive` state its effect. |
| SchemaPostForm.FieldIssue | src/modules/posts/add-post/add-new-post.tsx:19-34 | The first issue the schema reports for each field, with the schema's bounds and messages. `NoIssueIffWithinBounds` proves no field has one iff every bound holds. |
| SchemaPostForm.NoIssueIffWithinBounds | src/modules/posts/add-post/add-new-post.tsx:19-34 | No field has an issue iff every length bound holds and the image is empty or a URL. |
| SchemaPostForm.SchemaErrors | src/modules/posts/add-post/add-new-post.tsx:19-34 | The per-field issues of one parse. `AcceptsIffBounds` proves it empty iff every bound holds. |
| SchemaPostForm.UpperBoundsInclusive | src/modules/posts/add-post/add-new-post.tsx:20 | A 100-character title passes, despite the "less than 100" message. |
| SchemaPostForm.SchemaAcceptsBlankTitle | src/modules/posts/add-post/add-new-post.tsx:20 | The schema does not trim: five spaces pass here, but the hand-written validator says "required". |
| SchemaPostForm.SchemaRejectsLongTitle | src/modules/posts/add-post/add-new-post.tsx:20 | A non-blank title over 100 characters fails here but passes the hand-written validator. |
| SchemaPostForm.PostDialog.constructor | src/modules/posts/add-post/add-new-post.tsx:44-61 | Closed, default values with no tags, empty tag input. |
| SchemaPostForm.PostDialog.HandleContentChange | src/modules/posts/add-post/add-new-post.tsx:79-85 | Content always set. Read time set to the estimate only for non-blank content. |
| SchemaPostForm.PostDialog.SetCurrentTag | src/modules/posts/add-post/add-new-post.tsx:253 | The tag input takes the typed value. |
| SchemaPostForm.PostDialog.AddTagFromInput | src/modules/posts/add-post/add-new-post.tsx:87-95 | Tags and input become `AddTag` of the old ones. Nothing else changes. |
| SchemaPostForm.PostDialog.RemoveTagFromForm | src/modules/posts/add-post/add-new-post.tsx:97-102 | Tags become `RemoveTag` of the old ones. Nothing else changes. |
| SchemaPostForm.PostDialog.Cancel | src/modules/posts/add-post/add-new-post.tsx:351 | Cancel closes the dialog and nothing else: the values and the tag input are those before. |
| SchemaPostForm.PostDialog.HandleOpenChange | src/modules/posts/add-post/add-new-post.tsx:127-133 | Sets the flag. Closing resets the values to the defaults and clears the tag input. Opening changes nothing else. |
| SchemaPostForm.PostDialog.Submit | src/modules/posts/add-post/add-new-post.tsx:111-125 | Rejected values are not submitted and nothing changes. Accepted ones are submitted as they were, then the values are reset, the dialog closed and the tag input cleared. |
| SchemaPostForm.ContentChangeSatisfiesReadTimeRule | src/modules/posts/add-post/add-new-post.tsx:79-85 | After a non-blank content change, the read-time rule holds. |
| Tasks.WithoutId | src/modules/context-training/ContextTraining.tsx:27-28 | Exactly the tasks with another id, as an order-preserving subsequence. |
| Tasks.Reduce | src/modules/context-training/ContextTraining.tsx:23-32 | `add` gives one more task, the old ones as the prefix and the new one last. `remove` keeps exactly the tasks with another id, in order. Any other action type gives `[]`. `RemoveKeepsOthers` adds the multiplicities. |
| Tasks.AddAppends | src/modules/context-training/ContextTraining.tsx:25-26 | `add`: one longer, old tasks in place, the task last. |
| Tasks.RemoveKeepsOthers | src/modules/context-training/Context1.tsx:37-38 | `remove`: each task with another id kept as often as before, in order, and none with the id left. |
| Tasks.RemoveAbsentId | src/modules/context-training/ContextTraining.tsx:27-28 | Removing an id no task has leaves the list equal. |
| Tasks.RemoveIdempotent | src/modules/context-training/Context1.tsx:37-38 | A second `remove` of the same id changes nothing. |
| Tasks.UnknownClears | src/modules/context-training/Context1.tsx:39-40 | Any other action type yields the empty list. |
| Uploads.AfterChange | src/modules/file-upload/file-upload.tsx:11-16 | One `onChange`: the list stays as it is when the batch would exceed five files, otherwise the batch goes in front. `AfterChangeBounded` and `ReplayBounded` state the cap. |
| Uploads.AfterChangeBounded | src/modules/file-upload/file-upload.tsx:11-16 | Within the cap the list stays within the cap. An accepted batch grows it by exactly its size, first in its own order, with the old files as the suffix. |
| Uploads.ReplayBounded | src/modules/file-upload/file-upload.tsx:4-16 | From the empty list, any series of changes leaves at most five files. |
| Uploads.FileUpload.constructor | src/modules/file-upload/file-upload.tsx:4 | No files. |
| Uploads.FileUpload.OnChange | src/modules/file-upload/file-upload.tsx:8-17 | Accepted iff the total stays within five. A rejected batch leaves `files` unchanged, and an accepted one is prepended. The cap invariant is kept. |

## Left out

- The JSX rendering, the presentation components and the router: they lay
  out the state and do not compute it.
- The setters passed to the filter controls (search, category, author,
  sort): each is plain assignment to the field.
- Date parsing and formatting (`new Date`, `toISOString`,
  `toLocaleDateString`). The date is an ordered day number and "today" a
  parameter. `getTime()` differences are day differences, whose signs agree.
- Unicode case mapping, full collation and encodings. Lowering is ASCII,
  and `localeCompare` is a parameter assumed to be a consistent total
  preorder.
- UTF-16 lengths. A Dafny string counts Unicode scalar values, while
  `.length` counts UTF-16 code units. Every length rule (the 5/20/100
  minimums, the 100/200/10000 maximums) therefore differs on characters
  outside the Basic Multilingual Plane: three emoji have length 6 in the
  browser and 3 here.
- Sorting engines. The stable insertion sort stands for `toSorted` and
  `.sort`. The engine's own algorithm is not modelled; `SortByUnique`
  proves that under a consistent comparator any stable sort gives the same
  list.
- The schema library's URL check. It is the parameter `isUrl`.
- The form library's error display state and other machinery. For the
  schema dialog only the values, the open flag, the tag input and the submit
  outcome are modelled.
- Id generation for tasks (`shortid`), the `add` input ref and the rendering
  of the task list.
- The simulated network delay, `isSubmitting`, `alert` and console logging.
  The submit is modelled as completing at once, and the returned
  `submitted`/`accepted` value stands for the callback and the alert.
- PostsPageModel.FromForm: the dialog's `content` and `tags` are not
  carried into `Post`. The page spreads them into `posts`, but nothing on
  the page reads them.
- PostListEntry.PostListEntryPage.Add: its caller, the page header, hands
  it the schema dialog's values, which also carry `content` and `tags`. The
  model's `Post` has neither, and the header itself is not part of this
  model.
- The other demo components (atomic, list and ref training, the second
  context demo, the resource types): no application logic.

## Findings

| source | as written | input that shows it | evidently intended | confidence | as-written member | corrected member |
|---|---|---|---|---|---|---|
| src/modules/posts/post-list/post-list-entry-page.tsx:96 (also src/modules/posts/PostsPage.tsx:90) | The displayed list is computed from the constant `blogPosts`, not from the `posts` state that `add`/`handleAddPost` update. | Start from the seeded list, with the filters cleared, and add any post. It gets id 7 and is not displayed. | The list is computed from `posts`, so a new post shows whenever it matches the filters. | not executed | PostQuery.AddedPostNotDisplayed | PostQuery.AddedPostDisplayedFromPosts |
