/** What the two post-creation dialogs share: the form record, the tag list
    editing behind the tag input, and the read-time estimate filled in while
    the content is typed. */
module PostForm {
  import opened Text
  import opened Seqs

  /** The fields of the post-creation form. */
  datatype BlogPost = BlogPost(
    title: string,
    excerpt: string,
    content: string,
    author: string,
    category: string,
    tags: seq<string>,
    image: string,
    readTime: string)

  /** The initial and reset value of the form: every text field empty and no
      tags. */
  const EmptyForm: BlogPost := BlogPost("", "", "", "", "", [], "", "")

  datatype Option<T> = None | Some(value: T)

  /** The text fields a change handler can name (every key but `tags`). */
  datatype Field = Title | Excerpt | Content | Author | Category | Image | ReadTime

  function Get(d: BlogPost, f: Field): string {
    match f
    case Title => d.title
    case Excerpt => d.excerpt
    case Content => d.content
    case Author => d.author
    case Category => d.category
    case Image => d.image
    case ReadTime => d.readTime
  }

  /** `{ ...prev, [field]: value }`. */
  function Set(d: BlogPost, f: Field, value: string): (r: BlogPost)
    ensures Get(r, f) == value
    ensures forall g :: g != f ==> Get(r, g) == Get(d, g)
    ensures r.tags == d.tags
  {
    match f
    case Title => d.(title := value)
    case Excerpt => d.(excerpt := value)
    case Content => d.(content := value)
    case Author => d.(author := value)
    case Category => d.(category := value)
    case Image => d.(image := value)
    case ReadTime => d.(readTime := value)
  }

  /** The tag list the form keeps: no duplicates, every tag trimmed and
      non-empty. */
  ghost predicate TagsWellFormed(tags: seq<string>) {
    NoDup(tags) && forall t :: t in tags ==> t != "" && Trim(t) == t
  }

  /** `addTag`: the trimmed tag is appended and the input cleared when it is
      non-empty and not yet present; otherwise nothing changes. */
  function AddTag(tags: seq<string>, currentTag: string): (r: (seq<string>, string))
    ensures Trim(currentTag) != "" && Trim(currentTag) !in tags ==>
      r.0 == tags + [Trim(currentTag)] && r.1 == ""
    ensures !(Trim(currentTag) != "" && Trim(currentTag) !in tags) ==> r == (tags, currentTag)
  {
    var tag := Trim(currentTag);
    if tag != "" && tag !in tags then (tags + [tag], "") else (tags, currentTag)
  }

  lemma TrimIdempotent(s: string)
    ensures Trim(Trim(s)) == Trim(s)
  {
    var t := Trim(s);
    if t != [] {
      assert TrimStart(t) == t;
      assert TrimEnd(t) == t;
    }
  }

  /** Adding a tag keeps the list duplicate-free, trimmed and non-empty. */
  lemma AddTagKeepsTagsWellFormed(tags: seq<string>, currentTag: string)
    requires TagsWellFormed(tags)
    ensures TagsWellFormed(AddTag(tags, currentTag).0)
  {
    var tag := Trim(currentTag);
    TrimIdempotent(currentTag);
    if tag != "" && tag !in tags {
      var r := tags + [tag];
      forall i, j | 0 <= i < j < |r| ensures r[i] != r[j] {
        if j == |tags| {
          assert r[i] in tags;
        }
      }
      forall t | t in r ensures t != "" && Trim(t) == t {
        if t != tag {
          assert t in tags;
        }
      }
    }
  }

  /** `removeTag`: `tags.filter(tag => tag !== tagToRemove)`. */
  function RemoveTag(tags: seq<string>, tagToRemove: string): (r: seq<string>)
    ensures tagToRemove !in r
    ensures forall t :: t in r <==> t in tags && t != tagToRemove
    ensures forall t :: t != tagToRemove ==> multiset(r)[t] == multiset(tags)[t]
    ensures IsSubseq(r, tags)
  {
    RemoveAll(tags, tagToRemove)
  }

  /** Removing is idempotent and keeps the list well formed. */
  lemma RemoveTagProperties(tags: seq<string>, tagToRemove: string)
    ensures RemoveTag(RemoveTag(tags, tagToRemove), tagToRemove) == RemoveTag(tags, tagToRemove)
    ensures tagToRemove !in tags ==> RemoveTag(tags, tagToRemove) == tags
    ensures TagsWellFormed(tags) ==> TagsWellFormed(RemoveTag(tags, tagToRemove))
  {
    RemoveAllIdempotent(tags, tagToRemove);
    if tagToRemove !in tags {
      RemoveAbsent(tags, tagToRemove);
    }
    if TagsWellFormed(tags) {
      RemoveAllKeepsNoDup(tags, tagToRemove);
    }
  }

  const WordsPerMinute: nat := 200

  /** `Math.ceil(content.trim().split(/\s+/).length / 200)`. */
  function EstimateMinutes(content: string): (n: nat)
    ensures n >= 1
    ensures (n - 1) * WordsPerMinute < SplitPieces(Trim(content)) <= n * WordsPerMinute
  {
    (SplitPieces(Trim(content)) + WordsPerMinute - 1) / WordsPerMinute
  }

  /** For content with some text the estimate is ceil(words / 200), counting
      the whitespace-separated words. */
  lemma EstimateCountsWords(content: string)
    requires Trim(content) != ""
    ensures var words := WordStarts(Trim(content));
      (EstimateMinutes(content) - 1) * WordsPerMinute < words <= EstimateMinutes(content) * WordsPerMinute
  {
    SplitPiecesCountsWords(content);
  }

  /** `${readTime} min read`. */
  function EstimateReadTime(content: string): string {
    NatToString(EstimateMinutes(content)) + " min read"
  }

  /** The estimate is never blank, so it satisfies the read-time rules of both
      forms, and its leading number is the minute count. */
  lemma EstimateReadTimeWellFormed(content: string)
    ensures var s := EstimateReadTime(content);
      && Trim(s) != ""
      && |s| >= 1
      && var digits := NatToString(EstimateMinutes(content));
         s[..|digits|] == digits && ParseNat(digits) == EstimateMinutes(content)
  {
    var s := EstimateReadTime(content);
    var digits := NatToString(EstimateMinutes(content));
    assert s[0] == digits[0];
    assert !IsSpace(s[0]);
    ParseNatToString(EstimateMinutes(content));
  }
}
