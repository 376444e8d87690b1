/** The schema-driven post-creation dialog: the length rules of its schema,
    the content handler that fills in the read time, the tag editing on the
    form values, and the two resets (closing the dialog, a successful
    submit). */
module SchemaPostForm {
  import opened Text
  import opened PostForm
  import AddNewPost

  /** A `z.string().min(lo, ...).max(hi, ...)` rule: the checks run in order
      and both bounds are inclusive. */
  function Bounded(value: string, lo: nat, hi: nat, tooShort: string, tooLong: string): Option<string> {
    if |value| < lo then Some(tooShort)
    else if |value| > hi then Some(tooLong)
    else None
  }

  /** The first issue the schema reports for a field, if any. `isUrl` stands
      for the URL check the schema library applies to a non-empty image. */
  function FieldIssue(d: BlogPost, f: Field, isUrl: string -> bool): Option<string> {
    match f
    case Title => Bounded(d.title, 5, 100, "Title must be at least 5 characters",
                          "Title must be less than 100 characters")
    case Excerpt => Bounded(d.excerpt, 20, 200, "Excerpt must be at least 20 characters",
                            "Excerpt must be less than 200 characters")
    case Content => Bounded(d.content, 100, 10000, "Content must be at least 100 characters",
                            "Content must be less than 10,000 characters")
    case Author => if |d.author| < 1 then Some("Author is required") else None
    case Category => if |d.category| < 1 then Some("Category is required") else None
    case ReadTime => if |d.readTime| < 1 then Some("Read time is required") else None
    case Image => if d.image == "" || isUrl(d.image) then None else Some("Please enter a valid URL")
  }

  const AllFields: set<Field> := {Title, Excerpt, Content, Author, Category, Image, ReadTime}

  lemma InAllFields(f: Field)
    ensures f in AllFields
  {
    match f
    case Title =>
    case Excerpt =>
    case Content =>
    case Author =>
    case Category =>
    case Image =>
    case ReadTime =>
  }

  /** The per-field issues of one parse; the schema accepts when there are
      none. */
  function SchemaErrors(d: BlogPost, isUrl: string -> bool): map<Field, string> {
    map f | f in AllFields && FieldIssue(d, f, isUrl).Some? :: FieldIssue(d, f, isUrl).value
  }

  predicate Accepts(d: BlogPost, isUrl: string -> bool) {
    SchemaErrors(d, isUrl) == map[]
  }

  /** The bounds every field must meet, one field at a time. */
  predicate WithinBounds(d: BlogPost, isUrl: string -> bool) {
    && 5 <= |d.title| <= 100
    && 20 <= |d.excerpt| <= 200
    && 100 <= |d.content| <= 10000
    && |d.author| >= 1 && |d.category| >= 1 && |d.readTime| >= 1
    && (d.image == "" || isUrl(d.image))
  }

  lemma NoIssueIffWithinBounds(d: BlogPost, isUrl: string -> bool)
    ensures (forall f :: FieldIssue(d, f, isUrl) == None) <==> WithinBounds(d, isUrl)
  {
    // name each field's issue, so that every one is unfolded
    var t, e, c := FieldIssue(d, Title, isUrl), FieldIssue(d, Excerpt, isUrl), FieldIssue(d, Content, isUrl);
    var a, g, r, i := FieldIssue(d, Author, isUrl), FieldIssue(d, Category, isUrl), FieldIssue(d, ReadTime, isUrl),
                      FieldIssue(d, Image, isUrl);
    assert t == None <==> 5 <= |d.title| <= 100;
    assert e == None <==> 20 <= |d.excerpt| <= 200;
    assert c == None <==> 100 <= |d.content| <= 10000;
    if WithinBounds(d, isUrl) {
      forall f ensures FieldIssue(d, f, isUrl) == None {
        match f
        case Title =>
        case Excerpt =>
        case Content =>
        case Author =>
        case Category =>
        case ReadTime =>
        case Image =>
      }
    }
  }

  /** The schema accepts exactly the forms whose lengths are within the
      bounds and whose image is empty or a URL; tags never matter. */
  lemma AcceptsIffBounds(d: BlogPost, isUrl: string -> bool)
    ensures Accepts(d, isUrl) <==>
      && 5 <= |d.title| <= 100
      && 20 <= |d.excerpt| <= 200
      && 100 <= |d.content| <= 10000
      && |d.author| >= 1 && |d.category| >= 1 && |d.readTime| >= 1
      && (d.image == "" || isUrl(d.image))
  {
    var m := SchemaErrors(d, isUrl);
    if m == map[] {
      forall f ensures FieldIssue(d, f, isUrl) == None {
        InAllFields(f);
        assert f !in m;
      }
    } else {
      var f :| f in m;
      assert FieldIssue(d, f, isUrl).Some?;
    }
    NoIssueIffWithinBounds(d, isUrl);
  }

  /** The upper bounds are inclusive, although their messages say "less
      than": a 100-character title passes. */
  lemma UpperBoundsInclusive(d: BlogPost, isUrl: string -> bool)
    requires |d.title| == 100
    ensures Title !in SchemaErrors(d, isUrl)
  {
  }

  /** Unlike the hand-written validator, the schema does not trim: a title
      of five spaces passes here and is "required" there. */
  lemma SchemaAcceptsBlankTitle(d: BlogPost, isUrl: string -> bool)
    requires d.title == "     "
    ensures Title !in SchemaErrors(d, isUrl)
    ensures Title in AddNewPost.FormErrors(d)
  {
    assert AllSpace(d.title) by {
      forall i | 0 <= i < |d.title| ensures IsSpace(d.title[i]) {
        assert d.title[i] == ' ';
      }
    }
    AddNewPost.FormErrorsAt(d, Title);
  }

  /** And the other way round: a non-blank title over 100 characters passes
      the hand-written validator but not the schema. */
  lemma SchemaRejectsLongTitle(d: BlogPost, isUrl: string -> bool)
    requires |d.title| > 100 && !AllSpace(d.title)
    ensures Title in SchemaErrors(d, isUrl)
    ensures Title !in AddNewPost.FormErrors(d)
  {
    assert FieldIssue(d, Title, isUrl).Some?;
    assert Trim(d.title) != "";
    assert AddNewPost.FieldError(d, Title) == None;
    AddNewPost.FormErrorsAt(d, Title);
  }

  /** The form's default values; `tags` defaults to the empty list. */
  const DefaultValues: BlogPost := EmptyForm

  /** The dialog: open flag, the form values and the tag input. */
  class PostDialog {
    var isOpen: bool
    var values: BlogPost
    var currentTag: string

    constructor ()
      ensures !isOpen && values == DefaultValues && currentTag == ""
    {
      isOpen := false;
      values := DefaultValues;
      currentTag := "";
    }

    /** `handleContentChange`: always sets the content; sets the read time to
        the estimate only when the content has some non-blank text. */
    method HandleContentChange(value: string)
      modifies this`values
      ensures values == if Trim(value) != ""
        then Set(Set(old(values), Content, value), ReadTime, EstimateReadTime(value))
        else Set(old(values), Content, value)
    {
      values := Set(values, Content, value);
      if Trim(value) != "" {
        var estimatedTime := EstimateReadTime(value);
        values := Set(values, ReadTime, estimatedTime);
      }
    }

    /** The tag input's change handler. */
    method SetCurrentTag(value: string)
      modifies this`currentTag
      ensures currentTag == value
    {
      currentTag := value;
    }

    /** `addTag`, on the form's `tags` value. */
    method AddTagFromInput()
      modifies this`values, this`currentTag
      ensures (values.tags, currentTag) == AddTag(old(values.tags), old(currentTag))
      ensures values == old(values).(tags := values.tags)
    {
      var tags := values.tags;
      var tag := Trim(currentTag);
      if tag != "" && tag !in tags {
        values := values.(tags := tags + [tag]);
        currentTag := "";
      }
    }

    /** `removeTag`, on the form's `tags` value. */
    method RemoveTagFromForm(tagToRemove: string)
      modifies this`values
      ensures values == old(values).(tags := RemoveTag(old(values.tags), tagToRemove))
    {
      values := values.(tags := RemoveTag(values.tags, tagToRemove));
    }

    /** `handleOpenChange`: closing the dialog resets the form and the tag
        input; opening only sets the flag. */
    method HandleOpenChange(open: bool)
      modifies this
      ensures isOpen == open
      ensures !open ==> values == DefaultValues && currentTag == ""
      ensures open ==> values == old(values) && currentTag == old(currentTag)
    {
      isOpen := open;
      if !open {
        values := DefaultValues;
        currentTag := "";
      }
    }

    /** The Cancel button sets the open flag directly, without going
        through `handleOpenChange`: the dialog closes but the typed values
        and the tag input stay as they were. */
    method Cancel()
      modifies this`isOpen
      ensures !isOpen
      ensures values == old(values) && currentTag == old(currentTag)
    {
      isOpen := false;
    }

    /** `handleSubmit(onFormSubmit)`: the values reach `onSubmit` (returned
        here) only when the schema accepts them; then the form is reset, the
        dialog closed and the tag input cleared. A rejected form keeps its
        state. */
    method Submit(isUrl: string -> bool) returns (submitted: Option<BlogPost>)
      modifies this
      ensures !Accepts(old(values), isUrl) ==>
        submitted == None && values == old(values) && isOpen == old(isOpen) && currentTag == old(currentTag)
      ensures Accepts(old(values), isUrl) ==>
        submitted == Some(old(values)) && values == DefaultValues && !isOpen && currentTag == ""
    {
      if SchemaErrors(values, isUrl) != map[] {
        return None;
      }
      submitted := Some(values);
      values := DefaultValues;
      isOpen := false;
      currentTag := "";
    }
  }

  /** After a non-blank content change the schema's read-time rule holds. */
  lemma ContentChangeSatisfiesReadTimeRule(d: BlogPost, value: string, isUrl: string -> bool)
    requires Trim(value) != ""
    ensures ReadTime !in SchemaErrors(Set(Set(d, Content, value), ReadTime, EstimateReadTime(value)), isUrl)
  {
    EstimateReadTimeWellFormed(value);
  }
}
