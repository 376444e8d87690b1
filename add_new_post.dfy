/** The post-creation dialog with the hand-written validator: per-field
    errors ("required" before "too short"), the submit guard and reset, the
    change handler that clears a field's error, the tag editing and the
    read-time estimate filled in from the content. */
module AddNewPost {
  import opened Text
  import opened PostForm

  const TitleRequired := "Title is required"
  const TitleTooShort := "Title must be at least 5 characters"
  const ExcerptRequired := "Excerpt is required"
  const ExcerptTooShort := "Excerpt must be at least 20 characters"
  const ContentRequired := "Content is required"
  const ContentTooShort := "Content must be at least 100 characters"
  const AuthorRequired := "Author is required"
  const CategoryRequired := "Category is required"
  const ReadTimeRequired := "Read time is required"

  /** A text rule: blank after trimming is "required"; otherwise the
      untrimmed length must reach `min`. */
  function LengthRule(value: string, min: nat, required: string, tooShort: string): (r: Option<string>)
    ensures r == None <==> Trim(value) != "" && |value| >= min
    ensures Trim(value) == "" ==> r == Some(required)
    ensures Trim(value) != "" && |value| < min ==> r == Some(tooShort)
  {
    if Trim(value) == "" then Some(required)
    else if |value| < min then Some(tooShort)
    else None
  }

  /** The error `validateForm` records for one field, if any. */
  function FieldError(d: BlogPost, f: Field): Option<string> {
    match f
    case Title => LengthRule(d.title, 5, TitleRequired, TitleTooShort)
    case Excerpt => LengthRule(d.excerpt, 20, ExcerptRequired, ExcerptTooShort)
    case Content => LengthRule(d.content, 100, ContentRequired, ContentTooShort)
    case Author => if d.author == "" then Some(AuthorRequired) else None
    case Category => if d.category == "" then Some(CategoryRequired) else None
    case ReadTime => if Trim(d.readTime) == "" then Some(ReadTimeRequired) else None
    case Image => None
  }

  function Record(errors: map<Field, string>, f: Field, e: Option<string>): map<Field, string> {
    if e.Some? then errors[f := e.value] else errors
  }

  /** The error record built from the six outcomes, in the order the
      validator checks the fields. */
  function Chain(e1: Option<string>, e2: Option<string>, e3: Option<string>,
                 e4: Option<string>, e5: Option<string>, e6: Option<string>): map<Field, string> {
    Record(Record(Record(Record(Record(Record(map[], Title, e1), Excerpt, e2), Content, e3), Author, e4), Category, e5), ReadTime, e6)
  }

  function Pick(f: Field, e1: Option<string>, e2: Option<string>, e3: Option<string>,
                e4: Option<string>, e5: Option<string>, e6: Option<string>): Option<string> {
    match f
    case Title => e1
    case Excerpt => e2
    case Content => e3
    case Author => e4
    case Category => e5
    case ReadTime => e6
    case Image => None
  }

  lemma ChainAt(f: Field, e1: Option<string>, e2: Option<string>, e3: Option<string>,
                e4: Option<string>, e5: Option<string>, e6: Option<string>)
    ensures var m := Chain(e1, e2, e3, e4, e5, e6);
      && (f in m <==> Pick(f, e1, e2, e3, e4, e5, e6).Some?)
      && (f in m ==> m[f] == Pick(f, e1, e2, e3, e4, e5, e6).value)
  {
  }

  /** The `newErrors` record `validateForm` builds. */
  function FormErrors(d: BlogPost): map<Field, string> {
    Chain(FieldError(d, Title), FieldError(d, Excerpt), FieldError(d, Content),
          FieldError(d, Author), FieldError(d, Category), FieldError(d, ReadTime))
  }

  /** Each field's error spelled out, one field at a time. */
  lemma FieldErrorsUnfold(d: BlogPost)
    ensures FieldError(d, Title) == LengthRule(d.title, 5, TitleRequired, TitleTooShort)
    ensures FieldError(d, Excerpt) == LengthRule(d.excerpt, 20, ExcerptRequired, ExcerptTooShort)
    ensures FieldError(d, Content) == LengthRule(d.content, 100, ContentRequired, ContentTooShort)
    ensures FieldError(d, Author) == if d.author == "" then Some(AuthorRequired) else None
    ensures FieldError(d, Category) == if d.category == "" then Some(CategoryRequired) else None
    ensures FieldError(d, ReadTime) == if Trim(d.readTime) == "" then Some(ReadTimeRequired) else None
  {
  }

  lemma {:induction false} FormErrorsAt(d: BlogPost, f: Field)
    ensures f in FormErrors(d) <==> FieldError(d, f).Some?
    ensures f in FormErrors(d) ==> FormErrors(d)[f] == FieldError(d, f).value
  {
    var e1, e2, e3 := FieldError(d, Title), FieldError(d, Excerpt), FieldError(d, Content);
    var e4, e5, e6 := FieldError(d, Author), FieldError(d, Category), FieldError(d, ReadTime);
    ChainAt(f, e1, e2, e3, e4, e5, e6);
    assert Pick(f, e1, e2, e3, e4, e5, e6) == FieldError(d, f);
  }

  /** One entry per field with an error, holding that field's message; so
      each field gets at most one message. */
  lemma FormErrorsPerField(d: BlogPost)
    ensures forall f :: f in FormErrors(d) <==> FieldError(d, f).Some?
    ensures forall f :: f in FormErrors(d) ==> FormErrors(d)[f] == FieldError(d, f).value
  {
    forall f ensures (f in FormErrors(d) <==> FieldError(d, f).Some?)
      && (f in FormErrors(d) ==> FormErrors(d)[f] == FieldError(d, f).value)
    {
      FormErrorsAt(d, f);
    }
  }

  /** The form is valid exactly when every rule holds. */
  predicate RulesHold(d: BlogPost) {
    && Trim(d.title) != "" && |d.title| >= 5
    && Trim(d.excerpt) != "" && |d.excerpt| >= 20
    && Trim(d.content) != "" && |d.content| >= 100
    && d.author != ""
    && d.category != ""
    && Trim(d.readTime) != ""
  }

  lemma ValidIffRulesHold(d: BlogPost)
    ensures FormErrors(d) == map[] <==> RulesHold(d)
  {
    FormErrorsPerField(d);
    if FormErrors(d) == map[] {
      assert FieldError(d, Title) == None && FieldError(d, Excerpt) == None;
      assert FieldError(d, Content) == None && FieldError(d, Author) == None;
      assert FieldError(d, Category) == None && FieldError(d, ReadTime) == None;
    } else {
      var f :| f in FormErrors(d);
    }
  }

  /** "Required" wins over "too short": a blank field always gets the
      required message, and the too-short message appears only for a
      non-blank field under its minimum. */
  lemma RequiredBeforeTooShort(d: BlogPost)
    ensures Trim(d.title) == "" ==> Title in FormErrors(d) && FormErrors(d)[Title] == TitleRequired
    ensures Trim(d.excerpt) == "" ==> Excerpt in FormErrors(d) && FormErrors(d)[Excerpt] == ExcerptRequired
    ensures Trim(d.content) == "" ==> Content in FormErrors(d) && FormErrors(d)[Content] == ContentRequired
    ensures Title in FormErrors(d) && FormErrors(d)[Title] == TitleTooShort ==> Trim(d.title) != "" && |d.title| < 5
    ensures Excerpt in FormErrors(d) && FormErrors(d)[Excerpt] == ExcerptTooShort ==> Trim(d.excerpt) != "" && |d.excerpt| < 20
    ensures Content in FormErrors(d) && FormErrors(d)[Content] == ContentTooShort ==> Trim(d.content) != "" && |d.content| < 100
  {
    FormErrorsPerField(d);
  }

  /** The minimum lengths count the untrimmed text: padding with spaces can
      make a too-short title acceptable. */
  lemma MinimumsCountUntrimmedLength()
    ensures Title !in FormErrors(EmptyForm.(title := "  ab  "))
  {
    var d := EmptyForm.(title := "  ab  ");
    assert !IsSpace(d.title[2]);
    assert Trim(d.title) != "";
    FormErrorsPerField(d);
  }

  /** Tags and image never affect validation. */
  lemma TagsAndImageIgnored(d: BlogPost, tags: seq<string>, image: string)
    ensures FormErrors(d.(tags := tags, image := image)) == FormErrors(d)
  {
    var e := d.(tags := tags, image := image);
    assert forall f :: FieldError(e, f) == FieldError(d, f);
  }

  /** `handleInputChange`'s error update: a non-empty message on the field
      is replaced by "" (the key stays, but nothing shows). */
  function ClearError(errors: map<Field, string>, f: Field): (r: map<Field, string>)
    ensures r.Keys == errors.Keys
    ensures f in r ==> r[f] == ""
    ensures forall g :: g in r && g != f ==> r[g] == errors[g]
  {
    if f in errors && errors[f] != "" then errors[f := ""] else errors
  }

  /** One text-field check of `validateForm`: "required" when blank after
      trimming, else "too short" under the minimum. */
  method CheckLength(newErrors: map<Field, string>, f: Field, value: string, min: nat,
                     required: string, tooShort: string) returns (m: map<Field, string>)
    ensures m == Record(newErrors, f, LengthRule(value, min, required, tooShort))
  {
    m := newErrors;
    if Trim(value) == "" {
      m := m[f := required];
    } else if |value| < min {
      m := m[f := tooShort];
    }
  }

  /** One presence check of `validateForm`. */
  method CheckRequired(newErrors: map<Field, string>, f: Field, missing: bool, required: string)
    returns (m: map<Field, string>)
    ensures m == Record(newErrors, f, if missing then Some(required) else None)
  {
    m := newErrors;
    if missing {
      m := m[f := required];
    }
  }

  /** The body of `validateForm` that fills `newErrors`, one check per
      field in the order the source makes them. */
  method CollectErrors(d: BlogPost) returns (newErrors: map<Field, string>, ok: bool)
    ensures newErrors == FormErrors(d)
    ensures ok <==> newErrors == map[]
  {
    FieldErrorsUnfold(d);
    var m1 := CheckLength(map[], Title, d.title, 5, TitleRequired, TitleTooShort);
    assert m1 == Record(map[], Title, FieldError(d, Title));
    var m2 := CheckLength(m1, Excerpt, d.excerpt, 20, ExcerptRequired, ExcerptTooShort);
    assert m2 == Record(m1, Excerpt, FieldError(d, Excerpt));
    var m3 := CheckLength(m2, Content, d.content, 100, ContentRequired, ContentTooShort);
    assert m3 == Record(m2, Content, FieldError(d, Content));
    var m4 := CheckRequired(m3, Author, d.author == "", AuthorRequired);
    assert m4 == Record(m3, Author, FieldError(d, Author));
    var m5 := CheckRequired(m4, Category, d.category == "", CategoryRequired);
    assert m5 == Record(m4, Category, FieldError(d, Category));
    newErrors := CheckRequired(m5, ReadTime, Trim(d.readTime) == "", ReadTimeRequired);
    assert newErrors == Record(m5, ReadTime, FieldError(d, ReadTime));
    ok := newErrors == map[];
  }

  /** The dialog: open flag, recorded errors, field values and the tag input. */
  class AddPostForm {
    var isOpen: bool
    var errors: map<Field, string>
    var formData: BlogPost
    var currentTag: string

    constructor ()
      ensures !isOpen && errors == map[] && formData == EmptyForm && currentTag == ""
    {
      isOpen := false;
      errors := map[];
      formData := EmptyForm;
      currentTag := "";
    }

    /** `validateForm`: builds the error record, stores it and reports
        whether it is empty. */
    method ValidateForm() returns (ok: bool)
      modifies this`errors
      ensures errors == FormErrors(old(formData))
      ensures ok <==> errors == map[]
    {
      var newErrors;
      newErrors, ok := CollectErrors(formData);
      errors := newErrors;
    }

    /** `handleSubmit`: an invalid form records its errors and stays as it
        is; a valid one is handed to `onSubmit` (returned here), then the form
        is reset, the dialog closed and the errors cleared. */
    method HandleSubmit() returns (submitted: Option<BlogPost>)
      modifies this`errors, this`formData, this`isOpen
      ensures FormErrors(old(formData)) != map[] ==>
        submitted == None && formData == old(formData) && isOpen == old(isOpen)
        && errors == FormErrors(old(formData))
      ensures FormErrors(old(formData)) == map[] ==>
        submitted == Some(old(formData)) && formData == EmptyForm && !isOpen && errors == map[]
    {
      var valid := ValidateForm();
      if !valid {
        return None;
      }
      submitted := Some(formData);
      formData := EmptyForm;
      isOpen := false;
      errors := map[];
    }

    /** `handleInputChange`: sets one field; a non-empty error on that field
        is replaced by "" (the key stays, but the message no longer shows). */
    method HandleInputChange(field: Field, value: string)
      modifies this`formData, this`errors
      ensures formData == Set(old(formData), field, value)
      ensures errors == ClearError(old(errors), field)
    {
      formData := Set(formData, field, value);
      if field in errors && errors[field] != "" {
        errors := errors[field := ""];
      }
    }

    /** `addTag` on the tag input. */
    method AddTagFromInput()
      modifies this`formData, this`currentTag
      ensures (formData.tags, currentTag) == AddTag(old(formData.tags), old(currentTag))
      ensures formData == old(formData).(tags := formData.tags)
    {
      var tag := Trim(currentTag);
      if tag != "" && tag !in formData.tags {
        formData := formData.(tags := formData.tags + [tag]);
        currentTag := "";
      }
    }

    method RemoveTagFromForm(tagToRemove: string)
      modifies this`formData
      ensures formData == old(formData).(tags := RemoveTag(old(formData.tags), tagToRemove))
    {
      formData := formData.(tags := RemoveTag(formData.tags, tagToRemove));
    }

    /** `handleContentChange`: the content always changes; the read time is
        re-estimated only when the content has some non-blank text. */
    method HandleContentChange(value: string)
      modifies this`formData, this`errors
      ensures formData == if Trim(value) != ""
        then Set(Set(old(formData), Content, value), ReadTime, EstimateReadTime(value))
        else Set(old(formData), Content, value)
      ensures errors == if Trim(value) != ""
        then ClearError(ClearError(old(errors), Content), ReadTime)
        else ClearError(old(errors), Content)
    {
      HandleInputChange(Content, value);
      if Trim(value) != "" {
        HandleInputChange(ReadTime, EstimateReadTime(value));
      }
    }

    method SetCurrentTag(value: string)
      modifies this`currentTag
      ensures currentTag == value
    {
      currentTag := value;
    }

    /** `onOpenChange={setIsOpen}`: only the open flag changes. */
    method SetOpen(open: bool)
      modifies this`isOpen
      ensures isOpen == open
    {
      isOpen := open;
    }
  }

  /** After a non-blank content change the read-time rule holds whatever the
      field held before. */
  lemma ContentChangeSatisfiesReadTimeRule(d: BlogPost, value: string)
    requires Trim(value) != ""
    ensures FieldError(Set(Set(d, Content, value), ReadTime, EstimateReadTime(value)), ReadTime) == None
  {
    EstimateReadTimeWellFormed(value);
  }
}
