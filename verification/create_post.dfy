/** The create-post page: the form being edited, the tag input box and the
    error line, and the handlers that change them. Each React state update
    is modelled as a pure function from the page state to the next one. */
module CreatePost {

  import opened Wrappers
  import opened BlogTypes
  import opened Text

  /** The fields of a post being written. */
  datatype PostForm = PostForm(title: string, content: string, category: string, tags: seq<string>)

  /** The page's local state: the form, the tag input box and the error line. */
  datatype Page = Page(form: PostForm, tagInput: string, error: string)

  const EmptyForm: PostForm := PostForm("", "", "", [])
  const InitialPage: Page := Page(EmptyForm, "", "")

  /** The key that adds a tag. */
  const EnterKey: string := "Enter"

  /** The message shown when nobody is signed in at submit time. */
  const LoginRequiredMessage: string := "You must be logged in to create a post"

  /** The text inputs wired to `handleChange`, by their `name` attribute. */
  datatype TextField = Title | Content | Category

  function FieldValue(form: PostForm, f: TextField): string {
    match f
    case Title => form.title
    case Content => form.content
    case Category => form.category
  }

  /** No tag occurs twice. */
  predicate NoDuplicates(tags: seq<string>) {
    forall i, j | 0 <= i < j < |tags| :: tags[i] != tags[j]
  }

  /** `a` is `b` with some elements dropped, the rest in the same order. */
  predicate IsSubsequence(a: seq<string>, b: seq<string>)
    decreases |b|
  {
    if |a| == 0 then true
    else if |b| == 0 then false
    else if a[0] == b[0] then IsSubsequence(a[1..], b[1..])
    else IsSubsequence(a, b[1..])
  }

  // ---------------------------------------------------------------------
  // handleChange

  /** Typing `value` into input `f` sets that field and nothing else. */
  function HandleChange(form: PostForm, f: TextField, value: string): (r: PostForm)
    ensures FieldValue(r, f) == value
    ensures forall g: TextField | g != f :: FieldValue(r, g) == FieldValue(form, g)
    ensures r.tags == form.tags
  {
    match f
    case Title => form.(title := value)
    case Content => form.(content := value)
    case Category => form.(category := value)
  }

  /** Typing into the tag box only replaces its text. */
  function SetTagInput(page: Page, value: string): (r: Page)
    ensures r.tagInput == value && r.form == page.form && r.error == page.error
  {
    page.(tagInput := value)
  }

  // ---------------------------------------------------------------------
  // Adding a tag

  /** Add `t` at the end of `tags` unless it is already there. The old tags
      stay in place as a prefix, `t` is the only possible newcomer, and a
      duplicate-free list stays duplicate-free. */
  function AddTag(tags: seq<string>, t: string): (r: seq<string>)
    ensures forall x :: x in r <==> x in tags || x == t
    ensures t in tags ==> r == tags
    ensures t !in tags ==> |r| == |tags| + 1 && r[|tags|] == t
    ensures r[..|tags|] == tags
    ensures NoDuplicates(tags) ==> NoDuplicates(r)
  {
    if t in tags then tags else tags + [t]
  }

  /** A key press in the tag box. Only Enter on non-blank input is handled:
      the trimmed text is added as a tag if absent, and the box is cleared
      either way. Any other key press changes nothing. */
  function HandleTagInputKeyPress(page: Page, key: string): (r: Page)
    ensures key != EnterKey || IsBlank(page.tagInput) ==> r == page
    ensures key == EnterKey && !IsBlank(page.tagInput) ==>
      && r.tagInput == ""
      && r.form.tags == AddTag(page.form.tags, Trim(page.tagInput))
    ensures r.form == page.form.(tags := r.form.tags) && r.error == page.error
  {
    var trimmed := Trim(page.tagInput);
    if key == EnterKey && trimmed != "" then
      page.(form := page.form.(tags := AddTag(page.form.tags, trimmed)), tagInput := "")
    else
      page
  }

  // ---------------------------------------------------------------------
  // Deleting a tag

  /** `tags` without any element equal to `t`: every other element keeps
      its number of occurrences. */
  function RemoveAll(tags: seq<string>, t: string): (r: seq<string>)
    ensures forall x :: x in r <==> x in tags && x != t
    ensures forall x :: multiset(r)[x] == if x == t then 0 else multiset(tags)[x]
    decreases |tags|
  {
    if |tags| == 0 then []
    else
      var rest := RemoveAll(tags[1..], t);
      assert tags == [tags[0]] + tags[1..];
      if tags[0] == t then rest else [tags[0]] + rest
  }

  /** Removing keeps the surviving tags in their original order. */
  lemma {:induction false} RemoveAllIsSubsequence(tags: seq<string>, t: string)
    ensures IsSubsequence(RemoveAll(tags, t), tags)
    decreases |tags|
  {
    if |tags| > 0 {
      RemoveAllIsSubsequence(tags[1..], t);
      var rest := RemoveAll(tags[1..], t);
      if tags[0] != t {
        assert ([tags[0]] + rest)[1..] == rest;
      } else if |rest| > 0 {
        assert rest[0] in rest && rest[0] != tags[0];
      }
    }
  }

  /** Removing a tag that is absent changes nothing. */
  lemma {:induction false} RemoveAbsentIsIdentity(tags: seq<string>, t: string)
    ensures t !in tags ==> RemoveAll(tags, t) == tags
    decreases |tags|
  {
    if |tags| > 0 && t !in tags {
      assert tags[0] != t;
      RemoveAbsentIsIdentity(tags[1..], t);
      assert tags == [tags[0]] + tags[1..];
    }
  }

  /** Removing from a duplicate-free list leaves it duplicate-free. */
  lemma {:induction false} RemoveAllKeepsNoDuplicates(tags: seq<string>, t: string)
    requires NoDuplicates(tags)
    ensures NoDuplicates(RemoveAll(tags, t))
    decreases |tags|
  {
    if |tags| > 0 {
      var tail := tags[1..];
      assert NoDuplicates(tail) by {
        forall i, j | 0 <= i < j < |tail| ensures tail[i] != tail[j] {
          assert tail[i] == tags[i + 1] && tail[j] == tags[j + 1];
        }
      }
      RemoveAllKeepsNoDuplicates(tail, t);
      var rest := RemoveAll(tail, t);
      if tags[0] != t {
        assert tags[0] !in tail by {
          forall j | 0 <= j < |tail| ensures tail[j] != tags[0] {
            assert tail[j] == tags[j + 1];
          }
        }
        assert tags[0] !in rest;
        var r := [tags[0]] + rest;
        forall i, j | 0 <= i < j < |r| ensures r[i] != r[j] {
          assert r[j] == rest[j - 1];
          if i > 0 {
            assert r[i] == rest[i - 1];
          }
        }
      }
    }
  }

  /** Deleting a tag's chip removes every copy of that tag and changes
      nothing else in the form. */
  function HandleDeleteTag(form: PostForm, t: string): (r: PostForm)
    ensures t !in r.tags
    ensures forall x :: x in r.tags <==> x in form.tags && x != t
    ensures IsSubsequence(r.tags, form.tags)
    ensures t !in form.tags ==> r == form
    ensures r.(tags := form.tags) == form
  {
    RemoveAllIsSubsequence(form.tags, t);
    RemoveAbsentIsIdentity(form.tags, t);
    form.(tags := RemoveAll(form.tags, t))
  }

  /** Removing `t` from `tags + [t]`, where `tags` lacks `t`, gives `tags` back. */
  lemma {:induction false} RemoveAllUndoesAppend(tags: seq<string>, t: string)
    requires t !in tags
    ensures RemoveAll(tags + [t], t) == tags
    decreases |tags|
  {
    if |tags| == 0 {
      assert [] + [t] == [t];
      assert [t][1..] == [];
    } else {
      var tail := tags[1..];
      RemoveAllUndoesAppend(tail, t);
      assert (tags + [t])[1..] == tail + [t];
      assert tags == [tags[0]] + tail;
    }
  }

  /** Deleting a tag just added with Enter restores the form it was added to. */
  lemma AddThenDeleteRestoresForm(page: Page)
    requires !IsBlank(page.tagInput)
    requires Trim(page.tagInput) !in page.form.tags
    ensures HandleDeleteTag(HandleTagInputKeyPress(page, EnterKey).form, Trim(page.tagInput))
      == page.form
  {
    RemoveAllUndoesAppend(page.form.tags, Trim(page.tagInput));
  }

  /** Deleting the same tag twice is the same as deleting it once. */
  lemma DeleteTagIdempotent(form: PostForm, t: string)
    ensures HandleDeleteTag(HandleDeleteTag(form, t), t) == HandleDeleteTag(form, t)
  {
  }

  // ---------------------------------------------------------------------
  // An editing session

  /** The user inputs the form handlers react to. */
  datatype FormEvent =
    | Typed(field: TextField, value: string)
    | TagTyped(text: string)
    | KeyPressed(key: string)
    | ChipDeleted(tag: string)

  function Dispatch(page: Page, e: FormEvent): Page {
    match e
    case Typed(f, v) => page.(form := HandleChange(page.form, f, v))
    case TagTyped(v) => SetTagInput(page, v)
    case KeyPressed(key) => HandleTagInputKeyPress(page, key)
    case ChipDeleted(t) => page.(form := HandleDeleteTag(page.form, t))
  }

  /** The page after handling `events` in order. */
  function Replay(page: Page, events: seq<FormEvent>): Page
    decreases |events|
  {
    if |events| == 0 then page
    else Dispatch(Replay(page, events[..|events| - 1]), events[|events| - 1])
  }

  /** The tag list never holds a tag twice, and every tag in it is
      non-blank and trimmed. */
  predicate TagsWellFormed(tags: seq<string>) {
    && NoDuplicates(tags)
    && forall i | 0 <= i < |tags| :: tags[i] != "" && Trim(tags[i]) == tags[i]
  }

  /** Adding the trimmed text of non-blank input keeps the list well formed. */
  lemma AddTrimmedKeepsTagsWellFormed(tags: seq<string>, input: string)
    requires TagsWellFormed(tags)
    requires !IsBlank(input)
    ensures TagsWellFormed(AddTag(tags, Trim(input)))
  {
    TrimIdempotent(input);
    var r := AddTag(tags, Trim(input));
    forall i | 0 <= i < |r| ensures r[i] != "" && Trim(r[i]) == r[i] {
      if i < |tags| {
        assert r[i] == tags[i];
      }
    }
  }

  /** Deleting a tag keeps the list well formed. */
  lemma RemoveKeepsTagsWellFormed(tags: seq<string>, d: string)
    requires TagsWellFormed(tags)
    ensures TagsWellFormed(RemoveAll(tags, d))
  {
    RemoveAllKeepsNoDuplicates(tags, d);
    var r := RemoveAll(tags, d);
    forall i | 0 <= i < |r| ensures r[i] != "" && Trim(r[i]) == r[i] {
      assert r[i] in tags;
    }
  }

  /** Every handled input keeps the tag list well formed. */
  lemma DispatchKeepsTagsWellFormed(page: Page, e: FormEvent)
    requires TagsWellFormed(page.form.tags)
    ensures TagsWellFormed(Dispatch(page, e).form.tags)
  {
    match e
    case Typed(f, v) =>
    case TagTyped(v) =>
    case KeyPressed(key) =>
      if key == EnterKey && !IsBlank(page.tagInput) {
        AddTrimmedKeepsTagsWellFormed(page.form.tags, page.tagInput);
      }
    case ChipDeleted(d) =>
      RemoveKeepsTagsWellFormed(page.form.tags, d);
  }

  /** However the user edits the form, the tag list stays well formed. */
  lemma {:induction false} ReplayKeepsTagsWellFormed(page: Page, events: seq<FormEvent>)
    requires TagsWellFormed(page.form.tags)
    ensures TagsWellFormed(Replay(page, events).form.tags)
    decreases |events|
  {
    if |events| > 0 {
      var n := |events| - 1;
      ReplayKeepsTagsWellFormed(page, events[..n]);
      DispatchKeepsTagsWellFormed(Replay(page, events[..n]), events[n]);
    }
  }

  /** From a fresh page, the tag list is always well formed. */
  lemma SessionTagsWellFormed(events: seq<FormEvent>)
    ensures TagsWellFormed(Replay(InitialPage, events).form.tags)
  {
    ReplayKeepsTagsWellFormed(InitialPage, events);
  }

  // ---------------------------------------------------------------------
  // Submitting

  /** The body of the create-post request: the form plus the author. */
  datatype NewPost = NewPost(
    title: string,
    content: string,
    category: string,
    tags: seq<string>,
    author: Author)

  /** The form a request body was built from. */
  function FormOf(p: NewPost): PostForm {
    PostForm(p.title, p.content, p.category, p.tags)
  }

  /** What pressing submit does before the request goes out: refuse with a
      message, or clear the error line and send a body. */
  datatype SubmitResult = Refused(page: Page) | Send(page: Page, body: NewPost)

  /** Submitting refuses exactly when nobody is signed in. Otherwise the
      error line is cleared and the body is the form with the user's
      (id, username) as author. The form itself is never changed. */
  function HandleSubmit(page: Page, user: Option<User>): (r: SubmitResult)
    ensures r.Refused? <==> user.None?
    ensures r.page.form == page.form && r.page.tagInput == page.tagInput
    ensures r.Refused? ==> r.page.error == LoginRequiredMessage
    ensures r.Send? ==>
      && r.page.error == ""
      && FormOf(r.body) == page.form
      && r.body.author.id == user.value.id
      && r.body.author.username == user.value.username
  {
    match user
    case None => Refused(page.(error := LoginRequiredMessage))
    case Some(u) =>
      var f := page.form;
      Send(page.(error := ""), NewPost(f.title, f.content, f.category, f.tags, AuthorOf(u)))
  }
}
