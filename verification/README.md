# Blog client store and create-post form, in Dafny

This project models the two pieces of sequential logic in the blog
single-page application's front end:

- the **blog slice** of the client store (`frontend/src/store/slices/blogSlice.ts`):
  a state `BlogState { posts, currentPost, loading, error }` and its five
  reducers `fetchPostsStart`, `fetchPostsSuccess`, `fetchPostsFailure`,
  `setCurrentPost` and `clearCurrentPost`. Redux Toolkit writes each reducer
  as an in-place update of a draft; here each is a pure function from the
  old state to the new one, and `Run` dispatches a sequence of actions;
- the **create-post page** (`frontend/src/pages/CreatePost.tsx`): the
  `PostForm` being edited, the tag input box and the error line, and the
  handlers `handleChange`, `handleTagInputKeyPress`, `handleDeleteTag` and
  the synchronous part of `handleSubmit` (the sign-in guard and the shape of
  the request body).

Modules: `Wrappers` (an `Option` for the source's `T | null`), `BlogTypes`
(`User`, `Author`, `Post` from `frontend/src/types/blog.ts`; the local `Post`
interface in `blogSlice.ts` is the same record), `BlogSlice`, `Text`
(a model of `String.prototype.trim`) and `CreatePost`.

The main results:

- every reducer's effect and its frame: the set of fields it may change
  (`Changed(s, r)`);
- no state reachable from `initialState` has `loading` true and an `error`
  set (`ReachableStatesSatisfyInv`);
- after any action sequence, `posts` are exactly the payload of the last
  `fetchPostsSuccess` (or unchanged if there was none); `currentPost` is
  decided by the last selection action; `loading` and `error` are decided by
  the last fetch-lifecycle action;
- the home page's cycle (start, then one success or one failure) always
  ends with `loading` false;
- adding a tag appends the trimmed text only if it is absent, keeps the old
  tags in order as a prefix and keeps the list duplicate-free; deleting a
  tag removes every copy, keeps the other tags in order with their counts,
  and undoes an add; over any editing session from an empty page the tag
  list stays duplicate-free and holds only non-blank, trimmed tags;
- submitting refuses exactly when nobody is signed in, and otherwise sends
  the form with the user's `(id, username)` as author.

`fetchPostsFailure` stores whatever string it is given, including an empty
one (the home page passes `err.message`, which may be empty,
`frontend/src/pages/Home.tsx:28`), so `FetchPostsFailure` takes any string.
The slice's reducer also receives the actions of other slices (such as
`logout`, `frontend/src/components/Navbar.tsx:20`) and returns the state
unchanged for them; `Action.Other` stands for all of those.

## Model

| member | source | states |
|---|---|---|
| BlogSlice.FetchPostsStart | frontend/src/store/slices/blogSlice.ts:35-38 | loading becomes true and error null; only loading and error may change, so posts and currentPost are kept; the invariant holds afterwards |
| BlogSlice.FetchPostsSuccess | frontend/src/store/slices/blogSlice.ts:39-43 | posts become exactly the payload (full replacement, payload order); loading false and error null; currentPost is kept |
| BlogSlice.FetchPostsFailure | frontend/src/store/slices/blogSlice.ts:44-47 | loading false and error is the given message, from any state; posts and currentPost are kept |
| BlogSlice.SetCurrentPost | frontend/src/store/slices/blogSlice.ts:48-50 | currentPost becomes the given post and no other field changes |
| BlogSlice.ClearCurrentPost | frontend/src/store/slices/blogSlice.ts:51-53 | currentPost becomes null and no other field changes |
| BlogSlice.Reduce | frontend/src/store/slices/blogSlice.ts:34-54 | only a success action changes posts; only selection actions change currentPost; only fetch actions change loading and error; an action of another slice changes nothing; every fetch action establishes the invariant and every action preserves it |
| BlogSlice.ClearCurrentPostIdempotent | frontend/src/store/slices/blogSlice.ts:51-53 | clearing the selection twice equals clearing it once |
| BlogSlice.ClearAfterSetForgetsSelection | frontend/src/store/slices/blogSlice.ts:48-53 | set then clear leaves no selection and equals clearing alone |
| BlogSlice.RunAppend | frontend/src/store/slices/blogSlice.ts:34-54 | dispatching two action sequences one after the other equals dispatching their concatenation |
| BlogSlice.RunPreservesInv | frontend/src/store/slices/blogSlice.ts:35-53 | from a state where loading and error are not both set, no action sequence reaches one where they are |
| BlogSlice.ReachableStatesSatisfyInv | frontend/src/store/slices/blogSlice.ts:24-53 | every state reachable from initialState has error null whenever loading is true |
| BlogSlice.RunPostsLastSuccess | frontend/src/store/slices/blogSlice.ts:35-53 | after any sequence, posts are the payload of the last success action, or the starting posts if there was none |
| BlogSlice.RunCurrentPostLastSelection | frontend/src/store/slices/blogSlice.ts:48-53 | after any sequence, currentPost is the post of the last set action, null if the last selection action was a clear, or the starting one if there was none |
| BlogSlice.RunFetchStatusLastFetch | frontend/src/store/slices/blogSlice.ts:35-47 | after any sequence, loading is true exactly when the last fetch action was a start, and error is that action's message exactly when it was a failure (null otherwise); both are unchanged if there was no fetch action |
| BlogSlice.FetchCycleEndsIdle | frontend/src/pages/Home.tsx:23-29 | start followed by one success or one failure ends with loading false, the invariant, the selection kept, and either the fetched posts with no error or the old posts with the failure message |
| Text.TrimStart | frontend/src/pages/CreatePost.tsx:44 | the result is a suffix of the input, only white space was dropped, and it does not start with white space |
| Text.TrimEnd | frontend/src/pages/CreatePost.tsx:44 | the result is a prefix of the input, only white space was dropped, and it does not end with white space |
| Text.Trim | frontend/src/pages/CreatePost.tsx:44 | the result is a contiguous piece of the input with only white space outside it and none at its ends; it is empty exactly when the input is blank |
| Text.TrimBothEnds | frontend/src/pages/CreatePost.tsx:44 | dropping leading then trailing white space leaves a piece of the input that is empty exactly when the input is blank |
| Text.TrimIdempotent | frontend/src/pages/CreatePost.tsx:46-49 | trimming a trimmed string changes nothing |
| CreatePost.HandleChange | frontend/src/pages/CreatePost.tsx:36-41 | the named field takes the typed value; the other text fields and the tags keep theirs |
| CreatePost.SetTagInput | frontend/src/pages/CreatePost.tsx:143 | typing in the tag box changes only the tag input |
| CreatePost.AddTag | frontend/src/pages/CreatePost.tsx:46-50 | the new list holds the old tags plus the added one; an already present tag leaves the list unchanged; an absent one is appended at the end with the old tags as a prefix in their order; no duplicates before means none after |
| CreatePost.HandleTagInputKeyPress | frontend/src/pages/CreatePost.tsx:43-54 | a key other than Enter, or Enter on blank input, changes nothing; Enter on non-blank input adds the trimmed text (if absent) and clears the input; title, content, category and the error line are kept |
| CreatePost.RemoveAll | frontend/src/pages/CreatePost.tsx:59 | the deleted tag is gone; every other tag keeps exactly its number of occurrences |
| CreatePost.RemoveAllIsSubsequence | frontend/src/pages/CreatePost.tsx:59 | the surviving tags keep their relative order |
| CreatePost.RemoveAbsentIsIdentity | frontend/src/pages/CreatePost.tsx:59 | deleting a tag that is not present leaves the tags unchanged |
| CreatePost.RemoveAllKeepsNoDuplicates | frontend/src/pages/CreatePost.tsx:59 | deleting from a duplicate-free list leaves it duplicate-free |
| CreatePost.HandleDeleteTag | frontend/src/pages/CreatePost.tsx:56-61 | the tag is absent afterwards, the remaining tags are the others in their order, an absent tag changes nothing, and no other form field changes |
| CreatePost.RemoveAllUndoesAppend | frontend/src/pages/CreatePost.tsx:49-59 | deleting a tag from the list it was just appended to gives the list back |
| CreatePost.AddThenDeleteRestoresForm | frontend/src/pages/CreatePost.tsx:43-61 | Enter on a new non-blank tag followed by deleting that tag restores the original form |
| CreatePost.DeleteTagIdempotent | frontend/src/pages/CreatePost.tsx:56-61 | deleting the same tag twice equals deleting it once |
| CreatePost.AddTrimmedKeepsTagsWellFormed | frontend/src/pages/CreatePost.tsx:44-50 | adding the trimmed text of non-blank input to a duplicate-free list of non-blank trimmed tags keeps it so |
| CreatePost.RemoveKeepsTagsWellFormed | frontend/src/pages/CreatePost.tsx:56-60 | deleting a tag from a duplicate-free list of non-blank trimmed tags keeps it so |
| CreatePost.DispatchKeepsTagsWellFormed | frontend/src/pages/CreatePost.tsx:36-61 | each single field edit, tag typing, key press or chip deletion keeps the tag list duplicate-free with only non-blank, trimmed tags |
| CreatePost.ReplayKeepsTagsWellFormed | frontend/src/pages/CreatePost.tsx:36-61 | any sequence of field edits, tag typing, key presses and chip deletions keeps the tag list duplicate-free with only non-blank, trimmed tags |
| CreatePost.SessionTagsWellFormed | frontend/src/pages/CreatePost.tsx:27-61 | from the page's initial state the tag list is always duplicate-free with only non-blank, trimmed tags |
| CreatePost.HandleSubmit | frontend/src/pages/CreatePost.tsx:63-79 | submission is refused exactly when there is no user, with the sign-in message; otherwise the error line is cleared and the body is the unchanged form with author id and username taken from the user; the form is never changed |

## Left out

- The auth slice (`login`, `logout`, the `isAuthenticated`/`user` agreement): its source file `frontend/src/store/slices/authSlice` is not among the modelled sources, so only its use by the pages is known.
- The request itself in `handleSubmit` (`api.post`, `navigate('/')`) and the conversion of a thrown value into an error message: network I/O and routing.
- The asynchronous fetch code of the pages (`await`, `Promise.all`, error-to-message conversion): only the order of the dispatched actions is captured, by `BlogSlice.FetchCycleEndsIdle`.
- Browser form behaviour around the handlers: `e.preventDefault()` in `handleTagInputKeyPress` (`frontend/src/pages/CreatePost.tsx:44-45`) is what keeps Enter from submitting the enclosing form, and it is only called on non-blank input, so Enter on a blank tag input submits the form (`frontend/src/pages/CreatePost.tsx:103`, `160-167`); the `required` title, content and category inputs (`frontend/src/pages/CreatePost.tsx:106`, `117`, `129`) mean the browser never calls `handleSubmit` while one of them is empty. Both are browser behaviour outside `FormEvent` and `HandleSubmit`: `HandleTagInputKeyPress` states what the handler does, not what the whole page does on that key press, and `HandleSubmit` accepts forms with empty fields.
- React's batching and closure capture of `formData`: each handler is modelled as one atomic update of the page state it sees.
- CreatePost.HandleChange: modelled over the three inputs wired to it (`title`, `content`, `category`); an arbitrary `name` would add an extra key to the JavaScript object, which the typed form does not have.
- Text.Trim: JavaScript strings are UTF-16; the white space set is modelled on code points, which agrees because every white space code point is in the Basic Multilingual Plane.
- Identifiers: JavaScript numbers are modelled as unbounded integers; ids are never computed on, only copied.
- All Java backend code, the entity mapper and DTOs, and the rendering and routing of the pages: HTTP handlers over repositories, field-by-field copies and UI layout.
