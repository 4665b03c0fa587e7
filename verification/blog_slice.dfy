/** The blog slice of the client store: the list of loaded posts, an
    optional selected post, and the loading flag and error message of the
    post-list fetch. Each reducer is a total, synchronous update, written
    here as a pure function from the old state to the new one. */
module BlogSlice {

  import opened Wrappers
  import opened BlogTypes

  datatype BlogState = BlogState(
    posts: seq<Post>,
    currentPost: Option<Post>,
    loading: bool,
    error: Option<string>)

  /** The state the slice is created with. */
  const InitialState: BlogState := BlogState([], None, false, None)

  /** The slice's action vocabulary: one constructor per reducer, and
      `Other` for the actions of other slices, which the store also hands
      to this reducer. */
  datatype Action =
    | FetchStart
    | FetchSuccess(posts: seq<Post>)
    | FetchFailure(message: string)
    | SetCurrent(post: Post)
    | ClearCurrent
    | Other

  /** The fields of a state, used to state what a transition may touch. */
  datatype Field = Posts | CurrentPost | Loading | Error

  /** The fields on which `s` and `r` differ. */
  function Changed(s: BlogState, r: BlogState): set<Field> {
    (if s.posts != r.posts then {Posts} else {})
    + (if s.currentPost != r.currentPost then {CurrentPost} else {})
    + (if s.loading != r.loading then {Loading} else {})
    + (if s.error != r.error then {Error} else {})
  }

  /** The steady-state invariant: a fetch in flight has no error recorded. */
  predicate Inv(s: BlogState) {
    !(s.loading && s.error.Some?)
  }

  // ---------------------------------------------------------------------
  // The five reducers

  function FetchPostsStart(s: BlogState): (r: BlogState)
    ensures r.loading && r.error == None
    ensures Changed(s, r) <= {Loading, Error}
    ensures Inv(r)
  {
    s.(loading := true, error := None)
  }

  function FetchPostsSuccess(s: BlogState, posts: seq<Post>): (r: BlogState)
    ensures r.posts == posts
    ensures !r.loading && r.error == None
    ensures Changed(s, r) <= {Posts, Loading, Error}
    ensures Inv(r)
  {
    s.(loading := false, posts := posts, error := None)
  }

  function FetchPostsFailure(s: BlogState, message: string): (r: BlogState)
    ensures !r.loading && r.error == Some(message)
    ensures Changed(s, r) <= {Loading, Error}
    ensures Inv(r)
  {
    s.(loading := false, error := Some(message))
  }

  function SetCurrentPost(s: BlogState, post: Post): (r: BlogState)
    ensures r.currentPost == Some(post)
    ensures Changed(s, r) <= {CurrentPost}
    ensures Inv(s) <==> Inv(r)
  {
    s.(currentPost := Some(post))
  }

  function ClearCurrentPost(s: BlogState): (r: BlogState)
    ensures r.currentPost == None
    ensures Changed(s, r) <= {CurrentPost}
    ensures Inv(s) <==> Inv(r)
  {
    s.(currentPost := None)
  }

  /** The slice's reducer: dispatch an action to its case reducer. */
  function Reduce(s: BlogState, a: Action): (r: BlogState)
    ensures !WritesPosts(a) ==> r.posts == s.posts
    ensures !WritesCurrentPost(a) ==> r.currentPost == s.currentPost
    ensures !IsFetchLifecycle(a) ==> r.loading == s.loading && r.error == s.error
    ensures IsFetchLifecycle(a) ==> Inv(r)
    ensures Inv(s) ==> Inv(r)
    ensures a.Other? ==> r == s
  {
    match a
    case FetchStart => FetchPostsStart(s)
    case FetchSuccess(posts) => FetchPostsSuccess(s, posts)
    case FetchFailure(message) => FetchPostsFailure(s, message)
    case SetCurrent(post) => SetCurrentPost(s, post)
    case ClearCurrent => ClearCurrentPost(s)
    case Other => s
  }

  /** The state after dispatching `actions` in order, starting from `s`. */
  function Run(s: BlogState, actions: seq<Action>): BlogState
    decreases |actions|
  {
    if |actions| == 0 then s
    else Reduce(Run(s, actions[..|actions| - 1]), actions[|actions| - 1])
  }

  // ---------------------------------------------------------------------
  // Single-step properties

  /** Clearing the selection twice is the same as clearing it once. */
  lemma ClearCurrentPostIdempotent(s: BlogState)
    ensures ClearCurrentPost(ClearCurrentPost(s)) == ClearCurrentPost(s)
  {
  }

  /** Clearing after a selection forgets the selection entirely. */
  lemma ClearAfterSetForgetsSelection(s: BlogState, p: Post)
    ensures ClearCurrentPost(SetCurrentPost(s, p)) == ClearCurrentPost(s)
    ensures ClearCurrentPost(SetCurrentPost(s, p)).currentPost == None
  {
  }

  // ---------------------------------------------------------------------
  // Action sequences

  /** Which actions write which part of the state. */
  predicate WritesPosts(a: Action) { a.FetchSuccess? }
  predicate WritesCurrentPost(a: Action) { a.SetCurrent? || a.ClearCurrent? }
  predicate IsFetchLifecycle(a: Action) { a.FetchStart? || a.FetchSuccess? || a.FetchFailure? }

  /** No action of `actions` is of the given kind. */
  ghost predicate NoneOfKind(actions: seq<Action>, kind: Action -> bool) {
    forall j | 0 <= j < |actions| :: !kind(actions[j])
  }

  /** `actions[i]` is the last action of the given kind. */
  ghost predicate LastOfKind(actions: seq<Action>, i: int, kind: Action -> bool) {
    && 0 <= i < |actions|
    && kind(actions[i])
    && forall j | i < j < |actions| :: !kind(actions[j])
  }

  /** Dispatching `a` and then `b` is dispatching their concatenation. */
  lemma {:induction false} RunAppend(s: BlogState, a: seq<Action>, b: seq<Action>)
    ensures Run(s, a + b) == Run(Run(s, a), b)
    decreases |b|
  {
    if |b| == 0 {
      assert a + b == a;
    } else {
      var n := |b| - 1;
      assert (a + b)[..|a + b| - 1] == a + b[..n];
      assert (a + b)[|a + b| - 1] == b[n];
      RunAppend(s, a, b[..n]);
    }
  }

  /** The invariant holds after any sequence of actions from a state where it holds. */
  lemma {:induction false} RunPreservesInv(s: BlogState, actions: seq<Action>)
    requires Inv(s)
    ensures Inv(Run(s, actions))
    decreases |actions|
  {
    if |actions| > 0 {
      RunPreservesInv(s, actions[..|actions| - 1]);
    }
  }

  /** No reachable state has the loading flag and an error set together. */
  lemma {:induction false} ReachableStatesSatisfyInv(actions: seq<Action>)
    ensures Inv(Run(InitialState, actions))
  {
    RunPreservesInv(InitialState, actions);
  }

  /** The posts are those of the last `fetchPostsSuccess`, or the starting
      ones when there was none: every other action leaves them alone, and a
      success replaces them wholesale, in the payload's order. */
  lemma {:induction false} RunPostsLastSuccess(s: BlogState, actions: seq<Action>)
    ensures NoneOfKind(actions, WritesPosts) ==> Run(s, actions).posts == s.posts
    ensures forall i | LastOfKind(actions, i, WritesPosts) ::
      Run(s, actions).posts == actions[i].posts
    decreases |actions|
  {
    if |actions| > 0 {
      var n := |actions| - 1;
      var pre := actions[..n];
      RunPostsLastSuccess(s, pre);
      assert forall j | 0 <= j < n :: pre[j] == actions[j];
      if WritesPosts(actions[n]) {
        forall i | LastOfKind(actions, i, WritesPosts)
          ensures Run(s, actions).posts == actions[i].posts
        {
          assert i == n;
        }
      } else {
        forall i | LastOfKind(actions, i, WritesPosts)
          ensures Run(s, actions).posts == actions[i].posts
        {
          assert LastOfKind(pre, i, WritesPosts);
        }
        if NoneOfKind(actions, WritesPosts) {
          assert NoneOfKind(pre, WritesPosts);
        }
      }
    }
  }

  /** The selected post is decided by the last `setCurrentPost` or
      `clearCurrentPost`, or is the starting one when there was none. */
  lemma {:induction false} RunCurrentPostLastSelection(s: BlogState, actions: seq<Action>)
    ensures NoneOfKind(actions, WritesCurrentPost) ==>
      Run(s, actions).currentPost == s.currentPost
    ensures forall i | LastOfKind(actions, i, WritesCurrentPost) ::
      Run(s, actions).currentPost ==
        (if actions[i].SetCurrent? then Some(actions[i].post) else None)
    decreases |actions|
  {
    if |actions| > 0 {
      var n := |actions| - 1;
      var pre := actions[..n];
      RunCurrentPostLastSelection(s, pre);
      assert forall j | 0 <= j < n :: pre[j] == actions[j];
      if WritesCurrentPost(actions[n]) {
        var r := Run(s, actions);
        assert r == Reduce(Run(s, pre), actions[n]);
        assert r.currentPost ==
          (if actions[n].SetCurrent? then Some(actions[n].post) else None);
        forall i | LastOfKind(actions, i, WritesCurrentPost)
          ensures Run(s, actions).currentPost ==
            (if actions[i].SetCurrent? then Some(actions[i].post) else None)
        {
          assert i == n;
        }
      } else {
        forall i | LastOfKind(actions, i, WritesCurrentPost)
          ensures Run(s, actions).currentPost ==
            (if actions[i].SetCurrent? then Some(actions[i].post) else None)
        {
          assert LastOfKind(pre, i, WritesCurrentPost);
        }
        if NoneOfKind(actions, WritesCurrentPost) {
          assert NoneOfKind(pre, WritesCurrentPost);
        }
      }
    }
  }

  /** The loading flag and the error are decided by the last fetch-lifecycle
      action: loading exactly when it was a start, an error exactly when it
      was a failure (carrying that failure's message). */
  lemma {:induction false} RunFetchStatusLastFetch(s: BlogState, actions: seq<Action>)
    ensures NoneOfKind(actions, IsFetchLifecycle) ==>
      Run(s, actions).loading == s.loading && Run(s, actions).error == s.error
    ensures forall i | LastOfKind(actions, i, IsFetchLifecycle) ::
      && Run(s, actions).loading == actions[i].FetchStart?
      && Run(s, actions).error ==
           (if actions[i].FetchFailure? then Some(actions[i].message) else None)
    decreases |actions|
  {
    if |actions| > 0 {
      var n := |actions| - 1;
      var pre := actions[..n];
      RunFetchStatusLastFetch(s, pre);
      assert forall j | 0 <= j < n :: pre[j] == actions[j];
      if IsFetchLifecycle(actions[n]) {
        forall i | LastOfKind(actions, i, IsFetchLifecycle)
          ensures Run(s, actions).loading == actions[i].FetchStart?
          ensures Run(s, actions).error ==
            (if actions[i].FetchFailure? then Some(actions[i].message) else None)
        {
          assert i == n;
        }
      } else {
        forall i | LastOfKind(actions, i, IsFetchLifecycle)
          ensures Run(s, actions).loading == actions[i].FetchStart?
          ensures Run(s, actions).error ==
            (if actions[i].FetchFailure? then Some(actions[i].message) else None)
        {
          assert LastOfKind(pre, i, IsFetchLifecycle);
        }
        if NoneOfKind(actions, IsFetchLifecycle) {
          assert NoneOfKind(pre, IsFetchLifecycle);
        }
      }
    }
  }

  // ---------------------------------------------------------------------
  // The home page's fetch cycle

  /** How the post-list request ended: with the list, or with a message. */
  datatype FetchOutcome = Fetched(posts: seq<Post>) | FetchFailed(message: string)

  /** The action the home page dispatches once the request has ended. */
  function CompletionAction(outcome: FetchOutcome): Action {
    match outcome
    case Fetched(posts) => FetchSuccess(posts)
    case FetchFailed(message) => FetchFailure(message)
  }

  /** A start followed by exactly one completion, from any state, never
      leaves the slice loading; success installs exactly the fetched list,
      failure keeps the old list and records the message; the selection
      is untouched either way. */
  lemma FetchCycleEndsIdle(s: BlogState, outcome: FetchOutcome)
    ensures var r := Run(s, [FetchStart, CompletionAction(outcome)]);
      && !r.loading
      && Inv(r)
      && r.currentPost == s.currentPost
      && (outcome.Fetched? ==> r.posts == outcome.posts && r.error == None)
      && (outcome.FetchFailed? ==> r.posts == s.posts && r.error == Some(outcome.message))
  {
    var actions := [FetchStart, CompletionAction(outcome)];
    assert actions[..1] == [FetchStart];
    assert [FetchStart][..0] == [];
  }
}
