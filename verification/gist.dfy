/** `GistUpdater.update_gist` as a pure step over an abstract gist: read the
    gist, compare its first file with the new (title, content), and rewrite
    that file only when something differs. */
module Gist {
  import opened Wrappers

  /** A gist's files in order, each as (file name, content). */
  type Store = seq<(string, string)>

  /** Why an update failed. */
  datatype Cause = FetchFailed | NoFiles | EditFailed

  /** The single error kind the updater raises, whatever the cause. */
  datatype GitHubApiError = GitHubApiError(cause: Cause)

  /** How the remote service answers this call: whether reading the gist and
      editing it succeed. */
  datatype Remote = Remote(fetchOk: bool, editOk: bool)

  /** The outcome of one update: true when a write was performed, false when
      nothing needed changing; the gist afterwards; and the number of edit
      requests sent. */
  datatype Update = Update(outcome: Result<bool, GitHubApiError>, store: Store, writes: nat)

  /** Whether the gist's first file already has this name and content. */
  predicate UpToDate(store: Store, title: string, content: string) {
    store != [] && store[0] == (title, content)
  }

  /** One call of `update_gist(title, content)`. */
  function UpdateGist(store: Store, remote: Remote, title: string, content: string): (u: Update)
    ensures !remote.fetchOk ==> u == Update(Failure(GitHubApiError(FetchFailed)), store, 0)
    ensures remote.fetchOk && store == [] ==> u == Update(Failure(GitHubApiError(NoFiles)), store, 0)
    ensures u.outcome == Success(false) <==> remote.fetchOk && UpToDate(store, title, content)
    ensures u.outcome == Success(true) <==>
      remote.fetchOk && store != [] && !UpToDate(store, title, content) && remote.editOk
    ensures u.outcome == Success(true) ==> u.store == [(title, content)] + store[1..]
    ensures u.outcome != Success(true) ==> u.store == store
    ensures u.writes == (if remote.fetchOk && store != [] && !UpToDate(store, title, content) then 1 else 0)
    ensures |u.store| == |store|
    ensures forall i :: 1 <= i < |store| ==> u.store[i] == store[i]
    ensures u.outcome.Success? ==> UpToDate(u.store, title, content)
  {
    if !remote.fetchOk then Update(Failure(GitHubApiError(FetchFailed)), store, 0)
    else if store == [] then Update(Failure(GitHubApiError(NoFiles)), store, 0)
    else if store[0].1 == content && store[0].0 == title then Update(Success(false), store, 0)
    else if remote.editOk then Update(Success(true), [(title, content)] + store[1..], 1)
    else Update(Failure(GitHubApiError(EditFailed)), store, 1)
  }

  /** Idempotence: once an update has succeeded, the same call again reports
      no change, sends no edit and leaves the gist as it is. */
  lemma UpdateIdempotent(store: Store, first: Remote, second: Remote, title: string, content: string)
    requires UpdateGist(store, first, title, content).outcome.Success?
    requires second.fetchOk
    ensures var s := UpdateGist(store, first, title, content).store;
      UpdateGist(s, second, title, content) == Update(Success(false), s, 0)
  {
  }
}
