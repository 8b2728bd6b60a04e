/** The cache store: a key-value store keyed by username whose values are
    lists of repositories. The embedded database behind it is reduced to a map
    and to the faults its transactions may report. */
module Storage {
  import opened Wrappers
  import opened Types

  /** The store's contents, plus the fault (if any) that a read or a write
      transaction reports. A missing key is not a fault. */
  datatype Store = Store(
    entries: map<string, seq<Repo>>,
    readFault: Option<Error>,
    writeFault: Option<Error>
  )

  /** `GetUserRepos`: a fault is passed up; a missing key is a miss (no list,
      no error); otherwise the stored list. */
  function GetUserRepos(store: Store, username: string): (r: Result<Option<seq<Repo>>, Error>)
    ensures r.Failure? <==> store.readFault.Some?
    ensures r.Failure? ==> r.error == store.readFault.value
    ensures r.Success? && r.value.Some? ==>
              username in store.entries && r.value.value == store.entries[username]
    ensures r.Success? && r.value.None? ==> username !in store.entries
  {
    match store.readFault
    case Some(e) => Failure(e)
    case None =>
      if username in store.entries then Success(Some(store.entries[username])) else Success(None)
  }

  /** `SaveUserRepos`: store the list under the exact username, replacing any
      earlier entry, unless the write transaction fails. */
  function SaveUserRepos(store: Store, username: string, repos: seq<Repo>): (r: Result<Store, Error>)
    ensures r.Failure? <==> store.writeFault.Some?
    ensures r.Failure? ==> r.error == store.writeFault.value
    ensures r.Success? ==> r.value.entries.Keys == store.entries.Keys + {username}
  {
    match store.writeFault
    case Some(e) => Failure(e)
    case None => Success(store.(entries := store.entries[username := repos]))
  }

  /** Reading back a saved list gives exactly that list. */
  lemma SaveThenGet(store: Store, username: string, repos: seq<Repo>)
    requires SaveUserRepos(store, username, repos).Success?
    requires store.readFault.None?
    ensures GetUserRepos(SaveUserRepos(store, username, repos).value, username) == Success(Some(repos))
  {
  }

  /** Saving under one username leaves every other username's read unchanged. */
  lemma SaveLeavesOthers(store: Store, username: string, repos: seq<Repo>, other: string)
    requires SaveUserRepos(store, username, repos).Success?
    requires other != username
    ensures GetUserRepos(SaveUserRepos(store, username, repos).value, other) == GetUserRepos(store, other)
  {
  }
}
