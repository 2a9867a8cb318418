/**
 The watcher session (`startVaultWatcher` / `stopVaultWatcher`): the module
 variables `watcher` and `currentVault` as a state machine over abstract
 watcher handles.

 A handle is open from its creation until it is closed; filesystem events
 reach the indexer only through an open handle, and each one starts a full
 rebuild of the vault the handle was created for. Started rebuilds are
 recorded, in order, in `requests`; how they run is `Rebuild.Run`.
 */
module Watch {
  import opened Seqs

  datatype Session = Session(
    watcher: Option<nat>,          // the `watcher` variable
    currentVault: Option<string>,  // the `currentVault` variable
    open: set<nat>,                // handles created and not yet closed
    watched: map<nat, string>,     // the vault each handle was created for
    next: nat,                     // the next fresh handle
    requests: seq<string>)         // vaults of the rebuilds started so far

  /** Module load: no watcher, no vault. */
  const Initial: Session := Session(None, None, {}, map[], 0, [])

  /**
   The session invariant: the only open handle, if any, is `watcher`, it
   watches `currentVault`, and every handle created so far is below `next`.
   */
  predicate Valid(s: Session)
  {
    && (forall h :: h in s.open ==> s.watcher == Some(h))
    && (s.watcher.Some? ==>
          && s.watcher.value in s.open
          && s.watcher.value in s.watched
          && s.currentVault == Some(s.watched[s.watcher.value]))
    && (forall h :: h in s.watched ==> h < s.next)
    && s.open <= s.watched.Keys
  }

  /** The number of open handles. */
  function OpenCount(s: Session): nat
  {
    |s.open|
  }

  /** At most one watcher is ever open in a valid session. */
  lemma AtMostOneOpen(s: Session)
    requires Valid(s)
    ensures OpenCount(s) <= 1
    ensures OpenCount(s) == 1 <==> s.watcher.Some?
  {
    if s.watcher.Some? {
      assert s.open == {s.watcher.value};
    } else {
      assert s.open == {};
    }
  }

  lemma InitialValid()
    ensures Valid(Initial) && OpenCount(Initial) == 0
  {
  }

  /** Closes the open watcher, if any, and clears `watcher`. */
  function Close(s: Session): (r: Session)
    requires Valid(s)
    ensures Valid(r)
    ensures r.watcher == None && r.open == {}
    ensures r.currentVault == s.currentVault && r.requests == s.requests
    ensures r.watched == s.watched && r.next == s.next
  {
    match s.watcher
    case None => s
    case Some(w) =>
      assert s.open == {w};
      s.(watcher := None, open := s.open - {w})
  }

  /**
   `startVaultWatcher(vault)`: close any open watcher, record the vault,
   start one rebuild, and open a fresh watcher on the vault.
   */
  function Start(s: Session, vault: string): (r: Session)
    requires Valid(s)
    ensures Valid(r)
    ensures r.watcher.Some? && r.open == {r.watcher.value} && r.watched[r.watcher.value] == vault
    ensures r.watcher.value !in s.watched
    ensures r.currentVault == Some(vault)
    ensures r.requests == s.requests + [vault]
  {
    var c := Close(s);
    var h := c.next;
    Session(Some(h), Some(vault), {h}, c.watched[h := vault], h + 1, c.requests + [vault])
  }

  /** `stopVaultWatcher()`; `currentVault` keeps its value. */
  function Stop(s: Session): (r: Session)
    requires Valid(s)
    ensures Valid(r) && r.watcher == None && OpenCount(r) == 0
    ensures r.currentVault == s.currentVault && r.requests == s.requests
  {
    Close(s)
  }

  /** Stopping twice is the same as stopping once. */
  lemma StopIdempotent(s: Session)
    requires Valid(s)
    ensures Stop(Stop(s)) == Stop(s)
  {
  }

  /** An `add`, `change` or `unlink` event delivered by handle `h`. */
  function OnEvent(s: Session, h: nat): (r: Session)
    requires Valid(s)
    ensures Valid(r)
    ensures h in s.open ==> r == s.(requests := s.requests + [s.watched[h]])
    ensures h !in s.open ==> r == s
  {
    if h in s.open then s.(requests := s.requests + [s.watched[h]]) else s
  }

  /**
   After `startVaultWatcher(b)` no handle created before it is open, so no
   event from a previously watched vault starts a rebuild, while an event
   on the new watcher rebuilds `b`.
   */
  lemma StartSilencesOldWatchers(s: Session, b: string, h: nat)
    requires Valid(s)
    ensures var r := Start(s, b);
            && (h in s.watched ==> OnEvent(r, h) == r)
            && (r.watcher == Some(h) ==> OnEvent(r, h).requests == r.requests + [b])
  {
  }
}
