/**
 One rebuild (`buildAndPersistIndex`): prepare the store, scan the vault,
 build the index, run the store transaction, write the snapshot and
 publish the index to `updated` subscribers.

 The index is built as the code builds it (`BuildAsWritten`): a link target
 named after an `Object.prototype` member makes the build throw, and the
 rebuild rejects before anything is written. Whenever the build succeeds,
 its index is the corrected `Indexing.Build`.

 Everything the rebuild takes from outside (whether each I/O step throws,
 the directory listing, the parsers, the clock) is collected in `Env`.
 The snapshot file holds the index value itself and the `updated` event
 is recorded as the sequence of published indexes.
 */
module Rebuild {
  import opened Seqs
  import opened Vault
  import opened Indexing
  import opened Store
  import opened IndexAsWritten

  datatype Env = Env(
    dbReady: bool,                // `ensureDB()` returns normally
    listing: Option<seq<string>>, // `fs.readdir(vaultDir)`; None when it throws
    read: Reader,                 // `fs.readFile` followed by the front-matter parser
    extract: Extractor,           // `parseWikilinks`
    buildTime: string,            // clock reading stamped on the index
    rowTime: string,              // clock reading stamped on the `notes` rows
    txOk: bool,                   // opening the store and running the transaction succeed
    snapshotOk: bool)             // creating the index directory and writing the snapshot succeed

  /** What outlives a rebuild: the store, the snapshot file, the indexes published so far. */
  datatype Persisted = Persisted(db: Db, snapshot: Option<Index>, published: seq<Index>)

  /** How the promise returned by `buildAndPersistIndex` settles. */
  datatype Outcome = Built(idx: Index) | Rejected

  /** The index a rebuild computes from a successful listing. */
  function IndexOf(vault: string, names: seq<string>, env: Env): Index
  {
    Build(Scan(vault, names, env.read), env.buildTime, env.extract)
  }

  /** The build of a successful listing succeeds: no link target is an inherited member name. */
  predicate Buildable(vault: string, names: seq<string>, env: Env)
  {
    IndexOf(vault, names, env).backlinks.Keys !! InheritedMembers
  }

  function Run(vault: string, env: Env, p: Persisted): (r: (Outcome, Persisted))
    // store preparation, listing or build failure: nothing is written and the promise rejects
    ensures !env.dbReady || env.listing.None? ==> r == (Rejected, p)
    ensures env.dbReady && env.listing.Some? && !Buildable(vault, env.listing.value, env) ==> r == (Rejected, p)
    // the promise resolves exactly when the store was prepared, the vault listed, the index built and the snapshot written
    ensures r.0.Built? <==>
              env.dbReady && env.listing.Some? && Buildable(vault, env.listing.value, env) && env.snapshotOk
    ensures r.0.Built? ==> r.0.idx == IndexOf(vault, env.listing.value, env) && WellFormed(r.0.idx)
    // nothing is published unless it is the returned index and was written as the snapshot first
    ensures r.1.published == p.published ||
              (r.0.Built? && r.1.published == p.published + [r.0.idx] && r.1.snapshot == Some(r.0.idx))
    ensures r.0.Built? ==> r.1.published == p.published + [r.0.idx]
    ensures r.0.Rejected? ==> r.1.snapshot == p.snapshot && r.1.published == p.published
    // a committed transaction stands, whether or not the snapshot write that follows succeeds
    ensures env.dbReady && env.listing.Some? && Buildable(vault, env.listing.value, env) && env.txOk ==>
              r.1.db == Commit(p.db, Scan(vault, env.listing.value, env.read), IndexOf(vault, env.listing.value, env), env.rowTime)
    // a failed transaction leaves the store as it was
    ensures !env.txOk ==> r.1.db == p.db
    ensures r.1.db.embeddings == p.db.embeddings
  {
    if !env.dbReady || env.listing.None? then (Rejected, p)
    else
      var scanned := Scan(vault, env.listing.value, env.read);
      match BuildAsWritten(scanned, env.buildTime, env.extract)
      case None => (Rejected, p)
      case Some(idx) =>
        BuildWellFormed(scanned, env.buildTime, env.extract);
        var db := if env.txOk then Commit(p.db, scanned, idx, env.rowTime) else p.db;
        if env.snapshotOk then (Built(idx), Persisted(db, Some(idx), p.published + [idx]))
        else (Rejected, Persisted(db, p.snapshot, p.published))
  }

  /**
   A failed transaction is swallowed: the promise, the snapshot and the
   published indexes are the same as after a successful one.
   */
  lemma StoreFailureSwallowed(vault: string, env: Env, p: Persisted)
    ensures Run(vault, env.(txOk := false), p).0 == Run(vault, env.(txOk := true), p).0
    ensures Run(vault, env.(txOk := false), p).1.snapshot == Run(vault, env.(txOk := true), p).1.snapshot
    ensures Run(vault, env.(txOk := false), p).1.published == Run(vault, env.(txOk := true), p).1.published
    ensures Run(vault, env.(txOk := false), p).1.db == p.db
  {
  }

  /**
   A rebuild whose steps all succeed resolves exactly when the build does;
   then the store agrees with the returned index: every indexed path has a
   `notes` row with the index's id and title, and exactly one backlink row
   per occurrence of each link.
   */
  lemma SinksAgree(vault: string, env: Env, p: Persisted)
    requires env.dbReady && env.listing.Some? && env.txOk && env.snapshotOk
    ensures var (out, q) := Run(vault, env, p);
            && (out.Built? <==> Buildable(vault, env.listing.value, env))
            && (out.Built? ==> forall fp :: fp in out.idx.notes ==>
                  && fp in q.db.notes
                  && q.db.notes[fp].id == out.idx.notes[fp].id
                  && q.db.notes[fp].title == out.idx.notes[fp].title)
            && (out.Built? ==> forall t, fp :: fp in out.idx.notes ==>
                  Count(BacklinkRow(t, fp), q.db.backlinks) == Count(t, out.idx.notes[fp].links))
  {
    var (out, q) := Run(vault, env, p);
    if out.Built? {
      var scanned := Scan(vault, env.listing.value, env.read);
      var idx := Build(scanned, env.buildTime, env.extract);
      assert out.idx == idx;
      assert q.db == Commit(p.db, scanned, idx, env.rowTime);
      CommitSpec(p.db, scanned, env.buildTime, env.extract, env.rowTime);
      forall fp | fp in idx.notes
        ensures fp in q.db.notes && q.db.notes[fp].id == idx.notes[fp].id && q.db.notes[fp].title == idx.notes[fp].title
      {
        var i := LastExists(scanned, fp);
      }
    }
  }

  /**
   A file that is no longer listed leaves the new index and every backlink
   list, while its `notes` row and its backlink rows stay in the store,
   whether or not the build succeeds.
   */
  lemma DeletedFileStaleRows(vault: string, env: Env, p: Persisted, gone: string)
    requires env.dbReady && env.listing.Some?
    requires gone !in env.listing.value
    ensures var (out, q) := Run(vault, env, p);
            var fp := FilePath(vault, gone);
            && (out.Built? ==> fp !in out.idx.notes && forall t :: fp !in Lookup(out.idx.backlinks, t))
            && (fp in p.db.notes ==> fp in q.db.notes && q.db.notes[fp] == p.db.notes[fp])
            && (forall t :: Count(BacklinkRow(t, fp), q.db.backlinks) == Count(BacklinkRow(t, fp), p.db.backlinks))
  {
    var scanned := Scan(vault, env.listing.value, env.read);
    var fp := FilePath(vault, gone);
    assert fp !in Paths(scanned);
    BuildForgetsRemoved(scanned, env.buildTime, env.extract, fp);
    CommitSpec(p.db, scanned, env.buildTime, env.extract, env.rowTime);
  }
}
