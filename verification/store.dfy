/**
 The relational store written by `buildAndPersistIndex`: its three tables
 and the effect of the one transaction a rebuild runs on them.

 The `backlinks` table has no key, so it is a bag of rows; it is kept as
 a sequence and compared by the number of copies of each row (`Count`).
 */
module Store {
  import opened Seqs
  import opened Vault
  import opened Indexing

  /** A row of the `notes` table, keyed by its file path. */
  datatype NoteRow = NoteRow(filepath: FilePath, id: string, title: string, content: string, updatedAt: string)

  /** A row of the keyless `backlinks` table: a link target and the path of the note linking to it. */
  datatype BacklinkRow = BacklinkRow(target: string, source: FilePath)

  /** A row of the `embeddings` table, keyed by id; the indexer never writes it. */
  datatype EmbeddingRow = EmbeddingRow(id: string, filepath: FilePath, vector: seq<bv8>, meta: string)

  datatype Db = Db(
    notes: map<FilePath, NoteRow>,
    backlinks: seq<BacklinkRow>,
    embeddings: map<string, EmbeddingRow>)

  /** The `notes` row inserted for a scanned note; `stamp` is the clock reading taken for it. */
  function RowOf(n: ScannedNote, stamp: string): NoteRow
  {
    NoteRow(n.filepath, IdOf(n.filepath, n.header), TitleOf(n.filepath, n.header), n.content, stamp)
  }

  // ---------------------------------------------------------------------------
  // Insert or replace the `notes` row of every scanned note, in scan order
  // ---------------------------------------------------------------------------

  function Upsert(rows: map<FilePath, NoteRow>, scanned: seq<ScannedNote>, stamp: string): (r: map<FilePath, NoteRow>)
    ensures r.Keys == rows.Keys + Elems(Paths(scanned))
    ensures forall fp :: fp in rows && fp !in Paths(scanned) ==> r[fp] == rows[fp]
  {
    if scanned == [] then rows
    else
      var init := scanned[..|scanned| - 1];
      var last := scanned[|scanned| - 1];
      assert Paths(scanned) == Paths(init) + [last.filepath];
      Upsert(rows, init, stamp)[last.filepath := RowOf(last, stamp)]
  }

  /** The row of a path is the one built from the last scanned note with that path. */
  lemma {:induction false} UpsertLastWins(rows: map<FilePath, NoteRow>, scanned: seq<ScannedNote>, stamp: string, i: int)
    requires LastFor(scanned, i)
    ensures Upsert(rows, scanned, stamp)[scanned[i].filepath] == RowOf(scanned[i], stamp)
    decreases |scanned|
  {
    var init := scanned[..|scanned| - 1];
    var last := scanned[|scanned| - 1];
    assert Upsert(rows, scanned, stamp) == Upsert(rows, init, stamp)[last.filepath := RowOf(last, stamp)];
    if i < |init| {
      assert scanned[i].filepath != last.filepath;
      assert init[i] == scanned[i];
      assert forall j :: i < j < |init| ==> init[j] == scanned[j];
      assert LastFor(init, i);
      UpsertLastWins(rows, init, stamp, i);
    }
  }

  lemma UpsertRows(rows: map<FilePath, NoteRow>, scanned: seq<ScannedNote>, stamp: string)
    ensures forall i :: LastFor(scanned, i) ==> Upsert(rows, scanned, stamp)[scanned[i].filepath] == RowOf(scanned[i], stamp)
  {
    forall i | LastFor(scanned, i)
      ensures Upsert(rows, scanned, stamp)[scanned[i].filepath] == RowOf(scanned[i], stamp)
    {
      UpsertLastWins(rows, scanned, stamp, i);
    }
  }

  // ---------------------------------------------------------------------------
  // Delete the `backlinks` rows whose source is an indexed path
  // ---------------------------------------------------------------------------

  function DeleteSources(rows: seq<BacklinkRow>, sources: set<FilePath>): seq<BacklinkRow>
  {
    if rows == [] then []
    else
      var last := rows[|rows| - 1];
      DeleteSources(rows[..|rows| - 1], sources) + (if last.source in sources then [] else [last])
  }

  /** Deleting removes every copy of a row from a listed source and keeps every other row. */
  lemma {:induction false} DeleteSourcesCount(rows: seq<BacklinkRow>, sources: set<FilePath>, row: BacklinkRow)
    ensures Count(row, DeleteSources(rows, sources)) == (if row.source in sources then 0 else Count(row, rows))
    decreases |rows|
  {
    if rows != [] {
      var init := rows[..|rows| - 1];
      var last := rows[|rows| - 1];
      DeleteSourcesCount(init, sources, row);
      CountAppend(row, DeleteSources(init, sources), if last.source in sources then [] else [last]);
      assert Count(row, [last]) == (if last == row then 1 else 0) by {
        assert [last][..0] == [];
      }
      assert Count(row, []) == 0;
    }
  }

  // ---------------------------------------------------------------------------
  // Insert one `backlinks` row per (target, source) pair of the index
  // ---------------------------------------------------------------------------

  /** The rows inserted for one entry `[target, sources]`. */
  function Pairs(t: string, sources: seq<FilePath>): (r: seq<BacklinkRow>)
    ensures |r| == |sources|
    ensures forall i :: 0 <= i < |r| ==> r[i] == BacklinkRow(t, sources[i])
  {
    if sources == [] then [] else Pairs(t, sources[..|sources| - 1]) + [BacklinkRow(t, sources[|sources| - 1])]
  }

  lemma {:induction false} PairsCount(t: string, sources: seq<FilePath>, row: BacklinkRow)
    ensures Count(row, Pairs(t, sources)) == (if row.target == t then Count(row.source, sources) else 0)
    decreases |sources|
  {
    if sources != [] {
      var init := sources[..|sources| - 1];
      var s := sources[|sources| - 1];
      PairsCount(t, init, row);
      assert Pairs(t, sources)[..|sources| - 1] == Pairs(t, init);
    }
  }

  /** The entries of `bl`, visited in the order `keys`, appended to `rows`. */
  function InsertAll(rows: seq<BacklinkRow>, bl: map<string, seq<FilePath>>, keys: seq<string>): seq<BacklinkRow>
    requires Elems(keys) <= bl.Keys
  {
    if keys == [] then rows
    else InsertAll(rows, bl, keys[..|keys| - 1]) + Pairs(keys[|keys| - 1], bl[keys[|keys| - 1]])
  }

  /** Inserting adds, for each listed target, one row per occurrence of a source in its list. */
  lemma {:induction false} InsertAllCount(rows: seq<BacklinkRow>, bl: map<string, seq<FilePath>>, keys: seq<string>, row: BacklinkRow)
    requires Elems(keys) <= bl.Keys
    requires Distinct(keys)
    ensures Count(row, InsertAll(rows, bl, keys)) ==
              Count(row, rows) + (if row.target in keys then Count(row.source, bl[row.target]) else 0)
    decreases |keys|
  {
    if keys != [] {
      var init := keys[..|keys| - 1];
      var k := keys[|keys| - 1];
      assert Distinct(init);
      InsertAllCount(rows, bl, init, row);
      CountAppend(row, InsertAll(rows, bl, init), Pairs(k, bl[k]));
      PairsCount(k, bl[k], row);
      assert row.target in keys <==> row.target in init || row.target == k;
      if row.target == k {
        assert k !in init;
      }
    }
  }

  // ---------------------------------------------------------------------------
  // The transaction
  // ---------------------------------------------------------------------------

  /**
   The committed effect of the transaction: upsert the scanned notes, delete
   the backlink rows of every indexed path, insert every backlink pair of the
   index (visiting its targets in key order). Embeddings are not touched.
   */
  function Commit(db: Db, scanned: seq<ScannedNote>, idx: Index, stamp: string): (r: Db)
    requires Enumerates(idx.targets, idx.backlinks.Keys)
    ensures r.notes.Keys == db.notes.Keys + Elems(Paths(scanned))
    ensures forall fp :: fp in db.notes && fp !in Paths(scanned) ==> r.notes[fp] == db.notes[fp]
    ensures r.embeddings == db.embeddings
  {
    Db(Upsert(db.notes, scanned, stamp),
       InsertAll(DeleteSources(db.backlinks, idx.notes.Keys), idx.backlinks, idx.targets),
       db.embeddings)
  }

  /** A committed backlink row is counted by the index for indexed sources, and kept from before otherwise. */
  lemma CommitBacklinkCount(db: Db, scanned: seq<ScannedNote>, idx: Index, stamp: string, row: BacklinkRow)
    requires Enumerates(idx.targets, idx.backlinks.Keys)
    ensures Count(row, Commit(db, scanned, idx, stamp).backlinks) ==
              (if row.source in idx.notes then 0 else Count(row, db.backlinks))
              + Count(row.source, Lookup(idx.backlinks, row.target))
  {
    var deleted := DeleteSources(db.backlinks, idx.notes.Keys);
    DeleteSourcesCount(db.backlinks, idx.notes.Keys, row);
    InsertAllCount(deleted, idx.backlinks, idx.targets, row);
  }

  /** Over an index that counts link occurrences, an indexed source gets one row per occurrence. */
  lemma CommitIndexedRows(db: Db, scanned: seq<ScannedNote>, idx: Index, stamp: string)
    requires Enumerates(idx.targets, idx.backlinks.Keys)
    requires forall t, fp :: fp in idx.notes ==> Count(fp, Lookup(idx.backlinks, t)) == Count(t, idx.notes[fp].links)
    ensures forall t, fp :: fp in idx.notes ==>
              Count(BacklinkRow(t, fp), Commit(db, scanned, idx, stamp).backlinks) == Count(t, idx.notes[fp].links)
  {
    forall t, fp | fp in idx.notes
      ensures Count(BacklinkRow(t, fp), Commit(db, scanned, idx, stamp).backlinks) == Count(t, idx.notes[fp].links)
    {
      CommitBacklinkCount(db, scanned, idx, stamp, BacklinkRow(t, fp));
    }
  }

  /** Over an index whose sources are all indexed, rows of other sources keep their counts. */
  lemma CommitOtherRows(db: Db, scanned: seq<ScannedNote>, idx: Index, stamp: string)
    requires Enumerates(idx.targets, idx.backlinks.Keys)
    requires forall t, fp :: t in idx.backlinks && fp in idx.backlinks[t] ==> fp in idx.notes
    ensures forall row: BacklinkRow :: row.source !in idx.notes ==>
              Count(row, Commit(db, scanned, idx, stamp).backlinks) == Count(row, db.backlinks)
  {
    forall row: BacklinkRow | row.source !in idx.notes
      ensures Count(row, Commit(db, scanned, idx, stamp).backlinks) == Count(row, db.backlinks)
    {
      CommitBacklinkCount(db, scanned, idx, stamp, row);
      assert row.source !in Lookup(idx.backlinks, row.target);
      CountZero(row.source, Lookup(idx.backlinks, row.target));
    }
  }

  /** The `notes` table after the transaction, for any index. */
  lemma CommitNotes(db: Db, scanned: seq<ScannedNote>, idx: Index, stamp: string)
    requires Enumerates(idx.targets, idx.backlinks.Keys)
    ensures var r := Commit(db, scanned, idx, stamp);
            && (forall i :: LastFor(scanned, i) ==>
                  scanned[i].filepath in r.notes && r.notes[scanned[i].filepath] == RowOf(scanned[i], stamp))
            && r.embeddings == db.embeddings
  {
    UpsertRows(db.notes, scanned, stamp);
  }

  /** The transaction over any well-formed index. */
  lemma CommitWellFormed(db: Db, scanned: seq<ScannedNote>, idx: Index, stamp: string)
    requires WellFormed(idx)
    ensures var r := Commit(db, scanned, idx, stamp);
            && (forall t, fp :: fp in idx.notes ==>
                  Count(BacklinkRow(t, fp), r.backlinks) == Count(t, idx.notes[fp].links))
            && (forall row: BacklinkRow :: row.source !in idx.notes ==> Count(row, r.backlinks) == Count(row, db.backlinks))
  {
    CommitIndexedRows(db, scanned, idx, stamp);
    CommitOtherRows(db, scanned, idx, stamp);
  }

  /**
   The transaction over the index it was built with: every scanned note has
   its row and other note rows are unchanged; an indexed path's backlink rows
   are exactly its pairs in the index, one per link occurrence; rows of other
   sources and the embeddings are unchanged.
   */
  lemma CommitSpec(db: Db, scanned: seq<ScannedNote>, now: string, extract: Extractor, stamp: string)
    ensures var idx := Build(scanned, now, extract);
            var r := Commit(db, scanned, idx, stamp);
            && r.notes.Keys == db.notes.Keys + Elems(Paths(scanned))
            && (forall i :: LastFor(scanned, i) ==>
                  scanned[i].filepath in r.notes && r.notes[scanned[i].filepath] == RowOf(scanned[i], stamp))
            && (forall fp :: fp in db.notes && fp !in Paths(scanned) ==> fp in r.notes && r.notes[fp] == db.notes[fp])
            && (forall t, fp :: fp in idx.notes ==>
                  Count(BacklinkRow(t, fp), r.backlinks) == Count(t, idx.notes[fp].links))
            && (forall row: BacklinkRow :: row.source !in idx.notes ==> Count(row, r.backlinks) == Count(row, db.backlinks))
            && r.embeddings == db.embeddings
  {
    var idx := Build(scanned, now, extract);
    CommitNotes(db, scanned, idx, stamp);
    BuildWellFormed(scanned, now, extract);
    CommitWellFormed(db, scanned, idx, stamp);
  }

  /**
   Whatever the store held before, a commit leaves the same rows for every
   scanned note and the same backlink rows for every indexed source: a
   successful transaction repairs any earlier failed one.
   */
  lemma CommitHeals(d1: Db, d2: Db, scanned: seq<ScannedNote>, now: string, extract: Extractor, stamp: string)
    ensures var idx := Build(scanned, now, extract);
            var r1 := Commit(d1, scanned, idx, stamp);
            var r2 := Commit(d2, scanned, idx, stamp);
            && (forall fp :: fp in Paths(scanned) ==> r1.notes[fp] == r2.notes[fp])
            && (forall row: BacklinkRow :: row.source in idx.notes ==> Count(row, r1.backlinks) == Count(row, r2.backlinks))
  {
    var idx := Build(scanned, now, extract);
    forall fp | fp in Paths(scanned)
      ensures Commit(d1, scanned, idx, stamp).notes[fp] == Commit(d2, scanned, idx, stamp).notes[fp]
    {
      var i := LastExists(scanned, fp);
      UpsertLastWins(d1.notes, scanned, stamp, i);
      UpsertLastWins(d2.notes, scanned, stamp, i);
    }
    forall row: BacklinkRow | row.source in idx.notes
      ensures Count(row, Commit(d1, scanned, idx, stamp).backlinks) == Count(row, Commit(d2, scanned, idx, stamp).backlinks)
    {
      CommitBacklinkCount(d1, scanned, idx, stamp, row);
      CommitBacklinkCount(d2, scanned, idx, stamp, row);
    }
  }
}
