# Vault indexer model

A Dafny model of the indexing engine of a note-taking app (`vault/indexer.ts`).
The engine scans a vault directory of Markdown notes. It builds an index with two parts:

- per-note metadata (`id`, `title`, `tags`, `links`, `updated_at`), keyed by file path;
- a backlink map from each link target to the notes that link to it.

It writes the index to a snapshot file and to a SQLite store (`notes`, `backlinks` and `embeddings` tables), then publishes it to `updated` subscribers.
A single filesystem watcher triggers a full rebuild when it starts and on every change.

Modules, following the structure of the source file:

- `Seqs`: `Option`, occurrence counting (`Count`), `Repeat`, `Distinct`, `Elems`.
- `Vault`: file paths, front-matter headers, the `id`/`title`/`tags` fallbacks, and the directory scan (`readAllNotes`).
- `Indexing`: `buildIndexFromNotes`. JavaScript objects keep their keys in insertion order, so the index holds each map together with its key order. `Sources` is an independent, per-target reference definition of a backlink list.
- `IndexAsWritten`: the backlink loop as the JavaScript actually runs it, on a plain object that inherits `Object.prototype` (see Findings).
- `Store`: the three tables and the transaction of `buildAndPersistIndex`. The `backlinks` table is a bag of rows, compared by per-row counts.
- `Rebuild`: one whole `buildAndPersistIndex` run. Every I/O step that can throw is a boolean of the environment.
- `Watch`: the `watcher`/`currentVault` variables as a state machine over abstract watcher handles.

Foreign pieces are parameters:

- `parseWikilinks` is an arbitrary `Extractor` function.
- Reading a file plus `gray-matter` is a `Reader` that returns the header and body, or `None` when either step throws.
- `fs.readdir` is an optional listing.
- `new Date()` is a string argument.
- `path.join(vault, f)` is the datatype `FilePath(vault, f)`, whose base name is `f`.

## Model

| member | source | states |
|---|---|---|
| Vault.TitleFallback | vault/indexer.ts:83 | a non-empty header title is used as is; otherwise the title is the file name with `.md` removed, so adding `.md` back gives the file name; a file named exactly `.md` keeps that name; an empty title falls back |
| Vault.IdFallback | vault/indexer.ts:84 | a non-empty header id is used; an absent or empty id falls back to the full file name |
| Vault.TagsFallback | vault/indexer.ts:89 | absent tags become the empty list; present tags are kept |
| Vault.Scan | vault/indexer.ts:63-78 | every scanned entry comes from a listed `.md` name in the vault and carries exactly the header and body its read produced; every listed `.md` name whose read succeeds is in the result |
| Vault.ScanAppend | vault/indexer.ts:65-67 | scanning a listing equals scanning its parts and concatenating, so results keep listing order |
| Vault.ScanIsolatesFailure | vault/indexer.ts:69-75 | if one file's read or parse fails while the others read as before, the scan loses exactly that file's entry and keeps all the others |
| Vault.ScanDistinct | vault/indexer.ts:64-68 | a listing without repeated names gives scanned paths without repeats |
| Indexing.Collect | vault/indexer.ts:82-94 | the keys of `notes` are exactly the scanned paths, and the key order lists each of them once |
| Indexing.CollectLastWins | vault/indexer.ts:86-93 | the entry of a path is the metadata of the last scanned note with that path |
| Indexing.CollectOrder | vault/indexer.ts:82-86 | with distinct paths, the key order of `notes` is the scan order |
| Indexing.CollectSpec | vault/indexer.ts:82-94 | the two facts above, for all entries |
| Indexing.Sources | vault/indexer.ts:95-100 | the reference backlink list only contains indexed paths that link to the target, and is non-empty exactly when some note links to it |
| Indexing.AddLinks | vault/indexer.ts:96-99 | pushing one note's links adds exactly its link targets as keys, and keeps each key listed once in key order |
| Indexing.AddLinksLookup | vault/indexer.ts:96-99 | each list gains one copy of the note's path per occurrence of the target in its links, appended after the existing entries |
| Indexing.Invert | vault/indexer.ts:95-100 | the backlink key list names every key of the backlink map exactly once |
| Indexing.InvertSpec | vault/indexer.ts:95-100 | every backlink list equals the reference definition `Sources`, and a key is present exactly when its reference list is non-empty |
| Indexing.Build | vault/indexer.ts:80-102 | keys of `notes` are the scanned paths; each path's entry is the last note's metadata; distinct paths keep scan order; the backlink map equals the reference definition |
| Indexing.SourcesCount | vault/indexer.ts:95-100 | over distinct paths, a path occurs in the list of `t` exactly as often as `t` occurs in its links, and not at all if unindexed |
| Indexing.SourcesCounts | vault/indexer.ts:95-100 | the counting invariant for every note and target of an index that matches the reference |
| Indexing.SourcesKeys | vault/indexer.ts:97 | no backlink list is empty and every source is a key of `notes` |
| Indexing.SourcesLinked | vault/indexer.ts:95-99 | a target is a backlink key exactly when some note links to it |
| Indexing.BuildEntries | vault/indexer.ts:86-93 | each entry is keyed by its own `filepath`, has `updated_at` equal to the build time, and holds the extractor's links of the last scanned body with that path |
| Indexing.BuildWellFormed | vault/indexer.ts:80-102 | the built index satisfies every backlink invariant: exact occurrence counts with duplicates kept, no empty lists, sources indexed, keys exactly the linked targets |
| Indexing.BuildForgetsRemoved | vault/indexer.ts:81-101 | a path that was not scanned is absent from `notes` and from every backlink list |
| Indexing.CollectRestamp | vault/indexer.ts:86-93 | collecting at another time changes only the `updated_at` of each entry |
| Indexing.InvertLinksOnly | vault/indexer.ts:95-100 | the backlink map depends only on the key order and the links of the notes |
| Indexing.BuildClockOnlyStamps | vault/indexer.ts:86-93 | two builds from the same scan differ only in `updated_at`: one is the other restamped |
| Indexing.BuildSingle | vault/indexer.ts:80-102 | a one-note scan indexes that note, and the list of each target repeats its path once per occurrence |
| Indexing.TwoNoteBacklinks | vault/indexer.ts:95-100 | when note A links only to `b` and note B links nowhere, the only backlink key is `b` and its list is `[A]` |
| Indexing.ExampleSingleLink | vault/indexer.ts:80-102 | for `a.md` linking to `b` and a note linking nowhere: `a.md` has links `["b"]`, title `a` and id `a.md`; `b` is the only backlink key and its list is `[a.md]` |
| Indexing.ExampleDuplicateLink | vault/indexer.ts:96-99 | a body linking to `x` twice gives `backlinks["x"] == [a.md, a.md]` |
| IndexAsWritten.AddLinksAsWrittenSpec | vault/indexer.ts:96-99 | on the real object, pushing a note's links throws exactly when a new key would be an inherited `Object.prototype` name; otherwise it gives the same result as the corrected push |
| IndexAsWritten.InvertAsWrittenSpec | vault/indexer.ts:95-100 | the loop as written throws exactly when some target is an inherited name, and otherwise equals the corrected inversion |
| IndexAsWritten.BuildAsWritten | vault/indexer.ts:80-102 | `buildIndexFromNotes` as the code runs it: it throws exactly when the corrected index would have a backlink key named after an `Object.prototype` member, and otherwise returns the corrected index |
| IndexAsWritten.ConstructorLinkAbortsBuild | vault/indexer.ts:97-98 | a one-note scan whose body links to `constructor` makes the build as written throw, while the corrected build lists the note under `constructor` |
| Store.Upsert | vault/indexer.ts:125-129 | after the upsert, the `notes` row keys are the old keys plus the scanned paths, and rows of paths not scanned are unchanged |
| Store.UpsertLastWins | vault/indexer.ts:125-129 | a scanned path's row holds the filepath, id, title and body of its last scanned note |
| Store.DeleteSourcesCount | vault/indexer.ts:130-132 | deleting removes every copy of each row whose source is indexed and keeps every other row |
| Store.Pairs | vault/indexer.ts:135 | the inserted rows of one entry pair its target with each source, in order |
| Store.PairsCount | vault/indexer.ts:135 | the rows of one entry contain `(t, s)` once per occurrence of `s` in the list of `t` |
| Store.InsertAllCount | vault/indexer.ts:133-136 | inserting all entries adds, per target, one row per occurrence of each source in its list |
| Store.Commit | vault/indexer.ts:124-137 | the committed `notes` keys are the old keys plus the scanned paths, rows of paths not scanned are unchanged, and the `embeddings` table is untouched |
| Store.CommitBacklinkCount | vault/indexer.ts:124-137 | after commit, a row has its index count when its source is indexed, and its old count plus the index count otherwise |
| Store.CommitSpec | vault/indexer.ts:120-137 | commit with the built index: every scanned note has its row and other rows are unchanged (stale rows survive); an indexed path has one `(t, path)` row per occurrence of `t` in its links; rows of other sources and the embeddings are unchanged |
| Store.CommitHeals | vault/indexer.ts:122-137 | whatever the store held before, a commit leaves the same rows for scanned notes and the same backlink rows for indexed sources |
| Rebuild.Run | vault/indexer.ts:116-145 | a store-preparation or listing failure, or a build that throws on an `Object.prototype` link target, changes nothing and rejects. The promise resolves exactly when the store was prepared, the vault listed, the index built and the snapshot written, returning the well-formed index of the scan. Only that index is published, after being written as the snapshot. A successful transaction leaves the store committed with the scan and its index, even when the snapshot write then fails; a failed transaction leaves the store unchanged. Embeddings are never touched |
| Rebuild.StoreFailureSwallowed | vault/indexer.ts:139-145 | a failed transaction changes neither the result, nor the snapshot, nor what is published; only the store is left as it was |
| Rebuild.SinksAgree | vault/indexer.ts:119-143 | when every I/O step succeeds, the rebuild resolves exactly when no link target is an `Object.prototype` name; then the store's rows agree with the snapshot index: same id and title per note, and one backlink row per link occurrence |
| Rebuild.DeletedFileStaleRows | vault/indexer.ts:118-136 | a file no longer listed is absent from a built index and from every backlink list, but its old `notes` row and backlink rows remain in the store whether or not the build, the transaction or the snapshot write succeeds |
| Watch.AtMostOneOpen | vault/indexer.ts:28 | in every valid session at most one watcher is open, and one is open exactly when `watcher` is set |
| Watch.InitialValid | vault/indexer.ts:28-29 | the session at module load is valid with no open watcher |
| Watch.Close | vault/indexer.ts:152-155 | closing leaves no open watcher and `watcher` null, and does not touch `currentVault` or started rebuilds |
| Watch.Start | vault/indexer.ts:151-162 | starting closes the previous watcher, sets `currentVault`, starts one rebuild of the vault and opens exactly one fresh watcher on it, keeping the invariant |
| Watch.Stop | vault/indexer.ts:164-169 | stopping leaves `watcher` null and nothing open, keeps the invariant and keeps `currentVault` |
| Watch.StopIdempotent | vault/indexer.ts:164-169 | stopping twice equals stopping once |
| Watch.OnEvent | vault/indexer.ts:159-161 | an event on the open watcher starts a rebuild of the vault that watcher was created for; an event on a closed handle does nothing |
| Watch.StartSilencesOldWatchers | vault/indexer.ts:151-161 | after `startVaultWatcher(b)`, events from any earlier watcher start nothing, and an event on the new watcher rebuilds `b` |

## Left out

- Filesystem, `chokidar`, `fs-extra` and `better-sqlite3` internals are not modelled. Only their effects are kept, as parameters, and each I/O step either succeeds or throws.
- `gray-matter` and `parseWikilinks` are parameters (`Reader`, `Extractor`), because their sources are not part of this model. No wikilink syntax is assumed.
- Header values are modelled as strings and lists of strings. Non-string values, such as `id: 0` (falsy) or a numeric title, are not modelled.
- The snapshot is the `Index` value itself, with no `JSON.stringify` formatting. A failed write is treated as leaving the previous snapshot. A partially written file is not modelled.
- The `index-updated` broadcast to windows (vault/indexer.ts:108-113) is UI messaging and is not modelled. A subscriber that throws inside `emit` is not modelled either. Subscribers are represented by the sequence of published indexes.
- Overlapping asynchronous rebuilds (vault/indexer.ts:157-161) are not modelled. The session records rebuild requests in order, and each rebuild is modelled as one atomic `Rebuild.Run`. The source has no serialization, and any interleaving is a concurrency question.
- Clock readings: the source reads the clock once per note (vault/indexer.ts:91) and once per `notes` row (vault/indexer.ts:128). The model takes one reading for the index and a separate one for the rows.
- `Object.entries` lists integer-like keys first, in numeric order. The model iterates in insertion order. Paths always end in `.md`, so `notes` keys are unaffected. For backlink targets, the order only changes the order of inserted rows, and the table is a bag.
- `path.join` normalisation is not modelled. `FilePath(vault, name)` treats distinct pairs as distinct paths.
- `ensureDB` table creation is modelled only as success or failure; the tables always exist in the model. A failure of `db.close()` after the commit is not modelled.
- Watcher options `depth: 2` and `ignoreInitial: true` are not modelled. `close()` is treated as taking effect at once, so events a closing watcher might still deliver are not modelled.
- `getIndexPath` and `onIndexUpdated` (registration only) have no behaviour worth stating. `main.ts` and `preload.ts` are UI shell and bridge code.

Behaviour of the code that the model keeps, although a reader might expect otherwise:

- The index is published even when the store transaction failed (vault/indexer.ts:139-143).
- A rebuild failure at watcher start is swallowed, and the watcher is still opened. It is not reported to the caller.
- Rebuilds are not serialized.
- The transaction commits before the snapshot is written (vault/indexer.ts:124-143). When that write then fails, the store is ahead of the snapshot and the rebuild rejects.
- A link target named after an `Object.prototype` member makes the whole rebuild reject before the transaction (see Findings). `Rebuild.Run` builds as the code does; the index it returns, when the build succeeds, is the corrected `Indexing.Build`.

## Findings

| source | as written | input that shows it | evidently intended | confidence | as-written member | corrected member |
|---|---|---|---|---|---|---|
| vault/indexer.ts:97-98 | `idx.backlinks` is the plain object `{}`, so `idx.backlinks[link]` finds inherited `Object.prototype` members; for such a name no list is created and `.push` is called on a function or on the prototype, which throws a `TypeError` and abandons the whole rebuild | one note whose body links to `[[constructor]]` (likewise `toString`, `valueOf`, `__proto__`, ...) | every link target is an ordinary backlink key | medium: depends on the extractor returning such a name; not executed | IndexAsWritten.ConstructorLinkAbortsBuild | Indexing.BuildWellFormed |
