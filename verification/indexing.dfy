/**
 Index construction (`buildIndexFromNotes`): per-note metadata keyed by
 file path, and the backlink map that inverts every note's links.

 JavaScript objects keep their keys in insertion order, and that order is
 observable here (the backlink sources follow the iteration order of
 `notes`), so both maps of the `Index` carry the sequence of their keys.
 */
module Indexing {
  import opened Seqs
  import opened Vault

  /** The wikilink extractor applied to a note body (not modelled: any function). */
  type Extractor = string -> seq<string>

  /** Per-note metadata stored in `idx.notes`. */
  datatype NoteMeta = NoteMeta(
    id: string,
    title: string,
    tags: seq<string>,
    links: seq<string>,
    updatedAt: string,
    filepath: FilePath)

  /**
   The index: `notes` keyed by file path and `backlinks` keyed by link
   target, each with its keys in insertion order (`order`, `targets`).
   */
  datatype Index = Index(
    order: seq<FilePath>,
    notes: map<FilePath, NoteMeta>,
    targets: seq<string>,
    backlinks: map<string, seq<FilePath>>)

  /** `keys` lists every key of a map exactly once. */
  predicate Enumerates<K>(keys: seq<K>, domain: set<K>)
  {
    Distinct(keys) && Elems(keys) == domain
  }

  /** The backlink list of `t`, or the empty list when `t` has none. */
  function Lookup(bl: map<string, seq<FilePath>>, t: string): seq<FilePath>
  {
    if t in bl then bl[t] else []
  }

  /** The metadata record built for one scanned note. */
  function Describe(n: ScannedNote, now: string, extract: Extractor): NoteMeta
  {
    NoteMeta(IdOf(n.filepath, n.header), TitleOf(n.filepath, n.header), TagsOf(n.header),
             extract(n.content), now, n.filepath)
  }

  /** Entry `i` is the last one of the scan with its file path. */
  predicate LastFor(scanned: seq<ScannedNote>, i: int)
  {
    && 0 <= i < |scanned|
    && forall j :: i < j < |scanned| ==> scanned[j].filepath != scanned[i].filepath
  }

  // ---------------------------------------------------------------------------
  // First loop: every scanned note (re)assigns the entry of its path.
  // ---------------------------------------------------------------------------

  datatype NoteTable = NoteTable(order: seq<FilePath>, notes: map<FilePath, NoteMeta>)

  function Collect(scanned: seq<ScannedNote>, now: string, extract: Extractor): (t: NoteTable)
    ensures Enumerates(t.order, t.notes.Keys)
    ensures t.notes.Keys == Elems(Paths(scanned))
  {
    if scanned == [] then NoteTable([], map[])
    else
      var init := scanned[..|scanned| - 1];
      var last := scanned[|scanned| - 1];
      var t := Collect(init, now, extract);
      var fp := last.filepath;
      assert Paths(scanned) == Paths(init) + [fp];
      NoteTable(if fp in t.notes then t.order else t.order + [fp],
                t.notes[fp := Describe(last, now, extract)])
  }

  /** The last scanned note with a given path determines that path's entry. */
  lemma {:induction false} CollectLastWins(scanned: seq<ScannedNote>, now: string, extract: Extractor, i: int)
    requires LastFor(scanned, i)
    ensures Collect(scanned, now, extract).notes[scanned[i].filepath] == Describe(scanned[i], now, extract)
    decreases |scanned|
  {
    var init := scanned[..|scanned| - 1];
    var last := scanned[|scanned| - 1];
    if i < |init| {
      assert scanned[i].filepath != last.filepath;
      assert init[i] == scanned[i];
      assert forall j :: i < j < |init| ==> init[j] == scanned[j];
      assert LastFor(init, i);
      CollectLastWins(init, now, extract, i);
    }
  }

  /** With distinct paths, `notes` keys are in scan order. */
  lemma {:induction false} CollectOrder(scanned: seq<ScannedNote>, now: string, extract: Extractor)
    requires Distinct(Paths(scanned))
    ensures Collect(scanned, now, extract).order == Paths(scanned)
    decreases |scanned|
  {
    if scanned != [] {
      var init := scanned[..|scanned| - 1];
      var last := scanned[|scanned| - 1];
      var ps := Paths(scanned);
      assert ps == Paths(init) + [last.filepath];
      assert Paths(init) == ps[..|ps| - 1];
      assert Distinct(Paths(init));
      assert last.filepath !in Paths(init);
      CollectOrder(init, now, extract);
    }
  }

  lemma CollectSpec(scanned: seq<ScannedNote>, now: string, extract: Extractor)
    ensures forall i :: LastFor(scanned, i) ==>
              Collect(scanned, now, extract).notes[scanned[i].filepath] == Describe(scanned[i], now, extract)
    ensures Distinct(Paths(scanned)) ==> Collect(scanned, now, extract).order == Paths(scanned)
  {
    forall i | LastFor(scanned, i)
      ensures Collect(scanned, now, extract).notes[scanned[i].filepath] == Describe(scanned[i], now, extract)
    {
      CollectLastWins(scanned, now, extract, i);
    }
    if Distinct(Paths(scanned)) {
      CollectOrder(scanned, now, extract);
    }
  }

  // ---------------------------------------------------------------------------
  // Second loop: for every note, in `notes` order, and every link of it,
  // `backlinks[link]` is created when missing and the note's path pushed.
  // ---------------------------------------------------------------------------

  datatype Inverted = Inverted(targets: seq<string>, backlinks: map<string, seq<FilePath>>)

  /**
   Reference definition of one backlink list: the paths of `order`, in order,
   each repeated once per occurrence of `t` among that note's links.
   */
  function Sources(t: string, order: seq<FilePath>, notes: map<FilePath, NoteMeta>): (s: seq<FilePath>)
    requires Elems(order) <= notes.Keys
    ensures forall fp :: fp in s ==> fp in order && t in notes[fp].links
    ensures s != [] <==> exists fp :: fp in order && t in notes[fp].links
  {
    if order == [] then []
    else
      var init := order[..|order| - 1];
      var last := order[|order| - 1];
      var s := Sources(t, init, notes) + Repeat(last, Count(t, notes[last].links));
      CountZero(t, notes[last].links);
      assert forall fp :: fp in order ==> fp in init || fp == last;
      s
  }

  /** One push: `fp` is appended to the list of `t`, which is created (and its key listed) when missing. */
  function PushLink(inv: Inverted, fp: FilePath, t: string): (r: Inverted)
    requires Enumerates(inv.targets, inv.backlinks.Keys)
    ensures Enumerates(r.targets, r.backlinks.Keys)
    ensures r.backlinks.Keys == inv.backlinks.Keys + {t}
  {
    if t in inv.backlinks then Inverted(inv.targets, inv.backlinks[t := inv.backlinks[t] + [fp]])
    else
      DistinctSnoc(inv.targets, t);
      assert Elems(inv.targets + [t]) == Elems(inv.targets) + {t};
      Inverted(inv.targets + [t], inv.backlinks[t := [fp]])
  }

  /** A push appends `fp` to the list of its own target and leaves every other list alone. */
  lemma PushLinkLookup(inv: Inverted, fp: FilePath, t: string, u: string)
    requires Enumerates(inv.targets, inv.backlinks.Keys)
    ensures Lookup(PushLink(inv, fp, t).backlinks, u) == Lookup(inv.backlinks, u) + (if u == t then [fp] else [])
  {
    if u != t {
      assert Lookup(inv.backlinks, u) + [] == Lookup(inv.backlinks, u);
    } else if t !in inv.backlinks {
      assert [] + [fp] == [fp];
    }
  }

  /** Pushing `fp` onto the backlink list of every link, left to right. */
  function AddLinks(inv: Inverted, fp: FilePath, links: seq<string>): (r: Inverted)
    requires Enumerates(inv.targets, inv.backlinks.Keys)
    ensures Enumerates(r.targets, r.backlinks.Keys)
    ensures r.backlinks.Keys == inv.backlinks.Keys + Elems(links)
  {
    if links == [] then inv
    else
      var init := links[..|links| - 1];
      assert Elems(links) == Elems(init) + {links[|links| - 1]};
      PushLink(AddLinks(inv, fp, init), fp, links[|links| - 1])
  }

  /** Each link occurrence appends exactly one copy of `fp` to that link's list. */
  lemma {:induction false} AddLinksLookup(inv: Inverted, fp: FilePath, links: seq<string>, t: string)
    requires Enumerates(inv.targets, inv.backlinks.Keys)
    ensures Lookup(AddLinks(inv, fp, links).backlinks, t) == Lookup(inv.backlinks, t) + Repeat(fp, Count(t, links))
    decreases |links|
  {
    if links == [] {
      AppendEmpty(Lookup(inv.backlinks, t));
    } else {
      var init := links[..|links| - 1];
      var u := links[|links| - 1];
      var r := AddLinks(inv, fp, init);
      AddLinksLookup(inv, fp, init, t);
      PushLinkLookup(r, fp, u, t);
      var c := Count(t, init);
      assert Count(t, links) == c + (if u == t then 1 else 0);
      if u == t {
        RepeatSnoc(fp, c);
        AppendAssoc(Lookup(inv.backlinks, t), Repeat(fp, c), [fp]);
      } else {
        AppendEmpty(Lookup(r.backlinks, t));
      }
    }
  }

  function Invert(order: seq<FilePath>, notes: map<FilePath, NoteMeta>): (r: Inverted)
    requires Elems(order) <= notes.Keys
    ensures Enumerates(r.targets, r.backlinks.Keys)
  {
    if order == [] then Inverted([], map[])
    else
      var init := order[..|order| - 1];
      var last := order[|order| - 1];
      AddLinks(Invert(init, notes), last, notes[last].links)
  }

  /** The inverted map agrees with the reference definition `Sources`, key set included. */
  lemma {:induction false} InvertSpec(order: seq<FilePath>, notes: map<FilePath, NoteMeta>)
    requires Elems(order) <= notes.Keys
    ensures forall t :: Lookup(Invert(order, notes).backlinks, t) == Sources(t, order, notes)
    ensures forall t :: t in Invert(order, notes).backlinks <==> Sources(t, order, notes) != []
    decreases |order|
  {
    if order != [] {
      var init := order[..|order| - 1];
      var last := order[|order| - 1];
      InvertSpec(init, notes);
      var prev := Invert(init, notes);
      forall t
        ensures Lookup(Invert(order, notes).backlinks, t) == Sources(t, order, notes)
        ensures t in Invert(order, notes).backlinks <==> Sources(t, order, notes) != []
      {
        AddLinksLookup(prev, last, notes[last].links, t);
      }
    }
  }

  /**
   `buildIndexFromNotes` corrected so that every link target is an ordinary
   backlink key (the code as written is `IndexAsWritten.BuildAsWritten`),
   with the clock reading `now` and the link extractor as parameters.
   */
  function Build(scanned: seq<ScannedNote>, now: string, extract: Extractor): (idx: Index)
    ensures Enumerates(idx.order, idx.notes.Keys)
    ensures Enumerates(idx.targets, idx.backlinks.Keys)
    ensures idx.notes.Keys == Elems(Paths(scanned))
    ensures Distinct(Paths(scanned)) ==> idx.order == Paths(scanned)
    ensures forall i :: LastFor(scanned, i) ==> idx.notes[scanned[i].filepath] == Describe(scanned[i], now, extract)
    ensures forall t :: Lookup(idx.backlinks, t) == Sources(t, idx.order, idx.notes)
    ensures forall t :: t in idx.backlinks <==> Sources(t, idx.order, idx.notes) != []
  {
    var t := Collect(scanned, now, extract);
    CollectSpec(scanned, now, extract);
    InvertSpec(t.order, t.notes);
    var inv := Invert(t.order, t.notes);
    Index(t.order, t.notes, inv.targets, inv.backlinks)
  }

  // ---------------------------------------------------------------------------
  // Properties of the built index
  // ---------------------------------------------------------------------------

  /** Over distinct paths, `fp` occurs in the list of `t` once per occurrence of `t` in its links. */
  lemma {:induction false} SourcesCount(t: string, order: seq<FilePath>, notes: map<FilePath, NoteMeta>, fp: FilePath)
    requires Elems(order) <= notes.Keys
    requires Distinct(order)
    ensures Count(fp, Sources(t, order, notes)) == (if fp in order then Count(t, notes[fp].links) else 0)
    decreases |order|
  {
    if order != [] {
      var init := order[..|order| - 1];
      var last := order[|order| - 1];
      assert Distinct(init);
      SourcesCount(t, init, notes, fp);
      var c := Count(t, notes[last].links);
      CountAppend(fp, Sources(t, init, notes), Repeat(last, c));
      CountRepeat(fp, last, c);
      assert fp in order <==> fp in init || fp == last;
      if fp == last {
        assert last !in init;
      }
    }
  }

  /**
   The backlink invariants of an index: each path occurs in `backlinks[t]`
   exactly as often as `t` occurs in that note's links, no list is empty,
   every source is an indexed note, and a target is a key exactly when some
   note links to it.
   */
  ghost predicate WellFormed(idx: Index)
  {
    && Enumerates(idx.order, idx.notes.Keys)
    && Enumerates(idx.targets, idx.backlinks.Keys)
    && (forall fp :: fp in idx.notes ==> idx.notes[fp].filepath == fp)
    && (forall t, fp :: fp in idx.notes ==> Count(fp, Lookup(idx.backlinks, t)) == Count(t, idx.notes[fp].links))
    && (forall t :: t in idx.backlinks ==> idx.backlinks[t] != [])
    && (forall t, fp :: t in idx.backlinks && fp in idx.backlinks[t] ==> fp in idx.notes)
    && (forall t :: t in idx.backlinks <==> exists fp :: fp in idx.notes && t in idx.notes[fp].links)
  }

  /** Every path of a scan has a last entry. */
  lemma LastExists(scanned: seq<ScannedNote>, fp: FilePath) returns (i: int)
    requires fp in Paths(scanned)
    ensures LastFor(scanned, i) && scanned[i].filepath == fp
  {
    var k :| 0 <= k < |scanned| && scanned[k].filepath == fp;
    i := k;
    while i + 1 < |scanned| && exists j :: i < j < |scanned| && scanned[j].filepath == fp
      invariant 0 <= i < |scanned| && scanned[i].filepath == fp
      decreases |scanned| - i
    {
      var j :| i < j < |scanned| && scanned[j].filepath == fp;
      i := j;
    }
  }

  /** Every entry is keyed by its own path, carries the build time and the extractor's links of its body. */
  lemma BuildEntries(scanned: seq<ScannedNote>, now: string, extract: Extractor, fp: FilePath)
    requires fp in Build(scanned, now, extract).notes
    ensures Build(scanned, now, extract).notes[fp].filepath == fp
    ensures Build(scanned, now, extract).notes[fp].updatedAt == now
    ensures exists i :: LastFor(scanned, i) && scanned[i].filepath == fp &&
              Build(scanned, now, extract).notes[fp].links == extract(scanned[i].content)
  {
    var i := LastExists(scanned, fp);
  }

  /** The backlink map of `idx` is the one the reference definition gives. */
  ghost predicate MatchesSources(idx: Index)
  {
    && Enumerates(idx.order, idx.notes.Keys)
    && (forall t :: Lookup(idx.backlinks, t) == Sources(t, idx.order, idx.notes))
    && (forall t :: t in idx.backlinks <==> Sources(t, idx.order, idx.notes) != [])
  }

  lemma SourcesCounts(idx: Index)
    requires MatchesSources(idx)
    ensures forall t, fp :: fp in idx.notes ==> Count(fp, Lookup(idx.backlinks, t)) == Count(t, idx.notes[fp].links)
  {
    forall t, fp | fp in idx.notes
      ensures Count(fp, Lookup(idx.backlinks, t)) == Count(t, idx.notes[fp].links)
    {
      SourcesCount(t, idx.order, idx.notes, fp);
    }
  }

  lemma SourcesKeys(idx: Index)
    requires MatchesSources(idx)
    ensures forall t :: t in idx.backlinks ==> idx.backlinks[t] != []
    ensures forall t, fp :: t in idx.backlinks && fp in idx.backlinks[t] ==> fp in idx.notes
  {
    forall t | t in idx.backlinks
      ensures idx.backlinks[t] != []
    {
      assert Sources(t, idx.order, idx.notes) != [];
    }
    forall t, fp | t in idx.backlinks && fp in idx.backlinks[t]
      ensures fp in idx.notes
    {
      assert fp in Lookup(idx.backlinks, t);
    }
  }

  lemma SourcesLinked(idx: Index)
    requires MatchesSources(idx)
    requires forall t :: t in idx.backlinks ==> idx.backlinks[t] != []
    ensures forall t :: t in idx.backlinks <==> exists fp :: fp in idx.notes && t in idx.notes[fp].links
  {
    forall t
      ensures t in idx.backlinks <==> exists fp :: fp in idx.notes && t in idx.notes[fp].links
    {
      if t in idx.backlinks {
        assert Lookup(idx.backlinks, t) == idx.backlinks[t];
      } else {
        assert Sources(t, idx.order, idx.notes) == [];
      }
    }
  }

  /** `buildIndexFromNotes` always yields a well-formed index. */
  lemma BuildWellFormed(scanned: seq<ScannedNote>, now: string, extract: Extractor)
    ensures WellFormed(Build(scanned, now, extract))
  {
    var idx := Build(scanned, now, extract);
    forall fp | fp in idx.notes
      ensures idx.notes[fp].filepath == fp
    {
      BuildEntries(scanned, now, extract, fp);
    }
    assert MatchesSources(idx);
    SourcesCounts(idx);
    SourcesKeys(idx);
    SourcesLinked(idx);
  }

  /** A file missing from the scan appears neither in `notes` nor in any backlink list. */
  lemma BuildForgetsRemoved(scanned: seq<ScannedNote>, now: string, extract: Extractor, fp: FilePath)
    requires fp !in Paths(scanned)
    ensures fp !in Build(scanned, now, extract).notes
    ensures forall t :: fp !in Lookup(Build(scanned, now, extract).backlinks, t)
  {
  }

  /** Every note's `updated_at` replaced by `now`. */
  function RestampNotes(notes: map<FilePath, NoteMeta>, now: string): map<FilePath, NoteMeta>
  {
    map fp | fp in notes :: notes[fp].(updatedAt := now)
  }

  /** The index with every note's `updated_at` replaced by `now`. */
  function Restamp(idx: Index, now: string): Index
  {
    idx.(notes := RestampNotes(idx.notes, now))
  }

  /** Restamping commutes with storing one entry. */
  lemma RestampUpdate(notes: map<FilePath, NoteMeta>, fp: FilePath, m: NoteMeta, now: string)
    ensures RestampNotes(notes[fp := m], now) == RestampNotes(notes, now)[fp := m.(updatedAt := now)]
  {
  }

  lemma {:induction false} CollectRestamp(scanned: seq<ScannedNote>, t1: string, t2: string, extract: Extractor)
    ensures Collect(scanned, t2, extract).order == Collect(scanned, t1, extract).order
    ensures Collect(scanned, t2, extract).notes == RestampNotes(Collect(scanned, t1, extract).notes, t2)
    decreases |scanned|
  {
    if scanned != [] {
      var init := scanned[..|scanned| - 1];
      var last := scanned[|scanned| - 1];
      CollectRestamp(init, t1, t2, extract);
      RestampUpdate(Collect(init, t1, extract).notes, last.filepath, Describe(last, t1, extract), t2);
    }
  }

  /** The backlink map depends only on the order of notes and their links. */
  lemma {:induction false} InvertLinksOnly(order: seq<FilePath>, n1: map<FilePath, NoteMeta>, n2: map<FilePath, NoteMeta>)
    requires Elems(order) <= n1.Keys && Elems(order) <= n2.Keys
    requires forall fp :: fp in order ==> n1[fp].links == n2[fp].links
    ensures Invert(order, n1) == Invert(order, n2)
    decreases |order|
  {
    if order != [] {
      InvertLinksOnly(order[..|order| - 1], n1, n2);
    }
  }

  /**
   Building twice from the same scan gives the same index up to the
   `updated_at` stamps: the later build is the earlier one restamped.
   */
  lemma BuildClockOnlyStamps(scanned: seq<ScannedNote>, t1: string, t2: string, extract: Extractor)
    ensures Build(scanned, t2, extract) == Restamp(Build(scanned, t1, extract), t2)
  {
    var c1 := Collect(scanned, t1, extract);
    var c2 := Collect(scanned, t2, extract);
    CollectRestamp(scanned, t1, t2, extract);
    InvertLinksOnly(c1.order, c1.notes, c2.notes);
  }

  // ---------------------------------------------------------------------------
  // Worked examples
  // ---------------------------------------------------------------------------

  /** The backlink list of a one-note order. */
  lemma SourcesSingle(t: string, fp: FilePath, notes: map<FilePath, NoteMeta>)
    requires fp in notes
    ensures Sources(t, [fp], notes) == Repeat(fp, Count(t, notes[fp].links))
  {
    assert [fp][..0] == [];
  }

  /** The index of a one-note scan. */
  lemma BuildSingle(a: ScannedNote, now: string, extract: Extractor, t: string)
    ensures Build([a], now, extract).order == [a.filepath]
    ensures a.filepath in Build([a], now, extract).notes
    ensures Lookup(Build([a], now, extract).backlinks, t) == Repeat(a.filepath, Count(t, extract(a.content)))
  {
    var idx := Build([a], now, extract);
    assert LastFor([a], 0);
    assert Paths([a]) == [a.filepath];
    SourcesSingle(t, a.filepath, idx.notes);
  }

  lemma TwoNoteBacklinks(idx: Index, fa: FilePath, fb: FilePath)
    requires MatchesSources(idx)
    requires idx.order == [fa, fb]
    requires idx.notes[fa].links == ["b"] && idx.notes[fb].links == []
    ensures idx.backlinks.Keys == {"b"}
    ensures Lookup(idx.backlinks, "b") == [fa]
  {
    var o := idx.order;
    assert o[..1] == [fa];
    forall t
      ensures Sources(t, o, idx.notes) == Repeat(fa, Count(t, ["b"]))
    {
      SourcesSingle(t, fa, idx.notes);
      assert Count(t, []) == 0;
    }
    assert Count("b", ["b"]) == 1;
    forall t | t in idx.backlinks
      ensures t == "b"
    {
      assert Sources(t, o, idx.notes) != [];
    }
  }

  /** The index of a two-note scan with distinct paths. */
  lemma TwoNoteScan(a: ScannedNote, b: ScannedNote, now: string, extract: Extractor)
    requires a.filepath != b.filepath
    ensures var idx := Build([a, b], now, extract);
            && idx.order == [a.filepath, b.filepath]
            && idx.notes[a.filepath] == Describe(a, now, extract)
            && idx.notes[b.filepath] == Describe(b, now, extract)
  {
    assert LastFor([a, b], 0);
    assert LastFor([a, b], 1);
    assert Paths([a, b]) == [a.filepath, b.filepath];
  }

  /** The metadata of a header-less note `a.md` linking to `b`. */
  lemma NoteAMeta(a: ScannedNote, now: string, extract: Extractor)
    requires a.filepath.name == "a.md" && a.header == Header(None, None, None)
    requires extract(a.content) == ["b"]
    ensures Describe(a, now, extract).links == ["b"]
    ensures Describe(a, now, extract).title == "a"
    ensures Describe(a, now, extract).id == "a.md"
  {
    assert "a.md"[..1] == "a";
  }

  /** A note `a.md` linking to `b` and a note linking nowhere: `b` gets one backlink and `a.md` none. */
  lemma ExampleSingleLink(a: ScannedNote, b: ScannedNote, extract: Extractor, now: string)
    requires a.filepath.name == "a.md" && a.header == Header(None, None, None)
    requires a.filepath != b.filepath
    requires extract(a.content) == ["b"] && extract(b.content) == []
    ensures var idx := Build([a, b], now, extract);
            && a.filepath in idx.notes
            && idx.notes[a.filepath].links == ["b"]
            && idx.notes[a.filepath].title == "a"
            && idx.notes[a.filepath].id == "a.md"
            && idx.backlinks.Keys == {"b"}
            && Lookup(idx.backlinks, "b") == [a.filepath]
  {
    var idx := Build([a, b], now, extract);
    TwoNoteScan(a, b, now, extract);
    NoteAMeta(a, now, extract);
    TwoNoteBacklinks(idx, a.filepath, b.filepath);
  }

  lemma CountTwice(x: string, links: seq<string>)
    requires links == [x, x]
    ensures Count(x, links) == 2
  {
    assert links == [x] + [x];
    CountAppend(x, [x], [x]);
    CountSingle(x, x);
  }

  lemma RepeatTwice(fp: FilePath)
    ensures Repeat(fp, 2) == [fp, fp]
  {
    assert Repeat(fp, 1) == [] + [fp];
  }

  /** Two occurrences of the same link in one body yield two backlink entries. */
  lemma ExampleDuplicateLink(a: ScannedNote, extract: Extractor, now: string)
    requires extract(a.content) == ["x", "x"]
    ensures Lookup(Build([a], now, extract).backlinks, "x") == [a.filepath, a.filepath]
  {
    BuildSingle(a, now, extract, "x");
    CountTwice("x", extract(a.content));
    RepeatTwice(a.filepath);
  }

}
