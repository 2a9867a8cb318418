/**
 The backlink loop of `buildIndexFromNotes` as the JavaScript runs it.

 `idx.backlinks` starts as the plain object `{}`, so reading
 `idx.backlinks[link]` finds not only the keys the loop created but also
 every member inherited from `Object.prototype`. For such a name the
 lookup is truthy, no list is created, and `.push` is called on a function
 (or on the prototype object itself), which throws a `TypeError`: the whole
 build is abandoned. `Indexing.Build` is the corrected behaviour, in which
 every link target is an ordinary key.
 */
module IndexAsWritten {
  import opened Seqs
  import opened Vault
  import opened Indexing

  /** The names a plain object inherits from `Object.prototype`. */
  const InheritedMembers: set<string> := {
    "constructor", "__proto__", "hasOwnProperty", "isPrototypeOf",
    "propertyIsEnumerable", "toString", "toLocaleString", "valueOf",
    "__defineGetter__", "__defineSetter__", "__lookupGetter__", "__lookupSetter__"
  }

  /**
   One push of `fp` onto the list of `t`: a missing own key gets a fresh
   list, but an inherited member is found instead of a missing key and the
   push on it throws (`None`).
   */
  function Push(inv: Inverted, fp: FilePath, t: string): Option<Inverted>
  {
    if t in inv.backlinks then Some(Inverted(inv.targets, inv.backlinks[t := inv.backlinks[t] + [fp]]))
    else if t in InheritedMembers then None
    else Some(Inverted(inv.targets + [t], inv.backlinks[t := [fp]]))
  }

  function AddLinksAsWritten(inv: Inverted, fp: FilePath, links: seq<string>): Option<Inverted>
  {
    if links == [] then Some(inv)
    else
      match AddLinksAsWritten(inv, fp, links[..|links| - 1])
      case None => None
      case Some(r) => Push(r, fp, links[|links| - 1])
  }

  function InvertAsWritten(order: seq<FilePath>, notes: map<FilePath, NoteMeta>): Option<Inverted>
    requires Elems(order) <= notes.Keys
  {
    if order == [] then Some(Inverted([], map[]))
    else
      match InvertAsWritten(order[..|order| - 1], notes)
      case None => None
      case Some(r) => AddLinksAsWritten(r, order[|order| - 1], notes[order[|order| - 1]].links)
  }

  /**
   `buildIndexFromNotes` as written; `None` stands for the thrown `TypeError`.
   It fails exactly when some link target of the corrected index is named
   after an inherited member, and otherwise returns the corrected index.
   */
  function BuildAsWritten(scanned: seq<ScannedNote>, now: string, extract: Extractor): (r: Option<Index>)
    ensures r.Some? <==> Build(scanned, now, extract).backlinks.Keys !! InheritedMembers
    ensures r.Some? ==> r.value == Build(scanned, now, extract)
  {
    var t := Collect(scanned, now, extract);
    InvertAsWrittenSpec(t.order, t.notes);
    match InvertAsWritten(t.order, t.notes)
    case None => None
    case Some(inv) => Some(Index(t.order, t.notes, inv.targets, inv.backlinks))
  }

  lemma {:induction false} AddLinksAsWrittenSpec(inv: Inverted, fp: FilePath, links: seq<string>)
    requires Enumerates(inv.targets, inv.backlinks.Keys)
    requires inv.backlinks.Keys !! InheritedMembers
    ensures AddLinksAsWritten(inv, fp, links) ==
              if AddLinks(inv, fp, links).backlinks.Keys !! InheritedMembers
              then Some(AddLinks(inv, fp, links)) else None
    decreases |links|
  {
    if links != [] {
      var init := links[..|links| - 1];
      var t := links[|links| - 1];
      AddLinksAsWrittenSpec(inv, fp, init);
      var r := AddLinks(inv, fp, init);
      assert AddLinks(inv, fp, links).backlinks.Keys == r.backlinks.Keys + {t};
    }
  }

  lemma {:induction false} InvertAsWrittenSpec(order: seq<FilePath>, notes: map<FilePath, NoteMeta>)
    requires Elems(order) <= notes.Keys
    ensures InvertAsWritten(order, notes) ==
              if Invert(order, notes).backlinks.Keys !! InheritedMembers
              then Some(Invert(order, notes)) else None
    decreases |order|
  {
    if order != [] {
      var init := order[..|order| - 1];
      var last := order[|order| - 1];
      InvertAsWrittenSpec(init, notes);
      var r := Invert(init, notes);
      if r.backlinks.Keys !! InheritedMembers {
        AddLinksAsWrittenSpec(r, last, notes[last].links);
      }
    }
  }

  /** A single note whose body links to `[[constructor]]` makes the build as written throw. */
  lemma ConstructorLinkAbortsBuild(a: ScannedNote, now: string, extract: Extractor)
    requires extract(a.content) == ["constructor"]
    ensures BuildAsWritten([a], now, extract) == None
    ensures Lookup(Build([a], now, extract).backlinks, "constructor") == [a.filepath]
  {
    BuildSingle(a, now, extract, "constructor");
    assert Count("constructor", ["constructor"]) == 1 by {
      assert ["constructor"][..0] == [];
    }
    assert "constructor" in Build([a], now, extract).backlinks;
    assert "constructor" in InheritedMembers;
  }
}
