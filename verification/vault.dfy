/**
 The vault directory as the indexer sees it: file paths, front-matter
 headers, the name-derived fallbacks for `id` and `title`, and the scan
 that turns a directory listing into parsed notes (`readAllNotes`).

 The filesystem and the front-matter parser are not modelled; a scan is
 given the directory listing and a `Reader` that says, per file, whether
 reading and parsing succeeded and what it produced.
 */
module Vault {
  import opened Seqs

  /** `path.join(vault, name)`; its `path.basename` is `name`. */
  datatype FilePath = FilePath(vault: string, name: string)

  /** The front-matter keys the indexer reads; each may be absent. */
  datatype Header = Header(id: Option<string>, title: Option<string>, tags: Option<seq<string>>)

  /** What the front-matter parser returns: header data and body text. */
  datatype Parsed = Parsed(data: Header, content: string)

  /** One entry of the scan result. */
  datatype ScannedNote = ScannedNote(filepath: FilePath, content: string, header: Header)

  /** Reading and parsing one file: `None` when either step throws. */
  type Reader = FilePath -> Option<Parsed>

  const Suffix: string := ".md"

  /** The name ends in `.md`, compared case-sensitively. */
  predicate IsMarkdown(name: string)
  {
    |name| >= |Suffix| && name[|name| - |Suffix|..] == Suffix
  }

  /** The base name without its `.md` suffix, as Node's `path.basename` gives it: the suffix is dropped unless it is the whole name. */
  function StripSuffix(name: string): string
  {
    if IsMarkdown(name) && name != Suffix then name[..|name| - |Suffix|] else name
  }

  /** A header string counts only when it is truthy, i.e. non-empty. */
  function Truthy(o: Option<string>): Option<string>
  {
    if o.Some? && o.value != "" then o else None
  }

  function TitleOf(fp: FilePath, h: Header): string
  {
    match Truthy(h.title)
    case Some(t) => t
    case None => StripSuffix(fp.name)
  }

  function IdOf(fp: FilePath, h: Header): string
  {
    match Truthy(h.id)
    case Some(i) => i
    case None => fp.name
  }

  function TagsOf(h: Header): seq<string>
  {
    match h.tags
    case Some(ts) => ts
    case None => []
  }

  /** The title fallback removes exactly the `.md` suffix: adding it back gives the file name. */
  lemma TitleFallback(fp: FilePath, h: Header)
    ensures Truthy(h.title).Some? ==> TitleOf(fp, h) == h.title.value
    ensures Truthy(h.title).None? && IsMarkdown(fp.name) && fp.name != Suffix ==>
              TitleOf(fp, h) + Suffix == fp.name
    ensures Truthy(h.title).None? && fp.name == Suffix ==> TitleOf(fp, h) == Suffix
    ensures h.title == Some("") ==> TitleOf(fp, h) == StripSuffix(fp.name)
  {
    if Truthy(h.title).None? && IsMarkdown(fp.name) && fp.name != Suffix {
      var n := fp.name;
      assert n[..|n| - 3] + n[|n| - 3..] == n;
    }
  }

  /** The id fallback is the full file name, suffix included. */
  lemma IdFallback(fp: FilePath, h: Header)
    ensures Truthy(h.id).Some? ==> IdOf(fp, h) == h.id.value && IdOf(fp, h) != ""
    ensures Truthy(h.id).None? ==> IdOf(fp, h) == fp.name
    ensures h.id == Some("") ==> IdOf(fp, h) == fp.name
  {
  }

  /** Missing tags become the empty list; present tags, even an empty list, are kept. */
  lemma TagsFallback(h: Header)
    ensures h.tags.None? ==> TagsOf(h) == []
    ensures h.tags.Some? ==> TagsOf(h) == h.tags.value
  {
  }

  /** The file paths of a scan, in scan order. */
  function Paths(notes: seq<ScannedNote>): (ps: seq<FilePath>)
    ensures |ps| == |notes|
    ensures forall i :: 0 <= i < |notes| ==> ps[i] == notes[i].filepath
  {
    if notes == [] then [] else Paths(notes[..|notes| - 1]) + [notes[|notes| - 1].filepath]
  }

  /** The outcome of scanning one listed name. */
  function ScanOne(vault: string, name: string, read: Reader): seq<ScannedNote>
  {
    if !IsMarkdown(name) then []
    else
      match read(FilePath(vault, name))
      case None => []
      case Some(p) => [ScannedNote(FilePath(vault, name), p.content, p.data)]
  }

  /** A one-name scan holds at most the entry read for that name, and holds it whenever the read succeeds. */
  lemma ScanOneFacts(vault: string, name: string, read: Reader)
    ensures var one := ScanOne(vault, name, read);
            && |one| <= 1
            && (forall i :: 0 <= i < |one| ==>
                  && one[i].filepath == FilePath(vault, name)
                  && IsMarkdown(name)
                  && read(one[i].filepath) == Some(Parsed(one[i].header, one[i].content)))
            && (IsMarkdown(name) && read(FilePath(vault, name)).Some? ==> Paths(one) == [FilePath(vault, name)])
  {
  }

  lemma PathsAppend(a: seq<ScannedNote>, b: seq<ScannedNote>)
    ensures Paths(a + b) == Paths(a) + Paths(b)
  {
  }

  /** Every entry comes from a listed `.md` name of the vault and carries what its read produced. */
  predicate ScanSound(vault: string, names: seq<string>, read: Reader, r: seq<ScannedNote>)
  {
    forall i :: 0 <= i < |r| ==>
      && r[i].filepath.vault == vault
      && r[i].filepath.name in names
      && IsMarkdown(r[i].filepath.name)
      && read(r[i].filepath) == Some(Parsed(r[i].header, r[i].content))
  }

  /** Every listed `.md` name whose read succeeds has an entry. */
  predicate ScanComplete(vault: string, names: seq<string>, read: Reader, r: seq<ScannedNote>)
  {
    forall name :: name in names && IsMarkdown(name) && read(FilePath(vault, name)).Some? ==>
      FilePath(vault, name) in Paths(r)
  }

  /** Scanning one more name keeps the scan sound. */
  lemma ScanSoundSnoc(vault: string, init: seq<string>, last: string, read: Reader, front: seq<ScannedNote>)
    requires ScanSound(vault, init, read, front)
    ensures ScanSound(vault, init + [last], read, front + ScanOne(vault, last, read))
  {
    var one := ScanOne(vault, last, read);
    var r := front + one;
    ScanOneFacts(vault, last, read);
    forall i | 0 <= i < |r|
      ensures r[i].filepath.vault == vault && r[i].filepath.name in init + [last]
      ensures IsMarkdown(r[i].filepath.name) && read(r[i].filepath) == Some(Parsed(r[i].header, r[i].content))
    {
      if i < |front| {
        assert r[i] == front[i];
      } else {
        assert r[i] == one[i - |front|];
      }
    }
  }

  /** Scanning one more name keeps the scan complete. */
  lemma ScanCompleteSnoc(vault: string, init: seq<string>, last: string, read: Reader, front: seq<ScannedNote>)
    requires ScanComplete(vault, init, read, front)
    ensures ScanComplete(vault, init + [last], read, front + ScanOne(vault, last, read))
  {
    var one := ScanOne(vault, last, read);
    ScanOneFacts(vault, last, read);
    PathsAppend(front, one);
    forall name | name in init + [last] && IsMarkdown(name) && read(FilePath(vault, name)).Some?
      ensures FilePath(vault, name) in Paths(front + one)
    {
      if name in init {
        assert FilePath(vault, name) in Paths(front);
      } else {
        assert name == last;
      }
    }
  }

  /** `readAllNotes`: keep `.md` names in listing order, skipping files that fail to read or parse. */
  function Scan(vault: string, names: seq<string>, read: Reader): (r: seq<ScannedNote>)
    ensures |r| <= |names|
    ensures ScanSound(vault, names, read, r)
    ensures ScanComplete(vault, names, read, r)
  {
    if names == [] then []
    else
      var init := names[..|names| - 1];
      var last := names[|names| - 1];
      var front := Scan(vault, init, read);
      ScanSoundSnoc(vault, init, last, read, front);
      ScanCompleteSnoc(vault, init, last, read, front);
      assert names == init + [last];
      front + ScanOne(vault, last, read)
  }

  /** The scan of a listing is the scan of its parts, in order. */
  lemma {:induction false} ScanAppend(vault: string, a: seq<string>, b: seq<string>, read: Reader)
    ensures Scan(vault, a + b, read) == Scan(vault, a, read) + Scan(vault, b, read)
    decreases |b|
  {
    if b == [] {
      assert a + b == a;
    } else {
      var b' := b[..|b| - 1];
      var last := b[|b| - 1];
      assert a + b == (a + b') + [last];
      assert b == b' + [last];
      ScanUnfold(vault, a + b', last, read);
      ScanUnfold(vault, b', last, read);
      ScanAppend(vault, a, b', read);
      AppendAssoc(Scan(vault, a, read), Scan(vault, b', read), ScanOne(vault, last, read));
    }
  }

  /** Scanning one more name appends that name's outcome. */
  lemma ScanUnfold(vault: string, init: seq<string>, last: string, read: Reader)
    ensures Scan(vault, init + [last], read) == Scan(vault, init, read) + ScanOne(vault, last, read)
  {
    assert (init + [last])[..|init|] == init;
  }

  /** The entries of a scan except the one for `fp`. */
  function Without(notes: seq<ScannedNote>, fp: FilePath): (r: seq<ScannedNote>)
    ensures forall n :: n in r <==> n in notes && n.filepath != fp
  {
    if notes == [] then []
    else
      var last := notes[|notes| - 1];
      var r := Without(notes[..|notes| - 1], fp) + (if last.filepath == fp then [] else [last]);
      assert forall n :: n in notes ==> n in notes[..|notes| - 1] || n == last;
      r
  }

  /**
   Failure isolation: if reading `bad` fails while every other file reads as
   before, the scan loses exactly the entry for `bad` and nothing else.
   */
  lemma {:induction false} ScanIsolatesFailure(vault: string, names: seq<string>, read: Reader, read': Reader, bad: FilePath)
    requires read'(bad) == None
    requires forall fp :: fp != bad ==> read'(fp) == read(fp)
    ensures Scan(vault, names, read') == Without(Scan(vault, names, read), bad)
    decreases |names|
  {
    if names != [] {
      var init := names[..|names| - 1];
      var last := names[|names| - 1];
      ScanIsolatesFailure(vault, init, read, read', bad);
      assert Scan(vault, names, read) == Scan(vault, init, read) + ScanOne(vault, last, read);
      assert Scan(vault, names, read') == Scan(vault, init, read') + ScanOne(vault, last, read');
      ScanOneIsolatesFailure(vault, last, read, read', bad);
      WithoutAppend(Scan(vault, init, read), ScanOne(vault, last, read), bad);
    }
  }

  lemma ScanOneIsolatesFailure(vault: string, name: string, read: Reader, read': Reader, bad: FilePath)
    requires read'(bad) == None
    requires forall fp :: fp != bad ==> read'(fp) == read(fp)
    ensures |ScanOne(vault, name, read)| <= 1
    ensures ScanOne(vault, name, read') == Without(ScanOne(vault, name, read), bad)
  {
    var one := ScanOne(vault, name, read);
    if one != [] {
      assert one[..0] == [];
      assert Without([], bad) == [];
    }
  }

  lemma {:induction false} WithoutAppend(a: seq<ScannedNote>, b: seq<ScannedNote>, fp: FilePath)
    requires |b| <= 1
    ensures Without(a + b, fp) == Without(a, fp) + Without(b, fp)
  {
    if b != [] {
      var ab := a + b;
      assert ab[..|ab| - 1] == a;
      assert ab[|ab| - 1] == b[0];
      assert Without(ab, fp) == Without(a, fp) + (if b[0].filepath == fp then [] else [b[0]]);
      assert b[..0] == [];
      assert Without([], fp) == [];
      assert Without(b, fp) == (if b[0].filepath == fp then [] else [b[0]]);
    } else {
      assert a + b == a;
    }
  }

  /** A listing without repeated names (as `readdir` returns) scans to distinct paths. */
  lemma {:induction false} ScanDistinct(vault: string, names: seq<string>, read: Reader)
    requires Distinct(names)
    ensures Distinct(Paths(Scan(vault, names, read)))
    decreases |names|
  {
    if names != [] {
      var init := names[..|names| - 1];
      var last := names[|names| - 1];
      ScanDistinct(vault, init, read);
      var s := Scan(vault, init, read);
      var one := ScanOne(vault, last, read);
      assert Scan(vault, names, read) == s + one;
      PathsAppend(s, one);
      ScanOneFacts(vault, last, read);
      if one != [] {
        assert last !in init;
        assert FilePath(vault, last) !in Paths(s);
        DistinctSnoc(Paths(s), FilePath(vault, last));
      }
    }
  }
}
