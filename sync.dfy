/**
 * The incremental sync of a folder of Markdown files into a ChromaDB collection
 * (sync-raw-data.py).
 *
 * The identifiers already in the collection are fetched once and turned into a set.
 * The folder is then walked directory by directory; every file whose name ends in
 * ".md" and is not in that set is read, and on a successful read its name, its text
 * and the metadata {"source": name} are appended to three parallel lists. The lists
 * are handed to one `add` call, and only when they are non-empty.
 *
 * The walk is given as the sequence of directories `os.walk` yields (each with the
 * names of the files directly in it), the file system as a function from a path to
 * the text read there (None when the read raises), and the `add` call as the batch
 * it would be called with.
 */
module Sync {
  import opened Wrappers

  /** The folder the walk starts from. */
  const DocsFolder: string := "./raw-data"
  /** Only file names with this suffix are considered. */
  const Extension: string := ".md"
  /** The single metadata key every queued document carries. */
  const SourceKey: string := "source"

  /** One step of `os.walk`: a directory path and the names of the files directly in it. */
  datatype Dir = Dir(root: string, files: seq<string>)

  /** One file met by the walk: the directory it is in and its base name. */
  datatype Entry = Entry(root: string, name: string)

  type Metadata = map<string, string>

  /** The three parallel lists `new_ids`, `new_documents` and `new_metadatas`. */
  datatype Batch = Batch(ids: seq<string>, documents: seq<string>, metadatas: seq<Metadata>)

  /** Reads the file at a path as UTF-8 text; None when `open` or `read` raises. */
  type Reader = string -> Option<string>

  const EmptyBatch: Batch := Batch([], [], [])

  /** Python's `s.endswith(suffix)`: the last |suffix| characters of `s` are, one by one,
      the characters of `suffix`. */
  predicate EndsWith(s: string, suffix: string)
    ensures EndsWith(s, suffix) <==>
      |suffix| <= |s| && forall k :: 0 <= k < |suffix| ==> s[|s| - |suffix| + k] == suffix[k]
  {
    |suffix| <= |s| && s[|s| - |suffix|..] == suffix
  }

  /** `s.endswith(suffix)` holds exactly when `s` is something followed by `suffix`. */
  lemma EndsWithIsSuffix(s: string, suffix: string)
    ensures EndsWith(s, suffix) <==> exists p: string :: p + suffix == s
  {
    if EndsWith(s, suffix) {
      var p := s[..|s| - |suffix|];
      assert p + suffix == s;
    }
    if exists p: string :: p + suffix == s {
      var p: string :| p + suffix == s;
      assert s[|s| - |suffix|..] == suffix;
    }
  }

  /** `os.path.join(root, name)` on POSIX: an absolute name replaces the root, otherwise
      a '/' is inserted unless the root is empty or already ends with one. */
  function PathJoin(root: string, name: string): (path: string)
    ensures EndsWith(path, name)
    ensures (name == [] || name[0] != '/') ==> |root| <= |path| && path[..|root|] == root
    ensures (name == [] || name[0] != '/') ==> |path| <= |root| + 1 + |name|
  {
    if |name| > 0 && name[0] == '/' then name
    else if root == [] || root[|root| - 1] == '/' then root + name
    else root + "/" + name
  }

  /** The files of one directory, in listing order. */
  function DirEntries(d: Dir): seq<Entry> {
    seq(|d.files|, k requires 0 <= k < |d.files| => Entry(d.root, d.files[k]))
  }

  /** How many files the walk lists, over all its directories. */
  function FileCount(walk: seq<Dir>): nat {
    if walk == [] then 0 else FileCount(walk[..|walk| - 1]) + |walk[|walk| - 1].files|
  }

  /** The files of the whole walk, in the order the two nested loops meet them: one
      entry per listed file. */
  function Entries(walk: seq<Dir>): (es: seq<Entry>)
    ensures |es| == FileCount(walk)
  {
    if walk == [] then [] else Entries(walk[..|walk| - 1]) + DirEntries(walk[|walk| - 1])
  }

  /** Every file of every directory is met by the walk, and nothing else is. */
  lemma {:induction false} EntriesMembers(walk: seq<Dir>, e: Entry)
    ensures e in Entries(walk) <==> exists i :: 0 <= i < |walk| && walk[i].root == e.root && e.name in walk[i].files
  {
    if walk != [] {
      var n := |walk|;
      var init := walk[..n - 1];
      EntriesMembers(init, e);
      assert e in DirEntries(walk[n - 1]) <==> walk[n - 1].root == e.root && e.name in walk[n - 1].files by {
        if e.name in walk[n - 1].files && walk[n - 1].root == e.root {
          var k :| 0 <= k < |walk[n - 1].files| && walk[n - 1].files[k] == e.name;
          assert DirEntries(walk[n - 1])[k] == e;
        }
      }
      if exists i :: 0 <= i < n && walk[i].root == e.root && e.name in walk[i].files {
        var i :| 0 <= i < n && walk[i].root == e.root && e.name in walk[i].files;
        if i < n - 1 {
          assert init[i] == walk[i];
        }
      }
      if e in Entries(init) {
        var i :| 0 <= i < n - 1 && init[i].root == e.root && e.name in init[i].files;
        assert walk[i] == init[i];
      }
    }
  }

  /** An entry is queued when its name ends in ".md", is not among the identifiers
      fetched at the start, and its file could be read. */
  predicate Queued(existing: set<string>, read: Reader, e: Entry) {
    EndsWith(e.name, Extension) && e.name !in existing && read(PathJoin(e.root, e.name)).Some?
  }

  /** The body of the inner loop, applied to the batch built so far: an entry that is not
      queued leaves it as it was, a queued one appends its name, the text read and its
      metadata to the three lists. */
  function Visit(existing: set<string>, read: Reader, b: Batch, e: Entry): (r: Batch)
    ensures !Queued(existing, read, e) ==> r == b
    ensures Queued(existing, read, e) ==>
      r == Concat(b, Batch([e.name], [read(PathJoin(e.root, e.name)).value], [map[SourceKey := e.name]]))
  {
    if !EndsWith(e.name, Extension) then b
    else if e.name in existing then b
    else match read(PathJoin(e.root, e.name))
      case None => b
      case Some(text) => Batch(b.ids + [e.name], b.documents + [text], b.metadatas + [map[SourceKey := e.name]])
  }

  /** The batch built from the entries `es`, visited in order against the fixed set
      `existing`. The three lists stay parallel, each metadata names its identifier,
      and every identifier is a ".md" name absent from `existing`. */
  function Plan(existing: set<string>, read: Reader, es: seq<Entry>): (b: Batch)
    ensures |b.ids| == |b.documents| == |b.metadatas| <= |es|
    ensures forall i :: 0 <= i < |b.ids| ==> b.metadatas[i] == map[SourceKey := b.ids[i]]
    ensures forall i :: 0 <= i < |b.ids| ==> EndsWith(b.ids[i], Extension) && b.ids[i] !in existing
  {
    if es == [] then EmptyBatch
    else Visit(existing, read, Plan(existing, read, es[..|es| - 1]), es[|es| - 1])
  }

  function Concat(a: Batch, b: Batch): Batch {
    Batch(a.ids + b.ids, a.documents + b.documents, a.metadatas + b.metadatas)
  }

  /** Reference definition: the entries that are queued, in walk order. */
  function Kept(existing: set<string>, read: Reader, es: seq<Entry>): seq<Entry> {
    if es == [] then []
    else (if Queued(existing, read, es[0]) then [es[0]] else []) + Kept(existing, read, es[1..])
  }

  lemma VisitConcat(existing: set<string>, read: Reader, a: Batch, b: Batch, e: Entry)
    ensures Visit(existing, read, Concat(a, b), e) == Concat(a, Visit(existing, read, b, e))
  {
    if Queued(existing, read, e) {
      var text := read(PathJoin(e.root, e.name)).value;
      assert (a.ids + b.ids) + [e.name] == a.ids + (b.ids + [e.name]);
      assert (a.documents + b.documents) + [text] == a.documents + (b.documents + [text]);
      assert (a.metadatas + b.metadatas) + [map[SourceKey := e.name]]
          == a.metadatas + (b.metadatas + [map[SourceKey := e.name]]);
    }
  }

  /** Planning a walk split in two is planning each part and concatenating the batches:
      what one file contributes does not depend on the files before it. */
  lemma {:induction false} PlanAppend(existing: set<string>, read: Reader, xs: seq<Entry>, ys: seq<Entry>)
    ensures Plan(existing, read, xs + ys) == Concat(Plan(existing, read, xs), Plan(existing, read, ys))
  {
    var a := Plan(existing, read, xs);
    if ys == [] {
      assert xs + ys == xs;
      assert a.ids + [] == a.ids && a.documents + [] == a.documents && a.metadatas + [] == a.metadatas;
    } else {
      var init, last := ys[..|ys| - 1], ys[|ys| - 1];
      assert (xs + ys)[..|xs + ys| - 1] == xs + init;
      assert (xs + ys)[|xs + ys| - 1] == last;
      PlanAppend(existing, read, xs, init);
      VisitConcat(existing, read, a, Plan(existing, read, init), last);
    }
  }

  /** Visiting one more entry extends the plan by that entry's step. */
  lemma PlanSnoc(existing: set<string>, read: Reader, xs: seq<Entry>, e: Entry)
    ensures Plan(existing, read, xs + [e]) == Visit(existing, read, Plan(existing, read, xs), e)
  {
    assert (xs + [e])[..|xs|] == xs;
  }

  lemma EntriesSnoc(walk: seq<Dir>, i: nat)
    requires i < |walk|
    ensures Entries(walk[..i + 1]) == Entries(walk[..i]) + DirEntries(walk[i])
  {
    assert walk[..i + 1][..i] == walk[..i];
  }

  /** One entry on its own is queued exactly when `Queued` says so. */
  lemma PlanSingle(existing: set<string>, read: Reader, e: Entry)
    ensures Plan(existing, read, [e]) ==
      if Queued(existing, read, e)
      then Batch([e.name], [read(PathJoin(e.root, e.name)).value], [map[SourceKey := e.name]])
      else EmptyBatch
  {
    assert [e][..0] == [];
  }

  /** An entry that is not queued (not ".md", already present, or unreadable) leaves all
      three lists unchanged, and the walk goes on with the entries after it. */
  lemma SkippedEntryChangesNothing(existing: set<string>, read: Reader, xs: seq<Entry>, e: Entry, zs: seq<Entry>)
    requires !Queued(existing, read, e)
    ensures Plan(existing, read, xs + [e] + zs) == Concat(Plan(existing, read, xs), Plan(existing, read, zs))
  {
    PlanAppend(existing, read, xs + [e], zs);
    PlanAppend(existing, read, xs, [e]);
    PlanSingle(existing, read, e);
    var a := Plan(existing, read, xs);
    assert a.ids + [] == a.ids && a.documents + [] == a.documents && a.metadatas + [] == a.metadatas;
  }

  /** The batch against the reference definition: the identifiers are the names of the
      queued entries in walk order, and the i-th document is the text read from the
      i-th queued file. */
  lemma {:induction false} PlanFollowsWalk(existing: set<string>, read: Reader, es: seq<Entry>)
    ensures |Plan(existing, read, es).ids| == |Kept(existing, read, es)|
    ensures forall i :: 0 <= i < |Kept(existing, read, es)| ==>
      Plan(existing, read, es).ids[i] == Kept(existing, read, es)[i].name &&
      read(PathJoin(Kept(existing, read, es)[i].root, Kept(existing, read, es)[i].name))
        == Some(Plan(existing, read, es).documents[i])
  {
    if es != [] {
      var e, rest := es[0], es[1..];
      assert es == [e] + rest;
      PlanAppend(existing, read, [e], rest);
      PlanSingle(existing, read, e);
      PlanFollowsWalk(existing, read, rest);
      var b, k := Plan(existing, read, es), Kept(existing, read, es);
      var br, kr := Plan(existing, read, rest), Kept(existing, read, rest);
      if Queued(existing, read, e) {
        assert k == [e] + kr;
        forall i | 0 <= i < |k|
          ensures b.ids[i] == k[i].name && read(PathJoin(k[i].root, k[i].name)) == Some(b.documents[i])
        {
          if i > 0 {
            assert b.ids[i] == br.ids[i - 1] && b.documents[i] == br.documents[i - 1] && k[i] == kr[i - 1];
          }
        }
      } else {
        assert k == kr;
        assert b == Concat(EmptyBatch, br);
        assert b.ids == br.ids && b.documents == br.documents;
      }
    }
  }

  /** The entries kept by the reference definition are exactly the queued ones of the walk. */
  lemma {:induction false} KeptMembers(existing: set<string>, read: Reader, es: seq<Entry>, e: Entry)
    ensures e in Kept(existing, read, es) <==> e in es && Queued(existing, read, e)
  {
    if es != [] {
      KeptMembers(existing, read, es[1..], e);
      assert es == [es[0]] + es[1..];
    }
  }

  /** A name is queued exactly when some file of the walk with that name is a ".md" file,
      is not already in the collection and could be read. */
  lemma {:induction false} QueuedIff(existing: set<string>, read: Reader, es: seq<Entry>, n: string)
    ensures n in Plan(existing, read, es).ids <==>
      exists e :: e in es && e.name == n && Queued(existing, read, e)
  {
    if n in Plan(existing, read, es).ids {
      var e := QueuedWitness(existing, read, es, n);
    }
    if exists e :: e in es && e.name == n && Queued(existing, read, e) {
      var e :| e in es && e.name == n && Queued(existing, read, e);
      QueuedNameInPlan(existing, read, es, e);
    }
  }

  lemma {:induction false} QueuedWitness(existing: set<string>, read: Reader, es: seq<Entry>, n: string) returns (e: Entry)
    requires n in Plan(existing, read, es).ids
    ensures e in es && e.name == n && Queued(existing, read, e)
  {
    PlanFollowsWalk(existing, read, es);
    var b, k := Plan(existing, read, es), Kept(existing, read, es);
    var i :| 0 <= i < |b.ids| && b.ids[i] == n;
    e := k[i];
    KeptMembers(existing, read, es, e);
  }

  lemma {:induction false} QueuedNameInPlan(existing: set<string>, read: Reader, es: seq<Entry>, e: Entry)
    requires e in es && Queued(existing, read, e)
    ensures e.name in Plan(existing, read, es).ids
  {
    PlanFollowsWalk(existing, read, es);
    var b, k := Plan(existing, read, es), Kept(existing, read, es);
    KeptMembers(existing, read, es, e);
    var i :| 0 <= i < |k| && k[i] == e;
    assert b.ids[i] == e.name;
  }

  /** The batch is empty exactly when no file of the walk is queued. In particular a
      re-run over a folder whose ".md" names are all in the collection adds nothing. */
  lemma {:induction false} EmptyPlanIff(existing: set<string>, read: Reader, es: seq<Entry>)
    ensures Plan(existing, read, es).ids == [] <==> forall e :: e in es ==> !Queued(existing, read, e)
  {
    var ids := Plan(existing, read, es).ids;
    if ids != [] {
      QueuedIff(existing, read, es, ids[0]);
    }
    forall e | e in es && Queued(existing, read, e)
      ensures ids != []
    {
      QueuedIff(existing, read, es, e.name);
    }
  }

  /** Running the sync a second time over the same folder, once the first batch is in
      the collection, plans an empty batch: every file the first run could read is now
      present, and every file it could not read fails again. */
  lemma SecondRunPlansNothing(existing: set<string>, read: Reader, es: seq<Entry>)
    ensures Plan(existing + (set n | n in Plan(existing, read, es).ids), read, es).ids == []
  {
    var first := set n | n in Plan(existing, read, es).ids;
    forall e | e in es
      ensures !Queued(existing + first, read, e)
    {
      if Queued(existing, read, e) {
        QueuedNameInPlan(existing, read, es, e);
        assert e.name in first;
      }
    }
    EmptyPlanIff(existing + first, read, es);
  }

  /** The skip test looks only at the identifiers fetched before the loop, which the
      loop never extends: two queued files with the same base name, met anywhere in the
      walk, put that name in the batch twice. */
  lemma DuplicateNamesBothQueued(existing: set<string>, read: Reader,
                                 xs: seq<Entry>, e1: Entry, ys: seq<Entry>, e2: Entry, zs: seq<Entry>)
    requires e1.name == e2.name
    requires Queued(existing, read, e1) && Queued(existing, read, e2)
    ensures multiset(Plan(existing, read, xs + [e1] + ys + [e2] + zs).ids)[e1.name] >= 2
  {
    PlanAppend(existing, read, xs + [e1] + ys + [e2], zs);
    PlanAppend(existing, read, xs + [e1] + ys, [e2]);
    PlanAppend(existing, read, xs + [e1], ys);
    PlanAppend(existing, read, xs, [e1]);
    PlanSingle(existing, read, e1);
    PlanSingle(existing, read, e2);
    var ids := Plan(existing, read, xs + [e1] + ys + [e2] + zs).ids;
    assert ids == Plan(existing, read, xs).ids + [e1.name] + Plan(existing, read, ys).ids
                  + [e2.name] + Plan(existing, read, zs).ids;
  }

  /** The collection holds "a.md" and "b.md" and the folder holds "a.md", "c.md" and
      "d.md": the run queues "c.md" then "d.md", and skips "a.md". */
  lemma ExampleSkipsExisting(read: Reader)
    requires forall p :: read(p).Some?
    ensures Plan({"a.md", "b.md"}, read, Entries([Dir(DocsFolder, ["a.md", "c.md", "d.md"])])).ids
            == ["c.md", "d.md"]
  {
    var d := Dir(DocsFolder, ["a.md", "c.md", "d.md"]);
    var ea, ec, ed := Entry(DocsFolder, "a.md"), Entry(DocsFolder, "c.md"), Entry(DocsFolder, "d.md");
    assert Entries([d]) == [ea] + [ec] + [ed] by {
      EntriesSnoc([d], 0);
      assert [d][..0] == [] && [d][..1] == [d];
      assert DirEntries(d) == [ea, ec, ed];
    }
    var existing: set<string> := {"a.md", "b.md"};
    PlanAppend(existing, read, [ea] + [ec], [ed]);
    PlanAppend(existing, read, [ea], [ec]);
    PlanSingle(existing, read, ea);
    PlanSingle(existing, read, ec);
    PlanSingle(existing, read, ed);
  }

  /** Two readable files both named "notes.md", one in the top folder and one in a
      sub-folder, with an empty collection: both are queued under the same identifier. */
  lemma ExampleDuplicateBaseName(read: Reader)
    requires forall p :: read(p).Some?
    ensures Plan({}, read, Entries([Dir(DocsFolder, ["notes.md"]), Dir(DocsFolder + "/sub", ["notes.md"])])).ids
            == ["notes.md", "notes.md"]
  {
    var top, sub := Dir(DocsFolder, ["notes.md"]), Dir(DocsFolder + "/sub", ["notes.md"]);
    var e1, e2 := Entry(DocsFolder, "notes.md"), Entry(DocsFolder + "/sub", "notes.md");
    assert Entries([top, sub]) == [e1, e2] by {
      EntriesSnoc([top, sub], 1);
      EntriesSnoc([top, sub], 0);
      assert [top, sub][..0] == [] && [top, sub][..1] == [top] && [top, sub][..2] == [top, sub];
      assert DirEntries(top) == [e1] && DirEntries(sub) == [e2];
    }
    assert [e1, e2] == [e1] + [e2];
    PlanAppend({}, read, [e1], [e2]);
    PlanSingle({}, read, e1);
    PlanSingle({}, read, e2);
  }

  /** The two nested loops of the scan over the walk, building the three lists. */
  method PlanBatch(existing: set<string>, walk: seq<Dir>, read: Reader)
    returns (newIds: seq<string>, newDocuments: seq<string>, newMetadatas: seq<Metadata>)
    ensures Batch(newIds, newDocuments, newMetadatas) == Plan(existing, read, Entries(walk))
  {
    newIds, newDocuments, newMetadatas := [], [], [];
    ghost var seen: seq<Entry> := [];
    for i := 0 to |walk|
      invariant seen == Entries(walk[..i])
      invariant Batch(newIds, newDocuments, newMetadatas) == Plan(existing, read, seen)
    {
      var root, files := walk[i].root, walk[i].files;
      ghost var before := seen;
      for j := 0 to |files|
        invariant seen == before + DirEntries(walk[i])[..j]
        invariant Batch(newIds, newDocuments, newMetadatas) == Plan(existing, read, seen)
      {
        ghost var e := Entry(root, files[j]);
        ghost var next := Visit(existing, read, Batch(newIds, newDocuments, newMetadatas), e);
        PlanSnoc(existing, read, seen, e);
        assert DirEntries(walk[i])[..j + 1] == DirEntries(walk[i])[..j] + [e];
        seen := seen + [e];
        assert Plan(existing, read, seen) == next;
        var filename := files[j];
        if EndsWith(filename, Extension) {
          var fileId := filename;
          if fileId in existing {
            assert Batch(newIds, newDocuments, newMetadatas) == next;
            continue;
          }
          var filePath := PathJoin(root, filename);
          match read(filePath) {
            case None =>
              assert Batch(newIds, newDocuments, newMetadatas) == next;
            case Some(textContent) =>
              newIds := newIds + [fileId];
              newDocuments := newDocuments + [textContent];
              newMetadatas := newMetadatas + [map[SourceKey := filename]];
              assert Batch(newIds, newDocuments, newMetadatas) == next;
          }
        } else {
          assert Batch(newIds, newDocuments, newMetadatas) == next;
        }
      }
      assert DirEntries(walk[i])[..|files|] == DirEntries(walk[i]);
      EntriesSnoc(walk, i);
    }
    assert walk[..|walk|] == walk;
  }

  /** One sync run: turn the identifiers listed by the collection into a set, plan the
      batch, and call `add` with the whole batch exactly when it is non-empty. The
      result is the argument of that one `add` call, or None when no call is made. */
  method SyncRun(storedIds: seq<string>, walk: seq<Dir>, read: Reader) returns (added: Option<Batch>)
    ensures added.None? <==> Plan((set id | id in storedIds), read, Entries(walk)).ids == []
    ensures added.Some? ==> added.value == Plan((set id | id in storedIds), read, Entries(walk))
  {
    var existingIds := set id | id in storedIds;
    var newIds, newDocuments, newMetadatas := PlanBatch(existingIds, walk, read);
    if |newIds| > 0 {
      added := Some(Batch(newIds, newDocuments, newMetadatas));
    } else {
      added := None;
    }
  }
}
