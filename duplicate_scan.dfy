/** The scan of `find_duplicate_files.py`: files are grouped by (name, size)
    and only the groups found in more than one directory are kept. The
    directory walk arrives as its flattened list of entries, in walk order;
    an entry whose size could not be read carries no size. */
module DuplicateScan {
  import opened Text
  import opened AssocList

  datatype FileKey = FileKey(name: string, size: nat)

  /** One file the walk reports: its directory, its name, and its size, or
      `None` when `os.path.getsize` raised. */
  datatype Entry = Entry(dir: string, name: string, size: Option<nat>)

  /** The whole walk, or the failure that makes the scan return `{}`. */
  datatype Walk = Walked(entries: seq<Entry>) | WalkFailed

  /** A key and the directories holding a file with that key. */
  type Group = Binding<FileKey, string>

  predicate HasKey(e: Entry, k: FileKey)
  {
    e.size == Some(k.size) && e.name == k.name
  }

  /** The directories of the readable files with key `k`, in walk order. */
  function DirsOf(es: seq<Entry>, k: FileKey): seq<string>
  {
    if es == [] then []
    else DirsOf(es[..|es| - 1], k) + if HasKey(es[|es| - 1], k) then [es[|es| - 1].dir] else []
  }

  /** The number of entries whose size could be read. */
  function ReadableCount(es: seq<Entry>): nat
  {
    if es == [] then 0
    else ReadableCount(es[..|es| - 1]) + if es[|es| - 1].size.Some? then 1 else 0
  }

  /** `file_map` after the walk. */
  function FileMap(es: seq<Entry>): seq<Group>
  {
    if es == [] then []
    else
      var m := FileMap(es[..|es| - 1]);
      var e := es[|es| - 1];
      if e.size.Some? then Append(m, FileKey(e.name, e.size.value), e.dir) else m
  }

  /** `file_map` holds, under each key, the directory of every readable file
      with that key, each once and in walk order; its keys are distinct, its
      lists non-empty, and it stores one directory per readable file. */
  lemma FileMapContents(es: seq<Entry>)
    ensures DistinctKeys(FileMap(es)) && NonEmptyValues(FileMap(es))
    ensures Total(FileMap(es)) == ReadableCount(es)
    ensures forall k :: Lookup(FileMap(es), k) == DirsOf(es, k)
  {
    FileMapInvariant(es);
    forall k ensures Lookup(FileMap(es), k) == DirsOf(es, k) {
      FileMapLookup(es, k);
    }
  }

  lemma {:induction false} FileMapInvariant(es: seq<Entry>)
    ensures DistinctKeys(FileMap(es)) && NonEmptyValues(FileMap(es))
    ensures Total(FileMap(es)) == ReadableCount(es)
  {
    if es != [] {
      var init, e := es[..|es| - 1], es[|es| - 1];
      FileMapInvariant(init);
      if e.size.Some? {
        AppendInvariant(FileMap(init), FileKey(e.name, e.size.value), e.dir);
      }
    }
  }

  lemma {:induction false} FileMapLookup(es: seq<Entry>, k: FileKey)
    ensures Lookup(FileMap(es), k) == DirsOf(es, k)
  {
    if es != [] {
      var init, e := es[..|es| - 1], es[|es| - 1];
      FileMapLookup(init, k);
      if e.size.Some? {
        LookupAppend(FileMap(init), FileKey(e.name, e.size.value), e.dir, k);
      }
    }
  }

  lemma {:induction false} DirsOfAppend(a: seq<Entry>, b: seq<Entry>, k: FileKey)
    ensures DirsOf(a + b, k) == DirsOf(a, k) + DirsOf(b, k)
  {
    if b != [] {
      assert (a + b)[..|a + b| - 1] == a + b[..|b| - 1];
      DirsOfAppend(a, b[..|b| - 1], k);
    } else {
      assert a + b == a;
    }
  }

  /** A file whose size cannot be read is skipped and the scan goes on with
      the files after it. */
  lemma UnreadableSkipped(before: seq<Entry>, e: Entry, after: seq<Entry>, k: FileKey)
    requires e.size.None?
    ensures DirsOf(before + [e] + after, k) == DirsOf(before + after, k)
  {
    DirsOfAppend(before + [e], after, k);
    DirsOfAppend(before, [e], k);
    DirsOfAppend(before, after, k);
    assert DirsOf([e], k) == [] by { assert [e][..0] == []; }
  }

  /** What one entry of the file map contributes to the result. */
  function KeptIfDuplicated(g: Group): seq<Group>
  {
    if |g.values| > 1 then [g] else []
  }

  /** `{k: v for k, v in m.items() if len(v) > 1}`. */
  function Duplicates(m: seq<Group>): seq<Group>
  {
    if m == [] then [] else Duplicates(m[..|m| - 1]) + KeptIfDuplicated(m[|m| - 1])
  }

  lemma {:induction false} DuplicatesIff(m: seq<Group>, g: Group)
    ensures g in Duplicates(m) <==> g in m && |g.values| > 1
  {
    if m != [] {
      DuplicatesIff(m[..|m| - 1], g);
      InitLast(m);
    }
  }

  /** Filtering keeps keys distinct. */
  lemma {:induction false} DuplicatesDistinct(m: seq<Group>)
    requires DistinctKeys(m)
    ensures DistinctKeys(Duplicates(m))
  {
    if m != [] {
      var init, last := m[..|m| - 1], m[|m| - 1];
      DuplicatesDistinct(init);
      var d := Duplicates(init);
      if |last.values| > 1 {
        forall i | 0 <= i < |d| ensures d[i].key != last.key {
          DuplicatesIff(init, d[i]);
          var j :| 0 <= j < |init| && init[j] == d[i];
          assert m[j] == init[j];
        }
        var n := d + [last];
        forall i, j | 0 <= i < j < |n| ensures n[i].key != n[j].key {
          if j < |d| {
            assert n[i] == d[i] && n[j] == d[j];
          }
        }
      }
    }
  }

  /** Filtering keeps the surviving groups under their keys: a key keeps its
      list when it has more than one directory and is gone otherwise. */
  lemma {:induction false} DuplicatesLookup(m: seq<Group>, k: FileKey)
    requires DistinctKeys(m)
    ensures Lookup(Duplicates(m), k) == if |Lookup(m, k)| > 1 then Lookup(m, k) else []
  {
    if m != [] {
      var init, last := m[..|m| - 1], m[|m| - 1];
      DistinctKeysInit(m);
      DuplicatesLookup(init, k);
      var d := Duplicates(init);
      InitLast(m);
      LookupSnoc(init, last, k);
      if |last.values| > 1 {
        LookupSnoc(d, last, k);
      } else {
        assert d + KeptIfDuplicated(last) == d;
      }
    }
  }

  /** `find_duplicate_files`. */
  method FindDuplicateFiles(walk: Walk) returns (dups: seq<Group>)
    ensures walk.WalkFailed? ==> dups == []
    ensures walk.Walked? ==> dups == Duplicates(FileMap(walk.entries))
  {
    dups := [];
    if walk.WalkFailed? {
      return;
    }
    var es := walk.entries;
    var fileMap: seq<Group> := [];
    var i := 0;
    while i < |es|
      invariant 0 <= i <= |es|
      invariant fileMap == FileMap(es[..i])
    {
      var e := es[i];
      if e.size.Some? {
        fileMap := Append(fileMap, FileKey(e.name, e.size.value), e.dir);
      }
      assert es[..i + 1][..i] == es[..i];
      i := i + 1;
    }
    assert es[..i] == es;
    var j := 0;
    while j < |fileMap|
      invariant 0 <= j <= |fileMap|
      invariant dups == Duplicates(fileMap[..j])
    {
      if |fileMap[j].values| > 1 {
        dups := dups + [fileMap[j]];
      }
      assert fileMap[..j + 1][..j] == fileMap[..j];
      j := j + 1;
    }
    assert fileMap[..j] == fileMap;
  }

  /** The result of the scan: distinct keys, each kept exactly when files
      with that key were read in more than one place, with the directories of
      those files in walk order. */
  lemma ScanResult(es: seq<Entry>, k: FileKey)
    ensures DistinctKeys(Duplicates(FileMap(es)))
    ensures forall g :: g in Duplicates(FileMap(es)) ==> |g.values| > 1
    ensures Lookup(Duplicates(FileMap(es)), k) == if |DirsOf(es, k)| > 1 then DirsOf(es, k) else []
  {
    FileMapContents(es);
    DuplicatesDistinct(FileMap(es));
    DuplicatesLookup(FileMap(es), k);
    forall g | g in Duplicates(FileMap(es)) ensures |g.values| > 1 {
      DuplicatesIff(FileMap(es), g);
    }
  }
}
