/** The figures `print_duplicates` in `find_duplicate_files.py` reports: the
    unit `format_size` picks, the category of each duplicate set, the space
    the copies waste, and the table of directory pairs that share files,
    ordered by how many files they share. Relative paths for display, the
    printed text and the two-decimal rounding are not modelled. */
module DuplicateReport {
  import opened Text
  import opened AssocList
  import opened Sorting
  import opened DuplicateScan

  // ------------------------------------------------------------ format_size

  datatype Unit = B | KB | MB | GB | TB | PB

  const Units: seq<Unit> := [B, KB, MB, GB, TB]

  /** How many divisions by 1024 a unit stands for. */
  function Exponent(u: Unit): nat
  {
    match u
    case B => 0
    case KB => 1
    case MB => 2
    case GB => 3
    case TB => 4
    case PB => 5
  }

  function Pow1024(k: nat): (p: nat)
    ensures p >= 1
  {
    if k == 0 then 1 else 1024 * Pow1024(k - 1)
  }

  lemma {:induction false} Pow1024Monotone(i: nat, j: nat)
    requires i <= j
    ensures Pow1024(i) <= Pow1024(j)
  {
    if i < j {
      Pow1024Monotone(i, j - 1);
    }
  }

  /** `k` divisions by 1024 bring `n` bytes below 1024 for the first time,
      or `k` is 5 (PB), after which no further unit exists. */
  predicate IsScale(n: nat, k: nat)
  {
    k <= 5 && (k < 5 ==> n < Pow1024(k + 1)) && (k > 0 ==> Pow1024(k) <= n)
  }

  /** There is one scale for each size. */
  lemma ScaleUnique(n: nat, k1: nat, k2: nat)
    requires IsScale(n, k1) && IsScale(n, k2)
    ensures k1 == k2
  {
    if k1 < k2 {
      Pow1024Monotone(k1 + 1, k2);
    } else if k2 < k1 {
      Pow1024Monotone(k2 + 1, k1);
    }
  }

  /** Byte counts below 1024 stay in bytes; from 1024^5 on the unit is PB. */
  lemma ScaleBounds(n: nat)
    ensures IsScale(n, 0) <==> n < 1024
    ensures IsScale(n, 5) <==> Pow1024(5) <= n
  {
  }

  /** `format_size(n)` without its `.2f` rendering: the unit and the exact
      scaled value `n / 1024^k`. */
  method FormatSize(n: nat) returns (value: real, unit: Unit)
    ensures IsScale(n, Exponent(unit))
    ensures value * Pow1024(Exponent(unit)) as real == n as real
  {
    value := n as real;
    var i := 0;
    while i < |Units|
      invariant 0 <= i <= 5
      invariant value * Pow1024(i) as real == n as real
      invariant i > 0 ==> Pow1024(i) <= n
    {
      ScaleStep(value, n, i);
      if value < 1024.0 {
        assert Exponent(Units[i]) == i;
        return value, Units[i];
      }
      value := value / 1024.0;
      i := i + 1;
    }
    unit := PB;
  }

  /** One step of the unit loop: comparing the scaled value with 1024 is
      comparing the size with the next power, and dividing by 1024 moves to
      that power. */
  lemma ScaleStep(value: real, n: nat, i: nat)
    requires value * Pow1024(i) as real == n as real
    ensures value < 1024.0 <==> n < Pow1024(i + 1)
    ensures (value / 1024.0) * Pow1024(i + 1) as real == n as real
  {
    var p := Pow1024(i) as real;
    var q := Pow1024(i + 1) as real;
    assert q == 1024.0 * p;
    ScaledByNextPower(value, p, n as real, q);
  }

  /** With `value * p == size` and `q == 1024 * p`: `value` is below 1024
      exactly when `size` is below `q`, and `value / 1024` scales `q` back
      to `size`. */
  lemma ScaledByNextPower(value: real, p: real, size: real, q: real)
    requires p > 0.0 && value * p == size && q == 1024.0 * p
    ensures value < 1024.0 <==> size < q
    ensures (value / 1024.0) * q == size
  {
    if value < 1024.0 {
      assert value * p < 1024.0 * p;
    } else {
      assert value * p >= 1024.0 * p;
    }
  }

  // ------------------------------------------------------------- categories

  datatype Category = DepthMaps | MainImages | OtherFiles

  /** The category test in `print_duplicates`. */
  function CategoryOf(name: string): Category
  {
    if Contains(name, "_depth_") then DepthMaps
    else if Contains(name, "_main_") then MainImages
    else OtherFiles
  }

  /** `_depth_` anywhere in the name wins, whatever else the name holds. */
  lemma DepthMapsFirst(before: string, after: string)
    ensures CategoryOf(before + "_depth_" + after) == DepthMaps
  {
    var name := before + "_depth_" + after;
    assert OccursAt(name, "_depth_", |before|) by {
      assert name[|before|..|before| + 7] == "_depth_";
    }
  }

  /** Without `_depth_`, `_main_` anywhere in the name makes it a main image. */
  lemma MainImagesSecond(before: string, after: string)
    requires !Contains(before + "_main_" + after, "_depth_")
    ensures CategoryOf(before + "_main_" + after) == MainImages
  {
    var name := before + "_main_" + after;
    assert OccursAt(name, "_main_", |before|) by {
      assert name[|before|..|before| + 6] == "_main_";
    }
  }

  /** What one duplicate set contributes to category `c`. */
  function InCategoryOne(g: Group, c: Category): seq<Group>
  {
    if CategoryOf(g.key.name) == c then [g] else []
  }

  /** `categories[c]` after the loop: the duplicate sets of category `c`, in
      the order of the scan. */
  function InCategory(gs: seq<Group>, c: Category): seq<Group>
  {
    if gs == [] then [] else InCategory(gs[..|gs| - 1], c) + InCategoryOne(gs[|gs| - 1], c)
  }

  lemma CategoryOfOne(g: Group)
    ensures multiset(InCategoryOne(g, DepthMaps)) + multiset(InCategoryOne(g, MainImages))
      + multiset(InCategoryOne(g, OtherFiles)) == multiset{g}
  {
  }

  /** Every duplicate set lands in exactly one category. */
  lemma {:induction false} CategoriesPartition(gs: seq<Group>)
    ensures multiset(InCategory(gs, DepthMaps)) + multiset(InCategory(gs, MainImages))
      + multiset(InCategory(gs, OtherFiles)) == multiset(gs)
  {
    if gs != [] {
      var init, last := gs[..|gs| - 1], gs[|gs| - 1];
      CategoriesPartition(init);
      CategoryOfOne(last);
      InitLast(gs);
      assert multiset(gs) == multiset(init) + multiset{last};
      assert multiset(InCategory(gs, DepthMaps)) == multiset(InCategory(init, DepthMaps)) + multiset(InCategoryOne(last, DepthMaps));
      assert multiset(InCategory(gs, MainImages)) == multiset(InCategory(init, MainImages)) + multiset(InCategoryOne(last, MainImages));
      assert multiset(InCategory(gs, OtherFiles)) == multiset(InCategory(init, OtherFiles)) + multiset(InCategoryOne(last, OtherFiles));
    }
  }

  /** A category holds exactly the sets whose name falls in it. */
  lemma {:induction false} InCategoryIff(gs: seq<Group>, c: Category, g: Group)
    ensures g in InCategory(gs, c) <==> g in gs && CategoryOf(g.key.name) == c
  {
    if gs != [] {
      InCategoryIff(gs[..|gs| - 1], c, g);
      InitLast(gs);
    }
  }

  // ---------------------------------------------------------- wasted space

  /** `total_wasted_space`: each set wastes its size once per extra copy. */
  function Wasted(gs: seq<Group>): int
  {
    if gs == [] then 0
    else Wasted(gs[..|gs| - 1]) + gs[|gs| - 1].key.size * (|gs[|gs| - 1].values| - 1)
  }

  /** For duplicate sets (more than one directory each) the waste is never
      negative, and it is zero exactly when every duplicated file is empty. */
  lemma {:induction false} WastedNonNegative(gs: seq<Group>)
    requires forall g :: g in gs ==> |g.values| > 1
    ensures Wasted(gs) >= 0
    ensures Wasted(gs) == 0 <==> forall g :: g in gs ==> g.key.size == 0
  {
    if gs != [] {
      var init, last := gs[..|gs| - 1], gs[|gs| - 1];
      InitLast(gs);
      assert forall g :: g in gs <==> g in init || g == last;
      WastedNonNegative(init);
      CopiesWaste(last.key.size, |last.values| - 1);
    }
  }

  /** A file kept in `extra` surplus copies wastes at least its own size. */
  lemma CopiesWaste(size: nat, extra: int)
    requires extra >= 1
    ensures size * extra >= size
  {
  }

  // -------------------------------------------------------- directory pairs

  type DirPair = (string, string)

  type PairTable = seq<Binding<DirPair, FileKey>>

  /** The pairs the inner loop visits for a fixed `i`: `ds[i]` with each
      later directory. */
  function PairRow(ds: seq<string>, i: nat): seq<DirPair>
    requires i < |ds|
  {
    seq(|ds| - i - 1, k requires 0 <= k < |ds| - i - 1 => (ds[i], ds[i + 1 + k]))
  }

  /** The pairs the outer loop visits before `i`. */
  function RowsBefore(ds: seq<string>, i: nat): seq<DirPair>
    requires i <= |ds|
  {
    if i == 0 then [] else RowsBefore(ds, i - 1) + PairRow(ds, i - 1)
  }

  /** Every `(ds[i], ds[j])` with `i < j`, in loop order. */
  function PairsOfDirs(ds: seq<string>): seq<DirPair>
  {
    RowsBefore(ds, |ds|)
  }

  lemma {:induction false} RowsBeforeCount(ds: seq<string>, i: nat)
    requires i <= |ds|
    ensures 2 * |RowsBefore(ds, i)| == i * (2 * |ds| - i - 1)
  {
    if i > 0 {
      RowsBeforeCount(ds, i - 1);
    }
  }

  /** A set found in `n` directories gives `n(n-1)/2` pairs. */
  lemma PairsOfDirsCount(ds: seq<string>)
    ensures |PairsOfDirs(ds)| == |ds| * (|ds| - 1) / 2
  {
    RowsBeforeCount(ds, |ds|);
  }

  lemma {:induction false} RowsBeforeIff(ds: seq<string>, i: nat, p: DirPair)
    requires i <= |ds|
    ensures p in RowsBefore(ds, i) <==> exists a, b :: 0 <= a < i && a < b < |ds| && p == (ds[a], ds[b])
  {
    if i > 0 {
      RowsBeforeIff(ds, i - 1, p);
      var row := PairRow(ds, i - 1);
      if p in row {
        var k :| 0 <= k < |row| && row[k] == p;
        assert p == (ds[i - 1], ds[i + k]);
      }
      if exists b :: i - 1 < b < |ds| && p == (ds[i - 1], ds[b]) {
        var b :| i - 1 < b < |ds| && p == (ds[i - 1], ds[b]);
        assert row[b - i] == p;
      }
    }
  }

  /** The pairs are exactly the `(ds[i], ds[j])` with `i < j`; over sorted
      directories the first of each pair is never the greater. */
  lemma PairsOfDirsIff(ds: seq<string>, p: DirPair)
    ensures p in PairsOfDirs(ds) <==> exists a, b :: 0 <= a < b < |ds| && p == (ds[a], ds[b])
    ensures Sorted(ds) && p in PairsOfDirs(ds) ==> LexLe(p.0, p.1)
  {
    RowsBeforeIff(ds, |ds|, p);
  }

  /** The table after `dir_pairs[p].append(key)` for each `p` of `ps`. */
  function AddPairs(t: PairTable, ps: seq<DirPair>, key: FileKey): PairTable
  {
    if ps == [] then t else Append(AddPairs(t, ps[..|ps| - 1], key), ps[|ps| - 1], key)
  }

  function Repeat<T>(x: T, n: nat): (r: seq<T>)
    ensures |r| == n && forall i :: 0 <= i < n ==> r[i] == x
  {
    seq(n, _ => x)
  }

  /** Each visit of a pair appends the set's key under it once more. */
  lemma {:induction false} LookupAddPairs(t: PairTable, ps: seq<DirPair>, key: FileKey, p: DirPair)
    ensures Lookup(AddPairs(t, ps, key), p) == Lookup(t, p) + Repeat(key, multiset(ps)[p])
  {
    if ps != [] {
      var init, last := ps[..|ps| - 1], ps[|ps| - 1];
      var n := multiset(init)[p];
      LookupAddPairs(t, init, key, p);
      LookupAppend(AddPairs(t, init, key), last, key, p);
      CountLast(ps, p);
      if last == p {
        RepeatSnoc(key, n);
        AppendAssoc(Lookup(t, p), Repeat(key, n), [key]);
      }
    }
  }

  lemma CountLast<T>(s: seq<T>, x: T)
    requires s != []
    ensures multiset(s)[x] == multiset(s[..|s| - 1])[x] + if s[|s| - 1] == x then 1 else 0
  {
    InitLast(s);
  }

  lemma RepeatSnoc<T>(x: T, n: nat)
    ensures Repeat(x, n + 1) == Repeat(x, n) + [x]
  {
  }

  lemma {:induction false} AddPairsInvariant(t: PairTable, ps: seq<DirPair>, key: FileKey)
    requires DistinctKeys(t) && NonEmptyValues(t)
    ensures DistinctKeys(AddPairs(t, ps, key)) && NonEmptyValues(AddPairs(t, ps, key))
    ensures Total(AddPairs(t, ps, key)) == Total(t) + |ps|
    ensures forall q :: q in Keys(AddPairs(t, ps, key)) ==> q in Keys(t) || q in ps
  {
    if ps != [] {
      var init := ps[..|ps| - 1];
      AddPairsInvariant(t, init, key);
      AppendInvariant(AddPairs(t, init, key), ps[|ps| - 1], key);
      KeysAppend(AddPairs(t, init, key), ps[|ps| - 1], key);
    }
  }

  /** `dir_pairs` after the loop over the duplicate sets. */
  function PairTableOf(gs: seq<Group>): PairTable
  {
    if gs == [] then []
    else
      var g := gs[|gs| - 1];
      AddPairs(PairTableOf(gs[..|gs| - 1]), PairsOfDirs(SortStrings(g.values)), g.key)
  }

  /** The keys of the sets `dirs` shares with `p`, one per occurrence of `p`
      among the pairs of each set's sorted directories, in scan order. */
  function SharedFiles(gs: seq<Group>, p: DirPair): seq<FileKey>
  {
    if gs == [] then []
    else
      var g := gs[|gs| - 1];
      SharedFiles(gs[..|gs| - 1], p) + Repeat(g.key, multiset(PairsOfDirs(SortStrings(g.values)))[p])
  }

  /** `n(n-1)/2` summed over the sets. */
  function PairCount(gs: seq<Group>): nat
  {
    if gs == [] then 0
    else PairCount(gs[..|gs| - 1]) + |gs[|gs| - 1].values| * (|gs[|gs| - 1].values| - 1) / 2
  }

  /** The pair table lists each pair once, with the files the pair shares;
      it holds `n(n-1)/2` entries for a set in `n` directories; and every
      pair names the lesser directory first. */
  lemma {:induction false} PairTableContents(gs: seq<Group>)
    ensures DistinctKeys(PairTableOf(gs)) && NonEmptyValues(PairTableOf(gs))
    ensures Total(PairTableOf(gs)) == PairCount(gs)
    ensures forall p :: Lookup(PairTableOf(gs), p) == SharedFiles(gs, p)
    ensures forall p :: p in Keys(PairTableOf(gs)) ==> LexLe(p.0, p.1)
  {
    if gs != [] {
      var init := gs[..|gs| - 1];
      var g := gs[|gs| - 1];
      var ds := SortStrings(g.values);
      var ps := PairsOfDirs(ds);
      PairTableContents(init);
      AddPairsInvariant(PairTableOf(init), ps, g.key);
      PairsOfDirsCount(ds);
      forall p ensures Lookup(PairTableOf(gs), p) == SharedFiles(gs, p) {
        LookupAddPairs(PairTableOf(init), ps, g.key, p);
      }
      forall p | p in Keys(PairTableOf(gs)) ensures LexLe(p.0, p.1) {
        if p !in Keys(PairTableOf(init)) {
          PairsOfDirsIff(ds, p);
        }
      }
    }
  }

  /** The two nested loops over the sorted directories of one set. */
  method AddSetPairs(t0: PairTable, ds: seq<string>, key: FileKey) returns (t: PairTable)
    ensures t == AddPairs(t0, PairsOfDirs(ds), key)
  {
    t := t0;
    var i := 0;
    while i < |ds|
      invariant 0 <= i <= |ds|
      invariant t == AddPairs(t0, RowsBefore(ds, i), key)
    {
      RowStep(t0, ds, i, key);
      t := AddRowPairs(t, ds, i, key);
      i := i + 1;
    }
  }

  /** The inner loop: `ds[i]` paired with each later directory. */
  method AddRowPairs(t1: PairTable, ds: seq<string>, i: nat, key: FileKey) returns (t: PairTable)
    requires i < |ds|
    ensures t == AddPairs(t1, PairRow(ds, i), key)
  {
    t := t1;
    var j := i + 1;
    RowPrefixStart(t1, ds, i, key);
    while j < |ds|
      invariant i + 1 <= j <= |ds|
      invariant t == AddPairs(t1, PairRow(ds, i)[..j - i - 1], key)
    {
      RowPrefixStep(t1, ds, i, j, key);
      t := Append(t, (ds[i], ds[j]), key);
      j := j + 1;
    }
    assert PairRow(ds, i)[..j - i - 1] == PairRow(ds, i);
  }

  lemma RowPrefixStart(t1: PairTable, ds: seq<string>, i: nat, key: FileKey)
    requires i < |ds|
    ensures AddPairs(t1, PairRow(ds, i)[..0], key) == t1
  {
    assert PairRow(ds, i)[..0] == [];
  }

  /** Visiting one more pair of the row appends the key under `(ds[i], ds[j])`. */
  lemma RowPrefixStep(t1: PairTable, ds: seq<string>, i: nat, j: nat, key: FileKey)
    requires i < j < |ds|
    ensures AddPairs(t1, PairRow(ds, i)[..j - i], key)
      == Append(AddPairs(t1, PairRow(ds, i)[..j - i - 1], key), (ds[i], ds[j]), key)
  {
    var row := PairRow(ds, i);
    var k := j - i - 1;
    assert row[..k + 1][..k] == row[..k];
    assert row[k] == (ds[i], ds[j]);
  }

  /** One pass of the outer loop visits the next row of pairs. */
  lemma RowStep(t0: PairTable, ds: seq<string>, i: nat, key: FileKey)
    requires i < |ds|
    ensures AddPairs(t0, RowsBefore(ds, i + 1), key) == AddPairs(AddPairs(t0, RowsBefore(ds, i), key), PairRow(ds, i), key)
  {
    AddPairsConcat(t0, RowsBefore(ds, i), PairRow(ds, i), key);
  }

  /** Visiting `a` then `b` is visiting `a + b`. */
  lemma {:induction false} AddPairsConcat(t: PairTable, a: seq<DirPair>, b: seq<DirPair>, key: FileKey)
    ensures AddPairs(t, a + b, key) == AddPairs(AddPairs(t, a, key), b, key)
  {
    if b == [] {
      assert a + b == a;
    } else {
      AddPairsConcat(t, a, b[..|b| - 1], key);
      InitOfAppend(a, b);
    }
  }

  // ----------------------------------------------------------- pair summary

  /** One line of the pair summary: the two directories, the files they
      share, and `total_size`. */
  datatype PairLine = PairLine(first: string, second: string, files: seq<FileKey>, totalSize: nat)

  /** `sum(size for _, size in files)`. */
  function SumSizes(files: seq<FileKey>): nat
  {
    if files == [] then 0 else SumSizes(files[..|files| - 1]) + files[|files| - 1].size
  }

  function LinesOf(t: PairTable): (lines: seq<PairLine>)
    ensures |lines| == |t|
    ensures forall i :: 0 <= i < |t| ==>
      (lines[i].files == t[i].values && (lines[i].first, lines[i].second) == t[i].key
       && lines[i].totalSize == SumSizes(t[i].values))
  {
    seq(|t|, i requires 0 <= i < |t| => PairLine(t[i].key.0, t[i].key.1, t[i].values, SumSizes(t[i].values)))
  }

  predicate NonIncreasing(s: seq<PairLine>)
  {
    forall i, j :: 0 <= i < j < |s| ==> |s[i].files| >= |s[j].files|
  }

  /** The lines sharing exactly `c` files, in order. */
  function WithCount(s: seq<PairLine>, c: nat): seq<PairLine>
  {
    if s == [] then [] else (if |s[0].files| == c then [s[0]] else []) + WithCount(s[1..], c)
  }

  /** Places `x` before the first line that shares no more files than it. */
  function InsertByCount(x: PairLine, s: seq<PairLine>): (r: seq<PairLine>)
    ensures |r| == |s| + 1 && (r[0] == x || (s != [] && r[0] == s[0]))
  {
    if s == [] then [x]
    else if |s[0].files| <= |x.files| then [x] + s
    else [s[0]] + InsertByCount(x, s[1..])
  }

  lemma {:induction false} InsertByCountOrdered(x: PairLine, s: seq<PairLine>)
    requires NonIncreasing(s)
    ensures NonIncreasing(InsertByCount(x, s))
  {
    if s != [] && |s[0].files| > |x.files| {
      var rest := InsertByCount(x, s[1..]);
      InsertByCountOrdered(x, s[1..]);
      var r := [s[0]] + rest;
      assert |s[0].files| >= |rest[0].files|;
      forall i, j | 0 <= i < j < |r| ensures |r[i].files| >= |r[j].files| {
        if i == 0 {
          assert r[j] == rest[j - 1];
        } else {
          assert r[i] == rest[i - 1] && r[j] == rest[j - 1];
        }
      }
    }
  }

  lemma {:induction false} InsertByCountPerm(x: PairLine, s: seq<PairLine>)
    ensures multiset(InsertByCount(x, s)) == multiset(s) + multiset{x}
  {
    if s != [] && |s[0].files| > |x.files| {
      InsertByCountPerm(x, s[1..]);
      assert s == [s[0]] + s[1..];
    }
  }

  /** Inserting keeps the lines of each count in their order, `x` first. */
  lemma {:induction false} InsertByCountStable(x: PairLine, s: seq<PairLine>, c: nat)
    ensures WithCount(InsertByCount(x, s), c) == (if |x.files| == c then [x] else []) + WithCount(s, c)
  {
    if s == [] {
      WithCountCons(x, [], c);
    } else if |s[0].files| <= |x.files| {
      WithCountCons(x, s, c);
    } else {
      var rest := InsertByCount(x, s[1..]);
      InsertByCountStable(x, s[1..], c);
      WithCountCons(s[0], rest, c);
      WithCountCons(s[0], s[1..], c);
      assert s == [s[0]] + s[1..];
      var tail := WithCount(s[1..], c);
      if |x.files| == c {
        assert WithCount([s[0]] + rest, c) == [x] + tail;
      } else {
        assert WithCount(rest, c) == tail;
      }
    }
  }

  lemma WithCountCons(x: PairLine, s: seq<PairLine>, c: nat)
    ensures WithCount([x] + s, c) == (if |x.files| == c then [x] else []) + WithCount(s, c)
  {
    assert ([x] + s)[1..] == s;
  }

  /** `sorted(lines, key=lambda x: len(x[1]), reverse=True)`. */
  function SortByCount(s: seq<PairLine>): seq<PairLine>
  {
    if s == [] then [] else InsertByCount(s[0], SortByCount(s[1..]))
  }

  /** The pair lines come out by non-increasing number of shared files, and
      they are the table's lines rearranged. */
  lemma {:induction false} SortByCountSorted(s: seq<PairLine>)
    ensures NonIncreasing(SortByCount(s))
    ensures multiset(SortByCount(s)) == multiset(s)
  {
    if s != [] {
      SortByCountSorted(s[1..]);
      InsertByCountOrdered(s[0], SortByCount(s[1..]));
      InsertByCountPerm(s[0], SortByCount(s[1..]));
      assert s == [s[0]] + s[1..];
    }
  }

  /** Python's sort is stable, also in reverse: lines sharing the same
      number of files keep the table's order. */
  lemma {:induction false} SortByCountStable(s: seq<PairLine>, c: nat)
    ensures WithCount(SortByCount(s), c) == WithCount(s, c)
  {
    if s != [] {
      SortByCountStable(s[1..], c);
      InsertByCountStable(s[0], SortByCount(s[1..]), c);
    }
  }

  // ----------------------------------------------------------------- report

  datatype Report =
    | NoDuplicates
    | Summary(sets: nat, depthMaps: seq<Group>, mainImages: seq<Group>, otherFiles: seq<Group>,
              wasted: int, pairs: seq<PairLine>)

  /** The figures of `print_duplicates(duplicates)`. */
  method PrintDuplicates(dups: seq<Group>) returns (r: Report)
    ensures dups == [] ==> r == NoDuplicates
    ensures dups != [] ==> r == Summary(|dups|, InCategory(dups, DepthMaps), InCategory(dups, MainImages),
      InCategory(dups, OtherFiles), Wasted(dups), SortByCount(LinesOf(PairTableOf(dups))))
  {
    if dups == [] {
      return NoDuplicates;
    }
    var depthMaps, mainImages, otherFiles := [], [], [];
    var wasted := 0;
    var table: PairTable := [];
    var i := 0;
    while i < |dups|
      invariant 0 <= i <= |dups|
      invariant depthMaps == InCategory(dups[..i], DepthMaps)
      invariant mainImages == InCategory(dups[..i], MainImages)
      invariant otherFiles == InCategory(dups[..i], OtherFiles)
      invariant wasted == Wasted(dups[..i])
      invariant table == PairTableOf(dups[..i])
    {
      var g := dups[i];
      ReportStep(dups, i);
      match CategoryOf(g.key.name) {
        case DepthMaps => depthMaps := depthMaps + [g];
        case MainImages => mainImages := mainImages + [g];
        case OtherFiles => otherFiles := otherFiles + [g];
      }
      wasted := wasted + g.key.size * (|g.values| - 1);
      table := AddSetPairs(table, SortStrings(g.values), g.key);
      i := i + 1;
    }
    assert dups[..i] == dups;
    r := Summary(|dups|, depthMaps, mainImages, otherFiles, wasted, SortByCount(LinesOf(table)));
  }

  /** What one more duplicate set adds to each figure of the report. */
  lemma ReportStep(dups: seq<Group>, i: nat)
    requires i < |dups|
    ensures InCategory(dups[..i + 1], DepthMaps) == InCategory(dups[..i], DepthMaps) + InCategoryOne(dups[i], DepthMaps)
    ensures InCategory(dups[..i + 1], MainImages) == InCategory(dups[..i], MainImages) + InCategoryOne(dups[i], MainImages)
    ensures InCategory(dups[..i + 1], OtherFiles) == InCategory(dups[..i], OtherFiles) + InCategoryOne(dups[i], OtherFiles)
    ensures Wasted(dups[..i + 1]) == Wasted(dups[..i]) + dups[i].key.size * (|dups[i].values| - 1)
    ensures PairTableOf(dups[..i + 1]) == AddPairs(PairTableOf(dups[..i]), PairsOfDirs(SortStrings(dups[i].values)), dups[i].key)
  {
    assert dups[..i + 1][..i] == dups[..i];
  }
}
