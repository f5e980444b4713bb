/** The walk over one share's directory tree, accumulating the folder and
    file counts, the per-file access times, write times and sizes, the byte
    total and the file-type table. The server is modelled as the tree of
    listings it would return: a directory carries its own listing, or the
    failure to list it. */
module ShareWalker {

  import opened FileTypes

  /** The attributes of one listed file. Times are in whole seconds. */
  datatype FileAttrs = FileAttrs(name: string, size: nat, accessTime: int, writeTime: int)

  datatype Entry =
    | Directory(name: string, listing: Listing)
    | RegularFile(attrs: FileAttrs)

  /** What listing a directory yields: its entries, or a failure. */
  datatype Listing = Listed(entries: seq<Entry>) | Failed

  /** The current and parent directory entries, which the walk skips. */
  predicate IsSelfOrParent(name: string)
  {
    name == "." || name == ".."
  }

  // ---------------------------------------------------------------------------
  // What a walk reaches

  /** The files a walk of `l` reaches, in walk order: none for a failed
      listing, and every file a successful listing holds directly. */
  function FilesIn(l: Listing): (r: seq<FileAttrs>)
    ensures l.Failed? ==> r == []
    ensures l.Listed? ==> forall i :: 0 <= i < |l.entries| && l.entries[i].RegularFile? ==> l.entries[i].attrs in r
    decreases l
  {
    match l
    case Failed => []
    case Listed(entries) => FilesInEntries(entries)
  }

  function FilesInEntries(es: seq<Entry>): (r: seq<FileAttrs>)
    ensures forall i :: 0 <= i < |es| && es[i].RegularFile? ==> es[i].attrs in r
    decreases es
  {
    if es == [] then []
    else
      var rest := FilesInEntries(es[1..]);
      assert forall i :: 1 <= i < |es| ==> es[i] == es[1..][i - 1];
      FilesInEntry(es[0]) + rest
  }

  function FilesInEntry(e: Entry): seq<FileAttrs>
    decreases e
  {
    match e
    case RegularFile(a) => [a]
    case Directory(name, sub) => if IsSelfOrParent(name) then [] else FilesIn(sub)
  }

  /** The folders a walk of `l` counts: every directory entry other than
      "." and "..", including those whose own listing fails. */
  function FolderCount(l: Listing): (r: nat)
    ensures l.Failed? ==> r == 0
    ensures l.Listed? ==> forall i :: 0 <= i < |l.entries| ==> r >= FolderCountEntry(l.entries[i])
    decreases l
  {
    match l
    case Failed => 0
    case Listed(entries) => FolderCountEntries(entries)
  }

  function FolderCountEntries(es: seq<Entry>): (r: nat)
    ensures forall i :: 0 <= i < |es| ==> r >= FolderCountEntry(es[i])
    decreases es
  {
    if es == [] then 0
    else
      var rest := FolderCountEntries(es[1..]);
      assert forall i :: 1 <= i < |es| ==> es[i] == es[1..][i - 1];
      FolderCountEntry(es[0]) + rest
  }

  function FolderCountEntry(e: Entry): nat
    decreases e
  {
    match e
    case RegularFile(_) => 0
    case Directory(name, sub) => if IsSelfOrParent(name) then 0 else 1 + FolderCount(sub)
  }

  lemma {:induction false} FilesInEntriesConcat(xs: seq<Entry>, ys: seq<Entry>)
    ensures FilesInEntries(xs + ys) == FilesInEntries(xs) + FilesInEntries(ys)
    decreases xs
  {
    if xs == [] {
      assert xs + ys == ys;
    } else {
      assert (xs + ys)[1..] == xs[1..] + ys;
      FilesInEntriesConcat(xs[1..], ys);
    }
  }

  lemma {:induction false} FolderCountEntriesConcat(xs: seq<Entry>, ys: seq<Entry>)
    ensures FolderCountEntries(xs + ys) == FolderCountEntries(xs) + FolderCountEntries(ys)
    decreases xs
  {
    if xs == [] {
      assert xs + ys == ys;
    } else {
      assert (xs + ys)[1..] == xs[1..] + ys;
      FolderCountEntriesConcat(xs[1..], ys);
    }
  }

  /** A directory whose listing fails is still counted as a folder but adds
      no file, and its siblings on either side are walked as usual. */
  lemma FailedListingIsIsolated(before: seq<Entry>, name: string, after: seq<Entry>)
    requires !IsSelfOrParent(name)
    ensures var es := before + [Directory(name, Failed)] + after;
      && FilesInEntries(es) == FilesInEntries(before) + FilesInEntries(after)
      && FolderCountEntries(es) == FolderCountEntries(before) + 1 + FolderCountEntries(after)
  {
    var failed := [Directory(name, Failed)];
    FilesInEntriesConcat(before + failed, after);
    FilesInEntriesConcat(before, failed);
    FolderCountEntriesConcat(before + failed, after);
    FolderCountEntriesConcat(before, failed);
    EntriesSingle(failed[0]);
    assert FilesInEntries(before) + [] == FilesInEntries(before);
  }

  /** "." and ".." entries add nothing, whatever their listing holds. */
  lemma SelfAndParentAreSkipped(before: seq<Entry>, name: string, sub: Listing, after: seq<Entry>)
    requires IsSelfOrParent(name)
    ensures var es := before + [Directory(name, sub)] + after;
      && FilesInEntries(es) == FilesInEntries(before + after)
      && FolderCountEntries(es) == FolderCountEntries(before + after)
  {
    var skipped := [Directory(name, sub)];
    FilesInEntriesConcat(before + skipped, after);
    FilesInEntriesConcat(before, skipped);
    FilesInEntriesConcat(before, after);
    FolderCountEntriesConcat(before + skipped, after);
    FolderCountEntriesConcat(before, skipped);
    FolderCountEntriesConcat(before, after);
    EntriesSingle(skipped[0]);
    assert FilesInEntries(before) + [] == FilesInEntries(before);
  }

  // ---------------------------------------------------------------------------
  // The per-file columns

  /** One attribute of each file of `fs`, in order. */
  function Column<T>(fs: seq<FileAttrs>, attr: FileAttrs -> T): (r: seq<T>)
    ensures |r| == |fs|
  {
    if fs == [] then [] else [attr(fs[0])] + Column(fs[1..], attr)
  }

  function AccessTimeOf(a: FileAttrs): int { a.accessTime }
  function WriteTimeOf(a: FileAttrs): int { a.writeTime }
  function SizeOf(a: FileAttrs): nat { a.size }
  function NameOf(a: FileAttrs): string { a.name }

  function AccessTimes(fs: seq<FileAttrs>): seq<int> { Column(fs, AccessTimeOf) }
  function WriteTimes(fs: seq<FileAttrs>): seq<int> { Column(fs, WriteTimeOf) }
  function SizesOf(fs: seq<FileAttrs>): seq<nat> { Column(fs, SizeOf) }
  function NamesOf(fs: seq<FileAttrs>): seq<string> { Column(fs, NameOf) }

  /** The column of a concatenation is the concatenation of the columns. */
  lemma {:induction false} ColumnConcat<T>(xs: seq<FileAttrs>, ys: seq<FileAttrs>, attr: FileAttrs -> T)
    ensures Column(xs + ys, attr) == Column(xs, attr) + Column(ys, attr)
  {
    if xs == [] {
      assert xs + ys == ys;
    } else {
      assert (xs + ys)[0] == xs[0];
      assert (xs + ys)[1..] == xs[1..] + ys;
      ColumnConcat(xs[1..], ys, attr);
    }
  }

  function Sum(xs: seq<nat>): nat
  {
    if xs == [] then 0 else xs[0] + Sum(xs[1..])
  }

  lemma {:induction false} SumConcat(xs: seq<nat>, ys: seq<nat>)
    ensures Sum(xs + ys) == Sum(xs) + Sum(ys)
  {
    if xs == [] {
      assert xs + ys == ys;
    } else {
      assert (xs + ys)[1..] == xs[1..] + ys;
      SumConcat(xs[1..], ys);
    }
  }

  // ---------------------------------------------------------------------------
  // The accumulator

  /** A copy of the accumulator's fields. */
  datatype Totals = Totals(
    folders: nat,
    files: nat,
    sizeBytes: nat,
    lastAccessed: seq<int>,
    lastWrite: seq<int>,
    fileSizes: seq<nat>,
    types: TypeTable)

  /** The accumulator after the walk has also counted `folders` more folders
      and the files `fs`, in that order. */
  function Absorb(t: Totals, fs: seq<FileAttrs>, folders: nat): Totals
  {
    Totals(
      t.folders + folders,
      t.files + |fs|,
      t.sizeBytes + Sum(SizesOf(fs)),
      t.lastAccessed + AccessTimes(fs),
      t.lastWrite + WriteTimes(fs),
      t.fileSizes + SizesOf(fs),
      TallyNames(t.types, NamesOf(fs)))
  }

  /** The accumulator's fields agree with each other: one entry per file in
      each list, the byte total is the sum of the sizes, and the type table
      has counted every file once. */
  ghost predicate Consistent(t: Totals)
  {
    && |t.lastAccessed| == t.files
    && |t.lastWrite| == t.files
    && |t.fileSizes| == t.files
    && t.sizeBytes == Sum(t.fileSizes)
    && TableValid(t.types)
    && Total(t.types) == t.files
  }

  /** Absorbing the files of two walks one after the other is absorbing the
      files of both at once. */
  lemma AbsorbConcat(t: Totals, xs: seq<FileAttrs>, m: nat, ys: seq<FileAttrs>, n: nat)
    ensures Absorb(Absorb(t, xs, m), ys, n) == Absorb(t, xs + ys, m + n)
  {
    ColumnsConcat(xs, ys);
    SumConcat(SizesOf(xs), SizesOf(ys));
    TallyNamesConcat(t.types, NamesOf(xs), NamesOf(ys));
    SeqAssoc(t.lastAccessed, AccessTimes(xs), AccessTimes(ys));
    SeqAssoc(t.lastWrite, WriteTimes(xs), WriteTimes(ys));
    SeqAssoc(t.fileSizes, SizesOf(xs), SizesOf(ys));
  }

  /** Regrouping a concatenation, as a fact of its own: asserted inside
      AbsorbConcat beside the other field equalities it is much costlier to
      prove. */
  lemma SeqAssoc<T>(a: seq<T>, b: seq<T>, c: seq<T>)
    ensures (a + b) + c == a + (b + c)
  {
  }

  lemma ColumnsConcat(xs: seq<FileAttrs>, ys: seq<FileAttrs>)
    ensures AccessTimes(xs + ys) == AccessTimes(xs) + AccessTimes(ys)
    ensures WriteTimes(xs + ys) == WriteTimes(xs) + WriteTimes(ys)
    ensures SizesOf(xs + ys) == SizesOf(xs) + SizesOf(ys)
    ensures NamesOf(xs + ys) == NamesOf(xs) + NamesOf(ys)
  {
    ColumnConcat(xs, ys, AccessTimeOf);
    ColumnConcat(xs, ys, WriteTimeOf);
    ColumnConcat(xs, ys, SizeOf);
    ColumnConcat(xs, ys, NameOf);
  }

  /** Absorbing no file only adds the folders. */
  lemma AbsorbNoFiles(t: Totals, n: nat)
    ensures Absorb(t, [], n) == t.(folders := t.folders + n)
  {
    assert t.lastAccessed + [] == t.lastAccessed;
    assert t.lastWrite + [] == t.lastWrite;
    assert t.fileSizes + [] == t.fileSizes;
  }

  /** Absorbing one file appends its columns and counts its type. */
  lemma AbsorbOneFile(t: Totals, a: FileAttrs)
    ensures Absorb(t, [a], 0) == Totals(t.folders, t.files + 1, t.sizeBytes + a.size,
      t.lastAccessed + [a.accessTime], t.lastWrite + [a.writeTime], t.fileSizes + [a.size],
      UpdateType(a.name, t.types))
  {
    ColumnSingle(a, AccessTimeOf);
    ColumnSingle(a, WriteTimeOf);
    ColumnSingle(a, SizeOf);
    ColumnSingle(a, NameOf);
    assert SizesOf([a]) == [a.size];
    assert NamesOf([a]) == [a.name];
    assert Sum([a.size]) == a.size by {
      assert [a.size][1..] == [];
    }
    assert TallyNames(t.types, [a.name]) == UpdateType(a.name, t.types) by {
      assert [a.name][1..] == [];
    }
  }

  lemma ColumnSingle<T>(a: FileAttrs, attr: FileAttrs -> T)
    ensures Column([a], attr) == [attr(a)]
  {
    assert [a][1..] == [];
    assert [attr(a)] + [] == [attr(a)];
  }

  /** Absorbing files keeps the accumulator consistent: the three lists grow
      by as many entries as `files` does, and so does the type table's total. */
  lemma AbsorbKeepsConsistent(t: Totals, fs: seq<FileAttrs>, folders: nat)
    requires Consistent(t)
    ensures Consistent(Absorb(t, fs, folders))
  {
    SumConcat(t.fileSizes, SizesOf(fs));
    TallyNamesTotal(t.types, NamesOf(fs));
  }

  lemma EntriesSingle(y: Entry)
    ensures FilesInEntries([y]) == FilesInEntry(y)
    ensures FolderCountEntries([y]) == FolderCountEntry(y)
  {
    assert [y][1..] == [];
    assert FilesInEntry(y) + [] == FilesInEntry(y);
  }

  /** The first i + 1 entries reach what the first i reach, then what the
      i-th reaches. */
  lemma EntriesPrefixStep(entries: seq<Entry>, i: nat)
    requires i < |entries|
    ensures FilesInEntries(entries[..i + 1]) == FilesInEntries(entries[..i]) + FilesInEntry(entries[i])
    ensures FolderCountEntries(entries[..i + 1]) == FolderCountEntries(entries[..i]) + FolderCountEntry(entries[i])
  {
    var y := entries[i];
    assert entries[..i + 1] == entries[..i] + [y];
    FilesInEntriesConcat(entries[..i], [y]);
    FolderCountEntriesConcat(entries[..i], [y]);
    EntriesSingle(y);
  }

  /** The walk over a listing's entries, one entry further. */
  lemma WalkStep(start: Totals, entries: seq<Entry>, i: nat, before: Totals, after: Totals)
    requires i < |entries|
    requires before == Absorb(start, FilesInEntries(entries[..i]), FolderCountEntries(entries[..i]))
    requires after == Absorb(before, FilesInEntry(entries[i]), FolderCountEntry(entries[i]))
    ensures after == Absorb(start, FilesInEntries(entries[..i + 1]), FolderCountEntries(entries[..i + 1]))
  {
    EntriesPrefixStep(entries, i);
    AbsorbConcat(start, FilesInEntries(entries[..i]), FolderCountEntries(entries[..i]),
      FilesInEntry(entries[i]), FolderCountEntry(entries[i]));
  }

  /** Counting a directory and then walking its listing absorbs the entry. */
  lemma EnterDirectory(before: Totals, name: string, sub: Listing, after: Totals)
    requires !IsSelfOrParent(name)
    requires after == Absorb(before.(folders := before.folders + 1), FilesIn(sub), FolderCount(sub))
    ensures after == Absorb(before, FilesInEntry(Directory(name, sub)), FolderCountEntry(Directory(name, sub)))
  {
    AbsorbNoFiles(before, 1);
    AbsorbConcat(before, [], 1, FilesIn(sub), FolderCount(sub));
    assert [] + FilesIn(sub) == FilesIn(sub);
  }

  /** Passing over "." or ".." absorbs the entry without change. */
  lemma SkipDirectory(before: Totals, name: string, sub: Listing)
    requires IsSelfOrParent(name)
    ensures before == Absorb(before, FilesInEntry(Directory(name, sub)), FolderCountEntry(Directory(name, sub)))
  {
    AbsorbNoFiles(before, 0);
  }

  /** Recording a file's attributes and type absorbs the entry. */
  lemma ReadFile(before: Totals, a: FileAttrs, after: Totals)
    requires after == Totals(before.folders, before.files + 1, before.sizeBytes + a.size,
      before.lastAccessed + [a.accessTime], before.lastWrite + [a.writeTime], before.fileSizes + [a.size],
      UpdateType(a.name, before.types))
    ensures after == Absorb(before, FilesInEntry(RegularFile(a)), FolderCountEntry(RegularFile(a)))
  {
    AbsorbOneFile(before, a);
  }

  /** The accumulator a share's walk starts from. */
  const Zero: Totals := Totals(0, 0, 0, [], [], [], EmptyTable)

  /** A fresh accumulator that absorbs a walk's files `fs` and `n` folders
      is consistent and holds exactly that walk's counts. */
  lemma ShareTotals(fs: seq<FileAttrs>, n: nat)
    ensures var r := Absorb(Zero, fs, n);
      && Consistent(r)
      && r.folders == n
      && r.files == |fs|
  {
    assert Consistent(Zero);
    AbsorbKeepsConsistent(Zero, fs, n);
  }

  /** The lists a fresh accumulator holds after absorbing `fs` are the files'
      access times, write times and sizes, in walk order. */
  lemma ShareColumns(fs: seq<FileAttrs>, n: nat)
    ensures var r := Absorb(Zero, fs, n);
      && r.lastAccessed == AccessTimes(fs)
      && r.lastWrite == WriteTimes(fs)
      && r.fileSizes == SizesOf(fs)
  {
    assert [] + AccessTimes(fs) == AccessTimes(fs);
    assert [] + WriteTimes(fs) == WriteTimes(fs);
    assert [] + SizesOf(fs) == SizesOf(fs);
  }

  /** A fresh accumulator that absorbs `fs` counts each extension key once
      per file that carries it. */
  lemma ShareTypeCounts(fs: seq<FileAttrs>, n: nat, key: string)
    ensures CountOf(Absorb(Zero, fs, n).types, key) == KeyOccurrences(NamesOf(fs), key)
  {
    TallyNamesCount(EmptyTable, NamesOf(fs), key);
  }

  /** The dictionary that get_share_content fills in, one field per key. */
  class ShareStats {
    var folders: nat
    var files: nat
    var sizeBytes: nat
    var lastAccessed: seq<int>
    var lastWrite: seq<int>
    var fileSizes: seq<nat>
    var types: TypeTable

    function Snapshot(): Totals
      reads this
    {
      Totals(folders, files, sizeBytes, lastAccessed, lastWrite, fileSizes, types)
    }

    constructor ()
      ensures Snapshot() == Zero
    {
      folders := 0;
      files := 0;
      sizeBytes := 0;
      lastAccessed := [];
      lastWrite := [];
      fileSizes := [];
      types := EmptyTable;
    }

    /** update_type on the accumulator's table: the key of `filename` is
        counted once more, in place. */
    method CountType(filename: string)
      modifies this`types
      ensures types == UpdateType(filename, old(types))
    {
      var key := TypeKey(filename);
      if key in types.counts {
        types := types.(counts := types.counts[key := types.counts[key] + 1]);
      } else {
        types := TypeTable(types.order + [key], types.counts[key := 1]);
      }
    }

    /** get_share_content: walk `listing`, visiting its entries in order.
        A failed listing adds nothing. */
    method GetShareContent(listing: Listing)
      modifies this
      ensures Snapshot() == Absorb(old(Snapshot()), FilesIn(listing), FolderCount(listing))
      ensures Consistent(old(Snapshot())) ==> Consistent(Snapshot())
      decreases listing, 1
    {
      ghost var start := Snapshot();
      if Consistent(start) {
        AbsorbKeepsConsistent(start, FilesIn(listing), FolderCount(listing));
      }
      match listing
      case Failed =>
        AbsorbNoFiles(start, 0);
      case Listed(entries) =>
        AbsorbNoFiles(start, 0);
        var i := 0;
        while i < |entries|
          invariant 0 <= i <= |entries|
          invariant Snapshot() == Absorb(start, FilesInEntries(entries[..i]), FolderCountEntries(entries[..i]))
        {
          ghost var before := Snapshot();
          VisitEntry(entries[i]);
          WalkStep(start, entries, i, before, Snapshot());
          i := i + 1;
        }
        assert entries[..i] == entries;
    }

    /** One entry of a listing: a directory other than "." and ".." is
        counted before it is walked; a file has its size added to the total,
        is counted, has its times and size appended and its type counted. */
    method VisitEntry(y: Entry)
      modifies this
      ensures Snapshot() == Absorb(old(Snapshot()), FilesInEntry(y), FolderCountEntry(y))
      decreases y, 0
    {
      ghost var before := Snapshot();
      match y
      case Directory(name, sub) =>
        if name != "." && name != ".." {
          folders := folders + 1;
          GetShareContent(sub);
          EnterDirectory(before, name, sub, Snapshot());
        } else {
          SkipDirectory(before, name, sub);
        }
      case RegularFile(a) =>
        sizeBytes := sizeBytes + a.size;
        files := files + 1;
        lastAccessed := lastAccessed + [a.accessTime];
        lastWrite := lastWrite + [a.writeTime];
        fileSizes := fileSizes + [a.size];
        CountType(a.name);
        ReadFile(before, a, Snapshot());
    }
  }
}
