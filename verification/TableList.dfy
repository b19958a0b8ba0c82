/** The SSTable list and the reference counts of its files, as one thread at a time drives them. */
module TableLists {
  import opened Base
  import opened Compactor

  /** A file in the list; `table` stands for what its reader serves. */
  class SSTableFile {
    const table: Table
    var refCount: int
    var unlinked: bool
    var closed: bool
    var readerOpen: bool
    var onDisk: bool

    constructor (table: Table)
      ensures this.table == table && refCount == 1 && Usable()
    {
      this.table := table;
      refCount, unlinked, closed, readerOpen, onDisk := 1, false, false, true, true;
    }

    ghost predicate Usable()
      reads this
    {
      refCount >= 1 && !unlinked && !closed && readerOpen && onDisk
    }

    /** Without competitors the compare-and-swap succeeds at once. */
    method IncrRef() returns (ok: bool)
      modifies this`refCount
      ensures ok <==> old(refCount) > 0 && !unlinked && !closed
      ensures refCount == old(refCount) + if ok then 1 else 0
    {
      var cur := refCount;
      if cur <= 0 || unlinked || closed {
        return false;
      }
      refCount := cur + 1;
      return true;
    }

    /** The last reference closes the reader and, of an unlinked file, removes the file. */
    method DecrRef() returns (ok: bool)
      modifies this`refCount, this`readerOpen, this`onDisk
      ensures refCount == old(refCount) - 1 && ok == (refCount >= 0)
      ensures readerOpen == (old(readerOpen) && refCount != 0)
      ensures onDisk == (old(onDisk) && !(refCount == 0 && unlinked))
    {
      refCount := refCount - 1;
      if refCount < 0 {
        return false;
      }
      if refCount == 0 {
        readerOpen := false;
        if unlinked {
          onDisk := false;
        }
      }
      return true;
    }
  }

  ghost predicate Distinct(files: seq<SSTableFile>) {
    forall i, j :: 0 <= i < j < |files| ==> files[i].table.gen != files[j].table.gen
  }

  ghost predicate Descending(files: seq<SSTableFile>) {
    forall i, j :: 0 <= i < j < |files| ==> files[i].table.gen > files[j].table.gen
  }

  /** sort.Slice by descending generation; insertion sort stands for it. */
  method SortTables(files: seq<SSTableFile>) returns (sorted: seq<SSTableFile>)
    requires Distinct(files)
    ensures Descending(sorted) && |sorted| == |files|
    ensures forall f :: f in sorted <==> f in files
  {
    sorted := [];
    for i := 0 to |files|
      invariant Descending(sorted) && |sorted| == i
      invariant forall f :: f in sorted <==> f in files[..i]
    {
      assert forall f :: f in files[..i] ==> f.table.gen != files[i].table.gen;
      sorted := InsertTable(sorted, files[i]);
      assert files[..i + 1] == files[..i] + [files[i]];
    }
    assert files[..|files|] == files;
  }

  method InsertTable(files: seq<SSTableFile>, file: SSTableFile) returns (sorted: seq<SSTableFile>)
    requires Descending(files) && forall f :: f in files ==> f.table.gen != file.table.gen
    ensures Descending(sorted) && |sorted| == |files| + 1
    ensures forall f :: f in sorted <==> f == file || f in files
  {
    var p := 0;
    while p < |files| && files[p].table.gen > file.table.gen
      invariant p <= |files| && forall i :: 0 <= i < p ==> files[i].table.gen > file.table.gen
    {
      p := p + 1;
    }
    sorted := files[..p] + [file] + files[p..];
    assert forall f :: f in files ==> f in files[..p] || f in files[p..];
  }

  /** ReleaseTables: gives back one reference of each file. */
  method ReleaseTables(files: seq<SSTableFile>)
    requires Distinct(files)
    modifies files
    ensures forall f :: f in files ==>
              && f.refCount == old(f.refCount) - 1
              && f.unlinked == old(f.unlinked) && f.closed == old(f.closed)
              && f.readerOpen == (old(f.readerOpen) && f.refCount != 0)
              && f.onDisk == (old(f.onDisk) && !(f.refCount == 0 && f.unlinked))
  {
    for i := 0 to |files|
      invariant forall j :: 0 <= j < i ==>
                  && files[j].refCount == old(files[j].refCount) - 1
                  && files[j].unlinked == old(files[j].unlinked) && files[j].closed == old(files[j].closed)
                  && files[j].readerOpen == (old(files[j].readerOpen) && files[j].refCount != 0)
                  && files[j].onDisk == (old(files[j].onDisk) && !(files[j].refCount == 0 && files[j].unlinked))
      invariant forall j :: i <= j < |files| ==>
                  && files[j].refCount == old(files[j].refCount)
                  && files[j].unlinked == old(files[j].unlinked) && files[j].closed == old(files[j].closed)
                  && files[j].readerOpen == old(files[j].readerOpen) && files[j].onDisk == old(files[j].onDisk)
    {
      var ok := files[i].DecrRef();
    }
  }

  /** ReplaceTables' last loop: each old file loses the list's reference. */
  method Unlink(files: seq<SSTableFile>)
    requires Distinct(files) && forall f :: f in files ==> f.Usable()
    modifies files
    ensures forall f :: f in files ==>
              && f.unlinked && f.refCount == old(f.refCount) - 1
              && f.readerOpen == f.onDisk == (f.refCount != 0)
  {
    for i := 0 to |files|
      invariant forall j :: 0 <= j < i ==>
                  && files[j].unlinked && files[j].refCount == old(files[j].refCount) - 1
                  && files[j].readerOpen == files[j].onDisk == (files[j].refCount != 0)
      invariant forall j :: i <= j < |files| ==> files[j].Usable() && files[j].refCount == old(files[j].refCount)
    {
      files[i].unlinked := true;
      var ok := files[i].DecrRef();
    }
  }

  method CloseAll(files: seq<SSTableFile>)
    requires Distinct(files) && forall f :: f in files ==> f.Usable()
    modifies files
    ensures forall f :: f in files ==>
              && f.closed && !f.unlinked && f.refCount == old(f.refCount) - 1
              && f.readerOpen == (f.refCount != 0) && f.onDisk
  {
    for i := 0 to |files|
      invariant forall j :: 0 <= j < i ==>
                  && files[j].closed && !files[j].unlinked && files[j].refCount == old(files[j].refCount) - 1
                  && files[j].readerOpen == (files[j].refCount != 0) && files[j].onDisk
      invariant forall j :: i <= j < |files| ==> files[j].Usable() && files[j].refCount == old(files[j].refCount)
    {
      files[i].closed := true;
      var ok := files[i].DecrRef();
    }
  }

  method HighestGen(disk: seq<Table>) returns (gen: nat)
    ensures forall t :: t in disk ==> t.gen <= gen
    ensures gen == 0 || exists t :: t in disk && t.gen == gen
  {
    gen := 0;
    for i := 0 to |disk|
      invariant forall j :: 0 <= j < i ==> disk[j].gen <= gen
      invariant gen == 0 || exists t :: t in disk && t.gen == gen
    {
      assert disk[i] in disk;
      if disk[i].gen > gen {
        gen := disk[i].gen;
      }
    }
  }

  method OpenFiles(disk: seq<Table>) returns (files: seq<SSTableFile>)
    ensures |files| == |disk| && fresh(files)
    ensures forall i :: 0 <= i < |files| ==> files[i].table == disk[i] && files[i].Usable() && files[i].refCount == 1
  {
    files := [];
    for i := 0 to |disk|
      invariant |files| == i && fresh(files)
      invariant forall j :: 0 <= j < i ==> files[j].table == disk[j] && files[j].Usable() && files[j].refCount == 1
    {
      var file := new SSTableFile(disk[i]);
      files := files + [file];
    }
  }

  function GensOf(files: seq<SSTableFile>): set<nat> {
    set f | f in files :: f.table.gen
  }

  lemma KeptAreNotOld(files: seq<SSTableFile>, replaced: seq<SSTableFile>)
    requires Descending(files) && forall f :: f in replaced ==> f in files
    ensures forall f :: f in files ==>
              (f.table.gen in GensOf(replaced) <==> f in replaced)
  {
    forall f, g | f in files && g in files && f.table.gen == g.table.gen ensures f == g {
      var i :| 0 <= i < |files| && files[i] == f;
      var j :| 0 <= j < |files| && files[j] == g;
    }
  }

  class SSTableList {
    var tables: seq<SSTableFile>
    var nextGen: nat

    ghost predicate Valid()
      reads this, tables
    {
      Descending(tables) && forall f :: f in tables ==> f.Usable() && f.table.gen <= nextGen
    }

    constructor ()
      ensures Valid() && tables == [] && nextGen == 0
    {
      tables, nextGen := [], 0;
    }

    /** Load opens every file found and resumes the generations after the highest. */
    constructor Load(disk: seq<Table>)
      requires forall i, j :: 0 <= i < j < |disk| ==> disk[i].gen != disk[j].gen
      ensures Valid() && forall f :: f in tables ==> fresh(f)
      ensures forall f :: f in tables ==> f.refCount == 1 && f.table in disk && f.table.gen <= nextGen
      ensures forall t :: t in disk ==> exists f :: f in tables && f.table == t
      ensures nextGen == 0 || exists t :: t in disk && t.gen == nextGen
    {
      tables, nextGen := [], 0;
      new;
      var files := OpenFiles(disk);
      nextGen := HighestGen(disk);
      tables := SortTables(files);
      forall f | f in tables
        ensures fresh(f) && f.Usable() && f.refCount == 1 && f.table in disk && f.table.gen <= nextGen
      {
        var i :| 0 <= i < |files| && files[i] == f;
      }
      assert forall i :: 0 <= i < |files| ==> files[i] in tables;
    }

    method NextGen() returns (gen: nat)
      requires Valid()
      modifies this`nextGen
      ensures Valid() && gen == nextGen == old(nextGen) + 1
    {
      nextGen := nextGen + 1;
      gen := nextGen;
    }

    /** Every listed file, each with one more reference: none is left out. */
    method GetTables() returns (res: seq<SSTableFile>)
      requires Valid()
      modifies tables
      ensures Valid() && res == tables
      ensures forall f :: f in tables ==> f.refCount == old(f.refCount) + 1
    {
      res := [];
      for i := 0 to |tables|
        invariant Valid() && res == tables[..i]
        invariant forall j :: 0 <= j < |tables| ==>
                    tables[j].refCount == old(tables[j].refCount) + if j < i then 1 else 0
      {
        var ok := tables[i].IncrRef();
        if ok {
          res := res + [tables[i]];
        }
      }
    }

    /** Adds a file of a new generation in its place. */
    method Add(file: SSTableFile)
      requires Valid() && file.Usable() && forall f :: f in tables ==> f.table.gen != file.table.gen
      modifies this
      ensures Valid() && forall f :: f in tables <==> f == file || f in old(tables)
      ensures nextGen == if file.table.gen <= old(nextGen) then old(nextGen) else file.table.gen
    {
      if file.table.gen > nextGen {
        nextGen := file.table.gen;
      }
      tables := SortTables(tables + [file]);
    }

    /** The files whose generation is none of `gens`. */
    method Kept(gens: set<nat>) returns (kept: seq<SSTableFile>)
      requires Descending(tables)
      ensures Descending(kept) && forall f :: f in kept <==> f in tables && f.table.gen !in gens
    {
      kept := [];
      for i := 0 to |tables|
        invariant Descending(kept) && forall f :: f in kept <==> f in tables[..i] && f.table.gen !in gens
      {
        if tables[i].table.gen !in gens {
          kept := kept + [tables[i]];
        }
        assert tables[..i + 1] == tables[..i] + [tables[i]];
      }
      assert tables[..|tables|] == tables;
    }

    /**
     * Swaps the old files for the new one, if there is one, and then unlinks each old file and drops
     * the list's reference to it.
     */
    method ReplaceTables(replaced: seq<SSTableFile>, file: SSTableFile?)
      requires Valid() && Distinct(replaced) && forall f :: f in replaced ==> f in tables
      requires file != null ==> file.Usable() && file.table.gen <= nextGen
      requires file != null ==> forall f :: f in tables ==> f.table.gen != file.table.gen
      modifies this`tables, replaced
      ensures Valid() && nextGen == old(nextGen)
      ensures forall f :: f in tables <==> f == file || (f in old(tables) && f !in replaced)
      ensures forall f :: f in replaced ==>
                && f.unlinked && f.refCount == old(f.refCount) - 1
                && f.readerOpen == f.onDisk == (f.refCount != 0)
    {
      Swap(replaced, file);
      Unlink(replaced);
    }

    /** Closing the list marks each file and drops the list's reference; no file is removed. */
    method Close()
      requires Valid()
      modifies this`tables, tables
      ensures tables == []
      ensures forall f :: f in old(tables) ==>
                && f.closed && !f.unlinked && f.refCount == old(f.refCount) - 1
                && f.readerOpen == (f.refCount != 0) && f.onDisk
    {
      CloseAll(tables);
      tables := [];
    }

    method Swap(replaced: seq<SSTableFile>, file: SSTableFile?)
      requires Descending(tables) && forall f :: f in replaced ==> f in tables
      requires file != null ==> forall f :: f in tables ==> f.table.gen != file.table.gen
      modifies this`tables
      ensures Descending(tables)
      ensures forall f :: f in tables <==> f == file || (f in old(tables) && f !in replaced)
    {
      KeptAreNotOld(tables, replaced);
      var kept := Kept(GensOf(replaced));
      hide GensOf;
      if file != null {
        kept := kept + [file];
      }
      tables := SortTables(kept);
    }
  }
}
