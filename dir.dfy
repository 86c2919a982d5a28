/**
 * lib/dir.c: directory records loaded from the database into a growable
 * entry list, written back, iterated, limited, and reached by path.
 */
module Dir {

  import opened Wrappers
  import opened Keys
  import opened Entries
  import opened Codec
  import opened Lookup

  /** sizeof(struct duc_dirent) on an LP64 system: the name address, off_t, mode_t padded to 8 bytes, dev_t and ino_t. */
  const EntrySize: nat := 40

  /** The initial ent_pool of duc_dir_new, in bytes. */
  const InitialPool: nat := 32768

  /** The values lib/dir.c leaves in duc->err. */
  datatype Error =
    | NoError              // 0, set by duc_dir_read
    | PathNotFound         // DUC_E_PATH_NOT_FOUND
    | StoreError(code: int) // the non-zero status db_put returned

  /**
   * The duc handle as far as lib/dir.c uses it: the database, seen as its
   * two kinds of entries, and the last error.
   */
  class Duc {
    /** Directory records, under the key printed from their (dev, ino). */
    var records: map<string, seq<Token>>
    /** Top-level index entries, under the path of an indexed tree. */
    var index: map<string, IndexValue>
    var err: Error

    /** Every stored directory record is one duc_db_write_dir can have written. */
    ghost predicate Valid()
      reads this`records
    {
      forall k :: k in records ==> WellFormed(records[k])
    }

    constructor (records: map<string, seq<Token>>, index: map<string, IndexValue>)
      ensures this.records == records && this.index == index && err == NoError
    {
      this.records := records;
      this.index := index;
      err := NoError;
    }

    /**
     * duc_db_read_dir: look the record of (dev, ino) up and load its header
     * and every child with a name, then put the children in size order.
     */
    method ReadDir(dev: nat, ino: nat) returns (dir: DucDir?)
      requires Valid()
      modifies this`err
      ensures dir == null <==> Key(dev, ino) !in records
      ensures dir == null ==> err == PathNotFound
      ensures dir != null ==> fresh(dir) && fresh(dir.entList) && err == old(err)
      ensures dir != null ==> dir.duc == this && dir.dev == dev && dir.ino == ino
      ensures dir != null ==> dir.Loaded() && dir.entCur == 0 && dir.path == None
    {
      var d := new DucDir(this, dev, ino);
      var key := Key(dev, ino);
      if key !in records {
        err := PathNotFound;
        return null;
      }
      var ts := records[key];
      assert WellFormed(ts);
      d.Load(ts);
      dir := d;
    }

    /**
     * The search for the top path in duc_dir_open: probe the index with the
     * whole path, then with shorter and shorter prefixes ending before a '/',
     * down to "/", until one is found with a report-sized value.
     */
    method FindTop(p: string) returns (l: nat, dev: nat, ino: nat)
      ensures l == LongestPrefix(index, p)
      ensures l > 0 ==> index[p[..l]] == Report(dev, ino)
      ensures l == 0 ==> dev == 0 && ino == 0
    {
      l, dev, ino := |p|, 0, 0;
      while l > 0
        invariant l <= |p| && (l == 0 || Boundary(p, l))
        invariant TopFrom(index, p, l) == LongestPrefix(index, p)
        invariant dev == 0 && ino == 0
      {
        if p[..l] in index && index[p[..l]].Report? {
          dev, ino := index[p[..l]].dev, index[p[..l]].ino;
          break;
        }
        ghost var probe := NextProbe(p, l);
        l := l - 1;
        while l > 1 && p[l] != '/'
          invariant l < |p| && ScanBack(p, l) == probe
        {
          l := l - 1;
        }
      }
    }

    /**
     * duc_dir_open, from the result of realpath (None when it failed): start
     * at the record of the longest indexed prefix and follow the remaining
     * path components child by child. The directory returned is the one the
     * path leads to; when no record is found the result is null and the
     * error is DUC_E_PATH_NOT_FOUND; and when names are unique within each
     * record, every path that leads to a directory opens it.
     */
    method DirOpen(canon: Option<string>) returns (dir: DucDir?)
      requires Valid()
      modifies this`err
      ensures dir == null ==> err == PathNotFound
      ensures dir != null ==> fresh(dir) && fresh(dir.entList) && err == old(err)
      ensures dir != null ==> dir.duc == this && dir.Loaded() && dir.entCur == 0 && dir.path == canon
      ensures dir != null ==> canon.Some? && PathResolves(records, index, canon.value, dir.dev, dir.ino)
      ensures canon.Some? && UniqueNames(records) && (exists a, b :: PathResolves(records, index, canon.value, a, b))
        ==> dir != null
    {
      if canon.None? {
        err := PathNotFound;
        return null;
      }
      var p := canon.value;
      var l, dev, ino := FindTop(p);
      if l == 0 {
        NoPrefixNoPath(records, index, p);
        err := PathNotFound;
        return null;
      }
      dir := OpenFrom(p, l, dev, ino);
      if dir != null {
        dir.path := Some(p);
      }
    }

    /**
     * The second half of duc_dir_open: read the directory the longest indexed
     * prefix names, then walk the remaining path components from it.
     */
    method OpenFrom(p: string, l: nat, dev: nat, ino: nat) returns (dir: DucDir?)
      requires Valid()
      requires l == LongestPrefix(index, p) && l > 0 && index[p[..l]] == Report(dev, ino)
      modifies this`err
      ensures dir == null ==> err == PathNotFound
      ensures dir != null ==> fresh(dir) && fresh(dir.entList) && err == old(err)
      ensures dir != null ==> dir.duc == this && dir.Loaded() && dir.entCur == 0
      ensures dir != null ==> PathResolves(records, index, p, dir.dev, dir.ino)
      ensures UniqueNames(records) && (exists a, b :: PathResolves(records, index, p, a, b)) ==> dir != null
    {
      var segs := Segments(p[l..]);
      if UniqueNames(records) && exists a, b :: PathResolves(records, index, p, a, b) {
        PathLeads(records, index, p, dev, ino);
      }
      dir := ReadDir(dev, ino);
      if dir == null {
        assert !Leads(records, dev, ino, segs);
        err := PathNotFound;
        return null;
      }
      dir := Walk(dir, segs, dev, ino);
      if dir != null {
        PathResolvesAt(records, index, p, dev, ino, dir.dev, dir.ino);
      }
    }

    /**
     * The component loop of duc_dir_open: from the start directory, find each
     * name among the children and open that child, until the names run out
     * or one is missing. A directory returned is where the names lead; with
     * unique names, names that lead somewhere always get there.
     */
    method Walk(start: DucDir, segs: seq<string>, ghost dev: nat, ghost ino: nat) returns (dir: DucDir?)
      requires Valid() && start.duc == this && start.Loaded()
      requires start.dev == dev && start.ino == ino
      modifies this`err
      ensures dir == null ==> err == PathNotFound
      ensures dir != null ==> (dir == start || (fresh(dir) && fresh(dir.entList))) && err == old(err)
      ensures dir != null ==> dir.duc == this && dir.Loaded() && (dir == start || dir.entCur == 0)
      ensures dir != null ==> Resolves(records, dev, ino, segs, dir.dev, dir.ino)
      ensures UniqueNames(records) && Leads(records, dev, ino, segs) ==> dir != null
    {
      ghost var complete := UniqueNames(records) && Leads(records, dev, ino, segs);
      ghost var walked: seq<string> := [];
      var names := segs;
      dir := start;
      while dir != null && names != []
        invariant walked + names == segs
        invariant dir == null ==> err == PathNotFound
        invariant dir != null ==> (dir == start || (fresh(dir) && fresh(dir.entList))) && err == old(err)
        invariant dir != null ==> dir.duc == this && dir.Loaded() && (dir == start || dir.entCur == 0)
        invariant dir != null ==> Resolves(records, dev, ino, walked, dir.dev, dir.ino)
        invariant complete ==> dir != null && Leads(records, dir.dev, dir.ino, names)
        decreases |names|
      {
        MoveFirst(walked, names);
        dir := Step(dir, names[0], dev, ino, walked, names[1..], complete);
        walked, names := walked + [names[0]], names[1..];
      }
      if dir != null {
        assert walked == segs;
      }
    }

    /**
     * One turn of the component loop: find the name among the children of
     * dir and open that child. The ghost arguments are the names already
     * walked and the names still to come.
     */
    method Step(dir: DucDir, name: string, ghost dev: nat, ghost ino: nat, ghost walked: seq<string>,
                ghost rest: seq<string>, ghost complete: bool)
      returns (next: DucDir?)
      requires Valid() && dir.duc == this && dir.Loaded()
      requires Resolves(records, dev, ino, walked, dir.dev, dir.ino)
      requires complete ==> UniqueNames(records) && Leads(records, dir.dev, dir.ino, [name] + rest)
      modifies this`err
      ensures next == null ==> err == PathNotFound
      ensures next != null ==> fresh(next) && fresh(next.entList) && err == old(err)
      ensures next != null ==> next.duc == this && next.Loaded() && next.entCur == 0
      ensures next != null ==> Resolves(records, dev, ino, walked + [name], next.dev, next.ino)
      ensures complete ==> next != null && Leads(records, next.dev, next.ino, rest)
    {
      next := null;
      if complete {
        LoadedStep(dir, name, rest);
      }
      var k := dir.FindChild(name);
      if k.Some? {
        var e := dir.entList[k.value];
        LoadedEntryIsChild(dir, k.value);
        next := dir.OpenEnt(e);
        if next != null {
          ResolvesSnoc(records, dev, ino, walked, dir.dev, dir.ino, e);
        }
      }
    }
  }

  /**
   * With unique names, when the segments lead somewhere from a loaded
   * directory, its first entry named by the next segment is stored and the
   * rest of the segments lead somewhere from it.
   */
  lemma LoadedStep(d: DucDir, seg: string, rest: seq<string>)
    requires d.Loaded() && UniqueNames(d.duc.records)
    requires Leads(d.duc.records, d.dev, d.ino, [seg] + rest)
    ensures FirstIndexOf(d.Entries(), seg).Some?
    ensures var e := d.Entries()[FirstIndexOf(d.Entries(), seg).value];
      Key(e.dev, e.ino) in d.duc.records && Leads(d.duc.records, e.dev, e.ino, rest)
  {
    ResolvesStep(d.duc.records, d.dev, d.ino, seg, rest, d.Entries());
  }

  /** Every entry in use in a loaded directory is a child of its stored record. */
  lemma LoadedEntryIsChild(d: DucDir, k: nat)
    requires d.Loaded() && k < d.entCount
    ensures d.entList[k] == d.Entries()[k]
    ensures d.entList[k] in Children(d.duc.records[Key(d.dev, d.ino)])
  {
    InPermutation(d.Entries(), Children(d.duc.records[Key(d.dev, d.ino)]), k);
  }

  /** Moving the first name still to walk onto the names walked keeps their concatenation. */
  lemma MoveFirst(walked: seq<string>, names: seq<string>)
    requires names != []
    ensures names == [names[0]] + names[1..]
    ensures (walked + [names[0]]) + names[1..] == walked + names
  {
  }

  /**
   * A header and an entry list hold the record stored for (dev, ino): the
   * stored header, and the stored children as a permutation in size order.
   */
  ghost predicate HoldsRecord(records: map<string, seq<Token>>, dev: nat, ino: nat, h: Header, es: seq<Entry>)
  {
    && Key(dev, ino) in records
    && |records[Key(dev, ino)]| >= 5
    && h == DecodeHeader(records[Key(dev, ino)])
    && multiset(es) == multiset(Children(records[Key(dev, ino)]))
    && SortedBySize(es)
  }

  /**
   * struct duc_dir: one directory record loaded from the database. The
   * entry list is an array of ent_pool / EntrySize slots of which the first
   * ent_count are in use; ent_cur is the iteration cursor.
   */
  class DucDir {
    const duc: Duc
    const dev: nat
    const ino: nat
    var devParent: nat
    var inoParent: nat
    var sizeTotal: nat
    var fileCount: nat
    var dirCount: nat
    var path: Option<string>
    var entList: array<Entry>
    var entCount: nat
    var entCur: nat
    /** Bytes allocated for the entry list, as duc_dir_add_ent counts them. */
    var entPool: nat

    ghost predicate Valid()
      reads `entPool, `entList, `entCount, `entCur
    {
      && EntrySize <= entPool
      && entList.Length == entPool / EntrySize
      && entCount <= entList.Length
      && entCur <= entCount
    }

    /** The entries in use, in list order. */
    function Entries(): seq<Entry>
      reads `entPool, `entList, `entCount, `entCur, entList
      requires Valid()
    {
      entList[..entCount]
    }

    function HeaderOf(): Header
      reads `devParent, `inoParent, `sizeTotal, `fileCount, `dirCount
    {
      Header(devParent, inoParent, sizeTotal, fileCount, dirCount)
    }

    /** The directory holds the record stored for (dev, ino). */
    ghost predicate Loaded()
      reads `entPool, `entList, `entCount, `entCur, entList, duc`records
      reads `devParent, `inoParent, `sizeTotal, `fileCount, `dirCount
    {
      Valid() && HoldsRecord(duc.records, dev, ino, HeaderOf(), Entries())
    }

    /** duc_dir_new: an empty record with a zeroed header and a 32 KiB entry pool. */
    constructor (duc: Duc, dev: nat, ino: nat)
      ensures this.duc == duc && this.dev == dev && this.ino == ino
      ensures Valid() && fresh(entList) && entPool == InitialPool
      ensures entCount == 0 && entCur == 0 && path == None
      ensures HeaderOf() == Header(0, 0, 0, 0, 0)
    {
      this.duc := duc;
      this.dev := dev;
      this.ino := ino;
      devParent, inoParent, sizeTotal, fileCount, dirCount := 0, 0, 0, 0, 0;
      path := None;
      entCur, entCount := 0, 0;
      entPool := InitialPool;
      entList := new Entry[InitialPool / EntrySize];
    }

    /**
     * duc_dir_add_ent: append one entry, doubling the pool first when the
     * entry would not fit in it.
     */
    method AddEnt(name: string, size: nat, mode: Mode, dev: nat, ino: nat)
      requires Valid()
      modifies this, entList
      ensures Valid()
      ensures Entries() == old(Entries()) + [Entry(name, size, mode, dev, ino)]
      ensures entPool == if (old(entCount) + 1) * EntrySize > old(entPool) then 2 * old(entPool) else old(entPool)
      ensures entList == old(entList) || fresh(entList)
      ensures entCur == old(entCur) && path == old(path) && HeaderOf() == old(HeaderOf())
    {
      var e := Entry(name, size, mode, dev, ino);
      if (entCount + 1) * EntrySize > entPool {
        entPool := entPool * 2;
        var prev := entList;
        entList := new Entry[entPool / EntrySize](i reads prev => if 0 <= i < prev.Length then prev[i] else e);
      }
      entList[entCount] := e;
      entCount := entCount + 1;
    }

    /**
     * The decoding part of duc_db_read_dir: the header fields, then the
     * children, then the qsort by size.
     */
    method Load(ts: seq<Token>)
      requires Valid() && entCount == 0 && WellFormed(ts)
      modifies this, entList
      ensures Valid() && entCur == old(entCur) && path == old(path)
      ensures entList == old(entList) || fresh(entList)
      ensures HeaderOf() == DecodeHeader(ts)
      ensures multiset(Entries()) == multiset(Children(ts)) && SortedBySize(Entries())
    {
      devParent, inoParent, sizeTotal := NumOf(ts[0]), NumOf(ts[1]), NumOf(ts[2]);
      fileCount, dirCount := NumOf(ts[3]), NumOf(ts[4]);
      LoadChildren(ts);
      ghost var children := Entries();
      SortEntries();
      assert multiset(Entries()) == multiset(children);
    }

    /** The qsort of duc_db_read_dir with fn_comp_ent: the entries in use, reordered by size. */
    method SortEntries()
      requires Valid()
      modifies entList
      ensures Valid() && SortedBySize(Entries()) && multiset(Entries()) == old(multiset(Entries()))
    {
      SortBySize(entList, entCount);
    }

    /**
     * The child loop of duc_db_read_dir: take the groups after the header one
     * by one and add an entry for each group whose name is present.
     */
    method LoadChildren(ts: seq<Token>)
      requires Valid() && entCount == 0 && WellFormed(ts)
      modifies this, entList
      ensures Valid() && Entries() == Children(ts)
      ensures entList == old(entList) || fresh(entList)
      ensures entCur == old(entCur) && path == old(path) && HeaderOf() == old(HeaderOf())
    {
      var ptr := 5;
      ghost var k := 0;
      assert ts[5..5] == [];
      while ptr < |ts|
        invariant 5 <= ptr <= |ts| && ptr == 5 + 5 * k
        invariant Valid() && Entries() == DecodeChildren(ts[5..ptr])
        invariant entList == old(entList) || fresh(entList)
        invariant entCur == old(entCur) && path == old(path) && HeaderOf() == old(HeaderOf())
      {
        DecodeNextGroup(ts, ptr, k);
        var g := ts[ptr..ptr + 5];
        if g[0].s.Some? {
          AddEnt(g[0].s.value, g[1].n, g[2].m, g[3].n, g[4].n);
        }
        ptr, k := ptr + 5, k + 1;
      }
      assert ts[5..ptr] == ts[5..];
    }

    /**
     * The serialising part of duc_db_write_dir: the header, then every entry
     * in list order; the buffer is one a read takes apart into this header
     * and these entries.
     */
    method EncodeRecord() returns (buf: seq<Token>)
      requires Valid()
      ensures buf == Encode(HeaderOf(), Entries())
      ensures WellFormed(buf) && DecodeHeader(buf) == HeaderOf() && Children(buf) == Entries()
    {
      buf := EncodeHeader(HeaderOf());
      var i := 0;
      while i < entCount
        invariant i <= entCount
        invariant buf == EncodeHeader(HeaderOf()) + EncodeChildren(entList[..i])
      {
        assert entList[..i + 1][..i] == entList[..i];
        buf := buf + EncodeEntry(entList[i]);
        i := i + 1;
      }
      assert entList[..i] == Entries();
      DecodeEncode(HeaderOf(), Entries());
    }

    /**
     * duc_db_write_dir: encode the header and every entry in list order and
     * store the buffer under the record's key; putStatus is what db_put
     * returns. Reading the stored record back gives this header and these
     * entries.
     */
    method WriteDir(putStatus: int) returns (r: int)
      requires Valid() && duc.Valid()
      modifies duc`records, duc`err
      ensures duc.Valid()
      ensures putStatus == 0 ==>
        && r == 0 && duc.err == old(duc.err)
        && duc.records == old(duc.records)[Key(dev, ino) := Encode(HeaderOf(), Entries())]
      ensures putStatus == 0 ==>
        && Key(dev, ino) in duc.records
        && DecodeHeader(duc.records[Key(dev, ino)]) == HeaderOf()
        && Children(duc.records[Key(dev, ino)]) == Entries()
      ensures putStatus != 0 ==> r == -1 && duc.err == StoreError(putStatus) && duc.records == old(duc.records)
    {
      var buf := EncodeRecord();
      if putStatus != 0 {
        duc.err := StoreError(putStatus);
        return -1;
      }
      duc.records := duc.records[Key(dev, ino) := buf];
      r := 0;
    }

    /**
     * duc_dir_read: hand out the entry under the cursor and advance it, or
     * nothing at the end of the list; the error is cleared either way.
     */
    method Read() returns (r: Option<Entry>)
      requires Valid()
      modifies this`entCur, duc`err
      ensures Valid() && duc.err == NoError
      ensures old(entCur) < entCount ==> r == Some(Entries()[old(entCur)]) && entCur == old(entCur) + 1
      ensures old(entCur) == entCount ==> r == None && entCur == old(entCur)
    {
      duc.err := NoError;
      if entCur < entCount {
        r := Some(entList[entCur]);
        entCur := entCur + 1;
      } else {
        r := None;
      }
    }

    /** duc_dir_rewind */
    method Rewind()
      requires Valid()
      modifies this`entCur
      ensures Valid() && entCur == 0
    {
      entCur := 0;
    }

    /** duc_dir_get_size: for a loaded directory, the total size stored in its record's header. */
    function GetSize(): (s: nat)
      reads `entPool, `entList, `entCount, `entCur, entList, duc`records
      reads `devParent, `inoParent, `sizeTotal, `fileCount, `dirCount
      ensures Loaded() ==> s == DecodeHeader(duc.records[Key(dev, ino)]).sizeTotal
    {
      sizeTotal
    }

    /** duc_dir_get_path (the copy strdup makes is the same text). */
    function GetPath(): (p: Option<string>)
      reads `path
      ensures p == path
    {
      path
    }

    /**
     * duc_dir_find_child: the index of the first entry called name, or
     * nothing, in which case the error becomes DUC_E_PATH_NOT_FOUND.
     */
    method FindChild(name: string) returns (r: Option<nat>)
      requires Valid()
      modifies duc`err
      ensures r == FirstIndexOf(Entries(), name)
      ensures r.None? ==> duc.err == PathNotFound
      ensures r.Some? ==> duc.err == old(duc.err)
    {
      var i := 0;
      while i < entCount
        invariant i <= entCount
        invariant forall j :: 0 <= j < i ==> entList[j].name != name
      {
        if name == entList[i].name {
          assert Entries()[i] == entList[i];
          assert forall j :: 0 <= j < i ==> Entries()[j].name != name;
          return Some(i);
        }
        i := i + 1;
      }
      duc.err := PathNotFound;
      return None;
    }

    /**
     * duc_dir_openent: read the record of the entry's directory and give it
     * the path "<this path>/<name>".
     */
    method OpenEnt(e: Entry) returns (dir2: DucDir?)
      requires duc.Valid()
      modifies duc`err
      ensures dir2 == null <==> Key(e.dev, e.ino) !in duc.records
      ensures dir2 == null ==> duc.err == PathNotFound
      ensures dir2 != null ==> fresh(dir2) && fresh(dir2.entList) && duc.err == old(duc.err)
      ensures dir2 != null ==> dir2.duc == duc && dir2.dev == e.dev && dir2.ino == e.ino
      ensures dir2 != null ==> dir2.Loaded() && dir2.entCur == 0
      ensures dir2 != null ==> dir2.path == Some(ChildPath(PathText(path), e.name))
    {
      dir2 := duc.ReadDir(e.dev, e.ino);
      if dir2 != null {
        dir2.path := Some(ChildPath(PathText(path), e.name));
      }
    }

    /**
     * duc_dir_openat: ".." opens the parent record, when both parent ids
     * are non-zero, with the path cut back by dirname; any other name opens
     * the first entry of that name. A name that is not found, and ".." of a
     * record without parent, give null and leave the error alone.
     */
    method OpenAt(name: string) returns (r: DucDir?)
      requires Valid() && duc.Valid()
      requires name == ".." && devParent != 0 && inoParent != 0 ==> path.Some?
      modifies duc`err
      ensures r != null ==> fresh(r) && fresh(r.entList) && r.duc == duc && r.Loaded() && r.entCur == 0
      ensures r != null ==> duc.err == old(duc.err)
      ensures name == ".." && devParent != 0 && inoParent != 0 ==>
        && (r == null <==> Key(devParent, inoParent) !in duc.records)
        && (r == null ==> duc.err == PathNotFound)
        && (r != null ==> r.dev == devParent && r.ino == inoParent && r.path == Some(Dirname(path.value)))
      ensures name == ".." && (devParent == 0 || inoParent == 0) ==> r == null && duc.err == old(duc.err)
      ensures name != ".." && FirstIndexOf(Entries(), name).None? ==> r == null && duc.err == old(duc.err)
      ensures name != ".." && FirstIndexOf(Entries(), name).Some? ==>
        var e := Entries()[FirstIndexOf(Entries(), name).value];
        && (r == null <==> Key(e.dev, e.ino) !in duc.records)
        && (r == null ==> duc.err == PathNotFound)
        && (r != null ==> r.dev == e.dev && r.ino == e.ino && r.path == Some(ChildPath(PathText(path), e.name)))
    {
      if name == ".." {
        r := OpenParent();
      } else {
        r := OpenNamed(name);
      }
    }

    /** The ".." branch of duc_dir_openat. */
    method OpenParent() returns (r: DucDir?)
      requires duc.Valid()
      requires devParent != 0 && inoParent != 0 ==> path.Some?
      modifies duc`err
      ensures r != null ==> fresh(r) && fresh(r.entList) && r.duc == duc && r.Loaded() && r.entCur == 0
      ensures r != null ==> duc.err == old(duc.err)
      ensures devParent != 0 && inoParent != 0 ==>
        && (r == null <==> Key(devParent, inoParent) !in duc.records)
        && (r == null ==> duc.err == PathNotFound)
        && (r != null ==> r.dev == devParent && r.ino == inoParent && r.path == Some(Dirname(path.value)))
      ensures devParent == 0 || inoParent == 0 ==> r == null && duc.err == old(duc.err)
    {
      if devParent != 0 && inoParent != 0 {
        r := duc.ReadDir(devParent, inoParent);
        if r != null {
          r.path := Some(Dirname(path.value));
        }
      } else {
        r := null;
      }
    }

    /** The name branch of duc_dir_openat: open the first entry called name, if any. */
    method OpenNamed(name: string) returns (r: DucDir?)
      requires Valid() && duc.Valid()
      modifies duc`err
      ensures r != null ==> fresh(r) && fresh(r.entList) && r.duc == duc && r.Loaded() && r.entCur == 0
      ensures r != null ==> duc.err == old(duc.err)
      ensures FirstIndexOf(Entries(), name).None? ==> r == null && duc.err == old(duc.err)
      ensures FirstIndexOf(Entries(), name).Some? ==>
        var e := Entries()[FirstIndexOf(Entries(), name).value];
        && (r == null <==> Key(e.dev, e.ino) !in duc.records)
        && (r == null ==> duc.err == PathNotFound)
        && (r != null ==> r.dev == e.dev && r.ino == e.ino && r.path == Some(ChildPath(PathText(path), e.name)))
    {
      var i := 0;
      while i < entCount
        invariant i <= entCount
        invariant forall j :: 0 <= j < i ==> entList[j].name != name
      {
        if entList[i].name == name {
          assert Entries()[i] == entList[i];
          assert forall j :: 0 <= j < i ==> Entries()[j].name != name;
          r := OpenEnt(entList[i]);
          return;
        }
        i := i + 1;
      }
      return null;
    }

    /**
     * The summing loop of duc_dir_limit: the total size of the entries from
     * position from onwards, the ones to be folded into the aggregate.
     */
    method RestSize(from: nat) returns (restSize: nat)
      requires Valid() && from <= entCount
      ensures restSize == SumSizes(Entries()[from..])
    {
      restSize := 0;
      var i := 0;
      while i < entCount
        invariant i <= entCount
        invariant restSize == if i < from then 0 else SumSizes(entList[from..i])
      {
        if i >= from {
          assert entList[from..i + 1][..i - from] == entList[from..i];
          restSize := restSize + entList[i].size;
        }
        i := i + 1;
      }
      assert entList[from..entCount] == Entries()[from..];
    }

    /**
     * duc_dir_limit: when there are more than count entries, keep the first
     * count - 1 and fold all the others into one aggregate entry in the last
     * kept slot, labelled with the number of entries beyond count. The list
     * shrinks to count slots and the pool to match.
     */
    method Limit(count: nat)
      requires Valid()
      requires entCount <= count || 1 <= count
      modifies this
      ensures Valid()
      ensures old(entCount) <= count ==> Entries() == old(Entries()) && entCur == old(entCur)
      ensures count < old(entCount) ==> Entries() == Limited(old(Entries()), count) && entCur == 0
      ensures count < old(entCount) ==> fresh(entList) && entPool == count * EntrySize
      ensures old(entCount) <= count ==> entList == old(entList) && entPool == old(entPool)
      ensures path == old(path) && HeaderOf() == old(HeaderOf())
    {
      if entCount <= count {
        return;
      }
      ghost var es := Entries();
      var restCount := entCount - count;
      var restSize := RestSize(count - 1);
      var rest := RestEntry(restCount, restSize);
      assert es[..count - 1] + [rest] == Limited(es, count);
      entList := Shrunk(count, rest);
      entPool := count * EntrySize;
      entCount := count;
      entCur := 0;
      assert entList[..count] == entList[..];
    }

    /**
     * The realloc of duc_dir_limit followed by the write of the aggregate:
     * a list of count slots holding the first count - 1 entries, then last.
     */
    method Shrunk(count: nat, last: Entry) returns (a: array<Entry>)
      requires Valid() && 1 <= count <= entCount
      ensures fresh(a) && a.Length == count
      ensures a[..] == Entries()[..count - 1] + [last]
    {
      var prev := entList;
      a := new Entry[count](j reads prev => if 0 <= j < prev.Length then prev[j] else last);
      a[count - 1] := last;
      assert a[..count - 1] == Entries()[..count - 1];
      assert a[..] == a[..count - 1] + [a[count - 1]];
    }
  }

  /**
   * The pool accounting of duc_dir_add_ent and duc_dir_limit, apart from the
   * entries themselves: the number of entries in use, ent_pool, and the bytes
   * actually allocated for the list.
   */
  datatype Pool = Pool(count: nat, poolBytes: nat, allocBytes: nat)

  /** ent_pool is what is allocated, and the entries in use fit in it. */
  predicate PoolOk(p: Pool)
  {
    p.allocBytes == p.poolBytes && EntrySize <= p.poolBytes && p.count * EntrySize <= p.poolBytes
  }

  /** The bookkeeping of one duc_dir_add_ent. */
  function AddStep(p: Pool): (q: Pool)
    ensures q.count == p.count + 1
    ensures q.poolBytes == p.poolBytes || q.poolBytes == 2 * p.poolBytes
    ensures q.poolBytes != p.poolBytes ==> q.allocBytes == q.poolBytes
    ensures q.count * EntrySize <= p.poolBytes ==> q.poolBytes == p.poolBytes && q.allocBytes == p.allocBytes
  {
    if (p.count + 1) * EntrySize > p.poolBytes
    then Pool(p.count + 1, 2 * p.poolBytes, 2 * p.poolBytes)
    else Pool(p.count + 1, p.poolBytes, p.allocBytes)
  }

  /** The new entry of duc_dir_add_ent is written inside the allocation. */
  predicate AddInBounds(p: Pool)
  {
    (p.count + 1) * EntrySize <= AddStep(p).allocBytes
  }

  /** duc_dir_limit as written: the list is reallocated to count entries, ent_pool is left as it was. */
  function LimitAsWritten(p: Pool, count: nat): (q: Pool)
    ensures q.poolBytes == p.poolBytes
    ensures q.count == if p.count <= count then p.count else count
    ensures count < p.count ==> q.allocBytes == count * EntrySize
  {
    if p.count <= count then p else Pool(count, p.poolBytes, count * EntrySize)
  }

  /** duc_dir_limit with ent_pool following the reallocation. */
  function LimitFixed(p: Pool, count: nat): (q: Pool)
    ensures q.count == if p.count <= count then p.count else count
    ensures p.allocBytes == p.poolBytes ==> q.allocBytes == q.poolBytes
  {
    if p.count <= count then p else Pool(count, count * EntrySize, count * EntrySize)
  }

  /** Adding keeps the pool sound and always writes inside the allocation. */
  lemma AddStepKeepsPool(p: Pool)
    requires PoolOk(p)
    ensures AddInBounds(p) && PoolOk(AddStep(p)) && AddStep(p).count == p.count + 1
  {
  }

  /**
   * After limiting two entries to one as written, the next add finds the
   * entry fits in the stale ent_pool, does not reallocate, and writes its
   * entry past the 40 bytes left allocated.
   */
  lemma LimitAsWrittenOverflows()
    ensures PoolOk(Pool(2, InitialPool, InitialPool))
    ensures !AddInBounds(LimitAsWritten(Pool(2, InitialPool, InitialPool), 1))
  {
  }

  /** With ent_pool updated, limiting keeps the pool sound, so every later add stays in bounds. */
  lemma LimitFixedKeepsPool(p: Pool, count: nat)
    requires PoolOk(p) && (p.count <= count || 1 <= count)
    ensures PoolOk(LimitFixed(p, count))
    ensures LimitFixed(p, count).count == if p.count <= count then p.count else count
  {
  }

}
