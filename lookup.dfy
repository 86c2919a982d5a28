/**
 * The path side of navigation in lib/dir.c: the paths given to opened
 * records, the parent path of "..", the '/'-separated segments that strtok
 * yields, the longest-prefix probe of duc_dir_open, and what it means for a
 * path to lead through the stored records to a directory.
 */
module Lookup {

  import opened Wrappers
  import opened Keys
  import opened Entries
  import opened Codec

  /**
   * An absolute path as realpath returns it: it starts with '/', has no
   * trailing '/' unless it is "/" itself, and no empty components.
   */
  predicate Canonical(p: string)
  {
    && |p| >= 1 && p[0] == '/'
    && (|p| == 1 || p[|p| - 1] != '/')
    && forall i :: 1 <= i < |p| ==> p[i] == '/' ==> p[i - 1] != '/'
  }

  /** A directory entry name: non-empty and without '/'. */
  predicate IsName(name: string)
  {
    name != [] && forall i :: 0 <= i < |name| ==> name[i] != '/'
  }

  /**
   * asprintf("%s/%s", parent, name), the path duc_dir_openent gives a child:
   * the parent path, a separator, then the name; for a name, that separator
   * is the last '/' of the result.
   */
  function ChildPath(parent: string, name: string): (c: string)
    ensures |c| == |parent| + 1 + |name|
    ensures parent <= c && c[|parent|] == '/' && c[|parent| + 1..] == name
    ensures IsName(name) ==> LastSlashBefore(c, |c|) == Some(|parent|)
  {
    var c := parent + "/" + name;
    assert forall j :: |parent| < j < |c| ==> c[j] == name[j - |parent| - 1];
    c
  }

  /** The text "%s" prints for a path that may be NULL (glibc prints "(null)"). */
  function PathText(path: Option<string>): string
  {
    if path.Some? then path.value else "(null)"
  }

  /** memrchr(p, '/', n): the last '/' among the first n characters. */
  function LastSlashBefore(p: string, n: nat): (k: Option<nat>)
    requires n <= |p|
    ensures k.Some? ==> k.value < n && p[k.value] == '/' && forall j :: k.value < j < n ==> p[j] != '/'
    ensures k.None? ==> forall j :: 0 <= j < n ==> p[j] != '/'
  {
    if n == 0 then None else if p[n - 1] == '/' then Some(n - 1) else LastSlashBefore(p, n - 1)
  }

  /** Where the run of '/' that ends at index k begins. */
  function SlashRunStart(p: string, k: nat): (r: nat)
    requires k < |p| && p[k] == '/'
    ensures r <= k && (r == 0 || p[r - 1] != '/')
    ensures forall j :: r <= j <= k ==> p[j] == '/'
  {
    if k > 0 && p[k - 1] == '/' then SlashRunStart(p, k - 1) else k
  }

  /**
   * What glibc's dirname() leaves in the buffer it is handed; duc_dir_openat
   * keeps the buffer and ignores the address it returns. A trailing '/' is
   * skipped, the run of '/' before the last component is cut off, a path
   * whose only '/' run is leading becomes "/" ("//" when it is exactly two
   * slashes), and a path without '/' is left as it is (dirname then returns
   * a separate ".", which is dropped).
   */
  function Dirname(p: string): (d: string)
    ensures d <= p && (p != [] ==> d != [])
  {
    var last :=
      match LastSlashBefore(p, |p|)
      case None => None
      case Some(k) =>
        if k != 0 && k == |p| - 1 && SlashRunStart(p, k) != 0
        then LastSlashBefore(p, SlashRunStart(p, k))
        else Some(k);
    match last
    case None => p
    case Some(k) =>
      var r := SlashRunStart(p, k);
      if r != 0 then p[..r] else if k == 1 then p[..2] else p[..1]
  }

  /**
   * Going up undoes going down: below the root, the parent path of a child
   * path is the path it was made from, and the child path is canonical.
   * The child path of "/" is "//name" (asprintf adds its own '/'), whose
   * parent path is "//"; the canonical "/name" has parent "/".
   */
  lemma {:induction false} DirnameOfChild(p: string, name: string)
    requires Canonical(p) && IsName(name)
    ensures p != "/" ==> Canonical(ChildPath(p, name)) && Dirname(ChildPath(p, name)) == p
    ensures ChildPath("/", name) == "//" + name && Dirname(ChildPath("/", name)) == "//"
    ensures Canonical("/" + name) && Dirname("/" + name) == "/"
  {
    if p != "/" {
      var c := ChildPath(p, name);
      assert c[|p|] == '/' && c[|p| - 1] == p[|p| - 1];
      assert forall j :: |p| < j < |c| ==> c[j] == name[j - |p| - 1];
      assert LastSlashBefore(c, |c|) == Some(|p|);
      assert SlashRunStart(c, |p|) == |p|;
      assert c[..|p|] == p;
    }
    var c := ChildPath("/", name);
    assert c[0] == '/' && c[1] == '/';
    assert forall j :: 1 < j < |c| ==> c[j] == name[j - 2];
    assert LastSlashBefore(c, |c|) == Some(1);
    assert SlashRunStart(c, 1) == 0;
    var r := "/" + name;
    assert r[0] == '/';
    assert forall j :: 0 < j < |r| ==> r[j] == name[j - 1];
    assert LastSlashBefore(r, |r|) == Some(0);
  }

  /** The parent path of a canonical path is a canonical prefix of it. */
  lemma {:induction false} DirnameIsCanonicalPrefix(p: string)
    requires Canonical(p)
    ensures Canonical(Dirname(p)) && Dirname(p) <= p
  {
    var k := LastSlashBefore(p, |p|).value;
    if k > 0 {
      assert p[k - 1] != '/';
      assert SlashRunStart(p, k) == k;
    }
  }

  /**
   * The segments strtok(rest, "/") returns one after another: the maximal
   * runs of characters other than '/'.
   */
  function Segments(s: string): (segs: seq<string>)
    ensures forall i :: 0 <= i < |segs| ==> IsName(segs[i])
    decreases |s|
  {
    if s == [] then []
    else if s[0] == '/' then Segments(s[1..])
    else
      var n := SlashIndex(s);
      [s[..n]] + Segments(s[n..])
  }

  /** "/a/b/c" from ["a", "b", "c"]. */
  function JoinSegments(segs: seq<string>): string
  {
    if segs == [] then "" else "/" + segs[0] + JoinSegments(segs[1..])
  }

  /** strtok recovers exactly the names a path was built from. */
  lemma {:induction false} SegmentsOfJoin(segs: seq<string>)
    requires forall i :: 0 <= i < |segs| ==> IsName(segs[i])
    ensures Segments(JoinSegments(segs)) == segs
    decreases |segs|
  {
    if segs != [] {
      var s, name, rest := JoinSegments(segs), segs[0], JoinSegments(segs[1..]);
      assert s == "/" + name + rest;
      assert s[1..] == name + rest;
      SegmentsOfJoin(segs[1..]);
      var t := s[1..];
      assert rest == [] || rest[0] == '/';
      assert forall j :: 0 <= j < |name| ==> t[j] == name[j];
      if rest != [] {
        assert t[|name|] == rest[0] == '/';
      }
      assert SlashIndex(t) == |name|;
      assert t[..|name|] == name && t[|name|..] == rest;
    }
  }

  /**
   * A length duc_dir_open probes the path index with: the whole path, the
   * position of each '/' after the first character, and 1 (the prefix "/").
   */
  predicate Boundary(p: string, k: nat)
  {
    1 <= k <= |p| && (k == |p| || k == 1 || p[k] == '/')
  }

  /** The prefix is in the path index with a value of the size of an index report. */
  predicate Hit(index: map<string, IndexValue>, s: string)
  {
    s in index && index[s].Report?
  }

  /** Steps back from j to the nearest position that is 1 or holds '/' (or stays at 0 or 1). */
  function ScanBack(p: string, j: nat): (k: nat)
    requires j < |p|
    ensures k <= j && (k == 0 <==> j == 0)
    ensures k > 0 ==> Boundary(p, k)
    ensures forall i :: k < i <= j ==> !Boundary(p, i)
    decreases j
  {
    if j > 1 && p[j] != '/' then ScanBack(p, j - 1) else j
  }

  /** The next length probed after a miss at l: `l--` followed by the scan back. */
  function NextProbe(p: string, l: nat): (k: nat)
    requires 1 <= l <= |p|
    ensures k < l && (k > 0 ==> Boundary(p, k))
    ensures forall i :: k < i < l ==> !Boundary(p, i)
  {
    ScanBack(p, l - 1)
  }

  /** The probe loop of duc_dir_open started at length l; 0 means no hit. */
  function TopFrom(index: map<string, IndexValue>, p: string, l: nat): (r: nat)
    requires l <= |p| && (l == 0 || Boundary(p, l))
    ensures r <= l
    ensures r > 0 ==> Boundary(p, r) && Hit(index, p[..r])
    ensures forall k :: r < k <= l && Boundary(p, k) ==> !Hit(index, p[..k])
    decreases l
  {
    if l == 0 then 0
    else if Hit(index, p[..l]) then l
    else TopFrom(index, p, NextProbe(p, l))
  }

  /**
   * The prefix duc_dir_open starts from: the longest boundary prefix of p that
   * the path index holds a report for, or 0 when there is none.
   */
  function LongestPrefix(index: map<string, IndexValue>, p: string): (r: nat)
    ensures r <= |p|
    ensures r > 0 ==> Boundary(p, r) && Hit(index, p[..r])
    ensures forall k :: r < k && Boundary(p, k) ==> !Hit(index, p[..k])
  {
    TopFrom(index, p, |p|)
  }

  /**
   * Starting at the record of (dev, ino), the segments lead, child by child,
   * to the directory (tdev, tino), and every record on the way is stored.
   */
  ghost predicate Resolves(records: map<string, seq<Token>>, dev: nat, ino: nat, segs: seq<string>, tdev: nat, tino: nat)
    decreases |segs|
  {
    && Key(dev, ino) in records
    && if segs == [] then tdev == dev && tino == ino
       else exists e :: e in Children(records[Key(dev, ino)]) && e.name == segs[0]
              && Resolves(records, e.dev, e.ino, segs[1..], tdev, tino)
  }

  /** The segments lead from (dev, ino) to some directory. */
  ghost predicate Leads(records: map<string, seq<Token>>, dev: nat, ino: nat, segs: seq<string>)
  {
    exists tdev, tino :: Resolves(records, dev, ino, segs, tdev, tino)
  }

  /** In every stored record no two children share a name. */
  ghost predicate UniqueNames(records: map<string, seq<Token>>)
  {
    forall k :: k in records ==> NamesUnique(Children(records[k]))
  }

  /**
   * Canonical path p leads to directory (tdev, tino): its longest indexed
   * prefix names a starting directory, and the rest of the path resolves
   * from there.
   */
  ghost predicate PathResolves(records: map<string, seq<Token>>, index: map<string, IndexValue>, p: string, tdev: nat, tino: nat)
  {
    var l := LongestPrefix(index, p);
    l > 0 && Resolves(records, index[p[..l]].dev, index[p[..l]].ino, Segments(p[l..]), tdev, tino)
  }

  /** Without an indexed prefix a path leads nowhere. */
  lemma NoPrefixNoPath(records: map<string, seq<Token>>, index: map<string, IndexValue>, p: string)
    requires LongestPrefix(index, p) == 0
    ensures !exists a, b :: PathResolves(records, index, p, a, b)
  {
  }

  /**
   * Where the longest indexed prefix names (dev, ino), a path leads to a
   * directory exactly when its remaining segments lead there from (dev, ino).
   */
  lemma PathResolvesAt(records: map<string, seq<Token>>, index: map<string, IndexValue>, p: string, dev: nat, ino: nat,
                       a: nat, b: nat)
    requires LongestPrefix(index, p) > 0 && index[p[..LongestPrefix(index, p)]] == Report(dev, ino)
    ensures PathResolves(records, index, p, a, b)
      <==> Resolves(records, dev, ino, Segments(p[LongestPrefix(index, p)..]), a, b)
  {
  }

  /** A path that leads somewhere has remaining segments that lead somewhere from its indexed prefix. */
  lemma PathLeads(records: map<string, seq<Token>>, index: map<string, IndexValue>, p: string, dev: nat, ino: nat)
    requires LongestPrefix(index, p) > 0 && index[p[..LongestPrefix(index, p)]] == Report(dev, ino)
    requires exists a, b :: PathResolves(records, index, p, a, b)
    ensures Leads(records, dev, ino, Segments(p[LongestPrefix(index, p)..]))
  {
    var a, b :| PathResolves(records, index, p, a, b);
    PathResolvesAt(records, index, p, dev, ino, a, b);
  }

  /** Extending a resolved path by one child entry whose record is stored. */
  lemma {:induction false} ResolvesSnoc(records: map<string, seq<Token>>, dev: nat, ino: nat, segs: seq<string>,
                                        mdev: nat, mino: nat, e: Entry)
    requires Resolves(records, dev, ino, segs, mdev, mino)
    requires Key(mdev, mino) in records && e in Children(records[Key(mdev, mino)])
    requires Key(e.dev, e.ino) in records
    ensures Resolves(records, dev, ino, segs + [e.name], e.dev, e.ino)
    decreases |segs|
  {
    var t := segs + [e.name];
    assert t != [] && Key(dev, ino) in records;
    if segs == [] {
      assert t[0] == e.name && t[1..] == [];
      assert Resolves(records, e.dev, e.ino, t[1..], e.dev, e.ino);
    } else {
      var c :| c in Children(records[Key(dev, ino)]) && c.name == segs[0]
        && Resolves(records, c.dev, c.ino, segs[1..], mdev, mino);
      ResolvesSnoc(records, c.dev, c.ino, segs[1..], mdev, mino, e);
      SnocTail(segs, e.name);
    }
  }

  /** Appending keeps the first element and appends to the tail. */
  lemma SnocTail<T>(s: seq<T>, x: T)
    requires s != []
    ensures (s + [x])[0] == s[0] && (s + [x])[1..] == s[1..] + [x]
  {
  }

  /**
   * With unique names, if the segments resolve from a record at all, then the
   * first entry named by the next segment in any reordering of its children
   * is the one the resolution goes through.
   */
  lemma {:induction false} ResolvesStep(records: map<string, seq<Token>>, dev: nat, ino: nat, seg: string,
                                        rest: seq<string>, es: seq<Entry>)
    requires UniqueNames(records) && Key(dev, ino) in records
    requires multiset(es) == multiset(Children(records[Key(dev, ino)]))
    requires Leads(records, dev, ino, [seg] + rest)
    ensures FirstIndexOf(es, seg).Some?
    ensures var e := es[FirstIndexOf(es, seg).value];
      Key(e.dev, e.ino) in records && Leads(records, e.dev, e.ino, rest)
  {
    var a, b :| Resolves(records, dev, ino, [seg] + rest, a, b);
    var cs := Children(records[Key(dev, ino)]);
    assert ([seg] + rest)[0] == seg && ([seg] + rest)[1..] == rest;
    var e :| e in cs && e.name == seg && Resolves(records, e.dev, e.ino, rest, a, b);
    var j :| 0 <= j < |cs| && cs[j] == e;
    FirstIndexOfReordered(es, cs, seg);
  }

}
