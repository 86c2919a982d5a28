/**
 * The child entries of a directory record (struct duc_dirent) and the pure
 * operations on a list of them: the size order used after every load, the
 * first-match lookup by name, and the aggregation done by duc_dir_limit.
 */
module Entries {

  import opened Wrappers
  import opened Numerals

  /**
   * An entry's mode_t. One reserved value, DUC_MODE_REST, marks the synthetic
   * aggregate entry; its number is defined outside lib/dir.c, so the model
   * keeps the two kinds apart symbolically.
   */
  datatype Mode = Rest | Stat(bits: nat)

  datatype Entry = Entry(name: string, size: nat, mode: Mode, dev: nat, ino: nat)

  /**
   * fn_comp_ent, the comparator handed to qsort: 1 when a is smaller than b,
   * 0 otherwise. It never returns a negative value, so it is not a three-way
   * comparator; what it asks for is that larger sizes come first.
   */
  function CompEnt(a: Entry, b: Entry): (r: int)
    ensures 0 <= r <= 1
    ensures r == 1 <==> a.size < b.size
  {
    if a.size < b.size then 1 else 0
  }

  /** Sizes do not increase along the list. */
  ghost predicate SortedBySize(es: seq<Entry>)
  {
    forall i, j :: 0 <= i < j < |es| ==> es[i].size >= es[j].size
  }

  /**
   * A list is in size order exactly when fn_comp_ent finds no adjacent pair
   * out of order.
   */
  lemma {:induction false} AdjacentOrderIsSorted(es: seq<Entry>)
    ensures (forall i :: 0 <= i < |es| - 1 ==> CompEnt(es[i], es[i + 1]) == 0) <==> SortedBySize(es)
    decreases |es|
  {
    if (forall i :: 0 <= i < |es| - 1 ==> CompEnt(es[i], es[i + 1]) == 0) && |es| > 1 {
      var tail := es[1..];
      assert forall i :: 0 <= i < |tail| - 1 ==> CompEnt(tail[i], tail[i + 1]) == 0 by {
        forall i | 0 <= i < |tail| - 1 ensures CompEnt(tail[i], tail[i + 1]) == 0 {
          assert tail[i] == es[i + 1] && tail[i + 1] == es[i + 2];
        }
      }
      AdjacentOrderIsSorted(tail);
      forall i, j | 0 <= i < j < |es| ensures es[i].size >= es[j].size {
        if i > 0 {
          assert es[i] == tail[i - 1] && es[j] == tail[j - 1];
        } else {
          assert es[j] == tail[j - 1];
          assert es[0].size >= es[1].size;
        }
      }
    }
  }

  /** Exchanges two slots of the list, keeping its multiset of entries. */
  method Swap(a: array<Entry>, i: nat, j: nat)
    requires i < a.Length && j < a.Length
    modifies a
    ensures a[i] == old(a[j]) && a[j] == old(a[i])
    ensures forall k :: 0 <= k < a.Length && k != i && k != j ==> a[k] == old(a[k])
    ensures multiset(a[..]) == old(multiset(a[..]))
  {
    a[i], a[j] := a[j], a[i];
  }

  /**
   * The qsort of the first n slots with fn_comp_ent: afterwards they hold the
   * same entries, largest size first. Only the order between entries of equal
   * size is left open, as qsort leaves it open.
   */
  method SortBySize(a: array<Entry>, n: nat)
    requires n <= a.Length
    modifies a
    ensures SortedBySize(a[..n])
    ensures multiset(a[..n]) == old(multiset(a[..n]))
    ensures a[n..] == old(a[n..])
  {
    var i := 0;
    while i < n
      invariant i <= n
      invariant forall k, l :: 0 <= k < l < i ==> a[k].size >= a[l].size
      invariant multiset(a[..]) == old(multiset(a[..]))
      invariant forall k :: n <= k < a.Length ==> a[k] == old(a[k])
    {
      InsertAt(a, i);
      i := i + 1;
    }
    assert a[n..] == old(a[n..]);
    assert multiset(a[n..]) == old(multiset(a[n..]));
    calc {
      multiset(a[..n]) + multiset(a[n..]);
      { assert a[..] == a[..n] + a[n..]; }
      multiset(a[..]);
      old(multiset(a[..]));
      { assert old(a[..]) == old(a[..n]) + old(a[n..]); }
      old(multiset(a[..n])) + old(multiset(a[n..]));
    }
    MultisetCancel(multiset(a[..n]), old(multiset(a[..n])), multiset(a[n..]));
  }

  lemma MultisetCancel<T>(m1: multiset<T>, m2: multiset<T>, x: multiset<T>)
    requires m1 + x == m2 + x
    ensures m1 == m2
  {
    forall e ensures m1[e] == m2[e] {
      assert (m1 + x)[e] == (m2 + x)[e];
    }
  }

  /** One insertion step: moves a[i] towards the front past every smaller entry. */
  method InsertAt(a: array<Entry>, i: nat)
    requires i < a.Length
    requires forall k, l :: 0 <= k < l < i ==> a[k].size >= a[l].size
    modifies a
    ensures forall k, l :: 0 <= k < l <= i ==> a[k].size >= a[l].size
    ensures multiset(a[..]) == old(multiset(a[..]))
    ensures forall k :: i < k < a.Length ==> a[k] == old(a[k])
  {
    var j := i;
    while j > 0 && CompEnt(a[j - 1], a[j]) == 1
      invariant 0 <= j <= i
      invariant forall k, l :: 0 <= k < l <= i && k != j && l != j ==> a[k].size >= a[l].size
      invariant forall l :: j < l <= i ==> a[j].size >= a[l].size
      invariant multiset(a[..]) == old(multiset(a[..]))
      invariant forall k :: i < k < a.Length ==> a[k] == old(a[k])
    {
      Swap(a, j - 1, j);
      j := j - 1;
    }
  }

  /** Index of the first entry called `name`, as the scans in duc_dir_find_child and duc_dir_openat find it. */
  function FirstIndexOf(es: seq<Entry>, name: string): (r: Option<nat>)
    ensures r.Some? ==> r.value < |es| && es[r.value].name == name
    ensures r.Some? ==> forall j :: 0 <= j < r.value ==> es[j].name != name
    ensures r.None? ==> forall j :: 0 <= j < |es| ==> es[j].name != name
  {
    if es == [] then None
    else if es[0].name == name then Some(0)
    else match FirstIndexOf(es[1..], name)
      case None => None
      case Some(k) => Some(k + 1)
  }

  /** An element of a list is an element of any list with the same multiset. */
  lemma InPermutation(es: seq<Entry>, cs: seq<Entry>, i: nat)
    requires multiset(es) == multiset(cs) && i < |es|
    ensures es[i] in cs
  {
    assert es[i] in multiset(es);
  }

  /** No two entries of the list share a name. */
  ghost predicate NamesUnique(es: seq<Entry>)
  {
    forall i, j :: 0 <= i < j < |es| ==> es[i].name != es[j].name
  }

  /**
   * When names are unique, the first match in any reordering of a list is the
   * one entry of that name in the list itself, so the lookup does not depend
   * on how qsort ordered entries of equal size.
   */
  lemma {:induction false} FirstIndexOfReordered(es: seq<Entry>, cs: seq<Entry>, name: string)
    requires multiset(es) == multiset(cs) && NamesUnique(cs)
    ensures FirstIndexOf(es, name).Some? <==> exists j :: 0 <= j < |cs| && cs[j].name == name
    ensures forall j :: 0 <= j < |cs| && cs[j].name == name ==>
      FirstIndexOf(es, name).Some? && es[FirstIndexOf(es, name).value] == cs[j]
  {
    var r := FirstIndexOf(es, name);
    if r.Some? {
      var e := es[r.value];
      assert e in multiset(cs);
      var j :| 0 <= j < |cs| && cs[j] == e;
      assert forall j' :: 0 <= j' < |cs| && cs[j'].name == name ==> j' == j;
    } else {
      forall j | 0 <= j < |cs| ensures cs[j].name != name {
        assert cs[j] in multiset(es);
      }
    }
  }

  /** Sum of the sizes of a list. */
  function SumSizes(es: seq<Entry>): nat
  {
    if es == [] then 0 else SumSizes(es[..|es| - 1]) + es[|es| - 1].size
  }

  lemma {:induction false} SumSizesAppend(a: seq<Entry>, b: seq<Entry>)
    ensures SumSizes(a + b) == SumSizes(a) + SumSizes(b)
    decreases |b|
  {
    if b != [] {
      assert (a + b)[..|a + b| - 1] == a + b[..|b| - 1];
      SumSizesAppend(a, b[..|b| - 1]);
    } else {
      assert a + b == a;
    }
  }

  /** The name "(%ld files)" given to the aggregate entry: a decimal numeral in "(" and " files)". */
  function RestLabel(n: nat): (s: string)
    ensures |s| >= 9 && s[0] == '(' && s[|s| - 7..] == " files)"
    ensures IsDigits(s[1..|s| - 7], 10)
  {
    var d := Decimal(n);
    var s := "(" + d + " files)";
    assert s[1..|s| - 7] == d;
    s
  }

  /** Reads the number back out of an aggregate label. */
  function LabelNumber(s: string): Option<nat>
  {
    if |s| >= 8 && s[0] == '(' && s[|s| - 7..] == " files)"
      && s[1..|s| - 7] != [] && IsDigits(s[1..|s| - 7], 10)
    then Some(ParseDigits(s[1..|s| - 7], 10))
    else None
  }

  lemma {:induction false} RestLabelCarriesNumber(n: nat)
    ensures LabelNumber(RestLabel(n)) == Some(n)
  {
    var s, d := RestLabel(n), Decimal(n);
    assert s[1..|s| - 7] == d;
    assert s[|s| - 7..] == " files)";
    ParseDigitsOfDigits(n, 10);
  }

  /** The synthetic entry written over the last kept slot. */
  function RestEntry(folded: nat, size: nat): (e: Entry)
    ensures e.mode == Rest && e.size == size && e.dev == 0 && e.ino == 0
    ensures e.name == RestLabel(folded)
  {
    Entry(RestLabel(folded), size, Rest, 0, 0)
  }

  /**
   * The list duc_dir_limit leaves: the first count - 1 entries, then one
   * aggregate entry whose size is the sum of all the others and whose label
   * carries |es| - count.
   */
  function Limited(es: seq<Entry>, count: nat): (r: seq<Entry>)
    requires 1 <= count < |es|
    ensures |r| == count && r[..count - 1] == es[..count - 1]
    ensures r[count - 1].mode == Rest && r[count - 1].size == SumSizes(es[count - 1..])
  {
    es[..count - 1] + [RestEntry(|es| - count, SumSizes(es[count - 1..]))]
  }

  /**
   * Limiting keeps exactly count entries, keeps the first count - 1, and
   * loses no size: the total over the list is unchanged. The label's number
   * is one less than the number of entries folded into the aggregate.
   */
  lemma {:induction false} LimitedKeepsTotal(es: seq<Entry>, count: nat)
    requires 1 <= count < |es|
    ensures |Limited(es, count)| == count
    ensures Limited(es, count)[..count - 1] == es[..count - 1]
    ensures SumSizes(Limited(es, count)) == SumSizes(es)
    ensures LabelNumber(Limited(es, count)[count - 1].name) == Some(|es[count - 1..]| - 1)
  {
    var l := Limited(es, count);
    var head, tail := es[..count - 1], es[count - 1..];
    assert es == head + tail;
    SumSizesAppend(head, tail);
    SumSizesAppend(head, [l[count - 1]]);
    assert SumSizes([l[count - 1]]) == SumSizes(tail) by {
      assert [l[count - 1]][..0] == [];
    }
    RestLabelCarriesNumber(|es| - count);
  }

}
