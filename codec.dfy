/**
 * The directory record format of duc_db_write_dir / duc_db_read_dir, over an
 * abstract buffer: the buffer is a stream of tokens, each one varint or one
 * string as buffer_put_varint and buffer_put_string append them. Their byte
 * layout belongs to buffer.h and varint.h and is not part of this model.
 */
module Codec {

  import opened Wrappers
  import opened Entries

  /**
   * One item of a record buffer. A mode travels as a varint like the other
   * numbers; it is kept symbolic here (see Entries.Mode). A string read back
   * may be absent (buffer_get_string leaves NULL), which a writer never
   * produces but an older record may hold.
   */
  datatype Token = Num(n: nat) | ModeTok(m: Mode) | Str(s: Option<string>)

  /** The five header fields of a record, in buffer order. */
  datatype Header = Header(devParent: nat, inoParent: nat, sizeTotal: nat, fileCount: nat, dirCount: nat)

  /** The value stored under a path in the top-level path index. */
  datatype IndexValue =
    | Report(dev: nat, ino: nat)  // a value of exactly sizeof(struct duc_index_report) bytes
    | Other                       // a value of any other length

  /** The five header varints, in field order. */
  function EncodeHeader(h: Header): (ts: seq<Token>)
    ensures |ts| == 5 && forall i :: 0 <= i < 5 ==> ts[i].Num?
  {
    [Num(h.devParent), Num(h.inoParent), Num(h.sizeTotal), Num(h.fileCount), Num(h.dirCount)]
  }

  /** One child: string name, varint size, mode, dev, ino. */
  function EncodeEntry(e: Entry): (g: seq<Token>)
    ensures IsChildGroup(g) && g[0].s.Some?
  {
    [Str(Some(e.name)), Num(e.size), ModeTok(e.mode), Num(e.dev), Num(e.ino)]
  }

  /** The children in list order, five tokens each, with no count in front. */
  function EncodeChildren(es: seq<Entry>): (ts: seq<Token>)
    ensures |ts| == 5 * |es|
  {
    if es == [] then [] else EncodeChildren(es[..|es| - 1]) + EncodeEntry(es[|es| - 1])
  }

  /** The record written for a directory. */
  function Encode(h: Header, es: seq<Entry>): (ts: seq<Token>)
    ensures |ts| == 5 + 5 * |es| && DecodeHeader(ts) == h
  {
    EncodeHeader(h) + EncodeChildren(es)
  }

  /** The token kinds of one child group, in the order the reader takes them. */
  predicate IsChildGroup(g: seq<Token>)
  {
    |g| == 5 && g[0].Str? && g[1].Num? && g[2].ModeTok? && g[3].Num? && g[4].Num?
  }

  /**
   * A record the reader can take apart: five header varints, then whole
   * child groups up to the end of the buffer.
   */
  predicate WellFormed(ts: seq<Token>)
  {
    && |ts| >= 5
    && (forall i :: 0 <= i < 5 ==> ts[i].Num?)
    && (|ts| - 5) % 5 == 0
    && forall k :: 0 <= k < (|ts| - 5) / 5 ==> IsChildGroup(ts[5 + 5 * k .. 10 + 5 * k])
  }

  function NumOf(t: Token): nat
  {
    if t.Num? then t.n else 0
  }

  /** The header read back; five varints in front read back to exactly those tokens. */
  function DecodeHeader(ts: seq<Token>): (h: Header)
    requires |ts| >= 5
    ensures (forall i :: 0 <= i < 5 ==> ts[i].Num?) ==> EncodeHeader(h) == ts[..5]
  {
    Header(NumOf(ts[0]), NumOf(ts[1]), NumOf(ts[2]), NumOf(ts[3]), NumOf(ts[4]))
  }

  /** One child group read back; a group whose name is absent yields no entry. */
  function DecodeEntry(g: seq<Token>): (r: Option<Entry>)
    requires |g| == 5
    ensures IsChildGroup(g) ==> (r.Some? <==> g[0].s.Some?)
    ensures IsChildGroup(g) && r.Some? ==> EncodeEntry(r.value) == g
  {
    if g[0].Str? && g[0].s.Some? && g[2].ModeTok?
    then Some(Entry(g[0].s.value, NumOf(g[1]), g[2].m, NumOf(g[3]), NumOf(g[4])))
    else None
  }

  /** The children read from the groups after the header, in buffer order. */
  function DecodeChildren(cs: seq<Token>): (es: seq<Entry>)
    ensures 5 * |es| <= |cs|
  {
    if |cs| < 5 then []
    else
      var e := DecodeEntry(cs[|cs| - 5..]);
      DecodeChildren(cs[..|cs| - 5]) + (if e.Some? then [e.value] else [])
  }

  /** The children of a stored record. */
  function Children(ts: seq<Token>): (es: seq<Entry>)
    ensures 5 * |es| + 5 <= |ts| || es == []
  {
    if |ts| < 5 then [] else DecodeChildren(ts[5..])
  }

  /** A group with an absent name contributes nothing; one with a name contributes exactly its entry. */
  lemma {:induction false} DecodeChildrenSnoc(cs: seq<Token>, g: seq<Token>)
    requires |g| == 5
    ensures DecodeChildren(cs + g) == DecodeChildren(cs) + (if DecodeEntry(g).Some? then [DecodeEntry(g).value] else [])
  {
    var all := cs + g;
    assert all[..|all| - 5] == cs;
    assert all[|all| - 5..] == g;
  }

  /**
   * Inside a well-formed record, the group at ptr is a whole child group,
   * and reading it extends the children read so far by its entry, if any.
   */
  lemma DecodeNextGroup(ts: seq<Token>, ptr: nat, k: nat)
    requires WellFormed(ts) && ptr == 5 + 5 * k && ptr < |ts|
    ensures ptr + 5 <= |ts| && IsChildGroup(ts[ptr..ptr + 5])
    ensures var e := DecodeEntry(ts[ptr..ptr + 5]);
      DecodeChildren(ts[5..ptr + 5]) == DecodeChildren(ts[5..ptr]) + (if e.Some? then [e.value] else [])
  {
    assert |ts| == 5 + 5 * ((|ts| - 5) / 5);
    assert ts[ptr..ptr + 5] == ts[5 + 5 * k .. 10 + 5 * k];
    DecodeChildrenSnoc(ts[5..ptr], ts[ptr..ptr + 5]);
    assert ts[5..ptr] + ts[ptr..ptr + 5] == ts[5..ptr + 5];
  }

  lemma {:induction false} DecodeEncodeChildren(es: seq<Entry>)
    ensures DecodeChildren(EncodeChildren(es)) == es
    decreases |es|
  {
    if es != [] {
      var init := es[..|es| - 1];
      var g := EncodeEntry(es[|es| - 1]);
      DecodeEncodeChildren(init);
      DecodeChildrenSnoc(EncodeChildren(init), g);
      assert DecodeEntry(g) == Some(es[|es| - 1]);
      assert es == init + [es[|es| - 1]];
    }
  }

  lemma {:induction false} EncodeChildrenGroups(es: seq<Entry>)
    ensures forall k :: 0 <= k < |es| ==> EncodeChildren(es)[5 * k .. 5 * k + 5] == EncodeEntry(es[k])
    decreases |es|
  {
    if es != [] {
      var init := es[..|es| - 1];
      EncodeChildrenGroups(init);
      var ts := EncodeChildren(es);
      assert ts == EncodeChildren(init) + EncodeEntry(es[|es| - 1]);
      forall k | 0 <= k < |es| ensures ts[5 * k .. 5 * k + 5] == EncodeEntry(es[k]) {
        if k < |es| - 1 {
          assert ts[5 * k .. 5 * k + 5] == EncodeChildren(init)[5 * k .. 5 * k + 5];
        }
      }
    }
  }

  /** Every record the writer produces is one the reader can take apart. */
  lemma {:induction false} EncodeWellFormed(h: Header, es: seq<Entry>)
    ensures WellFormed(Encode(h, es))
  {
    var ts := Encode(h, es);
    var cs := EncodeChildren(es);
    assert |ts| == 5 + 5 * |es|;
    assert (|ts| - 5) / 5 == |es|;
    EncodeChildrenGroups(es);
    forall k | 0 <= k < |es| ensures IsChildGroup(ts[5 + 5 * k .. 10 + 5 * k]) {
      assert ts[5 + 5 * k .. 10 + 5 * k] == cs[5 * k .. 5 * k + 5] == EncodeEntry(es[k]);
    }
  }

  /**
   * The round trip of the record format: reading a written record gives back
   * its header and its children in the order they were written.
   */
  lemma {:induction false} DecodeEncode(h: Header, es: seq<Entry>)
    ensures WellFormed(Encode(h, es))
    ensures DecodeHeader(Encode(h, es)) == h
    ensures Children(Encode(h, es)) == es
  {
    EncodeWellFormed(h, es);
    assert Encode(h, es)[5..] == EncodeChildren(es);
    DecodeEncodeChildren(es);
  }

}
