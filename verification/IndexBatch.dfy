/**
  The in-place assembly of an Index message and the iterator over one
  (bep_index_batch_begin, _add, bep_index_iter_begin, _next_cb of src/bep.c).
*/
module IndexBatch {
  import opened Bytes
  import opened PbufFormat
  import opened Pbuf
  import opened FoldRows
  import opened IndexFormat
  import opened IndexMessage
  import IndexStore
  import IndexLoad

  // -------------------------------------------------------- one FileInfo

  lemma OptOut(o: seq<byte>, a: seq<Field>, c: bool, f: Field)
    ensures o + EncFields(a + Opt(c, f)) == o + EncFields(a) + if c then EncField(f) else []
  {
    hide EncField;
    EncFieldsConcat(a, Opt(c, f));
    if c {
      EncFieldsOne(f);
    } else {
      assert EncFields([]) == [];
    }
    assert o + (EncFields(a) + EncFields(Opt(c, f))) == o + EncFields(a) + EncFields(Opt(c, f));
  }

  /** A number that is left out when it has its default. */
  method WriteIf(w: PbufWriter, c: bool, field: nat, v: nat)
    requires w.Valid() && field < TWO32 && v < TWO64
    modifies w, w.buf
    ensures w.Valid() && w.poisoned == old(w.poisoned)
    ensures w.out == old(w.out) + if c then EncField(Field(field, Number(v))) else []
  {
    hide EncField, PbufWriter.Valid;
    if c {
      var _ := w.WriteUint64(field, v);
    }
  }

  method WriteFront(w: PbufWriter, fi: FileInfo, ghost e: Item)
    requires w.Valid() && Announceable(e) && fi == e.fi
    modifies w, w.buf
    ensures w.Valid() && w.poisoned == old(w.poisoned) && w.out == old(w.out) + EncFields(Front(fi))
  {
    hide EncField, EncFields, PbufWriter.Valid;
    ghost var o := w.out;
    ghost var a1 := [Field(1, Blob(fi.name))];
    ghost var a2 := a1 + Opt(fi.kind != 0, Field(2, Number(fi.kind % TWO32)));
    ghost var a3 := a2 + Opt(true, Field(3, Number(fi.size % TWO64)));
    ghost var a4 := a3 + Opt(fi.permissions != 0, Field(4, Number(fi.permissions)));
    EncFieldsOne(Field(1, Blob(fi.name)));
    OptOut(o, a1, fi.kind != 0, Field(2, Number(fi.kind % TWO32)));
    OptOut(o, a2, true, Field(3, Number(fi.size % TWO64)));
    OptOut(o, a3, fi.permissions != 0, Field(4, Number(fi.permissions)));
    OptOut(o, a4, true, Field(5, Number(fi.modifiedS % TWO64)));
    var _ := w.WriteBytes(1, fi.name);
    WriteIf(w, fi.kind != 0, 2, fi.kind % TWO32);
    var _ := w.WriteUint64(3, fi.size % TWO64);
    WriteIf(w, fi.permissions != 0, 4, fi.permissions);
    var _ := w.WriteUint64(5, fi.modifiedS % TWO64);
    assert Front(fi) == a4 + Opt(true, Field(5, Number(fi.modifiedS % TWO64)));
  }

  method WriteMiddle(w: PbufWriter, fi: FileInfo, ghost e: Item)
    requires w.Valid() && Announceable(e) && fi == e.fi
    modifies w, w.buf
    ensures w.Valid() && w.poisoned == old(w.poisoned) && w.out == old(w.out) + EncFields(Middle(fi))
  {
    hide EncField, EncFields, PbufWriter.Valid;
    ghost var o := w.out;
    ghost var a1 := [] + Opt(fi.modifiedNs != 0, Field(11, Number(fi.modifiedNs % TWO32)));
    ghost var a2 := a1 + Opt(fi.modifiedBy != 0, Field(12, Number(fi.modifiedBy)));
    ghost var a3 := a2 + Opt(fi.deleted != 0, Field(6, Number(1)));
    OutNothing(o);
    OptOut(o, [], fi.modifiedNs != 0, Field(11, Number(fi.modifiedNs % TWO32)));
    OptOut(o, a1, fi.modifiedBy != 0, Field(12, Number(fi.modifiedBy)));
    OptOut(o, a2, fi.deleted != 0, Field(6, Number(1)));
    OptOut(o, a3, fi.invalid != 0, Field(7, Number(1)));
    WriteIf(w, fi.modifiedNs != 0, 11, fi.modifiedNs % TWO32);
    WriteIf(w, fi.modifiedBy != 0, 12, fi.modifiedBy);
    WriteIf(w, fi.deleted != 0, 6, 1);
    WriteIf(w, fi.invalid != 0, 7, 1);
    assert Middle(fi) == a3 + Opt(fi.invalid != 0, Field(7, Number(1)));
  }

  lemma OutNothing(o: seq<byte>)
    ensures o + EncFields([]) == o
  {
  }

  method WriteBack(w: PbufWriter, fi: FileInfo, ghost e: Item)
    requires w.Valid() && Announceable(e) && fi == e.fi
    modifies w, w.buf
    ensures w.Valid() && w.poisoned == old(w.poisoned) && w.out == old(w.out) + EncFields(Back(fi))
  {
    hide EncField, EncFields, PbufWriter.Valid, VectorFields;
    ghost var o, v := w.out, Field(9, Blob(EncFields(VectorFields(fi.version))));
    ghost var a2 := [v] + Opt(true, Field(10, Number(fi.sequence % TWO64)));
    EncFieldsOne(v);
    OptOut(o, [v], true, Field(10, Number(fi.sequence % TWO64)));
    OptOut(o, a2, fi.blockSize != 0, Field(13, Number(fi.blockSize % TWO32)));
    IndexStore.EncodeVector(w, 9, fi.version);
    var _ := w.WriteUint64(10, fi.sequence % TWO64);
    if fi.blockSize != 0 {
      var _ := w.WriteUint64(13, fi.blockSize % TWO32);
    }
    assert Back(fi) == a2 + Opt(fi.blockSize != 0, Field(13, Number(fi.blockSize % TWO32)));
  }

  /** encode_block: 64 bytes of scratch are enough. */
  method WriteBlock(w: PbufWriter, b: BlockInfo)
    requires w.Valid() && BlockFits(b)
    modifies w, w.buf
    ensures w.Valid() && w.poisoned == old(w.poisoned) && w.out == old(w.out) + EncField(BlockField(b))
  {
    hide EncField, EncFields, PbufWriter.Valid;
    var scratch := new byte[64];
    var bw := new PbufWriter(scratch, 0, 64);
    ghost var fs, before, poison := BlockFieldsOf(b), w.out, w.poisoned;
    var _ := bw.WriteUint64(1, b.offset % TWO64);
    var _ := bw.WriteUint64(2, b.size % TWO32);
    var _ := bw.WriteBytes(3, b.hash);
    EncThree(fs[0], fs[1], fs[2]);
    assert [] + EncField(fs[0]) + EncField(fs[1]) + EncField(fs[2]) == EncField(fs[0]) + EncField(fs[1]) + EncField(fs[2]);
    BlockLen(b);
    IndexStore.FitsNoError(bw);
    var _ := w.WriteMessage(16, bw);
  }

  lemma BlocksMore(fi: FileInfo, hashes: seq<Hash>, i: nat)
    requires i < |hashes|
    ensures EncFields(BlockList(BlocksOf(fi, hashes[..i + 1]))) ==
            EncFields(BlockList(BlocksOf(fi, hashes[..i]))) + EncField(BlockField(BlockOf(fi, i, hashes[i])))
  {
    hide EncField, EncFields, BlockField, BlockOf;
    assert hashes[..i + 1][..i] == hashes[..i];
    var b := BlockOf(fi, i, hashes[i]);
    var less := BlocksOf(fi, hashes[..i]);
    assert BlocksOf(fi, hashes[..i + 1]) == less + [b];
    assert (less + [b])[..|less|] == less;
    EncFieldsConcat(BlockList(less), [BlockField(b)]);
    EncFieldsOne(BlockField(b));
  }

  /** The block list, geometry derived from the sizes. */
  method WriteBlocks(w: PbufWriter, fi: FileInfo, hashes: seq<Hash>, ghost e: Item)
    requires w.Valid() && Announceable(e) && e == Item(fi, hashes)
    modifies w, w.buf
    ensures w.Valid() && w.poisoned == old(w.poisoned) && w.out == old(w.out) + EncFields(BlockList(BlocksOf(fi, hashes)))
  {
    hide EncField, EncFields, PbufWriter.Valid, BlockList, BlocksOf, BlockFits, BlockField;
    ghost var o, poison := w.out, w.poisoned;
    BlocksStart(fi);
    OutNothing(o);
    var bs := if fi.blockSize != 0 then fi.blockSize else 1;
    for i := 0 to |hashes|
      invariant w.Valid() && w.poisoned == poison
      invariant w.out == o + EncFields(BlockList(BlocksOf(fi, hashes[..i])))
    {
      var off := i * bs;
      var left := AsInt64(fi.size - off);
      var b := BlockInfo(off, AsInt32(if left > bs then bs else left), hashes[i], true);
      BlocksMore(fi, hashes, i);
      OneFits(fi, hashes, i);
      WriteBlock(w, b);
      OutThen(o, EncFields(BlockList(BlocksOf(fi, hashes[..i]))), EncField(BlockField(b)));
    }
    assert hashes[..|hashes|] == hashes;
  }

  lemma BlocksStart(fi: FileInfo)
    ensures BlockList(BlocksOf(fi, [])) == []
  {
  }

  lemma OneFits(fi: FileInfo, hashes: seq<Hash>, i: nat)
    requires IsInt32(fi.blockSize) && i < |hashes| < TWO31 && forall k :: 0 <= k < |hashes| ==> |hashes[k]| == BEP_HASH_LEN
    ensures BlockFits(BlockOf(fi, i, hashes[i]))
  {
    hide AsInt32, AsInt64;
    OffsetFits(fi, i);
  }

  /** encode_file_info_body */
  method WriteInfo(w: PbufWriter, fi: FileInfo, hashes: seq<Hash>)
    requires w.Valid() && Announceable(Item(fi, hashes))
    modifies w, w.buf
    ensures w.Valid() && w.poisoned == old(w.poisoned) && w.out == old(w.out) + EncFields(InfoFields(fi, hashes))
  {
    hide EncFields, PbufWriter.Valid, Front, Middle, Back, BlockList, Announceable;
    ghost var o, e := w.out, Item(fi, hashes);
    ghost var list := BlockList(BlocksOf(fi, hashes));
    EncFieldsConcat(Front(fi), Middle(fi));
    EncFieldsConcat(Front(fi) + Middle(fi), Back(fi));
    EncFieldsConcat(Front(fi) + Middle(fi) + Back(fi), list);
    WriteFront(w, fi, e);
    WriteMiddle(w, fi, e);
    WriteBack(w, fi, e);
    WriteBlocks(w, fi, hashes, e);
    assert o + EncFields(Front(fi)) + EncFields(Middle(fi)) + EncFields(Back(fi)) + EncFields(list)
        == o + (EncFields(Front(fi)) + EncFields(Middle(fi)) + EncFields(Back(fi)) + EncFields(list));
  }

  // ------------------------------------------------------------- a batch

  /** A batch in the send buffer buf, of which it may use all. */
  class Batch {
    const buf: array<byte>
    var len: nat
    var num: nat
    var error: bool
    ghost var folder: seq<byte>
    ghost var entries: seq<Item>

    ghost predicate Valid()
      reads this, buf
    {
      && len <= buf.Length < TWO32 && num == |entries|
      && (!error ==> buf[..len] == Body(folder, entries))
    }

    /** bep_index_batch_begin: in error when not even the folder id fits. */
    constructor (buf: array<byte>, folder: seq<byte>)
      requires |folder| < BEP_FOLDER_ID_MAX && buf.Length < TWO32
      modifies buf
      ensures Valid() && this.buf == buf && this.folder == folder && entries == []
      ensures error <==> |Body(folder, [])| > buf.Length
    {
      this.buf, len, num, error, this.folder, entries := buf, 0, 0, false, folder, [];
      new;
      var w := new PbufWriter(buf, 0, buf.Length);
      var _ := w.WriteBytes(1, folder);
      EmptyBody(folder);
      if w.error {
        error := true;
      } else {
        len := w.len;
        AtSlice(buf[..], 0, w.out);
      }
    }

    /** The FileInfo into the free tail, where it may or may not fit. */
    method EncodeTail(fi: FileInfo, hashes: seq<Hash>) returns (fits: bool, n: nat)
      requires len <= buf.Length && Announceable(Item(fi, hashes))
      modifies buf
      ensures fits <==> |EncFields(InfoFields(fi, hashes))| <= buf.Length - len
      ensures fits ==> n == |EncFields(InfoFields(fi, hashes))| && buf[len..len + n] == EncFields(InfoFields(fi, hashes))
      ensures buf[..len] == old(buf[..len])
    {
      hide EncFields, InfoFields, Announceable;
      var fw := new PbufWriter(buf, len, buf.Length - len);
      WriteInfo(fw, fi, hashes);
      assert fw.out == EncFields(InfoFields(fi, hashes));
      fits, n := !fw.error, fw.len;
      AtSlice(buf[..], len, fw.out);
    }

    /** bep_index_batch_add: encode into the tail, shift, put the tag and length in front.
        It goes in exactly when it fits; refused, it leaves the batch as it was. */
    method Add(fi: FileInfo, hashes: seq<Hash>) returns (ok: bool)
      requires Valid() && Announceable(Item(fi, hashes))
      modifies this, buf
      ensures Valid() && folder == old(folder) && error == old(error)
      ensures ok <==> !error && old(len) + |EncField(ItemField(Item(fi, hashes)))| <= buf.Length
      ensures ok ==> entries == old(entries) + [Item(fi, hashes)] && num == old(num) + 1
      ensures ok ==> len == old(len) + |EncField(ItemField(Item(fi, hashes)))|
      ensures !ok ==> len == old(len) && num == old(num) && entries == old(entries) && buf[..len] == old(buf[..len])
    {
      hide EncField, EncFields, InfoFields, Body, Announceable, ItemField;
      if error {
        return false;
      }
      ghost var e := Item(fi, hashes);
      ItemParts(e);
      var fits, n := EncodeTail(fi, hashes);
      if !fits {
        return false;
      }
      var prefix, plen := EncodePrefix(n);
      if len + plen + n > buf.Length {
        return false;
      }
      Shift(len, plen, n, prefix);
      BodyMore(folder, entries, e);
      len := len + plen + n;
      num := num + 1;
      entries := entries + [e];
      ok := true;
    }

    /** The memmove and the memcpy. */
    method Shift(at: nat, plen: nat, n: nat, prefix: array<byte>)
      requires at + plen + n <= buf.Length && plen <= prefix.Length && prefix != buf
      modifies buf
      ensures buf[..at + plen + n] == old(buf[..at]) + (prefix[..plen] + old(buf[at..at + n]))
    {
      forall k | at + plen <= k < at + plen + n {
        buf[k] := buf[k - plen];
      }
      forall k | at <= k < at + plen {
        buf[k] := prefix[k - at];
      }
    }
  }

  lemma EmptyBody(folder: seq<byte>)
    ensures Body(folder, []) == EncField(Field(1, Blob(folder)))
  {
    hide EncField;
    EncFieldsOne(Field(1, Blob(folder)));
    assert [Field(1, Blob(folder))] + [] == [Field(1, Blob(folder))];
  }

  lemma ItemParts(e: Item)
    ensures var body := EncFields(InfoFields(e.fi, e.hashes));
            EncField(ItemField(e)) == VarintBytes(8 * 2 + PBUF_WT_LEN) + VarintBytes(|body|) + body
  {
    hide InfoFields, EncFields;
    var body := EncFields(InfoFields(e.fi, e.hashes));
    assert VarintBytes(8 * 2 + PBUF_WT_LEN) + (VarintBytes(|body|) + body)
        == VarintBytes(8 * 2 + PBUF_WT_LEN) + VarintBytes(|body|) + body;
  }

  lemma BodyMore(folder: seq<byte>, es: seq<Item>, e: Item)
    ensures Body(folder, es + [e]) == Body(folder, es) + EncField(ItemField(e))
  {
    hide EncField, EncFields, ItemField;
    assert (es + [e])[..|es|] == es;
    assert BodyFields(folder, es + [e]) == BodyFields(folder, es) + [ItemField(e)];
    EncFieldsConcat(BodyFields(folder, es), [ItemField(e)]);
    EncFieldsOne(ItemField(e));
  }

  /** The tag and length of an entry, in an eight-byte buffer that is always enough. */
  method EncodePrefix(n: nat) returns (prefix: array<byte>, plen: nat)
    requires n < TWO32
    ensures fresh(prefix) && plen <= prefix.Length
    ensures prefix[..plen] == VarintBytes(8 * 2 + PBUF_WT_LEN) + VarintBytes(n)
  {
    prefix := new byte[8];
    var pw := new PbufWriter(prefix, 0, 8);
    var _ := pw.WriteTag(2, PBUF_WT_LEN);
    var _ := pw.WriteVarint(n);
    PrefixShort(n);
    AtSlice(prefix[..], 0, pw.out);
    plen := pw.len;
  }

  lemma PrefixShort(n: nat)
    requires n < TWO32
    ensures VarintLen(8 * 2 + PBUF_WT_LEN) == 1 && VarintLen(n) <= 5
  {
    assert Pow128(3) == 0x20_0000;
    assert Pow128(5) == 0x8_0000_0000;
    VarintFits(n, 5);
  }

  // --------------------------------------------------------- the iterator

  method ReadStrictCounter(b: seq<byte>) returns (c: Option<Counter>)
    ensures c == StrictCounter(b)
  {
    hide VarintAt, TagNumber, Parse;
    var cur := Counter(0, 0);
    var r := new PbufReader(b);
    while true
      invariant r.Valid() && !r.error && r.data == b
      invariant StrictCounter(b) == if Parse(b, r.p).clean then Some(RunCounter(cur, Parse(b, r.p).fields)) else None
      decreases |b| - r.p
    {
      StepParse(b, r.p);
      var ok, field, wt := r.ReadTag();
      if !ok {
        return if r.error then None else Some(cur);
      }
      ghost var val := ReadValue(b, r.p, wt);
      if val.Some? {
        IndexLoad.CounterOn(cur, Field(field, val.value.0), Parse(b, val.value.1).fields);
      }
      var v;
      if field == 1 && wt == PBUF_WT_VARINT {
        ok, v := r.ReadVarint();
        cur := cur.(id := v);
      } else if field == 2 && wt == PBUF_WT_VARINT {
        ok, v := r.ReadVarint();
        cur := cur.(value := v);
      } else {
        ok := r.Skip(wt);
      }
      if !ok {
        return None;
      }
    }
  }

  lemma StepParse(s: seq<byte>, p: nat)
    ensures p >= |s| ==> Parse(s, p) == Parsed([], true)
    ensures p < |s| && VarintAt(s, p) == None ==> Parse(s, p) == Parsed([], false)
    ensures p < |s| && VarintAt(s, p).Some? ==>
              var (tag, j) := VarintAt(s, p).value; var r := ReadValue(s, j, tag % 8);
              Parse(s, p) == if r.None? then Parsed([], false)
              else Parsed([Field(TagNumber(tag), r.value.0)] + Parse(s, r.value.1).fields, Parse(s, r.value.1).clean)
  {
    if p < |s| {
      ParseNext(s, p);
    }
  }

  lemma StrictOn(v: seq<Counter>, f: Field, rest: seq<Field>)
    ensures RunStrict(v, [f] + rest) == match StrictStep(v, f) case None => None case Some(u) => RunStrict(u, rest)
  {
    hide StrictStep;
    assert ([f] + rest)[1..] == rest;
  }

  method ReadStrictVector(b: seq<byte>) returns (v: Option<seq<Counter>>)
    ensures v == StrictVector(b)
  {
    hide VarintAt, TagNumber, Parse, StrictCounter, ReadValue;
    var cur: seq<Counter> := [];
    var r := new PbufReader(b);
    while true
      invariant r.Valid() && !r.error && r.data == b
      invariant StrictVector(b) == if Parse(b, r.p).clean then RunStrict(cur, Parse(b, r.p).fields) else None
      decreases |b| - r.p
    {
      StepParse(b, r.p);
      var ok, field, wt := r.ReadTag();
      if !ok {
        return if r.error then None else Some(cur);
      }
      ghost var val := ReadValue(b, r.p, wt);
      if val.Some? {
        StrictOn(cur, Field(field, val.value.0), Parse(b, val.value.1).fields);
      }
      if field == 1 && wt == PBUF_WT_LEN {
        var p;
        ok, p := r.ReadBytes();
        if ok && |cur| < BEP_MAX_COUNTERS {
          var c := ReadStrictCounter(p);
          if c.None? {
            return None;
          }
          cur := cur + [c.value];
        }
      } else {
        ok := r.Skip(wt);
      }
      if !ok {
        return None;
      }
    }
  }

  lemma BlockOn(b: BlockInfo, f: Field, rest: seq<Field>)
    ensures RunBlock(b, [f] + rest) == RunBlock(BlockStep(b, f), rest)
  {
    assert ([f] + rest)[1..] == rest;
  }

  method ReadBlock(b: seq<byte>) returns (blk: Option<BlockInfo>)
    ensures blk == DecodeBlock(b)
  {
    hide VarintAt, TagNumber, Parse, AsInt32, AsInt64;
    var cur := NoBlock();
    var r := new PbufReader(b);
    while true
      invariant r.Valid() && !r.error && r.data == b
      invariant DecodeBlock(b) == if Parse(b, r.p).clean then Some(RunBlock(cur, Parse(b, r.p).fields)) else None
      decreases |b| - r.p
    {
      StepParse(b, r.p);
      var ok, field, wt := r.ReadTag();
      if !ok {
        return if r.error then None else Some(cur);
      }
      ghost var val := ReadValue(b, r.p, wt);
      if val.Some? {
        BlockOn(cur, Field(field, val.value.0), Parse(b, val.value.1).fields);
      }
      var v, p;
      if field == 1 && wt == PBUF_WT_VARINT {
        ok, v := r.ReadVarint();
        cur := cur.(offset := AsInt64(v));
      } else if field == 2 && wt == PBUF_WT_VARINT {
        ok, v := r.ReadVarint();
        cur := cur.(size := AsInt32(v));
      } else if field == 3 && wt == PBUF_WT_LEN {
        ok, p := r.ReadBytes();
        if |p| == BEP_HASH_LEN {
          cur := cur.(hash := p, hasHash := true);
        }
      } else {
        ok := r.Skip(wt);
      }
      if !ok {
        return None;
      }
    }
  }

  lemma InfoOn(d: Info, f: Field, rest: seq<Field>)
    ensures RunInfo(d, [f] + rest) == match InfoStep(d, f) case None => None case Some(e) => RunInfo(e, rest)
  {
    hide InfoStep;
    assert ([f] + rest)[1..] == rest;
  }

  /** A number of a FileInfo, by its field. */
  method TakeNumber(fi: FileInfo, field: nat, v: nat) returns (r: FileInfo)
    ensures r == NumberStep(fi, field, v)
  {
    match field
    case 2 => r := fi.(kind := AsInt32(v));
    case 3 => r := fi.(size := AsInt64(v));
    case 4 => r := fi.(permissions := v % TWO32);
    case 5 => r := fi.(modifiedS := AsInt64(v));
    case 11 => r := fi.(modifiedNs := AsInt32(v));
    case 12 => r := fi.(modifiedBy := v);
    case 6 => r := fi.(deleted := AsInt32(v));
    case 7 => r := fi.(invalid := AsInt32(v));
    case 10 => r := fi.(sequence := AsInt64(v));
    case 13 => r := fi.(blockSize := AsInt32(v));
    case _ => r := fi;
  }

  /** A length-delimited part of a FileInfo, by its field. */
  method TakeBlob(d: Info, field: nat, p: seq<byte>) returns (r: Option<Info>)
    ensures r == InfoStep(d, Field(field, Blob(p)))
  {
    hide StrictVector, DecodeBlock, Held;
    if field == 1 {
      r := Some(d.(fi := d.fi.(name := Held(p, BEP_PATH_MAX))));
    } else if field == 9 {
      var v := ReadStrictVector(p);
      r := if v.None? then None else Some(d.(fi := d.fi.(version := v.value)));
    } else if field == 16 {
      var b := ReadBlock(p);
      r := if b.None? then None else Some(d.(blocks := d.blocks + [b.value]));
    } else {
      r := Some(d);
    }
  }

  /** bep_decode_file_info_cb, its callback collecting the blocks. */
  method ReadInfo(b: seq<byte>) returns (info: Option<Info>)
    ensures info == DecodeInfo(b)
  {
    hide VarintAt, TagNumber, Parse, NumberStep, Counted, StrictVector, DecodeBlock, Held;
    var d := NoInfo();
    var r := new PbufReader(b);
    while true
      invariant r.Valid() && !r.error && r.data == b
      invariant DecodeInfo(b) == if !Parse(b, r.p).clean then None
                                 else match RunInfo(d, Parse(b, r.p).fields) case None => None case Some(e) => Some(Counted(e))
      decreases |b| - r.p
    {
      StepParse(b, r.p);
      var ok, field, wt := r.ReadTag();
      if !ok {
        return if r.error then None else Some(Counted(d));
      }
      ghost var val := ReadValue(b, r.p, wt);
      if val.Some? {
        InfoOn(d, Field(field, val.value.0), Parse(b, val.value.1).fields);
      }
      if wt == PBUF_WT_VARINT {
        var v;
        ok, v := r.ReadVarint();
        if !ok {
          return None;
        }
        var fi := TakeNumber(d.fi, field, v);
        d := d.(fi := fi);
      } else if wt == PBUF_WT_LEN {
        var p;
        ok, p := r.ReadBytes();
        if !ok {
          return None;
        }
        var next := TakeBlob(d, field, p);
        if next.None? {
          return None;
        }
        d := next.value;
      } else {
        ok := r.Skip(wt);
        if !ok {
          return None;
        }
      }
    }
  }

  /** The iterator: a cursor into the body, which must outlive it. */
  class IndexIter {
    const data: seq<byte>
    var p: nat
    var error: bool

    ghost predicate Valid()
      reads this
    {
      p <= |data|
    }

    /** What is still to come. */
    ghost function Rest(): Walk
      reads this
    {
      if error then Walk([], false) else WalkFrom(data, p)
    }

    /** bep_index_iter_begin */
    constructor (data: seq<byte>)
      ensures Valid() && this.data == data && p == 0 && !error && Rest() == WalkFrom(data, 0)
    {
      this.data, p, error := data, 0, false;
    }

    /** The part of begin that finds the folder id. */
    method Folder() returns (folder: seq<byte>)
      ensures folder == FolderAt(data, 0)
    {
      hide VarintAt, TagNumber, ReadField, Held;
      var r := new PbufReader(data);
      while true
        invariant r.Valid() && !r.error && r.data == data
        invariant FolderAt(data, 0) == FolderAt(data, r.p)
        decreases |data| - r.p
      {
        FieldAt(data, r.p);
        var ok, field, wt := r.ReadTag();
        if !ok {
          return [];
        }
        if field == 1 && wt == PBUF_WT_LEN {
          var p;
          ok, p := r.ReadBytes();
          return if ok then Held(p, BEP_FOLDER_ID_MAX) else [];
        } else {
          ok := r.Skip(wt);
          if !ok {
            return [];
          }
        }
      }
    }

    /** bep_index_iter_next_cb: the next entry, or nothing more. */
    method Next() returns (found: Option<Info>)
      requires Valid()
      modifies this
      ensures Valid()
      ensures match found
              case Some(d) => old(Rest()) == Walk([d] + Rest().infos, Rest().ok)
              case None => old(Rest()).infos == [] && Rest() == old(Rest())
      ensures found.None? && !error ==> p == |data|
    {
      hide VarintAt, TagNumber, DecodeInfo, ReadValue, NextEntry;
      if error || p >= |data| {
        if !error {
          NothingNext(data, p);
        }
        return None;
      }
      var r := new PbufReader(data[p..]);
      var base := p;
      ghost var start := p;
      while true
        invariant r.Valid() && !r.error && r.data == data[base..] && base + r.p == p <= |data| && !error
        invariant NextEntry(data, start) == NextEntry(data, p)
        decreases |data| - p
      {
        NextStep(data, p);
        SameFields(data, base, r.p);
        var ok, field, wt := r.ReadTag();
        if !ok {
          p := |data|;
          NothingNext(data, p);
          return None;
        }
        if field == 2 && wt == PBUF_WT_LEN {
          var b;
          ok, b := r.ReadBytes();
          if !ok {
            error := true;
            return None;
          }
          p := base + r.p;
          found := ReadInfo(b);
          if found.None? {
            error := true;
          }
          return;
        }
        ok := r.Skip(wt);
        if !ok {
          error := true;
          return None;
        }
        p := base + r.p;
      }
    }
  }

  lemma FieldAt(s: seq<byte>, p: nat)
    ensures p < |s| && VarintAt(s, p) == None ==> ReadField(s, p) == None
    ensures p < |s| && VarintAt(s, p).Some? ==>
              var (tag, j) := VarintAt(s, p).value; var r := ReadValue(s, j, tag % 8);
              ReadField(s, p) == if r.None? then None else Some((Field(TagNumber(tag), r.value.0), r.value.1))
  {
  }

  lemma NothingNext(s: seq<byte>, p: nat)
    requires p >= |s|
    ensures NextEntry(s, p) == Done && WalkFrom(s, p) == Walk([], true)
  {
  }

  lemma {:induction false} ScanShift(s: seq<byte>, base: nat, q: nat, k: nat)
    requires base <= |s|
    ensures Scan(s, base + q, k) == match Scan(s[base..], q, k) case None => None case Some((v, j)) => Some((v, base + j))
    decreases 10 - k
  {
    if k < 10 && base + q < |s| && s[base + q] >= 128 {
      ScanShift(s, base, q + 1, k + 1);
    }
  }

  /** Reading from the middle of a buffer and reading its tail come to the same. */
  lemma SameFields(s: seq<byte>, base: nat, q: nat)
    requires base + q <= |s|
    ensures VarintAt(s, base + q) == match VarintAt(s[base..], q) case None => None case Some((v, j)) => Some((v, base + j))
    ensures VarintAt(s[base..], q).Some? ==>
              var (tag, j) := VarintAt(s[base..], q).value;
              ReadValue(s, base + j, tag % 8) ==
              match ReadValue(s[base..], j, tag % 8) case None => None case Some((v, k)) => Some((v, base + k))
  {
    ScanShift(s, base, q, 0);
    if VarintAt(s[base..], q).Some? {
      var (tag, j) := VarintAt(s[base..], q).value;
      ValueShift(s, base, j, tag % 8);
    }
  }

  lemma ValueShift(s: seq<byte>, base: nat, q: nat, wt: nat)
    requires base + q <= |s|
    ensures ReadValue(s, base + q, wt) ==
            match ReadValue(s[base..], q, wt) case None => None case Some((v, k)) => Some((v, base + k))
  {
    hide Scan;
    var t := s[base..];
    ScanShift(s, base, q, 0);
    if wt == PBUF_WT_LEN {
      if VarintAt(t, q).Some? {
        var (n, j) := VarintAt(t, q).value;
        if n <= |t| - j {
          TailSlice(s, base, j, n);
        }
      }
    } else if wt == PBUF_WT_I64 {
      if q + 8 <= |t| {
        TailSlice(s, base, q, 8);
      }
    } else if wt == PBUF_WT_I32 {
      if q + 4 <= |t| {
        TailSlice(s, base, q, 4);
      }
    }
  }

  lemma TailSlice(s: seq<byte>, base: nat, q: nat, n: nat)
    requires base + q + n <= |s|
    ensures s[base..][q..q + n] == s[base + q..base + q + n]
  {
  }

  /** All the entries of a body, by repeated calls. */
  method IterateAll(body: seq<byte>) returns (folder: seq<byte>, infos: seq<Info>, ok: bool)
    ensures folder == FolderAt(body, 0) && WalkFrom(body, 0) == Walk(infos, ok)
  {
    hide NextEntry, WalkFrom, FolderAt;
    var it := new IndexIter(body);
    folder := it.Folder();
    infos := [];
    ghost var all := WalkFrom(body, 0);
    while true
      invariant it.Valid() && it.data == body && fresh(it)
      invariant all == Walk(infos + it.Rest().infos, it.Rest().ok)
      decreases |it.Rest().infos|
    {
      var d := it.Next();
      if d.None? {
        RestOver(it);
        return folder, infos, !it.error;
      }
      infos := infos + [d.value];
    }
  }

  lemma RestOver(it: IndexIter)
    requires it.Valid() && it.Rest().infos == [] && (!it.error ==> it.p == |it.data|)
    ensures it.Rest() == Walk([], !it.error)
  {
  }

  /** What a batch was given comes out of the iterator: the folder id, every entry, and
      the blocks with their geometry, in order. */
  method BatchRoundTrip(b: Batch) returns (folder: seq<byte>, infos: seq<Info>, ok: bool)
    requires b.Valid() && !b.error && FolderOk(b.folder) && AllOk(b.entries)
    ensures ok && folder == b.folder && infos == ArrivedAll(b.entries)
  {
    hide FolderOk, AllOk, ArrivedAll, Body, WalkFrom, FolderAt;
    BodyRoundTrip(b.folder, b.entries);
    folder, infos, ok := IterateAll(b.buf[..b.len]);
  }
}
