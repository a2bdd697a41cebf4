/**
  The Index message byte by byte, what becomes of every field of an entry, and the
  blocks it announces: the laws of IndexMessage said without its functions.
*/
module MessageBytes {
  import opened Bytes
  import Division
  import opened PbufFormat
  import opened FoldRows
  import opened IndexFormat
  import opened IndexMessage

  // ------------------------------------------------- what is written

  lemma NumberField(num: nat, n: nat)
    requires 0 < num < 16
    ensures EncField(Field(num, Number(n))) == [num * 8] + VarintBytes(n)
  {
    FieldInBytes(num, Number(n));
    ShortNumber(num * 8);
  }

  lemma BlobField(num: nat, b: seq<byte>)
    requires 0 < num < 16
    ensures EncField(Field(num, Blob(b))) == [num * 8 + 2] + VarintBytes(|b|) + b
  {
    FieldInBytes(num, Blob(b));
    ShortNumber(num * 8 + 2);
  }

  lemma OptInBytes(c: bool, f: Field)
    ensures EncFields(Opt(c, f)) == if c then EncField(f) else []
  {
    EncFieldsOne(f);
    assert EncFields([]) == [];
  }

  lemma FrontInBytes(fi: FileInfo)
    ensures EncFields(Front(fi)) ==
            ([0x0A] + VarintBytes(|fi.name|) + fi.name)
            + (if fi.kind != 0 then [0x10] + VarintBytes(fi.kind % 0x1_0000_0000) else [])
            + ([0x18] + VarintBytes(fi.size % 0x1_0000_0000_0000_0000))
            + (if fi.permissions != 0 then [0x20] + VarintBytes(fi.permissions) else [])
            + ([0x28] + VarintBytes(fi.modifiedS % 0x1_0000_0000_0000_0000))
  {
    hide EncField, EncFields, VarintBytes, Opt;
    var a, b, c, d, e := Field(1, Blob(fi.name)), Field(2, Number(fi.kind % TWO32)), Field(3, Number(fi.size % TWO64)),
      Field(4, Number(fi.permissions)), Field(5, Number(fi.modifiedS % TWO64));
    var ob, od := Opt(fi.kind != 0, b), Opt(fi.permissions != 0, d);
    EncFieldsConcat([a], ob);
    EncFieldsConcat([a] + ob, [c]);
    EncFieldsConcat([a] + ob + [c], od);
    EncFieldsConcat([a] + ob + [c] + od, [e]);
    EncFieldsOne(a);
    EncFieldsOne(c);
    EncFieldsOne(e);
    OptInBytes(fi.kind != 0, b);
    OptInBytes(fi.permissions != 0, d);
    BlobField(1, fi.name);
    NumberField(2, b.value.n);
    NumberField(3, c.value.n);
    NumberField(4, d.value.n);
    NumberField(5, e.value.n);
  }

  lemma MiddleInBytes(fi: FileInfo)
    ensures EncFields(Middle(fi)) ==
            (if fi.modifiedNs != 0 then [0x58] + VarintBytes(fi.modifiedNs % 0x1_0000_0000) else [])
            + (if fi.modifiedBy != 0 then [0x60] + VarintBytes(fi.modifiedBy) else [])
            + (if fi.deleted != 0 then [0x30, 0x01] else []) + (if fi.invalid != 0 then [0x38, 0x01] else [])
  {
    hide EncField, EncFields, VarintBytes, Opt;
    var a, b, c, d := Field(11, Number(fi.modifiedNs % TWO32)), Field(12, Number(fi.modifiedBy)), Field(6, Number(1)),
      Field(7, Number(1));
    var oa, ob, oc, od := Opt(fi.modifiedNs != 0, a), Opt(fi.modifiedBy != 0, b), Opt(fi.deleted != 0, c), Opt(fi.invalid != 0, d);
    EncFieldsConcat(oa, ob);
    EncFieldsConcat(oa + ob, oc);
    EncFieldsConcat(oa + ob + oc, od);
    OptInBytes(fi.modifiedNs != 0, a);
    OptInBytes(fi.modifiedBy != 0, b);
    OptInBytes(fi.deleted != 0, c);
    OptInBytes(fi.invalid != 0, d);
    NumberField(11, a.value.n);
    NumberField(12, b.value.n);
    NumberField(6, 1);
    NumberField(7, 1);
    ShortNumber(1);
  }

  lemma BackInBytes(fi: FileInfo)
    ensures var v := EncFields(VectorFields(fi.version));
            EncFields(Back(fi)) ==
            ([0x4A] + VarintBytes(|v|) + v) + ([0x50] + VarintBytes(fi.sequence % 0x1_0000_0000_0000_0000))
            + (if fi.blockSize != 0 then [0x68] + VarintBytes(fi.blockSize % 0x1_0000_0000) else [])
  {
    hide EncField, EncFields, VarintBytes, Opt, VectorFields;
    var v := EncFields(VectorFields(fi.version));
    var a, b, c := Field(9, Blob(v)), Field(10, Number(fi.sequence % TWO64)), Field(13, Number(fi.blockSize % TWO32));
    var oc := Opt(fi.blockSize != 0, c);
    EncFieldsConcat([a], [b]);
    EncFieldsConcat([a] + [b], oc);
    EncFieldsOne(a);
    EncFieldsOne(b);
    OptInBytes(fi.blockSize != 0, c);
    BlobField(9, v);
    NumberField(10, b.value.n);
    NumberField(13, c.value.n);
  }

  /** A block entry: offset, size, hash. */
  lemma BlockInBytes(b: BlockInfo)
    ensures EncFields(BlockFieldsOf(b)) ==
            ([0x08] + VarintBytes(b.offset % 0x1_0000_0000_0000_0000)) + ([0x10] + VarintBytes(b.size % 0x1_0000_0000))
            + ([0x1A] + VarintBytes(|b.hash|) + b.hash)
  {
    hide EncField, EncFields, VarintBytes;
    var fs := BlockFieldsOf(b);
    EncThree(fs[0], fs[1], fs[2]);
    NumberField(1, b.offset % TWO64);
    NumberField(2, b.size % TWO32);
    BlobField(3, b.hash);
  }

  /** The blocks one after the other, each a field of its own. */
  lemma BlockListInBytes(bs: seq<BlockInfo>, b: BlockInfo)
    ensures EncFields(BlockList([])) == []
    ensures var w := EncFields(BlockFieldsOf(b));
            EncFields(BlockList(bs + [b])) == EncFields(BlockList(bs)) + ([0x82, 0x01] + VarintBytes(|w|) + w)
  {
    assert EncFields([]) == [];
    var w := EncFields(BlockFieldsOf(b));
    FieldInBytes(16, Blob(w));
    assert VarintBytes(130) == [0x82, 0x01];
    hide EncField, EncFields, VarintBytes, BlockFieldsOf;
    assert (bs + [b])[..|bs|] == bs;
    EncFieldsConcat(BlockList(bs), [BlockField(b)]);
    EncFieldsOne(BlockField(b));
  }

  /** An entry: what comes from the record, then the blocks. */
  lemma EntryInBytes(e: Item)
    ensures EncFields(InfoFields(e.fi, e.hashes)) ==
            EncFields(Front(e.fi)) + EncFields(Middle(e.fi)) + EncFields(Back(e.fi)) + EncFields(BlockList(BlocksOf(e.fi, e.hashes)))
  {
    hide EncField, EncFields, Front, Middle, Back, BlockList, BlocksOf;
    var a, b, c, d := Front(e.fi), Middle(e.fi), Back(e.fi), BlockList(BlocksOf(e.fi, e.hashes));
    EncFieldsConcat(a, b);
    EncFieldsConcat(a + b, c);
    EncFieldsConcat(a + b + c, d);
  }

  /** A body: the folder id, then the entries. */
  lemma BodyInBytes(folder: seq<byte>, es: seq<Item>, e: Item)
    ensures Body(folder, []) == [0x0A] + VarintBytes(|folder|) + folder
    ensures var w := EncFields(InfoFields(e.fi, e.hashes));
            Body(folder, es + [e]) == Body(folder, es) + ([0x12] + VarintBytes(|w|) + w)
  {
    hide EncField, EncFields, VarintBytes, InfoFields;
    BlobField(1, folder);
    BlobField(2, EncFields(InfoFields(e.fi, e.hashes)));
    EncFieldsOne(Field(1, Blob(folder)));
    assert BodyFields(folder, []) == [Field(1, Blob(folder))];
    BodyGrows(folder, es, e);
    EncFieldsConcat(BodyFields(folder, es), [ItemField(e)]);
    EncFieldsOne(ItemField(e));
  }

  lemma BodyGrows(folder: seq<byte>, es: seq<Item>, e: Item)
    ensures BodyFields(folder, es + [e]) == BodyFields(folder, es) + [ItemField(e)]
  {
    hide ItemField;
    assert (es + [e])[..|es|] == es;
  }

  // ---------------------------------------------------- what is read

  /** Where each block stands, for all sizes whose differences fit. */
  lemma {:induction false} BlockAt(fi: FileInfo, hashes: seq<Hash>, i: nat)
    requires i < |hashes|
    ensures var bs, b := if fi.blockSize == 0 then 1 else fi.blockSize, BlocksOf(fi, hashes)[i];
            var size := Min(bs, fi.size - i * bs);
            && b.offset == i * bs && b.hash == hashes[i] && b.hasHash
            && (-0x8000_0000_0000_0000 <= fi.size - i * bs < 0x8000_0000_0000_0000 && -0x8000_0000 <= size < 0x8000_0000 ==>
                  b.size == size)
    decreases |hashes|
  {
    if i < |hashes| - 1 {
      BlockAt(fi, hashes[..|hashes| - 1], i);
    }
  }

  /** The blocks announced for a file tile it: the first starts at 0, each where the one
      before ends, all of the block size but the last, which ends where the file does;
      each with its own hash. */
  lemma BlocksTile(e: Item, i: nat)
    requires Announceable(e) && i < |e.hashes| && 0 < e.fi.blockSize
    requires (|e.hashes| - 1) * e.fi.blockSize < e.fi.size <= |e.hashes| * e.fi.blockSize
    ensures var d := DecodeInfo(EncFields(InfoFields(e.fi, e.hashes)));
            && d.Some? && |d.value.blocks| == |e.hashes| == d.value.fi.numBlocks
            && var b := d.value.blocks;
               && b[0].offset == 0 && b[i].hash == e.hashes[i] && b[i].hasHash
               && (i + 1 < |b| ==> b[i].size == e.fi.blockSize && b[i + 1].offset == b[i].offset + b[i].size)
               && (i + 1 == |b| ==> 0 < b[i].size <= e.fi.blockSize && b[i].offset + b[i].size == e.fi.size)
  {
    hide Announceable, DecodeInfo, InfoFields, EncFields, BlocksOf;
    InfoRoundTrip(e);
    SizesFit(e);
    BlocksOfTile(e.fi, e.hashes, i);
  }

  lemma SizesFit(e: Item)
    requires Announceable(e)
    ensures -0x8000_0000 <= e.fi.blockSize < 0x8000_0000 && -0x8000_0000_0000_0000 <= e.fi.size < 0x8000_0000_0000_0000
  {
  }

  lemma BlocksOfTile(fi: FileInfo, hashes: seq<Hash>, i: nat)
    requires i < |hashes| && 0 < fi.blockSize < 0x8000_0000 && fi.size < 0x8000_0000_0000_0000
    requires (|hashes| - 1) * fi.blockSize < fi.size <= |hashes| * fi.blockSize
    ensures var b := BlocksOf(fi, hashes);
            && b[0].offset == 0 && b[i].hash == hashes[i] && b[i].hasHash
            && (i + 1 < |b| ==> b[i].size == fi.blockSize && b[i + 1].offset == b[i].offset + b[i].size)
            && (i + 1 == |b| ==> 0 < b[i].size <= fi.blockSize && b[i].offset + b[i].size == fi.size)
  {
    hide BlocksOf;
    BlockAt(fi, hashes, 0);
    BlockAt(fi, hashes, i);
    Products(i, |hashes|, fi.blockSize, fi.size);
    if i + 1 < |hashes| {
      BlockAt(fi, hashes, i + 1);
    }
  }

  lemma Products(i: nat, n: nat, bs: int, size: int)
    requires i < n && 0 < bs < 0x8000_0000 && (n - 1) * bs < size <= n * bs
    ensures 0 <= i * bs <= (n - 1) * bs && (i + 1) * bs == i * bs + bs
    ensures i + 1 < n ==> size - i * bs > bs
    ensures i + 1 == n ==> size - i * bs <= bs
  {
    Division.MulMono(i, n - 1, bs);
    assert (i + 1) * bs == i * bs + bs;
    if i + 1 < n {
      Division.MulMono(i + 1, n - 1, bs);
    } else {
      assert n * bs == (i + 1) * bs;
    }
  }

  /** Every field of an entry arrives, the two flags as 0 or 1. */
  lemma EntryComesBack(e: Item)
    requires var f := e.fi;
             && |f.name| < 256 && 0 !in f.name && f.permissions < 0x1_0000_0000 && f.modifiedBy < 0x1_0000_0000_0000_0000
             && -0x8000_0000_0000_0000 <= f.size < 0x8000_0000_0000_0000
             && -0x8000_0000_0000_0000 <= f.modifiedS < 0x8000_0000_0000_0000
             && -0x8000_0000_0000_0000 <= f.sequence < 0x8000_0000_0000_0000
             && -0x8000_0000 <= f.kind < 0x8000_0000 && -0x8000_0000 <= f.modifiedNs < 0x8000_0000
             && -0x8000_0000 <= f.blockSize < 0x8000_0000 && -0x8000_0000 <= f.deleted < 0x8000_0000
             && -0x8000_0000 <= f.invalid < 0x8000_0000 && |f.version| <= 16
             && forall j :: 0 <= j < |f.version| ==>
                  f.version[j].id < 0x1_0000_0000_0000_0000 && f.version[j].value < 0x1_0000_0000_0000_0000
    requires |e.hashes| < 0x8000_0000 && forall j :: 0 <= j < |e.hashes| ==> |e.hashes[j]| == 32
    ensures var d := DecodeInfo(EncFields(InfoFields(e.fi, e.hashes)));
            && d.Some?
            && var f, was := d.value.fi, e.fi;
               && f.name == was.name && f.kind == was.kind && f.size == was.size && f.permissions == was.permissions
               && f.modifiedS == was.modifiedS && f.modifiedNs == was.modifiedNs && f.modifiedBy == was.modifiedBy
               && f.sequence == was.sequence && f.blockSize == was.blockSize && f.version == was.version
               && f.numBlocks == |e.hashes| && f.deleted == (if was.deleted == 0 then 0 else 1)
               && f.invalid == (if was.invalid == 0 then 0 else 1)
  {
    assert Announceable(e);
    hide DecodeInfo, InfoFields, EncFields, BlocksOf;
    InfoRoundTrip(e);
  }

  /** A version vector or a block that is not whole makes the entry malformed. */
  lemma {:induction false} MalformedPartRefused(d: Info, fs: seq<Field>, k: nat)
    requires k < |fs| && fs[k].num in {9, 16} && fs[k].value.Blob? && !Parse(fs[k].value.bytes, 0).clean
    ensures RunInfo(d, fs) == None
    decreases k
  {
    hide Parse;
    if k > 0 && InfoStep(d, fs[0]).Some? {
      MalformedPartRefused(InfoStep(d, fs[0]).value, fs[1..], k - 1);
    }
  }

  /** Fields an entry does not know, and known ones with another kind of value, are
      passed over. */
  lemma OtherFieldIgnored(d: Info, a: seq<Field>, f: Field, b: seq<Field>)
    requires match f.value
             case Number(_) => f.num !in {2, 3, 4, 5, 6, 7, 10, 11, 12, 13}
             case Blob(_) => f.num !in {1, 9, 16}
             case Fixed(_) => true
    ensures RunInfo(d, a + [f] + b) == RunInfo(d, a + b)
  {
    RunInfoConcat(d, a + [f], b);
    RunInfoConcat(d, a, [f]);
    RunInfoConcat(d, a, b);
    if RunInfo(d, a).Some? {
      RunInfoOne(RunInfo(d, a).value, f);
    }
  }
}
