/**
  index_store_encode and index_store_decode of src/index_store.c, over the shared
  index of FoldState, proved to write and to read the fields of IndexFormat.
*/
module IndexStore {
  import opened Bytes
  import opened PbufFormat
  import opened Pbuf
  import opened FoldRows
  import opened FoldState
  import opened IndexFormat
  import opened IndexLaws

  // ------------------------------------------------------------- encode

  method EncodeCounter(c: Counter) returns (cw: PbufWriter)
    requires c.id < TWO64 && c.value < TWO64
    ensures cw.Valid() && fresh(cw) && fresh(cw.buf) && !cw.error && cw.cap < TWO64 && cw.out == EncFields(CounterFields(c))
  {
    hide EncField, EncFields;
    var cscr := new byte[32];
    cw := new PbufWriter(cscr, 0, 32);
    var _ := cw.WriteUint64(1, c.id);
    var _ := cw.WriteUint64(2, c.value);
    EncTwo(Field(1, Number(c.id)), Field(2, Number(c.value)));
    CounterLen(c);
  }

  /** encode_vector: its two scratch buffers are never too small. */
  method EncodeVector(w: PbufWriter, field: nat, v: seq<Counter>)
    requires w.Valid() && CountersFit(v) && |v| <= BEP_MAX_COUNTERS && field < TWO32
    modifies w, w.buf
    ensures w.Valid() && w.poisoned == old(w.poisoned)
    ensures w.out == old(w.out) + EncField(Field(field, Blob(EncFields(VectorFields(v)))))
  {
    hide EncField, EncFields, PbufWriter.Valid, VectorFields, CounterFields;
    var scratch := new byte[BEP_MAX_COUNTERS * 24 + 16];
    var vw := new PbufWriter(scratch, 0, BEP_MAX_COUNTERS * 24 + 16);
    ghost var before, poison := w.out, w.poisoned;
    VectorStart();
    for i := 0 to |v|
      invariant w.Valid() && vw.Valid() && !vw.poisoned && vw.out == EncFields(VectorFields(v[..i]))
      invariant w.out == before && w.poisoned == poison && vw.buf == scratch && fresh(vw)
    {
      var cw := EncodeCounter(v[i]);
      var _ := vw.WriteMessage(1, cw);
      VectorMore(v, i);
    }
    assert v[..|v|] == v;
    VectorFieldsGood(v);
    FitsNoError(vw);
    var _ := w.WriteMessage(field, vw);
  }

  lemma VectorStart()
    ensures EncFields(VectorFields([])) == []
  {
  }

  lemma VectorMore(v: seq<Counter>, i: nat)
    requires i < |v|
    ensures EncFields(VectorFields(v[..i + 1])) ==
            EncFields(VectorFields(v[..i])) + EncField(Field(1, Blob(EncFields(CounterFields(v[i])))))
  {
    hide EncField, EncFields, CounterFields;
    var f := Field(1, Blob(EncFields(CounterFields(v[i]))));
    assert v[..i + 1][..i] == v[..i];
    EncFieldsConcat(VectorFields(v[..i]), [f]);
    EncFieldsOne(f);
  }

  lemma FitsNoError(w: PbufWriter)
    requires w.Valid() && !w.poisoned && |w.out| <= w.cap
    ensures !w.error
  {
  }

  method WriteName(w: PbufWriter, name: Name, c: Core, ghost row: Row)
    requires w.Valid() && Storable(row) && name == row.name && c == row.meta.core
    modifies w, w.buf
    ensures w.Valid() && w.poisoned == old(w.poisoned) && w.out == old(w.out) + EncFields(NameFields(row))
  {
    hide EncField, EncFields, PbufWriter.Valid;
    ghost var fs, before := NameFields(row), w.out;
    var _ := w.WriteBytes(F_NAME, name);
    var _ := w.WriteUint64(F_TYPE, c.kind);
    var _ := w.WriteUint64(F_SIZE, c.size % TWO64);
    var _ := w.WriteInt64(F_MODIFIED_S, c.modifiedS);
    var _ := w.WriteInt64(F_MODIFIED_NS, c.modifiedNs);
    var _ := w.WriteBool(F_DELETED, c.deleted != 0);
    EncThree(fs[0], fs[1], fs[2]);
    EncThree(fs[3], fs[4], fs[5]);
    EncFieldsConcat(fs[..3], fs[3..]);
    assert fs[..3] == [fs[0], fs[1], fs[2]] && fs[3..] == [fs[3], fs[4], fs[5]] && fs == fs[..3] + fs[3..];
    SixOut(before, EncField(fs[0]), EncField(fs[1]), EncField(fs[2]), EncField(fs[3]), EncField(fs[4]), EncField(fs[5]));
  }

  lemma SixOut(o: seq<byte>, a: seq<byte>, b: seq<byte>, c: seq<byte>, d: seq<byte>, e: seq<byte>, f: seq<byte>)
    ensures o + a + b + c + d + e + f == o + ((a + b + c) + (d + e + f))
  {
  }

  lemma ThreeOut(o: seq<byte>, a: seq<byte>, b: seq<byte>, c: seq<byte>)
    ensures o + a + b + c == o + (a + b + c) && o + a + b == o + (a + b)
  {
  }

  method WriteHash(w: PbufWriter, c: Core, ghost row: Row)
    requires w.Valid() && Storable(row) && c == row.meta.core
    modifies w, w.buf
    ensures w.Valid() && w.poisoned == old(w.poisoned) && w.out == old(w.out) + EncFields(HashFields(row))
  {
    hide EncField, PbufWriter.Valid;
    if c.hasContentHash != 0 {
      var _ := w.WriteBytes(F_CONTENT_HASH, c.contentHash);
      EncFieldsOne(HashFields(row)[0]);
    }
  }

  method WriteVersion(w: PbufWriter, version: seq<Counter>, sequence: int, ghost row: Row)
    requires w.Valid() && Storable(row) && version == row.meta.version && sequence == row.meta.core.sequence
    modifies w, w.buf
    ensures w.Valid() && w.poisoned == old(w.poisoned) && w.out == old(w.out) + EncFields(VersionFields(row))
  {
    hide EncField, EncFields, VectorFields, PbufWriter.Valid;
    ghost var fs, before := VersionFields(row), w.out;
    EncodeVector(w, F_VERSION, version);
    var _ := w.WriteInt64(F_SEQUENCE, sequence);
    EncTwo(fs[0], fs[1]);
    ThreeOut(before, EncField(fs[0]), EncField(fs[1]), []);
  }

  method WriteBlocks(w: PbufWriter, blocks: Option<seq<Hash>>, nblocks: nat, ghost row: Row)
    requires w.Valid() && Storable(row) && nblocks == |row.blocks|
    requires blocks == if row.blocks == [] then None else Some(row.blocks)
    modifies w, w.buf
    ensures w.Valid() && w.poisoned == old(w.poisoned) && w.out == old(w.out) + EncFields(BlockFields(row))
  {
    hide EncField, Flat, PbufWriter.Valid;
    if blocks.Some? && nblocks > 0 {
      FlatLen(row.blocks);
      var _ := w.WriteBytes(F_BLOCK_HASHES, Flat(blocks.value));
      EncFieldsOne(BlockFields(row)[0]);
    }
  }

  method WriteTail(w: PbufWriter, c: Core, ghost row: Row)
    requires w.Valid() && Storable(row) && c == row.meta.core
    modifies w, w.buf
    ensures w.Valid() && w.poisoned == old(w.poisoned)
    ensures w.out == old(w.out) + EncFields(TailFields(row)) + EncFields(ByFields(row))
  {
    hide EncField, PbufWriter.Valid;
    ghost var fs, before := TailFields(row), w.out;
    var _ := w.WriteUint64(F_PERMISSIONS, c.permissions);
    var _ := w.WriteInt64(F_BLOCK_SIZE, c.blockSize);
    var _ := w.WriteBool(F_INVALID, c.invalid != 0);
    EncThree(fs[0], fs[1], fs[2]);
    ThreeOut(before, EncField(fs[0]), EncField(fs[1]), EncField(fs[2]));
    if c.modifiedBy != 0 {
      var _ := w.WriteUint64(F_MODIFIED_BY, c.modifiedBy);
      EncFieldsOne(ByFields(row)[0]);
    }
  }

  lemma RecordParts(o: seq<byte>, row: Row)
    ensures o + EncFields(NameFields(row)) + EncFields(HashFields(row)) + EncFields(VersionFields(row))
            + EncFields(BlockFields(row)) + EncFields(TailFields(row)) + EncFields(ByFields(row))
            == o + EncFields(RecordFields(row))
  {
    hide EncFields, NameFields, HashFields, VersionFields, BlockFields, TailFields, ByFields;
    var a := NameFields(row) + HashFields(row);
    EncFieldsConcat(NameFields(row), HashFields(row));
    EncFieldsConcat(a, VersionFields(row));
    EncFieldsConcat(a + VersionFields(row), BlockFields(row));
    EncFieldsConcat(a + VersionFields(row) + BlockFields(row), TailFields(row));
    EncFieldsConcat(a + VersionFields(row) + BlockFields(row) + TailFields(row), ByFields(row));
    SixParts(o, EncFields(NameFields(row)), EncFields(HashFields(row)), EncFields(VersionFields(row)),
             EncFields(BlockFields(row)), EncFields(TailFields(row)), EncFields(ByFields(row)));
  }

  lemma SixParts(o: seq<byte>, a: seq<byte>, b: seq<byte>, c: seq<byte>, d: seq<byte>, e: seq<byte>, f: seq<byte>)
    ensures o + a + b + c + d + e + f == o + (a + b + c + d + e + f)
  {
  }

  method WriteRecord(w: PbufWriter, rec: FolderRec, name: Name, blocks: Option<seq<Hash>>, nblocks: nat, ghost row: Row)
    requires w.Valid() && Storable(row) && SlotHolds(rec, Some(name), blocks, nblocks, row.seen, row)
    modifies w, w.buf
    ensures w.Valid() && w.poisoned == old(w.poisoned) && w.out == old(w.out) + EncFields(RecordFields(row))
  {
    hide EncFields, RecordFields, NameFields, HashFields, VersionFields, BlockFields, TailFields, ByFields;
    hide PbufWriter.Valid, Storable;
    RecordParts(w.out, row);
    WriteName(w, name, rec.core, row);
    WriteHash(w, rec.core, row);
    WriteVersion(w, GetVersion(rec), rec.core.sequence, row);
    WriteBlocks(w, blocks, nblocks, row);
    WriteTail(w, rec.core, row);
  }

  method WriteHeader(w: PbufWriter, id: Owner, sequence: int)
    requires w.Valid() && OwnerOk(id) && IsInt64(sequence)
    modifies w, w.buf
    ensures w.Valid() && w.poisoned == old(w.poisoned) && w.out == old(w.out) + EncFields(HeaderFields(id, sequence))
  {
    hide EncField, EncFields, PbufWriter.Valid;
    ghost var fs, before := HeaderFields(id, sequence), w.out;
    var _ := w.WriteUint64(F_MAGIC, IDX_MAGIC);
    var _ := w.WriteUint64(F_FORMAT, IDX_FORMAT);
    var _ := w.WriteBytes(F_FOLDER_ID, id.folder);
    var _ := w.WriteUint64(F_SHORT_ID, id.shortId);
    var _ := w.WriteUint64(F_HIGH_SEQ, sequence % TWO64);
    EncThree(fs[0], fs[1], fs[2]);
    EncTwo(fs[3], fs[4]);
    EncFieldsConcat(fs[..3], fs[3..]);
    assert fs[..3] == [fs[0], fs[1], fs[2]] && fs[3..] == [fs[3], fs[4]] && fs == fs[..3] + fs[3..];
    SixOut(before, EncField(fs[0]), EncField(fs[1]), EncField(fs[2]), EncField(fs[3]), EncField(fs[4]), []);
  }

  /** The buffer is not one of the index's own arrays. */
  ghost predicate Apart(buf: array<byte>, fs: FolderState)
    reads fs
  {
    buf as object != fs.nblocks && buf as object != fs.hhead && buf as object != fs.hnext
  }

  lemma RowsMore(rows: seq<Row>, i: nat)
    requires i < |rows|
    ensures EncFields(RowsFields(rows[..i + 1])) == EncFields(RowsFields(rows[..i])) + EncFields(RecordFields(rows[i]))
  {
    hide EncFields, RecordFields;
    assert rows[..i + 1][..i] == rows[..i];
    EncFieldsConcat(RowsFields(rows[..i]), RecordFields(rows[i]));
  }

  lemma IndexParts(id: Owner, sequence: int, rows: seq<Row>)
    ensures EncFields(HeaderFields(id, sequence)) + EncFields(RowsFields(rows)) + EncField(Field(F_END, Number(|rows|)))
            == Encoded(id, sequence, rows)
    ensures |Encoded(id, sequence, rows)| > 0
  {
    hide EncFields, EncField, HeaderFields, RowsFields;
    var end := Field(F_END, Number(|rows|));
    EncFieldsConcat(HeaderFields(id, sequence), RowsFields(rows));
    EncFieldsConcat(HeaderFields(id, sequence) + RowsFields(rows), [end]);
    EncFieldsOne(end);
  }

  /** index_store_encode: the whole encoding when it fits, and otherwise 0. */
  method IndexStoreEncode(fs: FolderState, id: Owner, buf: array<byte>, cap: nat) returns (r: nat)
    requires fs.Valid() && OwnerOk(id) && IsInt64(fs.sequence) && AllStorable(fs.rows)
    requires cap <= buf.Length && Apart(buf, fs)
    modifies buf
    ensures r == if |Encoded(id, fs.sequence, fs.rows)| <= cap then |Encoded(id, fs.sequence, fs.rows)| else 0
    ensures r > 0 ==> At(buf[..], 0, Encoded(id, fs.sequence, fs.rows))
  {
    hide EncFields, EncField, RecordFields, RowsFields, HeaderFields, Encoded, Storable, SlotHolds, Chains, PbufWriter.Valid;
    var w := new PbufWriter(buf, 0, cap);
    ghost var rows, head := fs.rows, EncFields(HeaderFields(id, fs.sequence));
    WriteHeader(w, id, fs.sequence);
    RowsStart();
    var n := fs.numFiles;
    for i := 0 to n
      invariant fs.Valid() && fs.rows == rows && n == fs.numFiles == |rows| && w.Valid() && !w.poisoned && fresh(w)
      invariant w.buf == buf && w.out == head + EncFields(RowsFields(rows[..i]))
    {
      assert SlotHolds(fs.files[i], fs.names[i], fs.blocks[i], fs.nblocks[i], fs.seen[i], rows[i]);
      SlotName(fs.files[i], fs.names[i], fs.blocks[i], fs.nblocks[i], fs.seen[i], rows[i]);
      SlotSeen(fs.files[i], fs.names[i], fs.blocks[i], fs.nblocks[i], fs.seen[i], rows[i]);
      WriteRecord(w, fs.files[i], fs.names[i].value, fs.blocks[i], fs.nblocks[i], rows[i]);
      RowsMore(rows, i);
    }
    assert rows[..n] == rows;
    var _ := w.WriteUint64(F_END, n);
    IndexParts(id, fs.sequence, rows);
    WriterEnd(w);
    r := if w.error then 0 else w.len;
  }

  lemma RowsStart()
    ensures EncFields(RowsFields([])) == []
  {
  }

  lemma SlotSeen(rec: FolderRec, name: Option<Name>, blocks: Option<seq<Hash>>, nblocks: nat, seen: bool, row: Row)
    requires SlotHolds(rec, name, blocks, nblocks, seen, row)
    ensures seen == row.seen
  {
  }

  lemma WriterEnd(w: PbufWriter)
    requires w.Valid() && !w.poisoned
    ensures w.error <==> |w.out| > w.cap
    ensures !w.error ==> w.len == |w.out| && At(w.buf[..], w.base, w.out)
  {
  }

  /** index_store_size */
  method IndexStoreSize(fs: FolderState) returns (total: nat)
    requires fs.Valid()
    ensures total == IndexSize(fs.rows)
  {
    hide Chains;
    total := 96;
    for i := 0 to fs.numFiles
      invariant total == IndexSize(fs.rows[..i])
    {
      assert SlotHolds(fs.files[i], fs.names[i], fs.blocks[i], fs.nblocks[i], fs.seen[i], fs.rows[i]);
      assert fs.rows[..i + 1][..i] == fs.rows[..i];
      total := total + IDX_REC_BUDGET + IDX_LEN_FRAME + |fs.names[i].value| + IDX_LEN_FRAME + fs.nblocks[i] * BEP_HASH_LEN
      + IDX_LEN_FRAME + fs.files[i].nver * 24;
    }
    assert fs.rows[..fs.numFiles] == fs.rows;
  }
}
