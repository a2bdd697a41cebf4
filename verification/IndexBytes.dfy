/**
  The index file byte by byte, and what becomes of every field of a record: the
  laws of IndexLaws said without the functions they are about.
*/
module IndexBytes {
  import opened Bytes
  import opened PbufFormat
  import opened FoldRows
  import opened IndexFormat
  import opened IndexLaws

  // ------------------------------------------------- what is written

  /** A tag of two bytes, the first one standing for lo - 128. */
  lemma LongTag(lo: byte, hi: byte)
    requires lo >= 128 && 0 < hi < 128
    ensures VarintBytes(hi as int * 128 + lo as int - 128) == [lo, hi]
  {
    assert VarintBytes(hi) == [hi];
  }

  lemma NumberTag(num: nat, n: nat, lo: byte, hi: byte)
    requires lo >= 128 && 0 < hi < 128 && num * 8 == hi * 128 + lo - 128
    ensures EncField(Field(num, Number(n))) == [lo, hi] + VarintBytes(n)
  {
    hide VarintBytes;
    FieldInBytes(num, Number(n));
    LongTag(lo, hi);
  }

  lemma BlobTag(num: nat, b: seq<byte>, lo: byte, hi: byte)
    requires lo >= 128 && 0 < hi < 128 && num * 8 + 2 == hi * 128 + lo - 128
    ensures EncField(Field(num, Blob(b))) == [lo, hi] + VarintBytes(|b|) + b
  {
    hide VarintBytes;
    FieldInBytes(num, Blob(b));
    LongTag(lo, hi);
  }

  /** One counter of a version vector. */
  lemma CounterInBytes(c: Counter)
    ensures EncFields(CounterFields(c)) == [0x08] + VarintBytes(c.id) + [0x10] + VarintBytes(c.value)
  {
    EncTwo(Field(1, Number(c.id)), Field(2, Number(c.value)));
  }

  /** A version vector, counter by counter. */
  lemma VectorInBytes(v: seq<Counter>, c: Counter)
    ensures EncFields(VectorFields([])) == []
    ensures var b := EncFields(CounterFields(c));
            EncFields(VectorFields(v + [c])) == EncFields(VectorFields(v)) + [0x0A] + VarintBytes(|b|) + b
  {
    var f := Field(1, Blob(EncFields(CounterFields(c))));
    assert (v + [c])[..|v|] == v;
    assert VectorFields(v + [c]) == VectorFields(v) + [f];
    EncFieldsConcat(VectorFields(v), [f]);
    EncFieldsOne(f);
  }

  lemma SixFields(a: Field, b: Field, c: Field, d: Field, e: Field, f: Field)
    ensures EncFields([a, b, c, d, e, f]) ==
            EncField(a) + EncField(b) + EncField(c) + EncField(d) + EncField(e) + EncField(f)
  {
    EncFieldsConcat([a, b, c], [d, e, f]);
    EncThree(a, b, c);
    EncThree(d, e, f);
    assert [a, b, c] + [d, e, f] == [a, b, c, d, e, f];
  }

  /** The file's first bytes: magic and format number, whose index it is, and the
      sequence. */
  lemma HeaderInBytes(id: Owner, sequence: int)
    ensures EncFields(HeaderFields(id, sequence)) ==
            [0x08, 0xD8, 0xA6, 0xB5, 0x8A, 0x04, 0x10, 0x02, 0x1A] + VarintBytes(|id.folder|) + id.folder
            + [0x20] + VarintBytes(id.shortId) + [0x28] + VarintBytes(sequence % 0x1_0000_0000_0000_0000)
  {
    hide EncFields, VarintBytes, EncField;
    var fs := HeaderFields(id, sequence);
    EncFieldsConcat(fs[..3], fs[3..]);
    EncThree(fs[0], fs[1], fs[2]);
    EncTwo(fs[3], fs[4]);
    assert fs[..3] == [fs[0], fs[1], fs[2]] && fs[3..] == [fs[3], fs[4]] && fs[..3] + fs[3..] == fs;
    MagicAndFormat();
    FieldInBytes(3, Blob(id.folder));
    FieldInBytes(4, Number(id.shortId));
    FieldInBytes(5, Number(sequence % TWO64));
    ShortNumber(3 * 8 + 2);
    ShortNumber(4 * 8);
    ShortNumber(5 * 8);
    Flatten(EncField(fs[0]) + EncField(fs[1]), [0x1A], VarintBytes(|id.folder|), id.folder, [0x20], VarintBytes(id.shortId),
            [0x28], VarintBytes(sequence % TWO64));
  }

  lemma Flatten(m: seq<byte>, a: seq<byte>, b: seq<byte>, c: seq<byte>, d: seq<byte>, e: seq<byte>, f: seq<byte>,
                g: seq<byte>)
    ensures (m + (a + b + c)) + ((d + e) + (f + g)) == m + a + b + c + d + e + f + g
  {
  }

  lemma MagicAndFormat()
    ensures EncField(Field(F_MAGIC, Number(IDX_MAGIC))) + EncField(Field(F_FORMAT, Number(IDX_FORMAT))) + [0x1A] ==
            [0x08, 0xD8, 0xA6, 0xB5, 0x8A, 0x04, 0x10, 0x02, 0x1A]
  {
    hide VarintBytes, EncField;
    FieldInBytes(1, Number(IDX_MAGIC));
    FieldInBytes(2, Number(IDX_FORMAT));
    ShortNumber(1 * 8);
    ShortNumber(2 * 8);
    ShortNumber(2);
    MagicInBytes();
  }

  lemma MagicInBytes()
    ensures VarintBytes(0x414D5358) == [0xD8, 0xA6, 0xB5, 0x8A, 0x04]
  {
    var v: nat := 0x414D5358;
    assert v / 128 == 0x829AA6 && v / 128 / 128 == 0x10535 && v / 128 / 128 / 128 == 0x20A;
    assert VarintBytes(0x20A) == [0x8A, 0x04];
    assert VarintBytes(0x10535) == [0xB5] + VarintBytes(0x20A);
    assert VarintBytes(0x829AA6) == [0xA6] + VarintBytes(0x10535);
  }

  lemma NameInBytes(row: Row)
    ensures var c := row.meta.core;
            EncFields(NameFields(row)) ==
            ([0xA2, 0x01] + VarintBytes(|row.name|) + row.name) + ([0xA8, 0x01] + VarintBytes(c.kind))
            + ([0xB0, 0x01] + VarintBytes(c.size % 0x1_0000_0000_0000_0000))
            + ([0xB8, 0x01] + VarintBytes(c.modifiedS % 0x1_0000_0000_0000_0000))
            + ([0xC0, 0x01] + VarintBytes(c.modifiedNs % 0x1_0000_0000_0000_0000))
            + ([0xC8, 0x01] + VarintBytes(if c.deleted != 0 then 1 else 0))
  {
    hide EncField, VarintBytes;
    var fs, c := NameFields(row), row.meta.core;
    SixFields(fs[0], fs[1], fs[2], fs[3], fs[4], fs[5]);
    BlobTag(20, row.name, 0xA2, 0x01);
    NumberTag(21, c.kind, 0xA8, 0x01);
    NumberTag(22, c.size % TWO64, 0xB0, 0x01);
    NumberTag(23, c.modifiedS % TWO64, 0xB8, 0x01);
    NumberTag(24, c.modifiedNs % TWO64, 0xC0, 0x01);
    NumberTag(25, Flag(c.deleted), 0xC8, 0x01);
  }

  lemma TailInBytes(row: Row)
    ensures var c := row.meta.core;
            EncFields(TailFields(row)) ==
            ([0xF0, 0x01] + VarintBytes(c.permissions))
            + ([0xF8, 0x01] + VarintBytes(c.blockSize % 0x1_0000_0000_0000_0000))
            + ([0x80, 0x02] + VarintBytes(if c.invalid != 0 then 1 else 0))
  {
    hide EncField, EncFields, VarintBytes;
    var fs, c := TailFields(row), row.meta.core;
    EncThree(fs[0], fs[1], fs[2]);
    NumberTag(30, c.permissions, 0xF0, 0x01);
    NumberTag(31, c.blockSize % TWO64, 0xF8, 0x01);
    NumberTag(32, Flag(c.invalid), 0x80, 0x02);
  }

  lemma OptionalInBytes(row: Row)
    ensures var c := row.meta.core;
            && EncFields(HashFields(row)) ==
               (if c.hasContentHash != 0 then [0xD2, 0x01] + VarintBytes(|c.contentHash|) + c.contentHash else [])
            && EncFields(BlockFields(row)) ==
               (if row.blocks != [] then [0xEA, 0x01] + VarintBytes(|Flat(row.blocks)|) + Flat(row.blocks) else [])
            && EncFields(ByFields(row)) == (if c.modifiedBy != 0 then [0x88, 0x02] + VarintBytes(c.modifiedBy) else [])
  {
    EncNone();
    hide EncField, EncFields, VarintBytes, Flat;
    var c := row.meta.core;
    var hash, blocks := Field(F_CONTENT_HASH, Blob(c.contentHash)), Field(F_BLOCK_HASHES, Blob(Flat(row.blocks)));
    EncFieldsOne(hash);
    BlobTag(26, c.contentHash, 0xD2, 0x01);
    EncFieldsOne(blocks);
    BlobTag(29, Flat(row.blocks), 0xEA, 0x01);
    EncFieldsOne(Field(F_MODIFIED_BY, Number(c.modifiedBy)));
    NumberTag(33, c.modifiedBy, 0x88, 0x02);
  }

  lemma VersionInBytes(row: Row)
    ensures var v := EncFields(VectorFields(row.meta.version));
            EncFields(VersionFields(row)) ==
            ([0xDA, 0x01] + VarintBytes(|v|) + v)
            + ([0xE0, 0x01] + VarintBytes(row.meta.core.sequence % 0x1_0000_0000_0000_0000))
  {
    hide EncField, EncFields, VarintBytes, VectorFields;
    var fs, v := VersionFields(row), EncFields(VectorFields(row.meta.version));
    EncTwo(fs[0], fs[1]);
    BlobTag(27, v, 0xDA, 0x01);
    NumberTag(28, row.meta.core.sequence % TWO64, 0xE0, 0x01);
  }

  /** A record, byte for byte: every tag, the order, and what is left out when. */
  lemma RecordInBytes(row: Row)
    ensures var c, v := row.meta.core, EncFields(VectorFields(row.meta.version));
            EncFields(RecordFields(row)) ==
            (([0xA2, 0x01] + VarintBytes(|row.name|) + row.name) + ([0xA8, 0x01] + VarintBytes(c.kind))
             + ([0xB0, 0x01] + VarintBytes(c.size % 0x1_0000_0000_0000_0000))
             + ([0xB8, 0x01] + VarintBytes(c.modifiedS % 0x1_0000_0000_0000_0000))
             + ([0xC0, 0x01] + VarintBytes(c.modifiedNs % 0x1_0000_0000_0000_0000))
             + ([0xC8, 0x01] + VarintBytes(if c.deleted != 0 then 1 else 0)))
            + (if c.hasContentHash != 0 then [0xD2, 0x01] + VarintBytes(|c.contentHash|) + c.contentHash else [])
            + (([0xDA, 0x01] + VarintBytes(|v|) + v) + ([0xE0, 0x01] + VarintBytes(c.sequence % 0x1_0000_0000_0000_0000)))
            + (if row.blocks != [] then [0xEA, 0x01] + VarintBytes(|Flat(row.blocks)|) + Flat(row.blocks) else [])
            + (([0xF0, 0x01] + VarintBytes(c.permissions))
               + ([0xF8, 0x01] + VarintBytes(c.blockSize % 0x1_0000_0000_0000_0000))
               + ([0x80, 0x02] + VarintBytes(if c.invalid != 0 then 1 else 0)))
            + (if c.modifiedBy != 0 then [0x88, 0x02] + VarintBytes(c.modifiedBy) else [])
  {
    hide EncField, EncFields, VarintBytes, Flat, VectorFields, NameFields, HashFields, VersionFields, BlockFields,
      TailFields, ByFields;
    var a, b, c, d, e, f := NameFields(row), HashFields(row), VersionFields(row), BlockFields(row), TailFields(row),
      ByFields(row);
    EncFieldsConcat(a, b);
    EncFieldsConcat(a + b, c);
    EncFieldsConcat(a + b + c, d);
    EncFieldsConcat(a + b + c + d, e);
    EncFieldsConcat(a + b + c + d + e, f);
    NameInBytes(row);
    OptionalInBytes(row);
    VersionInBytes(row);
    TailInBytes(row);
  }

  /** The file: its header, the records one after the other, and their number. */
  lemma FileInBytes(id: Owner, sequence: int, rows: seq<Row>)
    ensures Encoded(id, sequence, rows) ==
            EncFields(HeaderFields(id, sequence)) + EncFields(RowsFields(rows)) + ([0x30] + VarintBytes(|rows|))
    ensures rows != [] ==>
              var n := |rows| - 1;
              EncFields(RowsFields(rows)) == EncFields(RowsFields(rows[..n])) + EncFields(RecordFields(rows[n]))
    ensures rows == [] ==> EncFields(RowsFields(rows)) == []
  {
    EncNone();
    hide EncField, EncFields, VarintBytes, HeaderFields, RecordFields;
    var end := Field(F_END, Number(|rows|));
    EncFieldsConcat(HeaderFields(id, sequence) + RowsFields(rows), [end]);
    EncFieldsConcat(HeaderFields(id, sequence), RowsFields(rows));
    EncFieldsOne(end);
    FieldInBytes(6, Number(|rows|));
    ShortNumber(6 * 8);
    if rows != [] {
      EncFieldsConcat(RowsFields(rows[..|rows| - 1]), RecordFields(rows[|rows| - 1]));
    }
  }

  // ---------------------------------------------------- what is read

  /** Every field of every record comes back from the file: the flags as 0 or 1, the
      content hash only where there was one, the marks not at all. */
  lemma RecordsComeBack(id: Owner, sequence: int, rows: seq<Row>, i: nat)
    requires |id.folder| < 64 && 0 !in id.folder && id.shortId < 0x1_0000_0000_0000_0000
    requires -0x8000_0000_0000_0000 <= sequence < 0x8000_0000_0000_0000 && i < |rows| <= 100000
    requires forall j, k :: 0 <= j < k < |rows| ==> rows[j].name != rows[k].name
    requires forall k :: 0 <= k < |rows| ==>
               var c, v := rows[k].meta.core, rows[k].meta.version;
               && |rows[k].name| < 256 && 0 !in rows[k].name && c.permissions < 0x1_0000_0000
               && -0x8000_0000_0000_0000 <= c.size < 0x8000_0000_0000_0000
               && -0x8000_0000_0000_0000 <= c.modifiedS < 0x8000_0000_0000_0000
               && -0x8000_0000_0000_0000 <= c.sequence < 0x8000_0000_0000_0000
               && -0x8000_0000 <= c.modifiedNs < 0x8000_0000 && -0x8000_0000 <= c.blockSize < 0x8000_0000
               && c.modifiedBy < 0x1_0000_0000_0000_0000 && |c.contentHash| == 32 && |v| <= 16
               && (forall j :: 0 <= j < |v| ==> v[j].id < 0x1_0000_0000_0000_0000 && v[j].value < 0x1_0000_0000_0000_0000)
               && |rows[k].blocks| < 0x1_0000 && forall j :: 0 <= j < |rows[k].blocks| ==> |rows[k].blocks[j]| == 32
    ensures var got := Decoded(Encoded(id, sequence, rows), id);
            && got.Some? && got.value.0 == sequence && |got.value.1| == |rows|
            && var row, was := got.value.1[i], rows[i];
               var c, o := row.meta.core, was.meta.core;
               && row.name == was.name && row.meta.version == was.meta.version && row.blocks == was.blocks && !row.seen
               && c.size == o.size && c.permissions == o.permissions && c.modifiedS == o.modifiedS
               && c.modifiedNs == o.modifiedNs && c.modifiedBy == o.modifiedBy && c.sequence == o.sequence
               && c.blockSize == o.blockSize && c.kind == o.kind && c.deleted == (if o.deleted == 0 then 0 else 1)
               && c.invalid == (if o.invalid == 0 then 0 else 1)
               && (if o.hasContentHash == 0 then c.hasContentHash == 0 && |c.contentHash| == 32 && forall k :: 0 <= k < 32 ==> c.contentHash[k] == 0
                   else c.hasContentHash == 1 && c.contentHash == o.contentHash)
  {
    assert Unique(rows) && AllStorable(rows) && OwnerOk(id);
    hide AllStorable, Unique, Encoded, Decoded, OwnerOk;
    IndexRoundTrip(id, sequence, rows);
  }

  /** A file is accepted for the right magic, format, folder and short id, and the
      number of its records, and for nothing else. */
  lemma HeaderAndCountChecked(m: nat, f: nat, folder: seq<byte>, shortId: nat, sequence: int, rows: seq<Row>, n: nat,
                              id: Owner)
    requires m < TWO64 && f < TWO64 && shortId < TWO64 && n < TWO64 && |folder| < 64 && 0 !in folder && IsInt64(sequence)
    requires Unique(rows) && AllStorable(rows) && |rows| <= 100000
    ensures var fs := [Field(1, Number(m)), Field(2, Number(f)), Field(3, Blob(folder)), Field(4, Number(shortId)),
                       Field(5, Number(sequence % TWO64))] + RowsFields(rows) + [Field(6, Number(n))];
            Decoded(EncFields(fs), id).Some? <==>
            m == 0x414D5358 && f == 2 && folder == id.folder && shortId == id.shortId && n == |rows|
  {
    hide RowsFields, AllStorable, Unique, Run, Finish, CommitAll, EncFields, Parse, Curs, AfterRows;
    var head := [Field(1, Number(m)), Field(2, Number(f)), Field(3, Blob(folder)), Field(4, Number(shortId)),
                 Field(5, Number(sequence % TWO64))];
    var end := Field(6, Number(n));
    var fs := head + RowsFields(rows) + [end];
    RowsWritable(rows);
    ParseExactly(fs);
    HeadLoaded(m, f, folder, shortId, sequence % TWO64, id);
    var l := Run(Start(), head, id);
    RunConcat(Start(), head, RowsFields(rows), id);
    RunConcat(Start(), head + RowsFields(rows), [end], id);
    if HeaderMatches(l.h, id) {
      RowsLoaded(l, rows, id);
      EndLoaded(l, rows, n, id);
      CursCount(rows);
      CursRestored(rows);
      RestoredCount(rows);
    } else {
      WrongHeader(l, rows, end, id);
    }
  }

  /** The end marker behind rows that belong here. */
  lemma EndLoaded(l: Load, rows: seq<Row>, n: nat, id: Owner)
    requires l.Load? && HeaderMatches(l.h, id) && l.h.cur.None? && l.records == [] && n < TWO64
    ensures var r := Finish(Run(AfterRows(l, rows), [Field(6, Number(n))], id), true, id);
            r == if n < TWO63 then Some(File(AsInt64(l.h.highSeq), n, Curs(rows))) else None
  {
    hide Curs;
    RunOne(AfterRows(l, rows), Field(6, Number(n)), id);
    ClosedAll(l, rows);
  }

  /** With another header nothing is accepted, with records or without. */
  lemma WrongHeader(l: Load, rows: seq<Row>, end: Field, id: Owner)
    requires l.Load? && !HeaderMatches(l.h, id) && !l.h.checked && end.num == F_END
    ensures Finish(Run(Run(l, RowsFields(rows), id), [end], id), true, id) == None
  {
    if rows == [] {
      assert RowsFields(rows) == [];
      RunOne(l, end, id);
    } else {
      WrongHeaderRows(l, rows, id);
      RunBad([end], id);
    }
  }

  lemma {:induction false} WrongHeaderRows(l: Load, rows: seq<Row>, id: Owner)
    requires l.Load? && !HeaderMatches(l.h, id) && !l.h.checked && rows != []
    ensures Run(l, RowsFields(rows), id) == Bad
  {
    hide RecordFields;
    var less, row := rows[..|rows| - 1], rows[|rows| - 1];
    RunConcat(l, RowsFields(less), RecordFields(row), id);
    if less == [] {
      assert RowsFields(less) == [];
      RecordHead(row);
      RunConcat(l, [Field(F_NAME, Blob(row.name))], RecordFields(row)[1..], id);
      RunOne(l, Field(F_NAME, Blob(row.name)), id);
      RunBad(RecordFields(row)[1..], id);
    } else {
      WrongHeaderRows(l, less, id);
      RunBad(RecordFields(row), id);
    }
  }

  /** A known field with the wrong kind of value, anywhere, and the file is refused. */
  lemma {:induction false} WrongKindRefused(l: Load, fs: seq<Field>, k: nat, id: Owner)
    requires k < |fs|
    requires || (fs[k].num in {1, 2, 4, 5, 6, 21, 22, 23, 24, 25, 28, 30, 31, 32, 33} && !fs[k].value.Number?)
             || (fs[k].num in {3, 20, 26, 27, 29} && !fs[k].value.Blob?)
    ensures Run(l, fs, id) == Bad
    decreases k
  {
    if k == 0 {
      RunBad(fs[1..], id);
    } else {
      WrongKindRefused(Step(l, fs[0], id), fs[1..], k - 1, id);
    }
  }

  /** A field nobody knows changes nothing. */
  lemma {:induction false} UnknownFieldIgnored(l: Load, a: seq<Field>, f: Field, b: seq<Field>, id: Owner)
    requires f.num == 0 || 6 < f.num < 20 || f.num > 33
    requires f.num >= 20 ==> Run(l, a, id).Load? && Run(l, a, id).h.checked
    ensures Run(l, a + [f] + b, id) == Run(l, a + b, id)
  {
    RunConcat(l, a + [f], b, id);
    RunConcat(l, a, [f], id);
    RunConcat(l, a, b, id);
    RunOne(Run(l, a, id), f, id);
  }
}
