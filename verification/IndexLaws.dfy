/**
  The laws of the index file: reading back what was written restores every record,
  a file cut short anywhere is refused, and the size estimate is enough room.
*/
module IndexLaws {
  import opened Bytes
  import opened PbufFormat
  import opened FoldRows
  import opened IndexFormat

  // ------------------------------------------------------- one record

  /** The fields of a record after its name. */
  predicate InRecord(f: Field) {
    f.num > F_NAME && ExpectedWt(f.num) == WireType(f.value)
  }

  predicate AllInRecord(fs: seq<Field>) {
    forall i :: 0 <= i < |fs| ==> InRecord(fs[i])
  }

  function RunCur(c: Cur, fs: seq<Field>): Cur
    requires AllInRecord(fs)
    decreases |fs|
  {
    if fs == [] then c else RunCur(CurStep(c, fs[0]), fs[1..])
  }

  lemma {:induction false} RunCurConcat(c: Cur, a: seq<Field>, b: seq<Field>)
    requires AllInRecord(a) && AllInRecord(b)
    ensures AllInRecord(a + b) && RunCur(c, a + b) == RunCur(RunCur(c, a), b)
    decreases |a|
  {
    hide CurStep;
    if a == [] {
      assert a + b == b;
    } else {
      assert (a + b)[1..] == a[1..] + b && (a + b)[0] == a[0];
      RunCurConcat(CurStep(c, a[0]), a[1..], b);
    }
  }

  lemma {:induction false} RunCurShort(c: Cur, fs: seq<Field>)
    requires AllInRecord(fs) && |fs| <= 3
    ensures fs == [] ==> RunCur(c, fs) == c
    ensures |fs| == 1 ==> RunCur(c, fs) == CurStep(c, fs[0])
    ensures |fs| == 2 ==> RunCur(c, fs) == CurStep(CurStep(c, fs[0]), fs[1])
    ensures |fs| == 3 ==> RunCur(c, fs) == CurStep(CurStep(CurStep(c, fs[0]), fs[1]), fs[2])
    decreases |fs|
  {
    hide CurStep;
    if fs != [] {
      var rest := fs[1..];
      RunCurShort(CurStep(c, fs[0]), rest);
      assert |rest| >= 1 ==> rest[0] == fs[1];
      assert |rest| >= 2 ==> rest[1] == fs[2];
    }
  }

  lemma {:induction false} RunInRecord(l: Load, fs: seq<Field>, id: Owner)
    requires l.Load? && l.h.checked && l.h.cur.Some? && AllInRecord(fs)
    ensures Run(l, fs, id) == Load.Load(l.h.(cur := Some(RunCur(l.h.cur.value, fs))), l.records)
    decreases |fs|
  {
    hide CurStep;
    if fs != [] {
      assert InRecord(fs[0]);
      RunInRecord(Step(l, fs[0], id), fs[1..], id);
    }
  }

  function CurOf(row: Row): Cur {
    Cur(row.name, Restored(row).meta.core, row.meta.version, Flat(row.blocks))
  }

  lemma TypeRestored(row: Row, c: Cur)
    requires Storable(row)
    ensures var fs, o := NameFields(row)[1..4], row.meta.core;
            AllInRecord(fs) && RunCur(c, fs) == c.(core := c.core.(kind := o.kind, size := o.size, modifiedS := o.modifiedS))
  {
    var fs, o := NameFields(row), row.meta.core;
    SignedRoundTrip(o.size);
    SignedRoundTrip(o.modifiedS);
    RunCurShort(c, fs[1..4]);
  }

  lemma DeletedRestored(row: Row, c: Cur)
    requires Storable(row)
    ensures var fs, o := NameFields(row)[4..], row.meta.core;
            AllInRecord(fs) &&
            RunCur(c, fs) == c.(core := c.core.(modifiedNs := o.modifiedNs, deleted := FlagByte(o.deleted)))
  {
    var fs, o := NameFields(row), row.meta.core;
    SignedRoundTrip(o.modifiedNs);
    RunCurShort(c, fs[4..]);
  }

  lemma HashRestored(row: Row, c: Cur)
    requires Storable(row) && c.core.contentHash == Zeros(BEP_HASH_LEN) && c.core.hasContentHash == 0
    ensures AllInRecord(HashFields(row)) && RunCur(c, HashFields(row)) ==
                                            c.(core := c.core.(contentHash := Restored(row).meta.core.contentHash,
                                                               hasContentHash := FlagByte(row.meta.core.hasContentHash)))
  {
    RunCurShort(c, HashFields(row));
  }

  lemma VersionRestored(row: Row, c: Cur)
    requires Storable(row)
    ensures AllInRecord(VersionFields(row)) && RunCur(c, VersionFields(row)) ==
                                               c.(version := row.meta.version, core := c.core.(sequence := row.meta.core.sequence))
  {
    hide DecodeVector, VectorFields, EncFields;
    SignedRoundTrip(row.meta.core.sequence);
    VectorRoundTrip(row.meta.version);
    RunCurShort(c, VersionFields(row));
  }

  lemma BlocksRestored(row: Row, c: Cur)
    requires c.hashes == []
    ensures AllInRecord(BlockFields(row)) && RunCur(c, BlockFields(row)) == c.(hashes := Flat(row.blocks))
  {
    RunCurShort(c, BlockFields(row));
  }

  lemma TailRestored(row: Row, c: Cur)
    requires Storable(row)
    ensures AllInRecord(TailFields(row)) && RunCur(c, TailFields(row)) ==
                                            c.(core := c.core.(permissions := row.meta.core.permissions, blockSize := row.meta.core.blockSize,
                                                               invalid := FlagByte(row.meta.core.invalid)))
  {
    SignedRoundTrip(row.meta.core.blockSize);
    RunCurShort(c, TailFields(row));
  }

  lemma ByRestored(row: Row, c: Cur)
    requires Storable(row) && c.core.modifiedBy == 0
    ensures AllInRecord(ByFields(row)) && RunCur(c, ByFields(row)) ==
                                          c.(core := c.core.(modifiedBy := row.meta.core.modifiedBy))
  {
    RunCurShort(c, ByFields(row));
  }

  lemma {:induction false} FieldsRestored(row: Row)
    requires Storable(row)
    ensures var fs := RecordFields(row)[1..];
            AllInRecord(fs) && RunCur(Cur(row.name, EmptyCore(), [], []), fs) == CurOf(row)
  {
    hide NameFields, HashFields, VersionFields, BlockFields, TailFields, ByFields, RunCur, AllInRecord, Storable, Flat;
    var c0 := Cur(row.name, EmptyCore(), [], []);
    var fs := NameFields(row);
    NameCount(row);
    TypeRestored(row, c0);
    DeletedRestored(row, RunCur(c0, fs[1..4]));
    RunCurConcat(c0, fs[1..4], fs[4..]);
    var a := fs[1..4] + fs[4..];
    var c1 := RunCur(c0, a);
    HashRestored(row, c1);
    RunCurConcat(c0, a, HashFields(row));
    var b := a + HashFields(row);
    VersionRestored(row, RunCur(c0, b));
    RunCurConcat(c0, b, VersionFields(row));
    var d := b + VersionFields(row);
    BlocksRestored(row, RunCur(c0, d));
    RunCurConcat(c0, d, BlockFields(row));
    var e := d + BlockFields(row);
    TailRestored(row, RunCur(c0, e));
    RunCurConcat(c0, e, TailFields(row));
    var g := e + TailFields(row);
    ByRestored(row, RunCur(c0, g));
    RunCurConcat(c0, g, ByFields(row));
    assert a == fs[1..];
    assert RecordFields(row)[1..] == g + ByFields(row);
  }

  lemma NameCount(row: Row)
    ensures |NameFields(row)| == 6 && NameFields(row)[0] == Field(F_NAME, Blob(row.name))
  {
  }

  lemma RecordHead(row: Row)
    ensures RecordFields(row) == [Field(F_NAME, Blob(row.name))] + RecordFields(row)[1..]
  {
    hide NameFields, HashFields, VersionFields, BlockFields, TailFields, ByFields;
    NameCount(row);
  }

  /** Reading one written record completes the one before it and assembles this one. */
  lemma RecordLoaded(l: Load, row: Row, id: Owner)
    requires l.Load? && (l.h.checked || HeaderMatches(l.h, id)) && Storable(row)
    ensures Run(l, RecordFields(row), id) == Load.Load(l.h.(checked := true, cur := Some(CurOf(row))), Closed(l.records, l.h.cur))
  {
    hide RecordFields, RunCur, AllInRecord, Restored;
    RecordHead(row);
    var name, rest := Field(F_NAME, Blob(row.name)), RecordFields(row)[1..];
    HeldWhole(row.name, BEP_PATH_MAX);
    FieldsRestored(row);
    RunConcat(l, [name], rest, id);
    RunOne(l, name, id);
    RunInRecord(Step(l, name, id), rest, id);
  }

  // ------------------------------------------------------ the whole file

  /** The records of a file that holds these rows. */
  function Curs(rows: seq<Row>): seq<Cur> {
    seq(|rows|, i requires 0 <= i < |rows| => CurOf(rows[i]))
  }

  /** What is loaded after the rows: all but the last complete, that one assembled. */
  function AfterRows(l: Load, rows: seq<Row>): Load
    requires l.Load?
  {
    if rows == [] then l
    else Load.Load(l.h.(checked := true, cur := Some(CurOf(rows[|rows| - 1]))), Curs(rows[..|rows| - 1]))
  }

  lemma ClosedAll(l: Load, rows: seq<Row>)
    requires l.Load? && l.h.cur.None? && l.records == []
    ensures var a := AfterRows(l, rows); a.Load? && Closed(a.records, a.h.cur) == Curs(rows)
  {
    hide CurOf;
  }

  lemma {:induction false} RowsLoaded(l: Load, rows: seq<Row>, id: Owner)
    requires l.Load? && HeaderMatches(l.h, id) && l.h.cur.None? && l.records == [] && AllStorable(rows)
    ensures Run(l, RowsFields(rows), id) == AfterRows(l, rows)
  {
    hide Storable, RecordFields, CurOf, Curs;
    if rows != [] {
      var less, row := rows[..|rows| - 1], rows[|rows| - 1];
      RowsLoaded(l, less, id);
      RunConcat(l, RowsFields(less), RecordFields(row), id);
      ClosedAll(l, less);
      RecordLoaded(AfterRows(l, less), row, id);
    }
  }

  lemma {:induction false} RunBad(fs: seq<Field>, id: Owner)
    ensures Run(Bad, fs, id) == Bad
    decreases |fs|
  {
    if fs != [] {
      RunBad(fs[1..], id);
    }
  }

  /** Five header fields, whatever they say. */
  lemma HeadLoaded(m: nat, f: nat, folder: seq<byte>, shortId: nat, highSeq: nat, id: Owner)
    requires |folder| < BEP_FOLDER_ID_MAX && 0 !in folder
    ensures var fs := [Field(F_MAGIC, Number(m)), Field(F_FORMAT, Number(f)), Field(F_FOLDER_ID, Blob(folder)),
                       Field(F_SHORT_ID, Number(shortId)), Field(F_HIGH_SEQ, Number(highSeq))];
            Run(Start(), fs, id) == Load.Load(Head(m, f, shortId, highSeq, folder, false, -1, None), [])
  {
    hide Held;
    HeldWhole(folder, BEP_FOLDER_ID_MAX);
    var fs := [Field(F_MAGIC, Number(m)), Field(F_FORMAT, Number(f)), Field(F_FOLDER_ID, Blob(folder)),
               Field(F_SHORT_ID, Number(shortId)), Field(F_HIGH_SEQ, Number(highSeq))];
    var l0 := Start();
    var l1 := Load.Load(l0.h.(magic := m), []);
    var l2 := Load.Load(l1.h.(format := f), []);
    var l3 := Load.Load(l2.h.(folder := folder), []);
    var l4 := Load.Load(l3.h.(shortId := shortId), []);
    assert Run(l0, fs, id) == Run(l1, fs[1..], id);
    assert Run(l1, fs[1..], id) == Run(l2, fs[1..][1..], id);
    assert fs[1..][1..] == fs[2..] && fs[2..][1..] == fs[3..] && fs[3..][1..] == fs[4..] && fs[4..] == [fs[4]];
    assert Run(l2, fs[2..], id) == Run(l3, fs[3..], id);
    assert Run(l3, fs[3..], id) == Run(l4, fs[4..], id);
    RunOne(l4, fs[4], id);
  }

  lemma HeaderLoaded(id: Owner, sequence: int)
    requires OwnerOk(id) && IsInt64(sequence)
    ensures Run(Start(), HeaderFields(id, sequence), id) ==
            Load.Load(Head(IDX_MAGIC, IDX_FORMAT, id.shortId, sequence % TWO64, id.folder, false, -1, None), [])
  {
    HeadLoaded(IDX_MAGIC, IDX_FORMAT, id.folder, id.shortId, sequence % TWO64, id);
  }
  lemma IndexRead(id: Owner, sequence: int, rows: seq<Row>)
    requires OwnerOk(id) && IsInt64(sequence) && AllStorable(rows) && |rows| <= FOLDSTATE_MAX_FILES
    ensures Finish(Run(Start(), IndexFields(id, sequence, rows), id), true, id) == Some(File(sequence, |rows|, Curs(rows)))
  {
    hide RowsFields, HeaderFields, Run, Storable, Curs, CurOf;
    var end := Field(F_END, Number(|rows|));
    HeaderLoaded(id, sequence);
    var l := Run(Start(), HeaderFields(id, sequence), id);
    RunConcat(Start(), HeaderFields(id, sequence), RowsFields(rows), id);
    RowsLoaded(l, rows, id);
    RunConcat(Start(), HeaderFields(id, sequence) + RowsFields(rows), [end], id);
    RunOne(AfterRows(l, rows), end, id);
    ClosedAll(l, rows);
    SignedRoundTrip(sequence);
  }

  // ------------------------------------------- records into the index

  /** No name twice: every record of the file is one of the index. */
  predicate Distinct(cs: seq<Cur>) {
    forall i, j :: 0 <= i < j < |cs| ==> cs[i].name != cs[j].name
  }

  /** Every allocation asked for a record of a new name went well. */
  predicate Granted(c: Cur, mem: Mem) {
    mem.room && (|c.version| > FOLDREC_VIN ==> mem.version) && (Split(c.hashes) != [] ==> mem.blocks)
  }

  predicate AllGranted(cs: seq<Cur>, mems: seq<Mem>)
    requires |cs| == |mems|
  {
    forall k :: 0 <= k < |cs| ==> Granted(cs[k], mems[k])
  }

  /** The row a record becomes, with what memory there was. */
  function RowOfCur(c: Cur, mem: Mem): Row {
    Row(c.name, StoredMeta(Meta(c.core, c.version), mem.version), StoredBlocks(Split(c.hashes), mem.blocks), false)
  }

  lemma GrantedRow(c: Cur, mem: Mem)
    ensures mem.room ==> (Granted(c, mem) <==> Restored(RowOfCur(c, mem)) == Restored(RowOfCur(c, Mem(true, true, true))))
    ensures Granted(c, mem) ==> RowOfCur(c, mem) == RowOfCur(c, Mem(true, true, true))
  {
    hide Split;
    var all := RowOfCur(c, Mem(true, true, true));
    assert |c.version| > FOLDREC_VIN && !mem.version ==> |RowOfCur(c, mem).meta.version| != |all.meta.version|;
  }

  /** Records of different names go in one after the other, but for those without room. */
  lemma CommitNew(rows: seq<Row>, c: Cur, mem: Mem)
    requires IndexOf(rows, c.name) < 0 && |rows| < FOLDSTATE_MAX_FILES
    ensures Commit(rows, c, mem) == if mem.room then rows + [RowOfCur(c, mem)] else rows
  {
    hide Split;
  }

  lemma {:induction false} CommittedNames(cs: seq<Cur>, mems: seq<Mem>)
    requires |cs| == |mems| && Distinct(cs) && |cs| <= FOLDSTATE_MAX_FILES
    ensures |CommitAll(cs, mems)| <= |cs| && NamesIn(CommitAll(cs, mems), cs)
  {
    hide Commit, RowOfCur, NamesIn;
    if cs != [] {
      var n := |cs| - 1;
      CommittedNames(cs[..n], mems[..n]);
      var less := CommitAll(cs[..n], mems[..n]);
      assert cs[..n] + [cs[n]] == cs;
      NotThere(less, cs[..n], cs[n]);
      CommitNew(less, cs[n], mems[n]);
      NameKept(cs[n], mems[n]);
      NamesMore(less, cs[..n], cs[n], RowOfCur(cs[n], mems[n]));
    } else {
      NoNames(cs);
    }
  }

  lemma NoNames(cs: seq<Cur>)
    ensures NamesIn([], cs)
  {
  }

  lemma NameKept(c: Cur, mem: Mem)
    ensures RowOfCur(c, mem).name == c.name
  {
  }

  predicate NamesIn(rows: seq<Row>, cs: seq<Cur>) {
    forall i :: 0 <= i < |rows| ==> exists k :: 0 <= k < |cs| && cs[k].name == rows[i].name
  }

  lemma {:induction false} NotThere(rows: seq<Row>, cs: seq<Cur>, c: Cur)
    requires NamesIn(rows, cs) && Distinct(cs + [c])
    ensures IndexOf(rows, c.name) < 0
  {
    var all := cs + [c];
    forall i | 0 <= i < |rows| ensures rows[i].name != c.name {
      var k :| 0 <= k < |cs| && cs[k].name == rows[i].name;
      assert all[k].name != all[|cs|].name;
    }
  }

  lemma NamesMore(rows: seq<Row>, cs: seq<Cur>, c: Cur, row: Row)
    requires NamesIn(rows, cs) && row.name == c.name
    ensures NamesIn(rows, cs + [c]) && NamesIn(rows + [row], cs + [c])
  {
    var all := cs + [c];
    forall i | 0 <= i < |rows| ensures exists k :: 0 <= k < |all| && all[k].name == rows[i].name {
      var k :| 0 <= k < |cs| && cs[k].name == rows[i].name;
      assert all[k].name == rows[i].name;
    }
    assert all[|cs|].name == row.name;
  }

  /** As many rows as records: then all had room, and each row is its record. */
  lemma {:induction false} CommittedRows(cs: seq<Cur>, mems: seq<Mem>)
    requires |cs| == |mems| && Distinct(cs) && |cs| <= FOLDSTATE_MAX_FILES
    ensures |CommitAll(cs, mems)| == |cs| <==> AllRoom(mems)
    ensures |CommitAll(cs, mems)| == |cs| ==> CommitAll(cs, mems) == RowsOf(cs, mems)
  {
    hide Commit, RowOfCur, NamesIn;
    if cs != [] {
      var n := |cs| - 1;
      CommittedRows(cs[..n], mems[..n]);
      CommittedNames(cs[..n], mems[..n]);
      var less := CommitAll(cs[..n], mems[..n]);
      assert cs[..n] + [cs[n]] == cs;
      NotThere(less, cs[..n], cs[n]);
      CommitNew(less, cs[n], mems[n]);
      RowsMore(cs, mems);
    }
  }

  predicate AllRoom(mems: seq<Mem>) {
    forall k :: 0 <= k < |mems| ==> mems[k].room
  }

  function RowsOf(cs: seq<Cur>, mems: seq<Mem>): seq<Row>
    requires |cs| == |mems|
  {
    seq(|cs|, k requires 0 <= k < |cs| => RowOfCur(cs[k], mems[k]))
  }

  lemma RowsMore(cs: seq<Cur>, mems: seq<Mem>)
    requires |cs| == |mems| && cs != []
    ensures var n := |cs| - 1;
            && RowsOf(cs, mems) == RowsOf(cs[..n], mems[..n]) + [RowOfCur(cs[n], mems[n])]
            && (AllRoom(mems) <==> AllRoom(mems[..n]) && mems[n].room)
  {
    hide RowOfCur;
    var n := |cs| - 1;
    assert mems == mems[..n] + [mems[n]];
  }

  /** The rows a file of different names restores are the ones plenty of memory gives if
      and only if everything asked for was granted. */
  lemma RestoredIfGranted(cs: seq<Cur>, mems: seq<Mem>)
    requires |cs| == |mems| && Distinct(cs) && |cs| <= FOLDSTATE_MAX_FILES
    ensures |CommitAll(cs, Plenty(|cs|))| == |cs|
    ensures AllGranted(cs, mems) ==> CommitAll(cs, mems) == CommitAll(cs, Plenty(|cs|))
    ensures !AllGranted(cs, mems) ==>
              |CommitAll(cs, mems)| < |cs| || RestoredAll(CommitAll(cs, mems)) != RestoredAll(CommitAll(cs, Plenty(|cs|)))
  {
    hide CommitAll, RowOfCur, Restored, Granted;
    var rows, all := CommitAll(cs, mems), CommitAll(cs, Plenty(|cs|));
    CommittedRows(cs, mems);
    CommittedRows(cs, Plenty(|cs|));
    CommittedNames(cs, mems);
    forall k | 0 <= k < |cs|
      ensures mems[k].room ==> (Granted(cs[k], mems[k]) <==>
                                Restored(RowOfCur(cs[k], mems[k])) == Restored(RowOfCur(cs[k], Mem(true, true, true))))
      ensures Granted(cs[k], mems[k]) ==> mems[k].room && RowOfCur(cs[k], mems[k]) == RowOfCur(cs[k], Mem(true, true, true))
    {
      GrantedRow(cs[k], mems[k]);
      RoomGranted(cs[k], mems[k]);
    }
    if !AllGranted(cs, mems) && |rows| == |cs| {
      var k :| 0 <= k < |cs| && !Granted(cs[k], mems[k]);
      assert RestoredAll(rows)[k] != RestoredAll(all)[k];
    }
  }

  lemma {:induction false} GrantedIsPlenty(cs: seq<Cur>, mems: seq<Mem>)
    requires |cs| == |mems| && AllGranted(cs, mems)
    ensures CommitAll(cs, mems) == CommitAll(cs, Plenty(|cs|))
  {
    hide Commit, Granted;
    if cs != [] {
      var n := |cs| - 1;
      GrantedIsPlenty(cs[..n], mems[..n]);
      assert Plenty(|cs|)[..n] == Plenty(n);
      GrantedCommit(CommitAll(cs[..n], mems[..n]), cs[n], mems[n]);
    }
  }

  lemma GrantedCommit(rows: seq<Row>, c: Cur, mem: Mem)
    requires Granted(c, mem)
    ensures Commit(rows, c, mem) == Commit(rows, c, Mem(true, true, true))
  {
    hide Split, UpsertRows;
  }

  lemma RoomGranted(c: Cur, mem: Mem)
    ensures Granted(c, mem) ==> mem.room
  {
  }

  lemma CursDistinct(rows: seq<Row>)
    ensures Distinct(Curs(rows)) <==> Unique(rows)
  {
    hide Restored, Flat;
    assert forall i :: 0 <= i < |rows| ==> Curs(rows)[i].name == rows[i].name;
  }

  /** With memory the rows written come back. */
  lemma CursRestored(rows: seq<Row>)
    requires Unique(rows) && AllStorable(rows) && |rows| <= FOLDSTATE_MAX_FILES
    ensures CommitAll(Curs(rows), Plenty(|rows|)) == RestoredAll(rows)
  {
    hide CommitAll, Restored, RowOfCur, CurOf, Storable;
    CursDistinct(rows);
    CommittedRows(Curs(rows), Plenty(|rows|));
    forall i | 0 <= i < |rows| ensures RowOfCur(CurOf(rows[i]), Mem(true, true, true)) == Restored(rows[i]) {
      CurRestored(rows[i]);
    }
  }

  lemma CurRestored(row: Row)
    requires Storable(row)
    ensures RowOfCur(CurOf(row), Mem(true, true, true)) == Restored(row)
  {
    hide Flat, Split;
    SplitFlat(row.blocks);
    assert row.meta.version[..|row.meta.version|] == row.meta.version;
  }

  lemma VersionBlob(row: Row)
    requires Storable(row)
    ensures |EncFields(VectorFields(row.meta.version))| <= 384
    ensures |Flat(row.blocks)| == BEP_HASH_LEN * |row.blocks| < 0x20_0000
  {
    VectorFieldsGood(row.meta.version);
    FlatLen(row.blocks);
  }

  lemma RecordWritable(row: Row)
    requires Storable(row)
    ensures AllWritable(RecordFields(row))
  {
    hide EncFields, VectorFields, Flat;
    VersionBlob(row);
    assert AllWritable(NameFields(row)) && AllWritable(HashFields(row)) && AllWritable(VersionFields(row));
    assert AllWritable(BlockFields(row)) && AllWritable(TailFields(row)) && AllWritable(ByFields(row));
  }

  lemma {:induction false} RowsWritable(rows: seq<Row>)
    requires AllStorable(rows)
    ensures AllWritable(RowsFields(rows))
  {
    hide Storable, RecordFields;
    if rows != [] {
      RowsWritable(rows[..|rows| - 1]);
      RecordWritable(rows[|rows| - 1]);
    }
  }

  lemma IndexWritable(id: Owner, sequence: int, rows: seq<Row>)
    requires OwnerOk(id) && AllStorable(rows) && |rows| <= FOLDSTATE_MAX_FILES
    ensures AllWritable(IndexFields(id, sequence, rows))
  {
    hide RowsFields, Storable;
    RowsWritable(rows);
  }

  /** A file says what was written into it. */
  lemma FileWritten(id: Owner, sequence: int, rows: seq<Row>)
    requires OwnerOk(id) && IsInt64(sequence) && AllStorable(rows) && |rows| <= FOLDSTATE_MAX_FILES
    ensures FileOf(Encoded(id, sequence, rows), id) == Some(File(sequence, |rows|, Curs(rows)))
  {
    hide IndexFields, Run, Finish, Parse, EncFields, AllStorable, Curs;
    IndexWritable(id, sequence, rows);
    ParseExactly(IndexFields(id, sequence, rows));
    IndexRead(id, sequence, rows);
  }

  /** The index comes back from its own file: the sequence, and every record with its
      block list and version vector, in order. */
  lemma IndexRoundTrip(id: Owner, sequence: int, rows: seq<Row>)
    requires OwnerOk(id) && IsInt64(sequence) && Unique(rows) && AllStorable(rows) && |rows| <= FOLDSTATE_MAX_FILES
    ensures Decoded(Encoded(id, sequence, rows), id) == Some((sequence, RestoredAll(rows)))
  {
    hide FileOf, AllStorable, Unique, RestoredAll, CommitAll, Curs;
    FileWritten(id, sequence, rows);
    CursCount(rows);
    CursRestored(rows);
    RestoredCount(rows);
  }

  lemma RestoredCount(rows: seq<Row>)
    ensures |RestoredAll(rows)| == |rows|
  {
  }

  lemma CursCount(rows: seq<Row>)
    ensures |Curs(rows)| == |rows|
  {
  }

  // -------------------------------------------------- a file cut short

  predicate NoEnd(fs: seq<Field>) {
    forall i :: 0 <= i < |fs| ==> fs[i].num != F_END
  }

  lemma RecordNoEnd(row: Row)
    ensures NoEnd(RecordFields(row))
  {
    hide EncFields, VectorFields, Flat;
    assert NoEnd(NameFields(row)) && NoEnd(HashFields(row)) && NoEnd(VersionFields(row));
    assert NoEnd(BlockFields(row)) && NoEnd(TailFields(row)) && NoEnd(ByFields(row));
  }

  lemma {:induction false} RowsNoEnd(rows: seq<Row>)
    ensures NoEnd(RowsFields(rows))
  {
    hide RecordFields;
    if rows != [] {
      RowsNoEnd(rows[..|rows| - 1]);
      RecordNoEnd(rows[|rows| - 1]);
    }
  }

  /** Without the end marker the count stays unset, and the file is refused. */
  lemma {:induction false} NoEndRefused(l: Load, fs: seq<Field>, clean: bool, id: Owner)
    requires NoEnd(fs) && (l.Load? ==> l.h.count < 0)
    ensures Finish(Run(l, fs, id), clean, id) == None
    decreases |fs|
  {
    if fs != [] {
      assert fs[0].num != F_END && Step(l, fs[0], id).Load? ==> Step(l, fs[0], id).h.count < 0 by {
        StepKeepsCount(l, fs[0], id);
      }
      NoEndRefused(Step(l, fs[0], id), fs[1..], clean, id);
    }
  }

  lemma StepKeepsCount(l: Load, f: Field, id: Owner)
    requires f.num != F_END && (l.Load? ==> l.h.count < 0)
    ensures Step(l, f, id).Load? ==> Step(l, f, id).h.count < 0
  {
    hide CurStep, Held;
  }

  /** Every strict prefix of an index file is refused, wherever it was cut, and whatever
      memory there is: already what it says is not a file. */
  lemma TruncatedRefused(id: Owner, sequence: int, rows: seq<Row>, n: nat)
    requires OwnerOk(id) && AllStorable(rows) && |rows| <= FOLDSTATE_MAX_FILES
    requires n < |Encoded(id, sequence, rows)|
    ensures FileOf(Encoded(id, sequence, rows)[..n], id) == None
  {
    hide Run, Finish, Parse, EncFields, AllStorable, RowsFields;
    var fs := IndexFields(id, sequence, rows);
    IndexWritable(id, sequence, rows);
    var k := ParseStrictPrefix(fs, n);
    RowsNoEnd(rows);
    assert NoEnd(fs[..|fs| - 1]);
    assert fs[..k] == fs[..|fs| - 1][..k];
    var parsed := Parse(Encoded(id, sequence, rows)[..n], 0);
    NoEndRefused(Start(), fs[..k], parsed.clean, id);
  }

  // ------------------------------------------------------- the estimate

  const IDX_REC_BUDGET := 128
  const IDX_LEN_FRAME := 5

  function RecordSize(row: Row): nat {
    IDX_REC_BUDGET + IDX_LEN_FRAME + |row.name| + IDX_LEN_FRAME + |row.blocks| * BEP_HASH_LEN
    + IDX_LEN_FRAME + |row.meta.version| * 24
  }

  /** index_store_size */
  function IndexSize(rows: seq<Row>): nat {
    if rows == [] then 96 else IndexSize(rows[..|rows| - 1]) + RecordSize(rows[|rows| - 1])
  }

  lemma NumberLen(num: nat, n: nat, k: nat)
    requires num < 16 ==> k <= 11
    requires num < 2048 && 0 < k && n < Pow128(k)
    ensures |EncField(Field(num, Number(n)))| <= (if num < 16 then 1 else 2) + k
  {
    VarintFits(n, k);
    VarintFits(8 * num, if num < 16 then 1 else 2);
    assert Pow128(1) == 128 && Pow128(2) == 0x4000;
  }

  lemma BlobLen(num: nat, b: seq<byte>, k: nat)
    requires 16 <= num < 2048 && 0 < k && |b| < Pow128(k)
    ensures |EncField(Field(num, Blob(b)))| <= 2 + k + |b|
  {
    VarintFits(|b|, k);
    VarintFits(8 * num + 2, 2);
    assert Pow128(2) == 0x4000;
  }

  lemma Powers()
    ensures Pow128(1) == 0x80 && Pow128(2) == 0x4000 && Pow128(3) == 0x20_0000
    ensures Pow128(5) == 0x8_0000_0000 && Pow128(9) == TWO63 && Pow128(10) > TWO64
  {
    assert Pow128(4) == 0x1000_0000;
    assert Pow128(5) == 0x8_0000_0000;
    assert Pow128(6) == 0x400_0000_0000;
    assert Pow128(7) == 0x2_0000_0000_0000;
    assert Pow128(8) == 0x100_0000_0000_0000;
  }

  lemma NameLen(row: Row)
    requires Storable(row)
    ensures |EncFields(NameFields(row))| <= 4 + |row.name| + 43
  {
    hide EncField;
    var fs, c := NameFields(row), row.meta.core;
    Powers();
    BlobLen(F_NAME, row.name, 2);
    NumberLen(F_TYPE, c.kind, 2);
    NumberLen(F_SIZE, c.size % TWO64, 10);
    NumberLen(F_MODIFIED_S, c.modifiedS % TWO64, 10);
    NumberLen(F_MODIFIED_NS, c.modifiedNs % TWO64, 10);
    NumberLen(F_DELETED, Flag(c.deleted), 1);
    EncThree(fs[0], fs[1], fs[2]);
    EncThree(fs[3], fs[4], fs[5]);
    EncFieldsConcat(fs[..3], fs[3..]);
    assert fs[..3] == [fs[0], fs[1], fs[2]] && fs[3..] == [fs[3], fs[4], fs[5]] && fs == fs[..3] + fs[3..];
  }

  lemma HashLen(row: Row)
    requires Storable(row)
    ensures |EncFields(HashFields(row))| <= 35
  {
    hide EncField;
    if row.meta.core.hasContentHash != 0 {
      Powers();
      BlobLen(F_CONTENT_HASH, row.meta.core.contentHash, 1);
      EncFieldsOne(HashFields(row)[0]);
    }
  }

  lemma VersionLen(row: Row)
    requires Storable(row)
    ensures |EncFields(VersionFields(row))| <= 4 + |row.meta.version| * 24 + 12
  {
    hide EncField, EncFields, VectorFields, Flat;
    var fs := VersionFields(row);
    Powers();
    VersionBlob(row);
    VectorFieldsGood(row.meta.version);
    BlobLen(F_VERSION, fs[0].value.bytes, 2);
    NumberLen(F_SEQUENCE, row.meta.core.sequence % TWO64, 10);
    EncTwo(fs[0], fs[1]);
  }

  lemma BlocksLen(row: Row)
    requires Storable(row)
    ensures |EncFields(BlockFields(row))| <= 5 + |row.blocks| * BEP_HASH_LEN
  {
    hide EncField, VectorFields, Flat;
    if row.blocks != [] {
      Powers();
      VersionBlob(row);
      BlobLen(F_BLOCK_HASHES, Flat(row.blocks), 3);
      EncFieldsOne(BlockFields(row)[0]);
    }
  }

  lemma TailLen(row: Row)
    requires Storable(row)
    ensures |EncFields(TailFields(row))| <= 22 && |EncFields(ByFields(row))| <= 12
  {
    hide EncField;
    var fs, c := TailFields(row), row.meta.core;
    Powers();
    NumberLen(F_PERMISSIONS, c.permissions, 5);
    NumberLen(F_BLOCK_SIZE, c.blockSize % TWO64, 10);
    NumberLen(F_INVALID, Flag(c.invalid), 1);
    EncThree(fs[0], fs[1], fs[2]);
    if c.modifiedBy != 0 {
      NumberLen(F_MODIFIED_BY, c.modifiedBy, 10);
      EncFieldsOne(ByFields(row)[0]);
    }
  }

  /** A record takes at most its share of the estimate, with six bytes to spare. */
  lemma RecordLen(row: Row)
    requires Storable(row)
    ensures |EncFields(RecordFields(row))| + 6 <= RecordSize(row)
  {
    hide EncFields, NameFields, HashFields, VersionFields, BlockFields, TailFields, ByFields;
    NameLen(row);
    HashLen(row);
    VersionLen(row);
    BlocksLen(row);
    TailLen(row);
    var a := NameFields(row) + HashFields(row);
    EncFieldsConcat(NameFields(row), HashFields(row));
    EncFieldsConcat(a, VersionFields(row));
    EncFieldsConcat(a + VersionFields(row), BlockFields(row));
    EncFieldsConcat(a + VersionFields(row) + BlockFields(row), TailFields(row));
    EncFieldsConcat(a + VersionFields(row) + BlockFields(row) + TailFields(row), ByFields(row));
  }

  lemma {:induction false} RowsLen(rows: seq<Row>)
    requires AllStorable(rows)
    ensures |EncFields(RowsFields(rows))| + 6 * |rows| + 96 <= IndexSize(rows)
  {
    hide EncFields, RecordFields, RecordSize, Storable;
    if rows == [] {
      assert EncFields([]) == [] by {
        EncNone();
      }
    } else {
      RowsLen(rows[..|rows| - 1]);
      RecordLen(rows[|rows| - 1]);
      EncFieldsConcat(RowsFields(rows[..|rows| - 1]), RecordFields(rows[|rows| - 1]));
    }
  }

  lemma EncNone()
    ensures EncFields([]) == []
  {
  }

  lemma HeaderLen(id: Owner, sequence: int)
    requires OwnerOk(id) && IsInt64(sequence)
    ensures |EncFields(HeaderFields(id, sequence))| ==
            12 + |id.folder| + VarintLen(id.shortId) + VarintLen(sequence % TWO64)
  {
    hide EncFields;
    var fs := HeaderFields(id, sequence);
    EncThree(fs[0], fs[1], fs[2]);
    EncTwo(fs[3], fs[4]);
    EncFieldsConcat(fs[..3], fs[3..]);
    assert fs[..3] == [fs[0], fs[1], fs[2]] && fs[3..] == [fs[3], fs[4]] && fs == fs[..3] + fs[3..];
    MagicLen();
    assert VarintLen(8 * F_MAGIC) == VarintLen(8 * F_FORMAT) == VarintLen(8 * F_FOLDER_ID + 2) == 1;
    assert VarintLen(8 * F_SHORT_ID) == VarintLen(8 * F_HIGH_SEQ) == VarintLen(IDX_FORMAT) == VarintLen(|id.folder|) == 1;
  }

  lemma MagicLen()
    ensures VarintLen(IDX_MAGIC) == 5
  {
    assert VarintLen(4) == 1;
    assert VarintLen(0x20A) == 2;
    assert VarintLen(0x1_0535) == 3;
    assert VarintLen(0x82_9AA6) == 4;
  }

  lemma IndexLen(id: Owner, sequence: int, rows: seq<Row>)
    ensures |Encoded(id, sequence, rows)| == |EncFields(HeaderFields(id, sequence))| + |EncFields(RowsFields(rows))|
                                             + 1 + VarintLen(|rows|)
  {
    hide EncFields, HeaderFields, RowsFields;
    var end := Field(F_END, Number(|rows|));
    EncFieldsConcat(HeaderFields(id, sequence), RowsFields(rows));
    EncFieldsConcat(HeaderFields(id, sequence) + RowsFields(rows), [end]);
    EncFieldsOne(end);
    assert VarintLen(8 * F_END) == 1;
  }

  lemma {:induction false} VarintLinear(n: nat)
    ensures VarintLen(n) <= 1 + n
  {
    if n >= 128 {
      VarintLinear(n / 128);
    }
  }

  /** A negative number is ten bytes on the wire, any other 64-bit one at most nine. */
  lemma SignedLen(x: int)
    requires IsInt64(x)
    ensures if x < 0 then VarintLen(x % TWO64) == 10 else VarintLen(x % TWO64) <= 9
  {
    Powers();
    if x >= 0 {
      VarintFits(x, 9);
    } else {
      VarintLen64(x % TWO64);
      VarintAtLeast(x % TWO64, 9);
    }
  }

  lemma {:induction false} VarintAtLeast(v: nat, k: nat)
    requires v >= Pow128(k)
    ensures VarintLen(v) > k
  {
    if k > 0 {
      VarintAtLeast(v / 128, k - 1);
    }
  }

  /** The estimate is room enough, except for an index without records whose sequence
      is negative and whose id and short id are long. */
  lemma EstimateIsEnough(id: Owner, sequence: int, rows: seq<Row>)
    requires OwnerOk(id) && IsInt64(sequence) && AllStorable(rows)
    ensures |Encoded(id, sequence, rows)| <= IndexSize(rows) <==>
            sequence >= 0 || rows != [] || |id.folder| + VarintLen(id.shortId) <= 72
  {
    hide EncFields, HeaderFields, RowsFields, VarintBytes, AllStorable, Encoded;
    IndexLen(id, sequence, rows);
    HeaderLen(id, sequence);
    RowsLen(rows);
    SignedLen(sequence);
    VarintLen64(id.shortId);
    VarintLinear(|rows|);
    if rows == [] {
      assert EncFields(RowsFields([])) == [] && VarintLen(0) == 1 by {
        EmptyRows();
      }
    }
  }

  lemma EmptyRows()
    ensures EncFields(RowsFields([])) == [] && VarintLen(0) == 1
  {
  }

  /** There is nothing to give away: such a header alone can take all of it. */
  lemma EstimateIsTight(id: Owner, sequence: int)
    requires OwnerOk(id) && |id.folder| == 63 && id.shortId >= TWO63 && TWO63 / 128 <= sequence < TWO63
    ensures |Encoded(id, sequence, [])| == IndexSize([])
  {
    hide EncFields, HeaderFields, RowsFields, VarintBytes, Encoded;
    IndexLen(id, sequence, []);
    HeaderLen(id, sequence);
    Powers();
    VarintLen64(id.shortId);
    VarintAtLeast(id.shortId, 9);
    assert Pow128(9) == 128 * Pow128(8);
    VarintAtLeast(sequence, 8);
    SignedLen(sequence);
    EmptyRows();
  }
}
