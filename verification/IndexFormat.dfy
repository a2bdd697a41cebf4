/**
  The index file of src/index_store.c as a list of protobuf fields: the fields an
  index is written as, what reading a list of fields builds, and the laws between
  the two. Module IndexStore proves the encoder and the decoder against it.
*/
module IndexFormat {
  import opened Bytes
  import opened PbufFormat
  import opened FoldRows

  const IDX_MAGIC: nat := 0x414D5358
  const IDX_FORMAT: nat := 2

  const F_MAGIC := 1
  const F_FORMAT := 2
  const F_FOLDER_ID := 3
  const F_SHORT_ID := 4
  const F_HIGH_SEQ := 5
  const F_END := 6
  const F_NAME := 20
  const F_TYPE := 21
  const F_SIZE := 22
  const F_MODIFIED_S := 23
  const F_MODIFIED_NS := 24
  const F_DELETED := 25
  const F_CONTENT_HASH := 26
  const F_VERSION := 27
  const F_SEQUENCE := 28
  const F_BLOCK_HASHES := 29
  const F_PERMISSIONS := 30
  const F_BLOCK_SIZE := 31
  const F_INVALID := 32
  const F_MODIFIED_BY := 33

  const BEP_PATH_MAX := 256
  const BEP_FOLDER_ID_MAX := 64

  /** Whose index it is. */
  datatype Owner = Owner(folder: seq<byte>, shortId: nat)

  // ----------------------------------------------------- what is written

  function CounterFields(c: Counter): seq<Field> {
    [Field(1, Number(c.id)), Field(2, Number(c.value))]
  }

  function VectorFields(v: seq<Counter>): (fs: seq<Field>)
    ensures |fs| == |v|
  {
    if v == [] then [] else VectorFields(v[..|v| - 1]) + [Field(1, Blob(EncFields(CounterFields(v[|v| - 1]))))]
  }

  function Flat(hashes: seq<Hash>): (b: seq<byte>)
  {
    if hashes == [] then [] else Flat(hashes[..|hashes| - 1]) + hashes[|hashes| - 1]
  }

  function Flag(b: byte): nat {
    if b != 0 then 1 else 0
  }

  function NameFields(row: Row): seq<Field> {
    var c := row.meta.core;
    [Field(F_NAME, Blob(row.name)), Field(F_TYPE, Number(c.kind)), Field(F_SIZE, Number(c.size % TWO64)),
     Field(F_MODIFIED_S, Number(c.modifiedS % TWO64)), Field(F_MODIFIED_NS, Number(c.modifiedNs % TWO64)),
     Field(F_DELETED, Number(Flag(c.deleted)))]
  }

  function HashFields(row: Row): seq<Field> {
    if row.meta.core.hasContentHash != 0 then [Field(F_CONTENT_HASH, Blob(row.meta.core.contentHash))] else []
  }

  function VersionFields(row: Row): seq<Field> {
    [Field(F_VERSION, Blob(EncFields(VectorFields(row.meta.version)))),
     Field(F_SEQUENCE, Number(row.meta.core.sequence % TWO64))]
  }

  function BlockFields(row: Row): seq<Field> {
    if row.blocks != [] then [Field(F_BLOCK_HASHES, Blob(Flat(row.blocks)))] else []
  }

  function TailFields(row: Row): seq<Field> {
    var c := row.meta.core;
    [Field(F_PERMISSIONS, Number(c.permissions)), Field(F_BLOCK_SIZE, Number(c.blockSize % TWO64)),
     Field(F_INVALID, Number(Flag(c.invalid)))]
  }

  function ByFields(row: Row): seq<Field> {
    if row.meta.core.modifiedBy != 0 then [Field(F_MODIFIED_BY, Number(row.meta.core.modifiedBy))] else []
  }

  function RecordFields(row: Row): seq<Field> {
    NameFields(row) + HashFields(row) + VersionFields(row) + BlockFields(row) + TailFields(row) + ByFields(row)
  }

  function RowsFields(rows: seq<Row>): seq<Field> {
    if rows == [] then [] else RowsFields(rows[..|rows| - 1]) + RecordFields(rows[|rows| - 1])
  }

  function HeaderFields(id: Owner, sequence: int): seq<Field> {
    [Field(F_MAGIC, Number(IDX_MAGIC)), Field(F_FORMAT, Number(IDX_FORMAT)), Field(F_FOLDER_ID, Blob(id.folder)),
     Field(F_SHORT_ID, Number(id.shortId)), Field(F_HIGH_SEQ, Number(sequence % TWO64))]
  }

  function IndexFields(id: Owner, sequence: int, rows: seq<Row>): seq<Field> {
    HeaderFields(id, sequence) + RowsFields(rows) + [Field(F_END, Number(|rows|))]
  }

  function Encoded(id: Owner, sequence: int, rows: seq<Row>): seq<byte> {
    EncFields(IndexFields(id, sequence, rows))
  }

  // ------------------------------------------------------- what is read

  /** A C string: what stands before the first NUL. */
  function CStr(b: seq<byte>): (r: seq<byte>)
    ensures |r| <= |b| && 0 !in r
  {
    if b == [] || b[0] == 0 then [] else [b[0]] + CStr(b[1..])
  }

  /** Copied into a buffer of the given size and closed with a NUL. */
  function Held(b: seq<byte>, size: nat): seq<byte>
    requires size > 0
  {
    CStr(b[..Min(|b|, size - 1)])
  }

  function CounterStep(c: Counter, f: Field): Counter {
    if f.num == 1 && f.value.Number? then c.(id := f.value.n)
    else if f.num == 2 && f.value.Number? then c.(value := f.value.n)
    else c
  }

  function RunCounter(c: Counter, fs: seq<Field>): Counter
    decreases |fs|
  {
    if fs == [] then c else RunCounter(CounterStep(c, fs[0]), fs[1..])
  }

  /** Lenient: what precedes a malformed field counts. */
  function DecodeCounter(b: seq<byte>): Counter {
    RunCounter(Counter(0, 0), Parse(b, 0).fields)
  }

  function VectorStep(v: seq<Counter>, f: Field): seq<Counter> {
    if f.num == 1 && f.value.Blob? && |v| < BEP_MAX_COUNTERS then v + [DecodeCounter(f.value.bytes)] else v
  }

  function RunVector(v: seq<Counter>, fs: seq<Field>): (r: seq<Counter>)
    requires |v| <= BEP_MAX_COUNTERS
    ensures |r| <= BEP_MAX_COUNTERS
    decreases |fs|
  {
    if fs == [] then v else RunVector(VectorStep(v, fs[0]), fs[1..])
  }

  function DecodeVector(b: seq<byte>): (v: seq<Counter>)
    ensures |v| <= BEP_MAX_COUNTERS
  {
    RunVector([], Parse(b, 0).fields)
  }

  function Split(b: seq<byte>): (r: seq<Hash>)
    ensures |r| == |b| / BEP_HASH_LEN
  {
    if |b| < BEP_HASH_LEN then [] else [b[..BEP_HASH_LEN]] + Split(b[BEP_HASH_LEN..])
  }

  /** The record being assembled. */
  datatype Cur = Cur(name: Name, core: Core, version: seq<Counter>, hashes: seq<byte>)

  function EmptyCore(): Core {
    Core(0, 0, 0, 0, 0, 0, 0, Zeros(BEP_HASH_LEN), 0, 0, 0, 0)
  }

  /** What is known of the header, the count at the end, the record in progress. */
  datatype Head = Head(magic: nat, format: nat, shortId: nat, highSeq: nat, folder: seq<byte>, checked: bool,
                       count: int, cur: Option<Cur>)

  /** The records that are complete, and what is known of the rest. */
  datatype Load = Bad | Load(h: Head, records: seq<Cur>)

  function Start(): Load {
    Load.Load(Head(0, 0, 0, 0, [], false, -1, None), [])
  }

  function ExpectedWt(num: nat): int {
    if num in {F_MAGIC, F_FORMAT, F_SHORT_ID, F_HIGH_SEQ, F_END, F_TYPE, F_SIZE, F_MODIFIED_S, F_MODIFIED_NS, F_DELETED,
               F_SEQUENCE, F_PERMISSIONS, F_BLOCK_SIZE, F_INVALID, F_MODIFIED_BY} then PBUF_WT_VARINT
    else if num in {F_FOLDER_ID, F_NAME, F_CONTENT_HASH, F_VERSION, F_BLOCK_HASHES} then PBUF_WT_LEN
    else -1
  }

  predicate HeaderMatches(h: Head, id: Owner) {
    h.magic == IDX_MAGIC && h.format == IDX_FORMAT && h.shortId == id.shortId && h.folder == id.folder
  }

  predicate RightWt(f: Field) {
    ExpectedWt(f.num) >= 0 ==> WireType(f.value) == ExpectedWt(f.num)
  }

  function HeaderStep(h: Head, f: Field): Head
    requires RightWt(f)
  {
    if f.num == F_MAGIC then h.(magic := f.value.n)
    else if f.num == F_FORMAT then h.(format := f.value.n)
    else if f.num == F_SHORT_ID then h.(shortId := f.value.n)
    else if f.num == F_HIGH_SEQ then h.(highSeq := f.value.n)
    else if f.num == F_END then h.(count := AsInt64(f.value.n))
    else if f.num == F_FOLDER_ID then h.(folder := Held(f.value.bytes, BEP_FOLDER_ID_MAX))
    else h
  }

  function Closed(records: seq<Cur>, cur: Option<Cur>): seq<Cur> {
    if cur.None? then records else records + [cur.value]
  }

  function CoreStep(c: Core, f: Field): Core
    requires RightWt(f)
  {
    if f.num == F_TYPE then c.(kind := f.value.n % 256)
    else if f.num == F_SIZE then c.(size := AsInt64(f.value.n))
    else if f.num == F_MODIFIED_S then c.(modifiedS := AsInt64(f.value.n))
    else if f.num == F_MODIFIED_NS then c.(modifiedNs := AsInt32(f.value.n))
    else if f.num == F_DELETED then c.(deleted := f.value.n % 256)
    else if f.num == F_SEQUENCE then c.(sequence := AsInt64(f.value.n))
    else if f.num == F_PERMISSIONS then c.(permissions := f.value.n % TWO32)
    else if f.num == F_BLOCK_SIZE then c.(blockSize := AsInt32(f.value.n))
    else if f.num == F_INVALID then c.(invalid := f.value.n % 256)
    else if f.num == F_MODIFIED_BY then c.(modifiedBy := f.value.n)
    else if f.num == F_CONTENT_HASH && |f.value.bytes| == BEP_HASH_LEN then
      c.(contentHash := f.value.bytes, hasContentHash := 1)
    else c
  }

  function CurStep(c: Cur, f: Field): Cur
    requires RightWt(f)
  {
    if f.num == F_VERSION then c.(version := DecodeVector(f.value.bytes))
    else if f.num == F_BLOCK_HASHES then c.(hashes := f.value.bytes)
    else c.(core := CoreStep(c.core, f))
  }

  /** The header is checked once, at the first field of a record. */
  predicate Refused(h: Head, f: Field, id: Owner) {
    !RightWt(f) || (f.num >= F_NAME && !h.checked && !HeaderMatches(h, id))
  }

  function HeadStep(h: Head, f: Field): Head
    requires RightWt(f)
  {
    if f.num < F_NAME then HeaderStep(h, f)
    else if f.num == F_NAME then
      h.(checked := true, cur := Some(Cur(Held(f.value.bytes, BEP_PATH_MAX), EmptyCore(), [], [])))
    else if h.cur.None? then h.(checked := true)
    else h.(checked := true, cur := Some(CurStep(h.cur.value, f)))
  }

  /** A name completes the record before it. */
  function Step(l: Load, f: Field, id: Owner): Load {
    if l.Bad? || Refused(l.h, f, id) then Bad
    else Load.Load(HeadStep(l.h, f), if f.num == F_NAME then Closed(l.records, l.h.cur) else l.records)
  }

  function Run(l: Load, fs: seq<Field>, id: Owner): Load
    decreases |fs|
  {
    if fs == [] then l else Run(Step(l, fs[0], id), fs[1..], id)
  }

  /** What a file says: its sequence, the count at its end, and its records in order. */
  datatype File = File(sequence: int, count: nat, records: seq<Cur>)

  function Finish(l: Load, clean: bool, id: Owner): Option<File> {
    if l.Bad? || !clean || (!l.h.checked && !HeaderMatches(l.h, id)) || l.h.count < 0 then None
    else Some(File(AsInt64(l.h.highSeq), l.h.count, Closed(l.records, l.h.cur)))
  }

  /** The file read as far as it can be refused without looking at the index. */
  function FileOf(b: seq<byte>, id: Owner): Option<File> {
    var parsed := Parse(b, 0);
    Finish(Run(Start(), parsed.fields, id), parsed.clean, id)
  }

  /** commit_record: a record goes through foldstate_upsert, whose refusal, of one record
      too many or for want of memory, is not looked at. */
  function Commit(rows: seq<Row>, c: Cur, mem: Mem): seq<Row> {
    if IndexOf(rows, c.name) < 0 && |rows| >= FOLDSTATE_MAX_FILES then rows
    else PutRow(rows, c.name, Meta(c.core, c.version), Split(c.hashes), mem)
  }

  /** All the records, mems saying how the allocations for each went. */
  function CommitAll(records: seq<Cur>, mems: seq<Mem>): seq<Row>
    requires |records| == |mems|
  {
    if records == [] then []
    else
      var n := |records| - 1;
      Commit(CommitAll(records[..n], mems[..n]), records[n], mems[n])
  }

  /** The sequence and the rows, or nothing when fewer or more records got into the index
      than the file counts. */
  function Restore(f: File, mems: seq<Mem>): Option<(int, seq<Row>)>
    requires |f.records| == |mems|
  {
    var rows := CommitAll(f.records, mems);
    if |rows| != f.count then None else Some((f.sequence, rows))
  }

  function Plenty(n: nat): (mems: seq<Mem>)
    ensures |mems| == n && forall k :: 0 <= k < n ==> mems[k] == Mem(true, true, true)
  {
    seq(n, _ => Mem(true, true, true))
  }

  /** What loading makes of a file when memory does not run short. */
  function Decoded(b: seq<byte>, id: Owner): Option<(int, seq<Row>)> {
    match FileOf(b, id)
    case None => None
    case Some(f) => Restore(f, Plenty(|f.records|))
  }

  // ------------------------------------------------------------ round trip

  /** The values the C types of a record can hold. */
  predicate Storable(row: Row) {
    var c := row.meta.core;
    && |row.name| < BEP_PATH_MAX && 0 !in row.name
    && IsInt64(c.size) && IsInt64(c.modifiedS) && IsInt32(c.modifiedNs) && IsInt64(c.sequence) && IsInt32(c.blockSize)
    && c.permissions < TWO32 && c.modifiedBy < TWO64 && |c.contentHash| == BEP_HASH_LEN
    && |row.meta.version| <= BEP_MAX_COUNTERS
    && (forall i :: 0 <= i < |row.meta.version| ==> row.meta.version[i].id < TWO64 && row.meta.version[i].value < TWO64)
    && |row.blocks| < 0x1_0000 && forall i :: 0 <= i < |row.blocks| ==> |row.blocks[i]| == BEP_HASH_LEN
  }

  predicate AllStorable(rows: seq<Row>) {
    forall i :: 0 <= i < |rows| ==> Storable(rows[i])
  }

  predicate OwnerOk(id: Owner) {
    |id.folder| < BEP_FOLDER_ID_MAX && 0 !in id.folder && id.shortId < TWO64
  }

  function FlagByte(b: byte): byte {
    if b != 0 then 1 else 0
  }

  /** What comes back: the same record, its flags 0 or 1, a hash only if there was
      one, and no mark. */
  function Restored(row: Row): Row {
    var c := row.meta.core;
    var core := c.(deleted := FlagByte(c.deleted), invalid := FlagByte(c.invalid),
                   hasContentHash := FlagByte(c.hasContentHash),
                   contentHash := if c.hasContentHash != 0 then c.contentHash else Zeros(BEP_HASH_LEN));
    Row(row.name, Meta(core, row.meta.version), row.blocks, false)
  }

  function RestoredAll(rows: seq<Row>): seq<Row> {
    seq(|rows|, i requires 0 <= i < |rows| => Restored(rows[i]))
  }

  lemma {:induction false} RunConcat(l: Load, a: seq<Field>, b: seq<Field>, id: Owner)
    ensures Run(l, a + b, id) == Run(Run(l, a, id), b, id)
    decreases |a|
  {
    hide Step;
    if a == [] {
      assert a + b == b;
    } else {
      assert (a + b)[1..] == a[1..] + b && (a + b)[0] == a[0];
      RunConcat(Step(l, a[0], id), a[1..], b, id);
    }
  }

  lemma RunOne(l: Load, f: Field, id: Owner)
    ensures Run(l, [f], id) == Step(l, f, id)
  {
    hide Step;
    assert [f][1..] == [];
    assert Run(Step(l, f, id), [], id) == Step(l, f, id);
  }

  lemma CStrWhole(b: seq<byte>)
    requires 0 !in b
    ensures CStr(b) == b
  {
    if b != [] {
      assert 0 !in b[1..] by {
        forall k | 0 <= k < |b[1..]| ensures b[1..][k] != 0 {
          assert b[1..][k] == b[k + 1] && b[k + 1] in b;
        }
      }
      CStrWhole(b[1..]);
    }
  }

  lemma HeldWhole(b: seq<byte>, size: nat)
    requires |b| < size && 0 !in b
    ensures Held(b, size) == b
  {
    assert b[..|b|] == b;
    CStrWhole(b);
  }

  lemma CounterRoundTrip(c: Counter)
    requires c.id < TWO64 && c.value < TWO64
    ensures DecodeCounter(EncFields(CounterFields(c))) == c
  {
    hide EncField, ReadField, Parse;
    var fs := CounterFields(c);
    ParseExactly(fs);
    assert fs[1..][1..] == [];
    assert RunCounter(Counter(0, 0), fs) == RunCounter(Counter(c.id, 0), fs[1..]);
    assert RunCounter(Counter(c.id, 0), fs[1..]) == RunCounter(c, fs[1..][1..]);
  }

  lemma {:induction false} RunVectorSnoc(v: seq<Counter>, fs: seq<Field>, f: Field)
    requires |v| <= BEP_MAX_COUNTERS
    ensures RunVector(v, fs + [f]) == VectorStep(RunVector(v, fs), f)
    decreases |fs|
  {
    hide VectorStep;
    if fs == [] {
      assert (fs + [f])[1..] == [] && (fs + [f])[0] == f;
      VectorShort(v, f);
    } else {
      assert (fs + [f])[1..] == fs[1..] + [f];
      VectorShort(v, fs[0]);
      RunVectorSnoc(VectorStep(v, fs[0]), fs[1..], f);
    }
  }

  lemma VectorShort(v: seq<Counter>, f: Field)
    requires |v| <= BEP_MAX_COUNTERS
    ensures |VectorStep(v, f)| <= BEP_MAX_COUNTERS
  {
  }

  predicate CountersFit(v: seq<Counter>) {
    forall i :: 0 <= i < |v| ==> v[i].id < TWO64 && v[i].value < TWO64
  }

  lemma CounterLen(c: Counter)
    requires c.id < TWO64 && c.value < TWO64
    ensures |EncFields(CounterFields(c))| <= 22
  {
    VarintLen64(c.id);
    VarintLen64(c.value);
    var fs := CounterFields(c);
    assert fs == [fs[0]] + [fs[1]];
    EncFieldsConcat([fs[0]], [fs[1]]);
    EncFieldsOne(fs[0]);
    EncFieldsOne(fs[1]);
  }

  lemma {:induction false} VectorFieldsGood(v: seq<Counter>)
    requires CountersFit(v)
    ensures AllWritable(VectorFields(v)) && |EncFields(VectorFields(v))| <= 24 * |v|
    ensures |v| <= BEP_MAX_COUNTERS ==> RunVector([], VectorFields(v)) == v
  {
    hide EncField, RunVector, CounterFields, DecodeCounter;
    if v == [] {
      assert RunVector([], []) == [] by {
        VectorNone();
      }
    } else {
      var less, c := v[..|v| - 1], v[|v| - 1];
      VectorFieldsGood(less);
      CounterLen(c);
      CounterRoundTrip(c);
      var f := Field(1, Blob(EncFields(CounterFields(c))));
      EncFieldsConcat(VectorFields(less), [f]);
      EncFieldsOne(f);
      ShortBlobLen(f);
      if |v| <= BEP_MAX_COUNTERS {
        RunVectorSnoc([], VectorFields(less), f);
        assert v == less + [c];
      }
    }
  }

  lemma VectorNone()
    ensures RunVector([], []) == []
  {
  }

  lemma ShortBlobLen(f: Field)
    requires f.num == 1 && f.value.Blob? && |f.value.bytes| <= 22
    ensures |EncField(f)| <= 24
  {
  }

  lemma VectorRoundTrip(v: seq<Counter>)
    requires CountersFit(v) && |v| <= BEP_MAX_COUNTERS
    ensures DecodeVector(EncFields(VectorFields(v))) == v
  {
    hide EncField, ReadField, Parse, RunVector, VectorFields;
    VectorFieldsGood(v);
    ParseExactly(VectorFields(v));
  }

  lemma {:induction false} FlatLen(hashes: seq<Hash>)
    requires forall i :: 0 <= i < |hashes| ==> |hashes[i]| == BEP_HASH_LEN
    ensures |Flat(hashes)| == BEP_HASH_LEN * |hashes|
  {
    if hashes != [] {
      FlatLen(hashes[..|hashes| - 1]);
    }
  }

  lemma {:induction false} SplitSnoc(b: seq<byte>, h: Hash)
    requires |b| % BEP_HASH_LEN == 0 && |h| == BEP_HASH_LEN
    ensures Split(b + h) == Split(b) + [h]
    decreases |b|
  {
    if b == [] {
      assert b + h == h && h[..BEP_HASH_LEN] == h && Split(h[BEP_HASH_LEN..]) == [];
    } else {
      assert (b + h)[..BEP_HASH_LEN] == b[..BEP_HASH_LEN] && (b + h)[BEP_HASH_LEN..] == b[BEP_HASH_LEN..] + h;
      SplitSnoc(b[BEP_HASH_LEN..], h);
    }
  }

  /** Cutting the block hashes apart again gives the same list. */
  lemma {:induction false} SplitFlat(hashes: seq<Hash>)
    requires forall i :: 0 <= i < |hashes| ==> |hashes[i]| == BEP_HASH_LEN
    ensures Split(Flat(hashes)) == hashes
  {
    if hashes != [] {
      var less := hashes[..|hashes| - 1];
      SplitFlat(less);
      FlatLen(less);
      SplitSnoc(Flat(less), hashes[|hashes| - 1]);
      assert hashes == less + [hashes[|hashes| - 1]];
    }
  }
}
