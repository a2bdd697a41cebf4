/**
  The body of a BEP Index message (src/bep.c) as protobuf fields: how a record with
  its block hashes becomes a FileInfo, and what reading a FileInfo or a whole body
  yields. Module IndexBatch is proved against it.
*/
module IndexMessage {
  import opened Bytes
  import opened PbufFormat
  import opened FoldRows
  import opened IndexFormat

  datatype FileInfo = FileInfo(name: Name, kind: int, size: int, permissions: nat, modifiedS: int, modifiedNs: int,
                               modifiedBy: nat, deleted: int, invalid: int, sequence: int, blockSize: int,
                               version: seq<Counter>, numBlocks: nat)

  datatype BlockInfo = BlockInfo(offset: int, size: int, hash: Hash, hasHash: bool)

  // ---------------------------------------------------- what is written

  function Opt(c: bool, f: Field): seq<Field> {
    if c then [f] else []
  }

  /** The geometry of block i, derived from the sizes: the last one may be short. */
  function BlockOf(fi: FileInfo, i: nat, hash: Hash): BlockInfo {
    var bs := if fi.blockSize != 0 then fi.blockSize else 1;
    var left := AsInt64(fi.size - i * bs);
    BlockInfo(i * bs, AsInt32(if left > bs then bs else left), hash, true)
  }

  function BlocksOf(fi: FileInfo, hashes: seq<Hash>): (r: seq<BlockInfo>)
    ensures |r| == |hashes|
  {
    if hashes == [] then []
    else BlocksOf(fi, hashes[..|hashes| - 1]) + [BlockOf(fi, |hashes| - 1, hashes[|hashes| - 1])]
  }

  function BlockFieldsOf(b: BlockInfo): seq<Field> {
    [Field(1, Number(b.offset % TWO64)), Field(2, Number(b.size % TWO32)), Field(3, Blob(b.hash))]
  }

  function BlockField(b: BlockInfo): Field {
    Field(16, Blob(EncFields(BlockFieldsOf(b))))
  }

  function BlockList(bs: seq<BlockInfo>): (fs: seq<Field>)
    ensures |fs| == |bs|
  {
    if bs == [] then [] else BlockList(bs[..|bs| - 1]) + [BlockField(bs[|bs| - 1])]
  }

  function Front(fi: FileInfo): seq<Field> {
    [Field(1, Blob(fi.name))] + Opt(fi.kind != 0, Field(2, Number(fi.kind % TWO32))) + [Field(3, Number(fi.size % TWO64))]
    + Opt(fi.permissions != 0, Field(4, Number(fi.permissions))) + [Field(5, Number(fi.modifiedS % TWO64))]
  }

  function Middle(fi: FileInfo): seq<Field> {
    Opt(fi.modifiedNs != 0, Field(11, Number(fi.modifiedNs % TWO32))) + Opt(fi.modifiedBy != 0, Field(12, Number(fi.modifiedBy)))
    + Opt(fi.deleted != 0, Field(6, Number(1))) + Opt(fi.invalid != 0, Field(7, Number(1)))
  }

  function Back(fi: FileInfo): seq<Field> {
    [Field(9, Blob(EncFields(VectorFields(fi.version))))] + [Field(10, Number(fi.sequence % TWO64))]
    + Opt(fi.blockSize != 0, Field(13, Number(fi.blockSize % TWO32)))
  }

  function InfoFields(fi: FileInfo, hashes: seq<Hash>): seq<Field> {
    Front(fi) + Middle(fi) + Back(fi) + BlockList(BlocksOf(fi, hashes))
  }

  /** A record to announce, with its block hashes. */
  datatype Item = Item(fi: FileInfo, hashes: seq<Hash>)

  function ItemField(e: Item): Field {
    Field(2, Blob(EncFields(InfoFields(e.fi, e.hashes))))
  }

  function ItemFields(es: seq<Item>): seq<Field> {
    if es == [] then [] else ItemFields(es[..|es| - 1]) + [ItemField(es[|es| - 1])]
  }

  function BodyFields(folder: seq<byte>, es: seq<Item>): seq<Field> {
    [Field(1, Blob(folder))] + ItemFields(es)
  }

  function Body(folder: seq<byte>, es: seq<Item>): seq<byte> {
    EncFields(BodyFields(folder, es))
  }

  // ------------------------------------------------------- what is read

  /** Unlike the index file's, these decoders refuse a malformed part. */
  function StrictCounter(b: seq<byte>): Option<Counter> {
    if Parse(b, 0).clean then Some(RunCounter(Counter(0, 0), Parse(b, 0).fields)) else None
  }

  function StrictStep(v: seq<Counter>, f: Field): Option<seq<Counter>> {
    if f.num == 1 && f.value.Blob? && |v| < BEP_MAX_COUNTERS then
      match StrictCounter(f.value.bytes)
      case None => None
      case Some(c) => Some(v + [c])
    else Some(v)
  }

  function RunStrict(v: seq<Counter>, fs: seq<Field>): Option<seq<Counter>>
    decreases |fs|
  {
    if fs == [] then Some(v)
    else match StrictStep(v, fs[0])
      case None => None
      case Some(v) => RunStrict(v, fs[1..])
  }

  function StrictVector(b: seq<byte>): Option<seq<Counter>> {
    if Parse(b, 0).clean then RunStrict([], Parse(b, 0).fields) else None
  }

  function BlockStep(b: BlockInfo, f: Field): BlockInfo {
    if f.num == 1 && f.value.Number? then b.(offset := AsInt64(f.value.n))
    else if f.num == 2 && f.value.Number? then b.(size := AsInt32(f.value.n))
    else if f.num == 3 && f.value.Blob? && |f.value.bytes| == BEP_HASH_LEN then b.(hash := f.value.bytes, hasHash := true)
    else b
  }

  function RunBlock(b: BlockInfo, fs: seq<Field>): BlockInfo
    decreases |fs|
  {
    if fs == [] then b else RunBlock(BlockStep(b, fs[0]), fs[1..])
  }

  function NoBlock(): BlockInfo {
    BlockInfo(0, 0, Zeros(BEP_HASH_LEN), false)
  }

  function DecodeBlock(b: seq<byte>): Option<BlockInfo> {
    if Parse(b, 0).clean then Some(RunBlock(NoBlock(), Parse(b, 0).fields)) else None
  }

  /** A FileInfo being read, with the blocks handed to the callback so far. */
  datatype Info = Info(fi: FileInfo, blocks: seq<BlockInfo>)

  function NoInfo(): Info {
    Info(FileInfo([], 0, 0, 0, 0, 0, 0, 0, 0, 0, 0, [], 0), [])
  }

  function NumberStep(fi: FileInfo, num: nat, n: nat): FileInfo {
    if num == 2 then fi.(kind := AsInt32(n))
    else if num == 3 then fi.(size := AsInt64(n))
    else if num == 4 then fi.(permissions := n % TWO32)
    else if num == 5 then fi.(modifiedS := AsInt64(n))
    else if num == 11 then fi.(modifiedNs := AsInt32(n))
    else if num == 12 then fi.(modifiedBy := n)
    else if num == 6 then fi.(deleted := AsInt32(n))
    else if num == 7 then fi.(invalid := AsInt32(n))
    else if num == 10 then fi.(sequence := AsInt64(n))
    else if num == 13 then fi.(blockSize := AsInt32(n))
    else fi
  }

  function InfoStep(d: Info, f: Field): Option<Info> {
    match f.value
    case Number(n) => Some(d.(fi := NumberStep(d.fi, f.num, n)))
    case Fixed(_) => Some(d)
    case Blob(b) =>
      if f.num == 1 then Some(d.(fi := d.fi.(name := Held(b, BEP_PATH_MAX))))
      else if f.num == 9 then
        match StrictVector(b)
        case None => None
        case Some(v) => Some(d.(fi := d.fi.(version := v)))
      else if f.num == 16 then
        match DecodeBlock(b)
        case None => None
        case Some(blk) => Some(d.(blocks := d.blocks + [blk]))
      else Some(d)
  }

  function RunInfo(d: Info, fs: seq<Field>): Option<Info>
    decreases |fs|
  {
    if fs == [] then Some(d)
    else match InfoStep(d, fs[0])
      case None => None
      case Some(d) => RunInfo(d, fs[1..])
  }

  function Counted(d: Info): Info {
    d.(fi := d.fi.(numBlocks := |d.blocks|))
  }

  /** bep_decode_file_info_cb with a callback that takes every block. */
  function DecodeInfo(b: seq<byte>): Option<Info> {
    if !Parse(b, 0).clean then None
    else match RunInfo(NoInfo(), Parse(b, 0).fields)
      case None => None
      case Some(d) => Some(Counted(d))
  }

  /** One step of the iterator at p: the next entry and where it ends. A tag cut off at
      the end of the body ends the iteration like the end itself. */
  datatype Next = Done | Malformed | Found(info: Info, at: nat)

  function NextEntry(s: seq<byte>, p: nat): (r: Next)
    ensures r.Found? ==> p < r.at <= |s|
    decreases |s| - p
  {
    if p >= |s| then Done
    else match VarintAt(s, p)
      case None => Done
      case Some((tag, j)) =>
        match ReadValue(s, j, tag % 8)
        case None => Malformed
        case Some((v, k)) =>
          if TagNumber(tag) == 2 && v.Blob? then
            match DecodeInfo(v.bytes)
            case None => Malformed
            case Some(d) => Found(d, k)
          else NextEntry(s, k)
  }

  /** All the entries, and whether the iterator ended without its error flag. */
  datatype Walk = Walk(infos: seq<Info>, ok: bool)

  function WalkFrom(s: seq<byte>, p: nat): Walk
    decreases |s| - p
  {
    match NextEntry(s, p)
    case Done => Walk([], true)
    case Malformed => Walk([], false)
    case Found(d, at) => var rest := WalkFrom(s, at); Walk([d] + rest.infos, rest.ok)
  }

  /** bep_index_iter_begin: the first folder field, or nothing. */
  function FolderAt(s: seq<byte>, p: nat): seq<byte>
    decreases |s| - p
  {
    if p >= |s| then []
    else match ReadField(s, p)
      case None => []
      case Some((f, k)) =>
        if f.num == 1 && f.value.Blob? then Held(f.value.bytes, BEP_FOLDER_ID_MAX) else FolderAt(s, k)
  }

  // ---------------------------------------------------------- round trip

  /** The values the C types hold; a block list short enough that offsets fit. */
  predicate Announceable(e: Item) {
    && |e.fi.name| < BEP_PATH_MAX && 0 !in e.fi.name
    && IsInt32(e.fi.kind) && IsInt64(e.fi.size) && e.fi.permissions < TWO32 && IsInt64(e.fi.modifiedS)
    && IsInt32(e.fi.modifiedNs) && e.fi.modifiedBy < TWO64 && IsInt32(e.fi.deleted) && IsInt32(e.fi.invalid)
    && IsInt64(e.fi.sequence) && IsInt32(e.fi.blockSize)
    && CountersFit(e.fi.version) && |e.fi.version| <= BEP_MAX_COUNTERS
    && |e.hashes| < TWO31 && forall i :: 0 <= i < |e.hashes| ==> |e.hashes[i]| == BEP_HASH_LEN
  }

  /** What the other side makes of an entry: flags 0 or 1, the blocks with their
      geometry, and their number. */
  function Arrived(e: Item): Info {
    Info(e.fi.(deleted := if e.fi.deleted != 0 then 1 else 0, invalid := if e.fi.invalid != 0 then 1 else 0,
               numBlocks := |e.hashes|), BlocksOf(e.fi, e.hashes))
  }

  function ArrivedAll(es: seq<Item>): seq<Info> {
    seq(|es|, i requires 0 <= i < |es| => Arrived(es[i]))
  }

  lemma {:induction false} RunInfoConcat(d: Info, a: seq<Field>, b: seq<Field>)
    ensures RunInfo(d, a + b) == match RunInfo(d, a) case None => None case Some(d') => RunInfo(d', b)
    decreases |a|
  {
    hide InfoStep;
    if a == [] {
      assert a + b == b;
    } else {
      assert (a + b)[1..] == a[1..] + b && (a + b)[0] == a[0];
      var d' := InfoStep(d, a[0]);
      if d'.Some? {
        RunInfoConcat(d'.value, a[1..], b);
      }
    }
  }

  lemma RunInfoOne(d: Info, f: Field)
    ensures RunInfo(d, [f]) == InfoStep(d, f)
  {
    hide InfoStep;
    assert [f][1..] == [];
    assert forall d' :: RunInfo(d', []) == Some(d');
  }

  /** An optional field on top of what came before. */
  lemma RunOpt(d: Info, a: seq<Field>, c: bool, f: Field, mid: Info, end: Info)
    requires RunInfo(d, a) == Some(mid)
    requires if c then InfoStep(mid, f) == Some(end) else end == mid
    ensures RunInfo(d, a + Opt(c, f)) == Some(end)
  {
    hide InfoStep;
    RunInfoConcat(d, a, Opt(c, f));
    RunInfoOne(mid, f);
    if !c {
      assert a + [] == a;
    }
  }

  lemma Unsigned32(x: int)
    requires IsInt32(x)
    ensures AsInt32(x % TWO32) == x
  {
  }

  lemma FrontRead(d: Info, e: Item)
    requires Announceable(e) && d == NoInfo()
    ensures RunInfo(d, Front(e.fi)) == Some(d.(fi := d.fi.(name := e.fi.name, kind := e.fi.kind, size := e.fi.size,
                                                           permissions := e.fi.permissions, modifiedS := e.fi.modifiedS)))
  {
    hide RunInfo, Held, StrictVector, DecodeBlock, AsInt32, AsInt64;
    var fi := e.fi;
    HeldWhole(fi.name, BEP_PATH_MAX);
    Unsigned32(fi.kind);
    SignedRoundTrip(fi.size);
    SignedRoundTrip(fi.modifiedS);
    var d1 := d.(fi := d.fi.(name := fi.name));
    RunInfoOne(d, Field(1, Blob(fi.name)));
    var d2 := d1.(fi := d1.fi.(kind := fi.kind));
    var a1 := [Field(1, Blob(fi.name))];
    RunOpt(d, a1, fi.kind != 0, Field(2, Number(fi.kind % TWO32)), d1, d2);
    var a2 := a1 + Opt(fi.kind != 0, Field(2, Number(fi.kind % TWO32)));
    var d3 := d2.(fi := d2.fi.(size := fi.size));
    RunOpt(d, a2, true, Field(3, Number(fi.size % TWO64)), d2, d3);
    var a3 := a2 + [Field(3, Number(fi.size % TWO64))];
    var d4 := d3.(fi := d3.fi.(permissions := fi.permissions));
    RunOpt(d, a3, fi.permissions != 0, Field(4, Number(fi.permissions)), d3, d4);
    var a4 := a3 + Opt(fi.permissions != 0, Field(4, Number(fi.permissions)));
    RunOpt(d, a4, true, Field(5, Number(fi.modifiedS % TWO64)), d4, d4.(fi := d4.fi.(modifiedS := fi.modifiedS)));
  }

  lemma MiddleRead(d: Info, e: Item)
    requires Announceable(e)
    requires d.fi.modifiedNs == 0 && d.fi.modifiedBy == 0 && d.fi.deleted == 0 && d.fi.invalid == 0
    ensures RunInfo(d, Middle(e.fi)) == Some(d.(fi := d.fi.(modifiedNs := e.fi.modifiedNs, modifiedBy := e.fi.modifiedBy,
                                                            deleted := Arrived(e).fi.deleted, invalid := Arrived(e).fi.invalid)))
  {
    hide RunInfo, StrictVector, DecodeBlock, BlocksOf, AsInt64;
    var fi := e.fi;
    Unsigned32(fi.modifiedNs);
    NothingRun(d);
    var a1 := Opt(fi.modifiedNs != 0, Field(11, Number(fi.modifiedNs % TWO32)));
    var d1 := d.(fi := d.fi.(modifiedNs := fi.modifiedNs));
    RunOpt(d, [], fi.modifiedNs != 0, Field(11, Number(fi.modifiedNs % TWO32)), d, d1);
    assert [] + a1 == a1;
    var d2 := d1.(fi := d1.fi.(modifiedBy := fi.modifiedBy));
    RunOpt(d, a1, fi.modifiedBy != 0, Field(12, Number(fi.modifiedBy)), d1, d2);
    var a2 := a1 + Opt(fi.modifiedBy != 0, Field(12, Number(fi.modifiedBy)));
    var d3 := d2.(fi := d2.fi.(deleted := Arrived(e).fi.deleted));
    RunOpt(d, a2, fi.deleted != 0, Field(6, Number(1)), d2, d3);
    var a3 := a2 + Opt(fi.deleted != 0, Field(6, Number(1)));
    RunOpt(d, a3, fi.invalid != 0, Field(7, Number(1)), d3, d3.(fi := d3.fi.(invalid := Arrived(e).fi.invalid)));
  }

  lemma NothingRun(d: Info)
    ensures RunInfo(d, []) == Some(d)
  {
  }

  lemma {:induction false} StrictSnoc(v: seq<Counter>, fs: seq<Field>, f: Field)
    ensures RunStrict(v, fs + [f]) == match RunStrict(v, fs) case None => None case Some(u) => StrictStep(u, f)
    decreases |fs|
  {
    hide StrictStep;
    if fs == [] {
      assert (fs + [f])[1..] == [] && (fs + [f])[0] == f;
    } else {
      assert (fs + [f])[1..] == fs[1..] + [f] && (fs + [f])[0] == fs[0];
      var u := StrictStep(v, fs[0]);
      if u.Some? {
        StrictSnoc(u.value, fs[1..], f);
      }
    }
  }

  lemma StrictCounterRead(c: Counter)
    requires c.id < TWO64 && c.value < TWO64
    ensures StrictCounter(EncFields(CounterFields(c))) == Some(c)
  {
    hide EncField, ReadField, Parse;
    ParseExactly(CounterFields(c));
    CounterRoundTrip(c);
  }

  lemma StrictTake(v: seq<Counter>, c: Counter)
    requires c.id < TWO64 && c.value < TWO64 && |v| < BEP_MAX_COUNTERS
    ensures StrictStep(v, Field(1, Blob(EncFields(CounterFields(c))))) == Some(v + [c])
  {
    hide StrictCounter, CounterFields, EncFields;
    StrictCounterRead(c);
  }

  lemma {:induction false} StrictFields(v: seq<Counter>)
    requires CountersFit(v) && |v| <= BEP_MAX_COUNTERS
    ensures RunStrict([], VectorFields(v)) == Some(v)
  {
    hide StrictStep, StrictCounter, CounterFields, EncFields;
    if v != [] {
      var less, c := v[..|v| - 1], v[|v| - 1];
      StrictFields(less);
      StrictTake(less, c);
      StrictSnoc([], VectorFields(less), Field(1, Blob(EncFields(CounterFields(c)))));
      assert v == less + [c];
    }
  }

  lemma StrictVectorRead(v: seq<Counter>)
    requires CountersFit(v) && |v| <= BEP_MAX_COUNTERS
    ensures StrictVector(EncFields(VectorFields(v))) == Some(v)
  {
    hide EncFields, VectorFields, RunStrict, Parse;
    VectorFieldsGood(v);
    ParseExactly(VectorFields(v));
    StrictFields(v);
  }

  lemma BackRead(d: Info, e: Item)
    requires Announceable(e) && d.fi.blockSize == 0
    ensures RunInfo(d, Back(e.fi)) ==
            Some(d.(fi := d.fi.(version := e.fi.version, sequence := e.fi.sequence, blockSize := e.fi.blockSize)))
  {
    hide RunInfo, StrictVector, DecodeBlock, EncFields, VectorFields, AsInt32, AsInt64;
    var fi := e.fi;
    StrictVectorRead(fi.version);
    SignedRoundTrip(fi.sequence);
    Unsigned32(fi.blockSize);
    var v := Field(9, Blob(EncFields(VectorFields(fi.version))));
    var d1 := d.(fi := d.fi.(version := fi.version));
    RunInfoOne(d, v);
    var d2 := d1.(fi := d1.fi.(sequence := fi.sequence));
    RunOpt(d, [v], true, Field(10, Number(fi.sequence % TWO64)), d1, d2);
    RunOpt(d, [v] + [Field(10, Number(fi.sequence % TWO64))], fi.blockSize != 0, Field(13, Number(fi.blockSize % TWO32)),
           d2, d2.(fi := d2.fi.(blockSize := fi.blockSize)));
  }

  /** A block whose numbers fit and that has its hash. */
  predicate BlockFits(b: BlockInfo) {
    IsInt64(b.offset) && IsInt32(b.size) && |b.hash| == BEP_HASH_LEN && b.hasHash
  }

  lemma BlockRead(b: BlockInfo)
    requires BlockFits(b)
    ensures DecodeBlock(EncFields(BlockFieldsOf(b))) == Some(b)
  {
    hide EncFields, Parse, AsInt32, AsInt64;
    var fs := BlockFieldsOf(b);
    ParseExactly(fs);
    SignedRoundTrip(b.offset);
    Unsigned32(b.size);
    var b1 := NoBlock().(offset := b.offset);
    var b2 := b1.(size := b.size);
    assert fs[1..][1..] == fs[2..] && fs[2..] == [fs[2]] && [fs[2]][1..] == [];
    assert BlockStep(NoBlock(), fs[0]) == b1 && BlockStep(b1, fs[1]) == b2 && BlockStep(b2, fs[2]) == b;
    assert RunBlock(NoBlock(), fs) == RunBlock(b1, fs[1..]);
    assert RunBlock(b1, fs[1..]) == RunBlock(b2, fs[2..]);
    assert RunBlock(b2, [fs[2]]) == RunBlock(b, []);
  }

  lemma {:induction false} BlocksRead(d: Info, bs: seq<BlockInfo>)
    requires forall i :: 0 <= i < |bs| ==> BlockFits(bs[i])
    ensures RunInfo(d, BlockList(bs)) == Some(d.(blocks := d.blocks + bs))
  {
    hide RunInfo, DecodeBlock, BlockFieldsOf, EncFields, StrictVector, Held;
    if bs == [] {
      NothingRun(d);
      assert d.blocks + [] == d.blocks;
    } else {
      var less, b := bs[..|bs| - 1], bs[|bs| - 1];
      BlocksRead(d, less);
      BlockRead(b);
      RunInfoConcat(d, BlockList(less), [BlockField(b)]);
      RunInfoOne(d.(blocks := d.blocks + less), BlockField(b));
      assert bs == less + [b] && d.blocks + bs == d.blocks + less + [b];
    }
  }

  lemma ProductBound(i: int, b: int, m: int)
    requires 0 <= i < m && -m <= b < m
    ensures -(m * m) <= i * b <= m * m
  {
    assert i * b <= i * m && i * m <= m * m;
    assert i * b >= i * (-m) && i * (-m) == -(i * m);
  }

  lemma OffsetFits(fi: FileInfo, i: nat)
    requires IsInt32(fi.blockSize) && i < TWO31
    ensures var bs := if fi.blockSize != 0 then fi.blockSize else 1; IsInt64(i * bs)
  {
    var bs := if fi.blockSize != 0 then fi.blockSize else 1;
    ProductBound(i, bs, TWO31);
  }

  lemma {:induction false} BlocksFit(fi: FileInfo, hashes: seq<Hash>)
    requires IsInt32(fi.blockSize) && |hashes| < TWO31 && forall i :: 0 <= i < |hashes| ==> |hashes[i]| == BEP_HASH_LEN
    ensures forall i :: 0 <= i < |hashes| ==> BlockFits(BlocksOf(fi, hashes)[i])
  {
    hide AsInt32, AsInt64;
    if hashes != [] {
      BlocksFit(fi, hashes[..|hashes| - 1]);
      OffsetFits(fi, |hashes| - 1);
    }
  }

  lemma InfoRead(e: Item)
    requires Announceable(e)
    ensures RunInfo(NoInfo(), InfoFields(e.fi, e.hashes)).Some?
    ensures Counted(RunInfo(NoInfo(), InfoFields(e.fi, e.hashes)).value) == Arrived(e)
  {
    hide RunInfo, Front, Middle, Back, BlockList, BlocksOf, BlockFits;
    var d := NoInfo();
    FrontRead(d, e);
    var d1 := RunInfo(d, Front(e.fi)).value;
    MiddleRead(d1, e);
    var d2 := RunInfo(d1, Middle(e.fi)).value;
    BackRead(d2, e);
    var d3 := RunInfo(d2, Back(e.fi)).value;
    var bs := BlocksOf(e.fi, e.hashes);
    BlocksFit(e.fi, e.hashes);
    BlocksRead(d3, bs);
    RunInfoConcat(d, Front(e.fi), Middle(e.fi));
    RunInfoConcat(d, Front(e.fi) + Middle(e.fi), Back(e.fi));
    RunInfoConcat(d, Front(e.fi) + Middle(e.fi) + Back(e.fi), BlockList(bs));
    assert [] + bs == bs;
  }

  // ----------------------------------------------------- the whole body

  /** An entry that fits in some buffer. */
  predicate ItemOk(e: Item) {
    Announceable(e) && |EncFields(InfoFields(e.fi, e.hashes))| < TWO32
  }

  predicate AllOk(es: seq<Item>) {
    forall i :: 0 <= i < |es| ==> ItemOk(es[i])
  }

  predicate FolderOk(folder: seq<byte>) {
    |folder| < BEP_FOLDER_ID_MAX && 0 !in folder
  }

  lemma {:induction false} BlockListWritable(bs: seq<BlockInfo>)
    requires forall i :: 0 <= i < |bs| ==> BlockFits(bs[i])
    ensures AllWritable(BlockList(bs))
  {
    hide EncField;
    if bs != [] {
      BlockListWritable(bs[..|bs| - 1]);
      BlockLen(bs[|bs| - 1]);
    }
  }

  lemma BlockLen(b: BlockInfo)
    requires BlockFits(b)
    ensures AllWritable(BlockFieldsOf(b)) && |EncFields(BlockFieldsOf(b))| <= 64
  {
    hide EncField;
    var fs := BlockFieldsOf(b);
    EncThree(fs[0], fs[1], fs[2]);
    ShortField(fs[0]);
    ShortField(fs[1]);
    HashField(fs[2]);
  }

  lemma ShortField(f: Field)
    requires f.num < 16 && f.value.Number? && f.value.n < TWO64
    ensures |EncField(f)| <= 11
  {
    VarintLen64(f.value.n);
    assert VarintLen(8 * f.num) == 1;
  }

  lemma HashField(f: Field)
    requires f.num < 16 && f.value.Blob? && |f.value.bytes| == BEP_HASH_LEN
    ensures |EncField(f)| == 34
  {
  }

  lemma InfoWritable(e: Item)
    requires Announceable(e)
    ensures AllWritable(InfoFields(e.fi, e.hashes))
  {
    hide EncFields, BlockList, BlocksOf, VectorFields;
    BlocksFit(e.fi, e.hashes);
    BlockListWritable(BlocksOf(e.fi, e.hashes));
    VectorFieldsGood(e.fi.version);
    assert AllWritable(Front(e.fi)) && AllWritable(Middle(e.fi)) && AllWritable(Back(e.fi));
  }

  /** A FileInfo arrives as it was sent, its blocks with the derived geometry. */
  lemma InfoRoundTrip(e: Item)
    requires Announceable(e)
    ensures DecodeInfo(EncFields(InfoFields(e.fi, e.hashes))) == Some(Arrived(e))
  {
    hide EncFields, InfoFields, RunInfo, Parse, Announceable;
    InfoWritable(e);
    ParseExactly(InfoFields(e.fi, e.hashes));
    InfoRead(e);
  }

  lemma NextStep(s: seq<byte>, p: nat)
    ensures p >= |s| || VarintAt(s, p) == None ==> NextEntry(s, p) == Done
    ensures p < |s| && VarintAt(s, p).Some? ==>
              var (tag, j) := VarintAt(s, p).value; var r := ReadValue(s, j, tag % 8);
              NextEntry(s, p) == if r.None? then Malformed
              else if TagNumber(tag) == 2 && r.value.0.Blob? then
                (match DecodeInfo(r.value.0.bytes) case None => Malformed case Some(d) => Found(d, r.value.1))
              else NextEntry(s, r.value.1)
  {
    hide VarintAt, ReadValue, DecodeInfo;
  }

  predicate IsEntry(f: Field) {
    f.num == 2 && f.value.Blob?
  }

  /** Every entry among the fields can be decoded. */
  predicate EntriesGood(fs: seq<Field>) {
    forall i :: 0 <= i < |fs| && IsEntry(fs[i]) ==> DecodeInfo(fs[i].value.bytes).Some?
  }

  /** The entries among the fields, up to the first that cannot be decoded. */
  function Entries(fs: seq<Field>): seq<Info> {
    if fs == [] then []
    else if !IsEntry(fs[0]) then Entries(fs[1..])
    else match DecodeInfo(fs[0].value.bytes)
      case None => []
      case Some(d) => [d] + Entries(fs[1..])
  }

  lemma EntriesNext(f: Field, rest: seq<Field>)
    ensures EntriesGood([f] + rest) <==> (IsEntry(f) ==> DecodeInfo(f.value.bytes).Some?) && EntriesGood(rest)
    ensures Entries([f] + rest) == if !IsEntry(f) then Entries(rest)
                                   else match DecodeInfo(f.value.bytes) case None => [] case Some(d) => [d] + Entries(rest)
  {
    hide DecodeInfo;
    var fs := [f] + rest;
    assert fs[0] == f && fs[1..] == rest;
    assert forall i :: 0 <= i < |rest| ==> fs[i + 1] == rest[i];
    if EntriesGood(fs) {
      forall i | 0 <= i < |rest| && IsEntry(rest[i]) ensures DecodeInfo(rest[i].value.bytes).Some? {
        assert IsEntry(fs[i + 1]);
      }
    }
  }

  lemma WalkNext(s: seq<byte>, p: nat)
    ensures match NextEntry(s, p)
            case Done => WalkFrom(s, p) == Walk([], true)
            case Malformed => WalkFrom(s, p) == Walk([], false)
            case Found(d, at) => WalkFrom(s, p) == Walk([d] + WalkFrom(s, at).infos, WalkFrom(s, at).ok)
    ensures forall q :: NextEntry(s, p) == NextEntry(s, q) ==> WalkFrom(s, p) == WalkFrom(s, q)
  {
    hide NextEntry;
  }

  /** What the iterator finds in any body: the entries up to the first bad one. Its error
      flag stays clear if and only if no entry is bad and the fields do not end at a value
      that cannot be read. */
  lemma {:induction false} WalkIs(s: seq<byte>, p: nat)
    ensures WalkFrom(s, p).infos == Entries(Parse(s, p).fields)
    ensures WalkFrom(s, p).ok <==> EntriesGood(Parse(s, p).fields) && !EndingAt(s, p).BadValue?
    decreases |s| - p
  {
    hide VarintAt, ReadValue, Parse, EndingAt, TagNumber, NextEntry, WalkFrom, DecodeInfo, EntriesGood, Entries, IsEntry;
    NextStep(s, p);
    WalkNext(s, p);
    EndingNext(s, p);
    NoEntries();
    if p >= |s| {
      ParseEnd(s, p);
    } else {
      ParseNext(s, p);
      if VarintAt(s, p).Some? {
        var (tag, j) := VarintAt(s, p).value;
        var r := ReadValue(s, j, tag % 8);
        if r.Some? {
          var f := Field(TagNumber(tag), r.value.0);
          EntryIs(f);
          EntriesNext(f, Parse(s, r.value.1).fields);
          WalkIs(s, r.value.1);
        }
      }
    }
  }

  lemma NoEntries()
    ensures Entries([]) == [] && EntriesGood([])
  {
  }

  lemma EntryIs(f: Field)
    ensures IsEntry(f) <==> f.num == 2 && f.value.Blob?
  {
  }

  /** A body that is no list of fields passes for a whole one exactly when reading it
      stops at a tag, every byte of which up to the tenth says that another follows, and
      no entry before is bad. */
  lemma UnnoticedExactly(s: seq<byte>)
    ensures WalkFrom(s, 0).ok && !Parse(s, 0).clean <==> EndingAt(s, 0).BadTag? && EntriesGood(Parse(s, 0).fields)
    ensures EndingAt(s, 0).BadTag? ==>
              var at := EndingAt(s, 0).at; at < |s| && forall j :: at <= j < Min(at + 10, |s|) ==> s[j] >= 128
  {
    hide Parse, EndingAt, WalkFrom, EntriesGood;
    WalkIs(s, 0);
    CleanIsEnded(s, 0);
    if EndingAt(s, 0).BadTag? {
      BadTagAt(s, 0);
    }
  }

  lemma EntryArrives(e: Item)
    requires ItemOk(e)
    ensures Writable(ItemField(e)) && DecodeInfo(ItemField(e).value.bytes) == Some(Arrived(e))
  {
    hide InfoFields, EncFields, DecodeInfo, Arrived, Announceable;
    InfoRoundTrip(e);
  }

  lemma {:induction false} EntriesSnoc(fs: seq<Field>, f: Field, d: Info)
    requires EntriesGood(fs) && IsEntry(f) && DecodeInfo(f.value.bytes) == Some(d)
    ensures Entries(fs + [f]) == Entries(fs) + [d] && EntriesGood(fs + [f])
    decreases |fs|
  {
    hide DecodeInfo, EntriesGood, Entries, IsEntry;
    NoEntries();
    if fs == [] {
      EntriesNext(f, []);
      assert [] + [f] == [f] + [];
    } else {
      assert fs == [fs[0]] + fs[1..] && fs + [f] == [fs[0]] + (fs[1..] + [f]);
      EntriesNext(fs[0], fs[1..]);
      EntriesNext(fs[0], fs[1..] + [f]);
      EntriesSnoc(fs[1..], f, d);
    }
  }

  /** The fields of a body hold its entries, each as it arrives. */
  lemma {:induction false} BodyEntries(folder: seq<byte>, es: seq<Item>)
    requires FolderOk(folder) && AllOk(es)
    ensures AllWritable(BodyFields(folder, es))
    ensures EntriesGood(BodyFields(folder, es)) && Entries(BodyFields(folder, es)) == ArrivedAll(es)
    decreases |es|
  {
    hide DecodeInfo, EntriesGood, Entries, ItemOk, Arrived, InfoFields, EncFields;
    var f := Field(1, Blob(folder));
    NoEntries();
    if es == [] {
      EntriesNext(f, []);
      assert BodyFields(folder, []) == [f] + [];
    } else {
      var less, e := es[..|es| - 1], es[|es| - 1];
      BodyEntries(folder, less);
      EntryArrives(e);
      EntriesSnoc(BodyFields(folder, less), ItemField(e), Arrived(e));
      assert BodyFields(folder, es) == BodyFields(folder, less) + [ItemField(e)];
      assert ArrivedAll(es) == ArrivedAll(less) + [Arrived(e)];
    }
  }

  /** A body iterates back as the folder id and every entry, in order. */
  lemma BodyRoundTrip(folder: seq<byte>, es: seq<Item>)
    requires FolderOk(folder) && AllOk(es)
    ensures FolderAt(Body(folder, es), 0) == folder
    ensures WalkFrom(Body(folder, es), 0) == Walk(ArrivedAll(es), true)
  {
    hide EncField, EncFields, ItemOk, Held, ReadField, At, ItemFields, ArrivedAll, Parse, EndingAt, WalkFrom;
    var s, f := Body(folder, es), Field(1, Blob(folder));
    AtWhole(s);
    EncFieldsConcat([f], ItemFields(es));
    EncFieldsOne(f);
    AtConcat(s, 0, EncField(f), EncFields(ItemFields(es)));
    FieldRoundTrip(s, 0, f);
    AtBound(s, 0, EncField(f));
    HeldWhole(folder, BEP_FOLDER_ID_MAX);
    BodyEntries(folder, es);
    ParseExactly(BodyFields(folder, es));
    CleanIsEnded(s, 0);
    WalkIs(s, 0);
  }

  /** Whatever follows a tag that does not end, be it more entries, is lost without a
      word: the walk is that of the body before it. */
  lemma LongTagHidesTheRest(folder: seq<byte>, es: seq<Item>, tag: seq<byte>, rest: seq<byte>)
    requires FolderOk(folder) && AllOk(es)
    requires (forall k :: 0 <= k < |tag| ==> tag[k] >= 128) && (|tag| == 10 || (0 < |tag| < 10 && rest == []))
    ensures var s := Body(folder, es) + tag + rest; WalkFrom(s, 0) == Walk(ArrivedAll(es), true) && !Parse(s, 0).clean
  {
    hide EncFields, ItemOk, At, ArrivedAll, Parse, EndingAt, WalkFrom, BodyFields, EntriesGood, Entries, AllWritable, FolderOk;
    var body, fs := Body(folder, es), BodyFields(folder, es);
    var s, q := body + tag + rest, |body|;
    AtWhole(body);
    assert At(s, 0, body) by {
      AtSlice(s, 0, body);
    }
    BodyEntries(folder, es);
    ParseEncoded(s, 0, fs);
    EndingBehind(s, 0, fs);
    forall j | q <= j < Min(q + 10, |s|) ensures s[j] >= 128 {
      assert s[j] == tag[j - q];
    }
    VarintFails(s, q);
    EndingNext(s, q);
    ParseNext(s, q);
    assert fs + [] == fs;
    CleanIsEnded(s, 0);
    WalkIs(s, 0);
  }
}
