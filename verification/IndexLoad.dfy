/**
  index_store_decode of src/index_store.c: the loop over the fields of a file that
  assembles records and commits them into the shared index, proved to accept and to
  restore exactly what IndexFormat.Decoded says.
*/
module IndexLoad {
  import opened Bytes
  import opened PbufFormat
  import opened Pbuf
  import opened FoldRows
  import opened FoldState
  import opened IndexFormat
  import opened IndexLaws

  /** decode_counter */
  method ReadCounter(b: seq<byte>) returns (c: Counter)
    ensures c == DecodeCounter(b)
  {
    hide VarintAt, TagNumber, Parse;
    c := Counter(0, 0);
    var r := new PbufReader(b);
    while true
      invariant r.Valid() && !r.error && r.data == b
      invariant DecodeCounter(b) == RunCounter(c, Parse(b, r.p).fields)
      decreases |b| - r.p
    {
      if r.p < |b| {
        ParseNext(b, r.p);
      } else {
        ParseEnd(b, r.p);
      }
      var ok, field, wt := r.ReadTag();
      if !ok {
        return;
      }
      ghost var val := ReadValue(b, r.p, wt);
      if val.Some? {
        CounterOn(c, Field(field, val.value.0), Parse(b, val.value.1).fields);
      }
      var got, v := false, 0;
      if field == 1 && wt == PBUF_WT_VARINT {
        got, v := r.ReadVarint();
        if got {
          c := c.(id := v);
          continue;
        }
      }
      if field == 2 && wt == PBUF_WT_VARINT {
        got, v := r.ReadVarint();
        if got {
          c := c.(value := v);
          continue;
        }
      }
      ok := r.Skip(wt);
      if !ok {
        return;
      }
    }
  }

  lemma CounterOn(c: Counter, f: Field, rest: seq<Field>)
    ensures RunCounter(c, [f] + rest) == RunCounter(CounterStep(c, f), rest)
  {
    assert ([f] + rest)[1..] == rest;
  }

  /** decode_vector */
  method ReadVector(b: seq<byte>) returns (v: seq<Counter>)
    ensures v == DecodeVector(b)
  {
    hide ReadValue, VarintAt, TagNumber, Parse, DecodeCounter;
    v := [];
    var r := new PbufReader(b);
    while true
      invariant r.Valid() && !r.error && r.data == b && |v| <= BEP_MAX_COUNTERS
      invariant DecodeVector(b) == RunVector(v, Parse(b, r.p).fields)
      decreases |b| - r.p
    {
      if r.p < |b| {
        ParseNext(b, r.p);
      } else {
        ParseEnd(b, r.p);
      }
      var ok, field, wt := r.ReadTag();
      if !ok {
        return;
      }
      if field == 1 && wt == PBUF_WT_LEN {
        var p;
        ok, p := r.ReadBytes();
        if !ok {
          return;
        }
        if |v| < BEP_MAX_COUNTERS {
          var c := ReadCounter(p);
          v := v + [c];
        }
      } else {
        ok := r.Skip(wt);
        if !ok {
          return;
        }
      }
    }
  }

  /** The value at the cursor was taken: as v, up to next, or not at all. */
  twostate predicate Took(r: PbufReader, ok: bool, wt: nat)
    requires old(r.Valid())
    reads r
  {
    var was := old(r.p);
    && r.Valid()
    && (ok <==> ReadValue(r.data, was, wt).Some?)
    && (ok ==> !r.error && r.p == ReadValue(r.data, was, wt).value.1)
  }

  method ReadHeaderField(r: PbufReader, h: Head, field: nat, wt: nat) returns (ok: bool, h': Head)
    requires r.Valid() && !r.error && field < F_NAME && wt < 8 && (ExpectedWt(field) >= 0 ==> wt == ExpectedWt(field))
    modifies r
    ensures Took(r, ok, wt)
    ensures ok ==> h' == HeaderStep(h, Field(field, ReadValue(r.data, old(r.p), wt).value.0))
  {
    hide VarintAt, Held;
    h' := h;
    var v, p;
    if field == F_MAGIC {
      ok, v := r.ReadVarint();
      h' := h.(magic := v);
    } else if field == F_FORMAT {
      ok, v := r.ReadVarint();
      h' := h.(format := v);
    } else if field == F_SHORT_ID {
      ok, v := r.ReadVarint();
      h' := h.(shortId := v);
    } else if field == F_HIGH_SEQ {
      ok, v := r.ReadVarint();
      h' := h.(highSeq := v);
    } else if field == F_END {
      ok, v := r.ReadVarint();
      h' := h.(count := AsInt64(v));
    } else if field == F_FOLDER_ID {
      ok, p := r.ReadBytes();
      h' := h.(folder := Held(p, BEP_FOLDER_ID_MAX));
    } else {
      ok := r.Skip(wt);
    }
  }

  method ReadNumberField(r: PbufReader, c: Core, field: nat) returns (ok: bool, c': Core)
    requires r.Valid() && !r.error && ExpectedWt(field) == PBUF_WT_VARINT && field > F_NAME
    modifies r
    ensures Took(r, ok, PBUF_WT_VARINT)
    ensures ok ==> c' == CoreStep(c, Field(field, ReadValue(r.data, old(r.p), PBUF_WT_VARINT).value.0))
  {
    hide VarintAt, AsInt64, AsInt32;
    var v;
    ok, v := r.ReadVarint();
    c' := c;
    if !ok {
      return;
    }
    match field
    case 21 => c' := c.(kind := v % 256);
    case 22 => c' := c.(size := AsInt64(v));
    case 23 => c' := c.(modifiedS := AsInt64(v));
    case 24 => c' := c.(modifiedNs := AsInt32(v));
    case 25 => c' := c.(deleted := v % 256);
    case 28 => c' := c.(sequence := AsInt64(v));
    case 30 => c' := c.(permissions := v % TWO32);
    case 31 => c' := c.(blockSize := AsInt32(v));
    case 32 => c' := c.(invalid := v % 256);
    case _ => c' := c.(modifiedBy := v);
  }

  method ReadCurField(r: PbufReader, c: Cur, field: nat, wt: nat) returns (ok: bool, c': Cur)
    requires r.Valid() && !r.error && field > F_NAME && wt < 8 && (ExpectedWt(field) >= 0 ==> wt == ExpectedWt(field))
    modifies r
    ensures Took(r, ok, wt)
    ensures ok ==> c' == CurStep(c, Field(field, ReadValue(r.data, old(r.p), wt).value.0))
  {
    hide VarintAt, DecodeVector;
    c' := c;
    var p, core;
    if ExpectedWt(field) == PBUF_WT_VARINT {
      ok, core := ReadNumberField(r, c.core, field);
      c' := c.(core := core);
    } else if field == F_CONTENT_HASH {
      ok, p := r.ReadBytes();
      if |p| == BEP_HASH_LEN {
        c' := c.(core := c.core.(contentHash := p, hasContentHash := 1));
      }
    } else if field == F_VERSION {
      ok, p := r.ReadBytes();
      if ok {
        var v := ReadVector(p);
        c' := c.(version := v);
      }
    } else if field == F_BLOCK_HASHES {
      ok, p := r.ReadBytes();
      c' := c.(hashes := p);
    } else {
      ok := r.Skip(wt);
    }
  }

  predicate CurSmall(h: Head) {
    h.cur.Some? ==> |h.cur.value.version| <= BEP_MAX_COUNTERS
  }

  /** commit_record; mem is how its allocations went. */
  method CommitRecord(fs: FolderState, c: Cur) returns (ghost mem: Mem)
    requires fs.Valid()
    modifies fs, fs.files, fs.names, fs.blocks, fs.nblocks, fs.seen, fs.hhead, fs.hnext
    ensures fs.Valid() && fs.ArraysOwned()
    ensures fs.rows == Commit(old(fs.rows), c, mem)
    ensures fs.ample ==> mem == Mem(true, true, true)
  {
    hide SlotHolds, Chains, Unique, IndexOf, UpsertRows, Split;
    var r; ghost var op;
    r, op := fs.Upsert(c.name, Meta(c.core, c.version), Split(c.hashes));
    if IndexOf(old(fs.rows), c.name) < 0 && |old(fs.rows)| >= FOLDSTATE_MAX_FILES {
      mem := Mem(true, true, true);
    } else {
      mem := Mem(op.roomOk, op.versionOk, op.blocksOk);
    }
  }

  lemma RunOn(l: Load, f: Field, rest: seq<Field>, id: Owner)
    ensures Run(l, [f] + rest, id) == Run(Step(l, f, id), rest, id)
  {
    assert ([f] + rest)[1..] == rest;
  }

  /** One field, its tag already read: what the loop body does with it. */
  method OneField(fs: FolderState, id: Owner, r: PbufReader, h: Head, field: nat, wt: nat)
    returns (ok: bool, h': Head, ghost more: seq<Mem>)
    requires fs.Valid() && r.Valid() && !r.error && wt < 8 && CurSmall(h)
    modifies r, fs, fs.files, fs.names, fs.blocks, fs.nblocks, fs.seen, fs.hhead, fs.hnext
    ensures fs.Valid() && fs.ArraysOwned() && r.Valid() && CurSmall(h')
    ensures var val := ReadValue(r.data, old(r.p), wt);
            if val.None? || Refused(h, Field(field, val.value.0), id) then !ok
            else ok && !r.error && r.p == val.value.1 && h' == HeadStep(h, Field(field, val.value.0)) &&
                 if field == F_NAME && h.cur.Some? then |more| == 1 && fs.rows == Commit(old(fs.rows), h.cur.value, more[0])
                 else more == [] && fs.rows == old(fs.rows)
    ensures fs.ample ==> more == Plenty(|more|)
  {
    hide SlotHolds, Chains, Unique, Commit, VarintAt, CurStep, HeaderStep, Held, ExpectedWt, DecodeVector;
    h', more := h, [];
    assert Plenty(0) == [] && Plenty(1) == [Mem(true, true, true)];
    var want := ExpectedWt(field);
    if want >= 0 && wt != want {
      return false, h, [];
    }
    if field < F_NAME {
      ok, h' := ReadHeaderField(r, h, field, wt);
      HeaderKeepsCur(h, field);
      return ok, if ok then h' else h, [];
    }
    if !h.checked && !HeaderMatches(h, id) {
      return false, h, [];
    }
    if field == F_NAME {
      NameWt();
      if h.cur.Some? {
        ghost var mem := CommitRecord(fs, h.cur.value);
        more := [mem];
      }
      var p;
      ok, p := r.ReadBytes();
      h' := h.(checked := true, cur := Some(Cur(Held(p, BEP_PATH_MAX), EmptyCore(), [], [])));
      return;
    }
    var c := if h.cur.Some? then h.cur.value else Cur([], EmptyCore(), [], []);
    ok, c := ReadCurField(r, c, field, wt);
    if ok {
      CurStaysSmall(c, h, field, ReadValue(r.data, old(r.p), wt).value.0);
    }
    h' := if !ok then h else h.(checked := true, cur := if h.cur.Some? then Some(c) else None);
  }

  lemma NameWt()
    ensures ExpectedWt(F_NAME) == PBUF_WT_LEN
  {
  }

  lemma HeaderKeepsCur(h: Head, field: nat)
    ensures forall v :: RightWt(Field(field, v)) ==> HeaderStep(h, Field(field, v)).cur == h.cur
  {
  }

  lemma CurStaysSmall(c: Cur, h: Head, field: nat, v: Value)
    requires CurSmall(h) && RightWt(Field(field, v))
    ensures h.cur.Some? && c == CurStep(h.cur.value, Field(field, v)) ==> |c.version| <= BEP_MAX_COUNTERS
  {
  }

  /** The loop over the fields, up to the end of the file or the first bad one. */
  method LoadFields(fs: FolderState, id: Owner, data: seq<byte>)
    returns (ok: bool, h: Head, ghost records: seq<Cur>, ghost mems: seq<Mem>)
    requires fs.Valid() && fs.rows == []
    modifies fs, fs.files, fs.names, fs.blocks, fs.nblocks, fs.seen, fs.hhead, fs.hnext
    ensures fs.Valid() && fs.ArraysOwned()
    ensures !ok ==> FileOf(data, id) == None
    ensures ok ==> var all := Parse(data, 0);
                   all.clean && Run(Start(), all.fields, id) == Load.Load(h, records)
    ensures ok ==> |mems| == |records| && fs.rows == CommitAll(records, mems)
    ensures fs.ample ==> mems == Plenty(|mems|)
  {
    hide SlotHolds, Chains, Unique, Commit, VarintAt, ReadValue, Parse, HeadStep, Refused, TagNumber, ExpectedWt, Run;
    hide CommitAll, Closed, Plenty, CurSmall, HeaderMatches;
    NothingCommitted();
    var r := new PbufReader(data);
    h, records, mems := Start().h, [], [];
    ghost var l, all := Start(), Parse(data, 0);
    while true
      invariant fs.Valid() && fs.ArraysOwned() && r.Valid() && !r.error && r.data == data && fresh(r) && CurSmall(h)
      invariant Run(Start(), all.fields, id) == Run(l, Parse(data, r.p).fields, id) && all.clean == Parse(data, r.p).clean
      invariant l == Load.Load(h, records) && |mems| == |records| && fs.rows == CommitAll(records, mems)
      invariant fs.ample ==> mems == Plenty(|mems|)
      decreases |data| - r.p
    {
      ghost var p := r.p;
      if p < |data| {
        ParseNext(data, p);
      } else {
        ParseEnd(data, p);
      }
      var field, wt;
      ok, field, wt := r.ReadTag();
      if !ok {
        ok := !r.error;
        RunNone(l, id);
        return;
      }
      ghost var val, was, more := ReadValue(data, r.p, wt), h, [];
      ok, h, more := OneField(fs, id, r, h, field, wt);
      if val.Some? {
        ghost var f := Field(field, val.value.0);
        RunOn(l, f, Parse(data, val.value.1).fields, id);
        RunBad(Parse(data, val.value.1).fields, id);
        l := Step(l, f, id);
      }
      if !ok {
        return;
      }
      CommitMore(records, mems, field, was, more);
      if field == F_NAME {
        ClosedIs(records, was.cur);
        records := Closed(records, was.cur);
      }
      mems := mems + more;
    }
  }

  lemma NothingCommitted()
    ensures CommitAll([], []) == [] && Plenty(0) == [] && CurSmall(Start().h)
  {
  }

  lemma ClosedIs(records: seq<Cur>, cur: Option<Cur>)
    ensures |Closed(records, cur)| == |records| + (if cur.Some? then 1 else 0) && (cur.None? ==> Closed(records, cur) == records)
  {
  }

  lemma CommitMore(records: seq<Cur>, mems: seq<Mem>, field: nat, h: Head, more: seq<Mem>)
    requires |mems| == |records| && |more| == if field == F_NAME && h.cur.Some? then 1 else 0
    ensures more == [] ==> mems + more == mems
    ensures more != [] ==> CommitAll(Closed(records, h.cur), mems + more) == Commit(CommitAll(records, mems), h.cur.value, more[0])
    ensures mems == Plenty(|mems|) && more == Plenty(|more|) ==> mems + more == Plenty(|mems + more|)
  {
    hide Commit;
    if more != [] {
      assert (mems + more)[..|mems|] == mems && Closed(records, h.cur)[..|records|] == records;
    }
  }

  lemma RunNone(l: Load, id: Owner)
    ensures Run(l, [], id) == l
  {
  }

  /** The loop, the last record, and the checks that come after. */
  method LoadAll(fs: FolderState, id: Owner, data: seq<byte>) returns (ok: bool, ghost mems: seq<Mem>)
    requires fs.Valid() && fs.rows == []
    modifies fs, fs.files, fs.names, fs.blocks, fs.nblocks, fs.seen, fs.hhead, fs.hnext
    ensures fs.Valid() && fs.ArraysOwned() && (ok ==> !fs.dirty)
    ensures FileOf(data, id) == None ==> !ok
    ensures FileOf(data, id).Some? ==>
              var f := FileOf(data, id).value;
              && |mems| == |f.records| && ok == Restore(f, mems).Some?
              && (ok ==> (fs.sequence, fs.rows) == Restore(f, mems).value)
    ensures fs.ample ==> mems == Plenty(|mems|)
  {
    hide SlotHolds, Chains, Unique, Commit, Parse, Run, HeaderMatches, AsInt64, CurSmall;
    var h; ghost var records;
    ok, h, records, mems := LoadFields(fs, id, data);
    if ok && (h.checked || HeaderMatches(h, id)) {
      if h.cur.Some? {
        ghost var mem := CommitRecord(fs, h.cur.value);
        assert Plenty(1) == [Mem(true, true, true)];
        CommitMore(records, mems, F_NAME, h, [mem]);
        mems := mems + [mem];
      }
      ok := h.count >= 0 && fs.numFiles == h.count;
      if ok {
        fs.SetClean(AsInt64(h.highSeq));
      }
    } else {
      ok := false;
    }
  }

  /** index_store_decode. It accepts and restores what Restore says for the allocations
      as they went; a refusal leaves the index empty. */
  method IndexStoreDecode(fs: FolderState, id: Owner, data: seq<byte>) returns (ok: bool, ghost mems: seq<Mem>)
    requires fs.Valid()
    modifies fs, fs.files, fs.names, fs.blocks, fs.nblocks, fs.seen, fs.hhead, fs.hnext
    ensures fs.Valid() && fs.ArraysOwned() && !fs.dirty
    ensures !ok ==> fs.rows == [] && fs.sequence == 0
    ensures FileOf(data, id) == None ==> !ok
    ensures FileOf(data, id).Some? ==>
              var f := FileOf(data, id).value;
              && |mems| == |f.records| && ok == Restore(f, mems).Some?
              && (ok ==> (fs.sequence, fs.rows) == Restore(f, mems).value)
    ensures fs.ample ==> mems == Plenty(|mems|)
  {
    hide SlotHolds, Chains, Unique, FileOf, Restore;
    fs.Reset();
    ok, mems := LoadAll(fs, id, data);
    if !ok {
      fs.Reset();
    }
  }

  /** An index file cut short anywhere is refused, however much memory there is, and the
      index is left empty. */
  method DecodeCut(fs: FolderState, id: Owner, file: seq<byte>, n: nat, ghost sequence: int, ghost rows: seq<Row>)
    returns (ok: bool)
    requires fs.Valid() && OwnerOk(id) && AllStorable(rows) && |rows| <= FOLDSTATE_MAX_FILES
    requires file == Encoded(id, sequence, rows) && n < |file|
    modifies fs, fs.files, fs.names, fs.blocks, fs.nblocks, fs.seen, fs.hhead, fs.hnext
    ensures fs.Valid() && !ok && fs.rows == [] && fs.sequence == 0 && !fs.dirty
  {
    hide SlotHolds, Chains, Unique, FileOf, Restore, Encoded, AllStorable;
    TruncatedRefused(id, sequence, rows, n);
    ghost var mems;
    ok, mems := IndexStoreDecode(fs, id, file[..n]);
  }
}
