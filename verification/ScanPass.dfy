/**
  One pass of the scanner over a folder (src/scanner.c): the marks are cleared, the
  walk reports entries one by one, and after a complete walk the sweep records what
  has vanished. Workers write the same index under its lock between any two steps.
  What the hash, the clock and the file system say are inputs.
*/
module ScanPass {
  import opened Bytes
  import opened FoldRows

  const BEP_FILE_FILE := 0
  const BEP_FILE_DIRECTORY := 1

  datatype Env = Env(shortId: nat, onDisk: int -> int, blockSizeOf: int -> int, stamp: int -> nat, ignored: Name -> bool)

  datatype Listed = Listed(name: Name, size: int, modifiedS: int)

  datatype State = State(rows: seq<Row>, sequence: int)

  // ------------------------------------------------------ version vectors

  const U64_MAX: nat := 0xFFFF_FFFF_FFFF_FFFF

  function CounterOf(v: seq<Counter>, id: nat): (c: int)
    ensures c >= -1
  {
    if v == [] then -1 else if v[0].id == id then v[0].value else CounterOf(v[1..], id)
  }

  /** sync_bump_version on a copy of v: our counter is set, or raised by one when that
      is not enough; a full vector without it stays as it is. */
  function Bumped(v: seq<Counter>, at: nat, id: nat, value: nat): (r: seq<Counter>)
    requires at <= |v|
    decreases |v| - at
  {
    if at == |v| then
      if |v| < BEP_MAX_COUNTERS then v + [Counter(id, value)] else v
    else if v[at].id == id then
      v[at := Counter(id, if value <= v[at].value then (v[at].value + 1) % (U64_MAX + 1) else value)]
    else Bumped(v, at + 1, id, value)
  }

  function Bump(v: seq<Counter>, id: nat, value: nat): seq<Counter> {
    Bumped(v, 0, id, value)
  }

  lemma {:induction false} CounterFrom(v: seq<Counter>, at: nat, id: nat)
    requires at <= |v| && forall j :: 0 <= j < at ==> v[j].id != id
    ensures CounterOf(v, id) == CounterOf(v[at..], id)
    decreases at
  {
    if at > 0 {
      CounterFrom(v[1..], at - 1, id);
      assert v[1..][at - 1..] == v[at..];
    }
  }

  lemma {:induction false} BumpedCounters(v: seq<Counter>, at: nat, id: nat, value: nat, other: nat)
    requires at <= |v| && value <= U64_MAX && (forall j :: 0 <= j < |v| ==> v[j].value <= U64_MAX)
    requires forall j :: 0 <= j < at ==> v[j].id != id
    ensures other != id ==> CounterOf(Bumped(v, at, id, value), other) == CounterOf(v, other)
    ensures CounterOf(Bumped(v, at, id, value), id) > CounterOf(v, id) <==>
            CounterOf(v, id) < U64_MAX && (CounterOf(v, id) >= 0 || |v| < BEP_MAX_COUNTERS)
    ensures CounterOf(Bumped(v, at, id, value), id) > CounterOf(v, id) ==>
              CounterOf(Bumped(v, at, id, value), id) == Max(value, CounterOf(v, id) + 1)
    ensures |v| <= |Bumped(v, at, id, value)| <= Max(|v|, BEP_MAX_COUNTERS)
    decreases |v| - at
  {
    if at == |v| {
      CounterFrom(v, at, id);
      assert v[at..] == [] && CounterOf([], id) == -1;
      if |v| < BEP_MAX_COUNTERS {
        CounterAppend(v, Counter(id, value), other);
        CounterAppend(v, Counter(id, value), id);
      }
    } else if v[at].id == id {
      CounterFrom(v, at, id);
      assert v[at..][0] == v[at];
      var c := Counter(id, if value <= v[at].value then (v[at].value + 1) % (U64_MAX + 1) else value);
      CounterFrom(v[at := c], at, id);
      assert v[at := c][at..][0] == c;
      if other != id {
        CounterPut(v, at, c, other);
      }
    } else {
      BumpedCounters(v, at + 1, id, value, other);
    }
  }

  lemma {:induction false} CounterAppend(v: seq<Counter>, c: Counter, id: nat)
    ensures CounterOf(v + [c], id) == if CounterOf(v, id) >= 0 then CounterOf(v, id) else if c.id == id then c.value else -1
  {
    if v == [] {
      assert [c][1..] == [];
    } else {
      assert (v + [c])[1..] == v[1..] + [c];
      CounterAppend(v[1..], c, id);
    }
  }

  lemma {:induction false} CounterPut(v: seq<Counter>, at: nat, c: Counter, other: nat)
    requires at < |v| && c.id == v[at].id && other != c.id
    ensures CounterOf(v[at := c], other) == CounterOf(v, other)
  {
    if at == 0 {
      assert v[0 := c][1..] == v[1..];
    } else {
      assert v[at := c][1..] == v[1..][at - 1 := c];
      CounterPut(v[1..], at - 1, c, other);
    }
  }

  /** A bump leaves every other device's counter alone; ours grows, except that a full
      vector has no room for it and that it cannot pass 2^64 - 1. */
  lemma BumpRaisesOurs(v: seq<Counter>, id: nat, value: nat, other: nat)
    requires value <= U64_MAX && (forall j :: 0 <= j < |v| ==> v[j].value <= U64_MAX)
    ensures other != id ==> CounterOf(Bump(v, id, value), other) == CounterOf(v, other)
    ensures CounterOf(Bump(v, id, value), id) > CounterOf(v, id) <==>
            CounterOf(v, id) < 0xFFFF_FFFF_FFFF_FFFF && (CounterOf(v, id) >= 0 || |v| < 16)
    ensures CounterOf(Bump(v, id, value), id) > CounterOf(v, id) ==>
              CounterOf(Bump(v, id, value), id) == Max(value, CounterOf(v, id) + 1)
    ensures |v| <= |Bump(v, id, value)| <= Max(|v|, 16)
  {
    BumpedCounters(v, 0, id, value, other);
  }

  // ---------------------------------------------------- the locked steps

  function VersionAt(rows: seq<Row>, name: Name): seq<Counter> {
    var i := IndexOf(rows, name);
    if i < 0 then [] else rows[i].meta.version
  }

  /** rec_changed */
  predicate Changed(rows: seq<Row>, e: Listed, env: Env) {
    var i := IndexOf(rows, e.name);
    i < 0 ||
    var c := rows[i].meta.core;
    c.deleted != 0 || c.invalid != 0 || c.size != e.size
    || (c.modifiedS != e.modifiedS && env.onDisk(c.modifiedS) != e.modifiedS)
    || rows[i].blocks == []
  }

  function FileMeta(rows: seq<Row>, e: Listed, hash: Hash, sequence: int, env: Env): Meta {
    Meta(Core(e.size, 0x1A4, e.modifiedS, 0, env.shortId, sequence, env.blockSizeOf(e.size), hash, BEP_FILE_FILE, 0, 0, 1),
         Bump(VersionAt(rows, e.name), env.shortId, env.stamp(e.modifiedS)))
  }

  function DirMeta(rows: seq<Row>, e: Listed, sequence: int, env: Env): Meta {
    Meta(Core(0, 0x1ED, e.modifiedS, 0, env.shortId, sequence, 0, Zeros(BEP_HASH_LEN), BEP_FILE_DIRECTORY, 0, 0, 0),
         Bump(VersionAt(rows, e.name), env.shortId, env.stamp(e.modifiedS)))
  }

  predicate LiveDir(rows: seq<Row>, name: Name) {
    var i := IndexOf(rows, name);
    i >= 0 && rows[i].meta.core.deleted == 0
  }

  /** The steps of a pass, each under the lock: a file looked at; one hashed and
      committed; one kept because it is there but could not be hashed, is too large, or
      changed meanwhile; a directory; and what a worker does after writing a file. A
      file that vanished before it was hashed takes no step. */
  datatype Event =
    | Look(e: Listed)
    | CommitFile(e: Listed, hash: Hash, blocks: seq<Hash>, mem: Mem)
    | Keep(e: Listed)
    | CommitDir(e: Listed, mem: Mem)
    | Worker(name: Name, meta: Meta, blocks: seq<Hash>, mem: Mem)

  function StepEvent(s: State, ev: Event, env: Env): State {
    match ev
    case Look(e) => if Changed(s.rows, e, env) then s else s.(rows := MarkSeenRows(s.rows, e.name))
    case CommitFile(e, hash, blocks, mem) =>
      var put := PutRow(s.rows, e.name, FileMeta(s.rows, e, hash, s.sequence + 1, env), blocks, mem);
      State(MarkSeenRows(put, e.name), s.sequence + 1)
    case Keep(e) => s.(rows := MarkSeenRows(s.rows, e.name))
    case CommitDir(e, mem) =>
      if LiveDir(s.rows, e.name) then s.(rows := MarkSeenRows(s.rows, e.name))
      else
        var put := PutRow(s.rows, e.name, DirMeta(s.rows, e, s.sequence + 1, env), [], mem);
        State(MarkSeenRows(put, e.name), s.sequence + 1)
    case Worker(name, meta, blocks, mem) =>
      State(PutRow(s.rows, name, meta.(core := meta.core.(sequence := s.sequence + 1)), blocks, mem), s.sequence + 1)
  }

  /** The name this step says is still on disk, if any. */
  function Reported(s: State, ev: Event, env: Env): set<Name> {
    match ev
    case Look(e) => if Changed(s.rows, e, env) then {} else {e.name}
    case CommitFile(e, _, _, _) => {e.name}
    case Keep(e) => {e.name}
    case CommitDir(e, _) => {e.name}
    case Worker(_, _, _, _) => {}
  }

  function RunEvents(s: State, evs: seq<Event>, env: Env): State {
    if evs == [] then s else StepEvent(RunEvents(s, evs[..|evs| - 1], env), evs[|evs| - 1], env)
  }

  function ReportedIn(s: State, evs: seq<Event>, env: Env): set<Name> {
    if evs == [] then {}
    else
      var less := evs[..|evs| - 1];
      ReportedIn(s, less, env) + Reported(RunEvents(s, less, env), evs[|evs| - 1], env)
  }

  // ------------------------------------------------------------ the sweep

  datatype Rule = Rule(before: int, when: int, env: Env)

  predicate Candidate(row: Row) {
    row.meta.core.deleted == 0 && row.meta.core.invalid == 0 && !row.seen
  }

  /** A file that has become ignored: told to the peers as invalid. */
  predicate Hidden(row: Row, r: Rule) {
    Candidate(row) && r.env.ignored(row.name) && row.meta.core.kind == BEP_FILE_FILE
  }

  /** A record with nothing on disk behind it. */
  predicate Doomed(row: Row, r: Rule) {
    Candidate(row) && !r.env.ignored(row.name) && row.meta.core.sequence <= r.before
  }

  function HiddenMeta(row: Row, sequence: int): Meta {
    Meta(row.meta.core.(invalid := 1, sequence := sequence), row.meta.version)
  }

  function TombMeta(row: Row, sequence: int, r: Rule): Meta {
    Meta(Core(0, row.meta.core.permissions, r.when, 0, r.env.shortId, sequence, 0, Zeros(BEP_HASH_LEN), row.meta.core.kind, 1, 0, 0),
         Bump(row.meta.version, r.env.shortId, r.when % (U64_MAX + 1)))
  }

  /** What the sweep makes of a row it replaces. */
  function SweptRow(row: Row, sequence: int, r: Rule, versionOk: bool): Row {
    row.(meta := StoredMeta(if Hidden(row, r) then HiddenMeta(row, sequence) else TombMeta(row, sequence, r), versionOk),
         blocks := [])
  }

  /** The loop over the first n slots; versionOk is how the allocations went. */
  function Sweep(s: State, n: nat, r: Rule, versionOk: seq<bool>): (t: State)
    requires n <= |s.rows| && n <= |versionOk|
    ensures |t.rows| == |s.rows|
  {
    if n == 0 then s
    else
      var t, row := Sweep(s, n - 1, r, versionOk), s.rows[n - 1];
      if Hidden(row, r) || Doomed(row, r) then
        State(t.rows[n - 1 := SweptRow(row, t.sequence + 1, r, versionOk[n - 1])], t.sequence + 1)
      else t
  }

  // ------------------------------------------------------------ invariants

  /** Sequence numbers are distinct and at most the high-water mark. */
  predicate Numbered(rows: seq<Row>, sequence: int) {
    && (forall i :: 0 <= i < |rows| ==> rows[i].meta.core.sequence <= sequence)
    && (forall i, j :: 0 <= i < j < |rows| ==> rows[i].meta.core.sequence != rows[j].meta.core.sequence)
  }

  /** A reported record is marked, or was written after the pass began. */
  predicate Protected(rows: seq<Row>, before: int, reported: set<Name>) {
    forall i :: 0 <= i < |rows| && rows[i].name in reported ==> rows[i].seen || rows[i].meta.core.sequence > before
  }

  predicate PassInv(s: State, before: int, reported: set<Name>) {
    Unique(s.rows) && Numbered(s.rows, s.sequence) && before <= s.sequence && Protected(s.rows, before, reported)
  }

  lemma PutKeeps(rows: seq<Row>, sequence: int, before: int, reported: set<Name>, name: Name, meta: Meta, blocks: seq<Hash>, mem: Mem)
    requires PassInv(State(rows, sequence), before, reported) && meta.core.sequence == sequence + 1
    ensures PassInv(State(PutRow(rows, name, meta, blocks, mem), sequence + 1), before, reported)
    ensures forall i :: 0 <= i < |PutRow(rows, name, meta, blocks, mem)| && PutRow(rows, name, meta, blocks, mem)[i].name == name ==>
              PutRow(rows, name, meta, blocks, mem)[i].meta.core.sequence > before
  {
    hide StoredVersion;
    var r, i := PutRow(rows, name, meta, blocks, mem), IndexOf(rows, name);
    if i < 0 && mem.room {
      AppendUnique(rows, Row(name, StoredMeta(meta, mem.version), StoredBlocks(blocks, mem.blocks), false));
    } else if i >= 0 {
      forall j | 0 <= j < |r| && r[j].name == name ensures j == i {
        assert rows[j].name == name;
      }
    }
  }

  /** Marking: the name counts as reported from now on, provided its record, if there
      is one, gets the mark. */
  lemma MarkKeeps(s: State, before: int, reported: set<Name>, name: Name)
    requires PassInv(s, before, reported)
    ensures PassInv(s.(rows := MarkSeenRows(s.rows, name)), before, reported + {name})
  {
    var r, i := MarkSeenRows(s.rows, name), IndexOf(s.rows, name);
    forall j | 0 <= j < |r| ensures r[j].name == s.rows[j].name && r[j].meta == s.rows[j].meta {
    }
    forall j | 0 <= j < |r| && r[j].name in reported + {name} ensures r[j].seen || r[j].meta.core.sequence > before {
      if r[j].name == name {
        assert s.rows[j].name == name;
        assert i == j;
      }
    }
  }

  lemma EventKeeps(s: State, before: int, reported: set<Name>, ev: Event, env: Env)
    requires PassInv(s, before, reported)
    ensures PassInv(StepEvent(s, ev, env), before, reported + Reported(s, ev, env))
  {
    hide PassInv, PutRow, MarkSeenRows, Bump, Changed, LiveDir;
    assert reported + {} == reported;
    match ev
    case Look(e) => MarkKeeps(s, before, reported, e.name);
    case CommitFile(e, hash, blocks, mem) =>
      var meta := FileMeta(s.rows, e, hash, s.sequence + 1, env);
      PutKeeps(s.rows, s.sequence, before, reported, e.name, meta, blocks, mem);
      MarkKeeps(State(PutRow(s.rows, e.name, meta, blocks, mem), s.sequence + 1), before, reported, e.name);
    case Keep(e) => MarkKeeps(s, before, reported, e.name);
    case CommitDir(e, mem) =>
      if LiveDir(s.rows, e.name) {
        MarkKeeps(s, before, reported, e.name);
      } else {
        var meta := DirMeta(s.rows, e, s.sequence + 1, env);
        PutKeeps(s.rows, s.sequence, before, reported, e.name, meta, [], mem);
        MarkKeeps(State(PutRow(s.rows, e.name, meta, [], mem), s.sequence + 1), before, reported, e.name);
      }
    case Worker(name, meta, blocks, mem) =>
      PutKeeps(s.rows, s.sequence, before, reported, name, meta.(core := meta.core.(sequence := s.sequence + 1)), blocks, mem);
  }

  lemma {:induction false} RunKeeps(s: State, evs: seq<Event>, env: Env)
    requires PassInv(s, s.sequence, {})
    ensures PassInv(RunEvents(s, evs, env), s.sequence, ReportedIn(s, evs, env))
  {
    hide PassInv, StepEvent, Reported;
    if evs != [] {
      var less := evs[..|evs| - 1];
      RunKeeps(s, less, env);
      EventKeeps(RunEvents(s, less, env), s.sequence, ReportedIn(s, less, env), evs[|evs| - 1], env);
    }
  }

  lemma Started(rows: seq<Row>, sequence: int)
    requires Unique(rows) && Numbered(rows, sequence)
    ensures PassInv(State(ClearSeenRows(rows), sequence), sequence, {})
  {
    var r := ClearSeenRows(rows);
    forall i | 0 <= i < |r| ensures r[i].name == rows[i].name && r[i].meta == rows[i].meta {
    }
  }

  /** What the sweep did to slot i: replaced with a number of its own, or nothing. */
  predicate Settled(s: State, t: State, i: nat, r: Rule, versionOk: seq<bool>)
    requires i < |s.rows| == |t.rows| && |versionOk| >= |s.rows|
  {
    if Hidden(s.rows[i], r) || Doomed(s.rows[i], r) then
      s.sequence < t.rows[i].meta.core.sequence <= t.sequence &&
      t.rows[i] == SweptRow(s.rows[i], t.rows[i].meta.core.sequence, r, versionOk[i])
    else t.rows[i] == s.rows[i]
  }

  lemma SweptName(row: Row, sequence: int, r: Rule, ok: bool)
    ensures SweptRow(row, sequence, r, ok).name == row.name && SweptRow(row, sequence, r, ok).meta.core.sequence == sequence
  {
  }

  lemma {:induction false} SweepSettles(s: State, n: nat, r: Rule, versionOk: seq<bool>)
    requires n <= |s.rows| <= |versionOk| && Numbered(s.rows, s.sequence)
    ensures var t := Sweep(s, n, r, versionOk);
            && s.sequence <= t.sequence && Numbered(t.rows, t.sequence)
            && (forall i :: 0 <= i < n ==> Settled(s, t, i, r, versionOk))
            && (forall i :: n <= i < |s.rows| ==> t.rows[i] == s.rows[i])
  {
    hide Hidden, Doomed, SweptRow;
    if n > 0 {
      SweepSettles(s, n - 1, r, versionOk);
      var t, u := Sweep(s, n - 1, r, versionOk), Sweep(s, n, r, versionOk);
      SweptName(s.rows[n - 1], t.sequence + 1, r, versionOk[n - 1]);
      forall i | 0 <= i < n ensures Settled(s, u, i, r, versionOk) {
        assert i < n - 1 ==> Settled(s, t, i, r, versionOk);
      }
    }
  }

  lemma {:induction false} SweepAhead(s: State, n: nat, r: Rule, versionOk: seq<bool>)
    requires n <= |s.rows| && n <= |versionOk|
    ensures var t := Sweep(s, n, r, versionOk);
            (forall i :: 0 <= i < |s.rows| ==> t.rows[i].name == s.rows[i].name) &&
            (forall i :: n <= i < |s.rows| ==> t.rows[i] == s.rows[i])
  {
    hide Hidden, Doomed, SweptRow;
    if n > 0 {
      SweepAhead(s, n - 1, r, versionOk);
      SweptName(s.rows[n - 1], Sweep(s, n - 1, r, versionOk).sequence + 1, r, versionOk[n - 1]);
    }
  }

  lemma {:induction false} SweepLonger(s: State, n: nat, r: Rule, versionOk: seq<bool>, ok: bool)
    requires n <= |s.rows| && n <= |versionOk|
    ensures Sweep(s, n, r, versionOk + [ok]) == Sweep(s, n, r, versionOk)
  {
    hide Hidden, Doomed, SweptRow;
    if n > 0 {
      SweepLonger(s, n - 1, r, versionOk, ok);
    }
  }

  /** The sweep one slot further. */
  lemma SweepNext(s: State, i: nat, r: Rule, versionOk: seq<bool>, ok: bool)
    requires i < |s.rows| && i == |versionOk|
    ensures var t, row := Sweep(s, i, r, versionOk), s.rows[i];
            t.rows[i] == row && Sweep(s, i + 1, r, versionOk + [ok]) ==
                                if Hidden(row, r) || Doomed(row, r)
                                then State(t.rows[i := SweptRow(row, t.sequence + 1, r, ok)], t.sequence + 1) else t
  {
    hide Hidden, Doomed, SweptRow;
    SweepAhead(s, i, r, versionOk);
    SweepLonger(s, i, r, versionOk, ok);
  }

  // ------------------------------------------------------- the whole pass

  /** Which records a complete pass turns into tombstones. The walk skips ignored names.
      For every run of scanner and worker steps: a record is swept exactly when it was
      live, valid, unmarked, not ignored and no newer than the pass; nothing the pass
      found on disk is touched; the others stay as they are; slots keep their order;
      every number stays fresh, distinct and below the high-water mark. */
  lemma PassIsSafe(rows: seq<Row>, sequence: int, evs: seq<Event>, env: Env, when: int, versionOk: seq<bool>)
    requires Unique(rows) && Numbered(rows, sequence)
    requires forall name :: name in ReportedIn(State(ClearSeenRows(rows), sequence), evs, env) ==> !env.ignored(name)
    requires |versionOk| == |RunEvents(State(ClearSeenRows(rows), sequence), evs, env).rows|
    ensures var s0, r := State(ClearSeenRows(rows), sequence), Rule(sequence, when, env);
            var s := RunEvents(s0, evs, env);
            var t := Sweep(s, |s.rows|, r, versionOk);
            && |t.rows| == |s.rows| && Unique(t.rows) && Numbered(t.rows, t.sequence)
            && (forall i :: 0 <= i < |s.rows| ==> t.rows[i].name == s.rows[i].name && Settled(s, t, i, r, versionOk))
            && (forall i :: 0 <= i < |s.rows| && s.rows[i].name in ReportedIn(s0, evs, env) ==> t.rows[i] == s.rows[i])
  {
    hide PassInv, RunEvents, ReportedIn, Sweep, StepEvent, Reported, ClearSeenRows, Unique, Numbered, SweptRow;
    var s0, r := State(ClearSeenRows(rows), sequence), Rule(sequence, when, env);
    Started(rows, sequence);
    RunKeeps(s0, evs, env);
    var s, reported := RunEvents(s0, evs, env), ReportedIn(s0, evs, env);
    InvParts(s, sequence, reported);
    SweepSettles(s, |s.rows|, r, versionOk);
    var t := Sweep(s, |s.rows|, r, versionOk);
    forall i | 0 <= i < |s.rows| ensures t.rows[i].name == s.rows[i].name {
      assert Settled(s, t, i, r, versionOk);
      SweptName(s.rows[i], t.rows[i].meta.core.sequence, r, versionOk[i]);
    }
    SameNames(s.rows, t.rows);
    forall i | 0 <= i < |s.rows| && s.rows[i].name in reported ensures t.rows[i] == s.rows[i] {
      assert Settled(s, t, i, r, versionOk);
    }
  }

  lemma InvParts(s: State, before: int, reported: set<Name>)
    requires PassInv(s, before, reported)
    ensures Unique(s.rows) && Numbered(s.rows, s.sequence)
    ensures forall i :: 0 <= i < |s.rows| && s.rows[i].name in reported ==> s.rows[i].seen || s.rows[i].meta.core.sequence > before
  {
  }

  lemma SameNames(a: seq<Row>, b: seq<Row>)
    requires Unique(a) && |a| == |b| && forall i :: 0 <= i < |a| ==> b[i].name == a[i].name
    ensures Unique(b)
  {
  }

  /** Only a mark or a newer number saves a file that is on disk: one whose entry was
      listed but vanished before it was hashed takes no step, and is swept. */
  lemma VanishedIsSwept(row: Row, sequence: int, env: Env, when: int)
    requires row.meta.core.deleted == 0 && row.meta.core.invalid == 0 && row.meta.core.sequence <= sequence
    requires !env.ignored(row.name)
    ensures var s := State(ClearSeenRows([row]), sequence);
            Sweep(s, 1, Rule(sequence, when, env), [true]).rows[0].meta.core.deleted == 1
  {
    hide Bump;
    var s, r := State(ClearSeenRows([row]), sequence), Rule(sequence, when, env);
    assert Sweep(s, 0, r, [true]) == s && Doomed(s.rows[0], r);
  }
}
