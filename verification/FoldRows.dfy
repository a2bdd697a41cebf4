/**
  The shared folder index as a simple table: a sequence of rows with unique names,
  the operations of src/foldstate.c on it, and the map from name to entry they
  amount to. Class FoldState.FolderState is proved to carry these operations out.
*/
module FoldRows {
  import opened Bytes

  type Name = seq<byte>
  type Hash = seq<byte>

  const FOLDREC_VIN := 4
  const FOLDSTATE_MAX_FILES := 100000
  const BEP_HASH_LEN := 32

  function Zeros(n: nat): (h: Hash)
    ensures |h| == n
  {
    seq(n, _ => 0)
  }
  const BEP_MAX_COUNTERS := 16

  datatype Counter = Counter(id: nat, value: nat)

  /** Every SyncMeta field except the name and the version vector. */
  datatype Core = Core(size: int, permissions: nat, modifiedS: int, modifiedNs: int, modifiedBy: nat,
                       sequence: int, blockSize: int, contentHash: Hash,
                       kind: byte, deleted: byte, invalid: byte, hasContentHash: byte)

  datatype Meta = Meta(core: Core, version: seq<Counter>)

  datatype Row = Row(name: Name, meta: Meta, blocks: seq<Hash>, seen: bool)

  // ---------------------------------------------- the stored record

  type Inline = s: seq<Counter> | |s| == FOLDREC_VIN
    witness [Counter(0, 0), Counter(0, 0), Counter(0, 0), Counter(0, 0)]

  /** FolderRec: nver counters, inline up to four, beyond that in an allocation. */
  datatype FolderRec = FolderRec(core: Core, nver: nat, vin: Inline, vext: Option<seq<Counter>>)

  /** What set_version leaves behind is well formed; so is a fresh slot. */
  predicate RecOk(r: FolderRec) {
    && r.nver <= BEP_MAX_COUNTERS
    && if r.vext.Some? then |r.vext.value| == r.nver else r.nver <= FOLDREC_VIN
  }

  function SetVersion(r: FolderRec, v: seq<Counter>, allocOk: bool): FolderRec {
    var n := Min(|v|, BEP_MAX_COUNTERS);
    if n <= 0 then r.(nver := 0, vext := None)
    else if n > FOLDREC_VIN && allocOk then r.(nver := n, vext := Some(v[..n]))
    else
      var k := Min(n, FOLDREC_VIN);
      r.(nver := k, vin := v[..k] + r.vin[k..], vext := None)
  }

  function GetVersion(r: FolderRec): seq<Counter>
    requires RecOk(r)
  {
    if r.vext.Some? then r.vext.value[..r.nver] else r.vin[..r.nver]
  }

  /** What a vector becomes when stored: whole up to 16 counters, or its first four
      when the allocation for more fails. */
  function StoredVersion(v: seq<Counter>, allocOk: bool): seq<Counter> {
    if |v| <= FOLDREC_VIN then v
    else if allocOk then v[..Min(|v|, BEP_MAX_COUNTERS)]
    else v[..FOLDREC_VIN]
  }

  function RecFromMeta(r: FolderRec, m: Meta, allocOk: bool): FolderRec {
    SetVersion(r, m.version, allocOk).(core := m.core)
  }

  function MetaFromRec(r: FolderRec): Meta
    requires RecOk(r)
  {
    Meta(r.core, GetVersion(r))
  }

  /** A record goes through the index unchanged, whatever the slot held before, but
      for the counters an allocation failure costs it. */
  lemma MetaRoundTrip(r: FolderRec, m: Meta, allocOk: bool)
    ensures RecOk(RecFromMeta(r, m, allocOk))
    ensures MetaFromRec(RecFromMeta(r, m, allocOk)) == Meta(m.core, StoredVersion(m.version, allocOk))
    ensures |m.version| <= FOLDREC_VIN || (allocOk && |m.version| <= BEP_MAX_COUNTERS) ==>
              MetaFromRec(RecFromMeta(r, m, allocOk)) == m
  {
    var n := Min(|m.version|, BEP_MAX_COUNTERS);
    if n > 0 && !(n > FOLDREC_VIN && allocOk) {
      var k := Min(n, FOLDREC_VIN);
      assert (m.version[..k] + r.vin[k..])[..k] == m.version[..k];
    }
    assert n > FOLDREC_VIN ==> m.version[..n][..n] == m.version[..n];
    assert |m.version| <= FOLDREC_VIN ==> m.version[..|m.version|] == m.version;
  }

  // ------------------------------------------------ rows and their map

  predicate Unique(rows: seq<Row>) {
    forall i, j :: 0 <= i < j < |rows| ==> rows[i].name != rows[j].name
  }

  function IndexOf(rows: seq<Row>, name: Name): (r: int)
    ensures -1 <= r < |rows|
    ensures r >= 0 ==> rows[r].name == name
    ensures r < 0 ==> forall i :: 0 <= i < |rows| ==> rows[i].name != name
  {
    if rows == [] then -1
    else if rows[|rows| - 1].name == name then |rows| - 1
    else IndexOf(rows[..|rows| - 1], name)
  }

  lemma IndexUnique(rows: seq<Row>, i: nat)
    requires Unique(rows) && i < |rows|
    ensures IndexOf(rows, rows[i].name) == i
  {
    var j := IndexOf(rows, rows[i].name);
    assert j >= 0 && rows[j].name == rows[i].name;
  }

  datatype Entry = Entry(meta: Meta, blocks: seq<Hash>, seen: bool)

  function EntryOf(row: Row): Entry {
    Entry(row.meta, row.blocks, row.seen)
  }

  predicate HasRow(m: map<Name, Entry>, row: Row) {
    row.name in m && m[row.name] == EntryOf(row)
  }

  /** The table stands for the map m: unique names, the same entries. */
  predicate Shows(rows: seq<Row>, m: map<Name, Entry>) {
    && Unique(rows)
    && (forall i :: 0 <= i < |rows| ==> HasRow(m, rows[i]))
    && (forall name :: name in m ==> IndexOf(rows, name) >= 0)
  }

  /** Looking a name up in the table is looking it up in the map. */
  lemma FindIsLookup(rows: seq<Row>, m: map<Name, Entry>, name: Name)
    requires Shows(rows, m)
    ensures IndexOf(rows, name) >= 0 <==> name in m
    ensures name in m ==> m[name] == EntryOf(rows[IndexOf(rows, name)])
  {
    var i := IndexOf(rows, name);
    assert i >= 0 ==> HasRow(m, rows[i]);
  }

  lemma ShownMapIsUnique(rows: seq<Row>, m: map<Name, Entry>, m': map<Name, Entry>)
    requires Shows(rows, m) && Shows(rows, m')
    ensures m == m'
  {
    forall name | name in m || name in m' ensures name in m && name in m' && m[name] == m'[name] {
      FindIsLookup(rows, m, name);
      FindIsLookup(rows, m', name);
    }
  }

  // -------------------------------------------------------- operations

  function UpsertRows(rows: seq<Row>, name: Name, meta: Meta, blocks: seq<Hash>): seq<Row> {
    var i := IndexOf(rows, name);
    if i < 0 then rows + [Row(name, meta, blocks, false)]
    else rows[i := rows[i].(meta := meta, blocks := blocks)]
  }

  /** The last row moves into the hole. */
  function SwapRemove(rows: seq<Row>, i: nat): (r: seq<Row>)
    requires i < |rows|
    ensures |r| == |rows| - 1
  {
    rows[i := rows[|rows| - 1]][..|rows| - 1]
  }

  lemma SwapRemoveUnique(rows: seq<Row>, i: nat)
    requires Unique(rows) && i < |rows|
    ensures Unique(SwapRemove(rows, i))
  {
  }

  lemma AppendUnique(rows: seq<Row>, row: Row)
    requires Unique(rows) && IndexOf(rows, row.name) < 0
    ensures Unique(rows + [row])
  {
  }

  function ForgetRows(rows: seq<Row>, name: Name): seq<Row> {
    var i := IndexOf(rows, name);
    if i < 0 then rows else SwapRemove(rows, i)
  }

  /** The compaction loop from slot i on: rows that p selects are swap-removed, and
      the slot is looked at again. */
  function Compact(rows: seq<Row>, p: Row -> bool, i: nat): (r: seq<Row>)
    requires i <= |rows|
    ensures |r| <= |rows|
    decreases |rows| - i
  {
    if i == |rows| then rows
    else if p(rows[i]) then Compact(SwapRemove(rows, i), p, i)
    else Compact(rows, p, i + 1)
  }

  lemma CompactStep(rows: seq<Row>, p: Row -> bool, i: nat)
    requires i < |rows|
    ensures Compact(rows, p, i) == if p(rows[i]) then Compact(SwapRemove(rows, i), p, i) else Compact(rows, p, i + 1)
  {
  }

  lemma CompactEnd(rows: seq<Row>, p: Row -> bool)
    ensures Compact(rows, p, |rows|) == rows
  {
  }

  function ClearSeenRows(rows: seq<Row>): seq<Row> {
    seq(|rows|, i requires 0 <= i < |rows| => rows[i].(seen := false))
  }

  function MarkSeenRows(rows: seq<Row>, name: Name): seq<Row> {
    var i := IndexOf(rows, name);
    if i < 0 then rows else rows[i := rows[i].(seen := true)]
  }

  /** What foldstate_prune_tombstones drops. */
  predicate IsOldTombstone(row: Row, cutoff: int) {
    row.meta.core.deleted != 0 && row.meta.core.modifiedS < cutoff
  }

  /** What foldstate_forget_unseen drops: live, valid, unmarked and not newer. */
  predicate IsVanished(row: Row, before: int) {
    row.meta.core.deleted == 0 && row.meta.core.invalid == 0 && !row.seen && row.meta.core.sequence <= before
  }

  // ------------------------------------- the operations on the map

  function UpsertMap(m: map<Name, Entry>, name: Name, meta: Meta, blocks: seq<Hash>): map<Name, Entry> {
    m[name := Entry(meta, blocks, name in m && m[name].seen)]
  }

  lemma UpsertShows(rows: seq<Row>, m: map<Name, Entry>, name: Name, meta: Meta, blocks: seq<Hash>)
    requires Shows(rows, m)
    ensures Shows(UpsertRows(rows, name, meta, blocks), UpsertMap(m, name, meta, blocks))
  {
    var r, m' := UpsertRows(rows, name, meta, blocks), UpsertMap(m, name, meta, blocks);
    var i := IndexOf(rows, name);
    FindIsLookup(rows, m, name);
    forall j | 0 <= j < |r| ensures HasRow(m', r[j]) {
      assert j < |rows| && j != i ==> HasRow(m, rows[j]);
    }
    StillFound(rows, r, m', name, if i < 0 then |rows| else i);
  }

  /** Names other than name keep their row; name is at slot at. */
  lemma StillFound(rows: seq<Row>, r: seq<Row>, m: map<Name, Entry>, name: Name, at: nat)
    requires |rows| <= |r| && at < |r| && r[at].name == name
    requires forall j :: 0 <= j < |rows| && j != at ==> r[j].name == rows[j].name
    requires forall n :: n in m && n != name ==> IndexOf(rows, n) >= 0
    requires at < |rows| ==> rows[at].name == name
    ensures forall n :: n in m ==> IndexOf(r, n) >= 0
  {
    forall n | n in m ensures IndexOf(r, n) >= 0 {
      if n != name {
        var k := IndexOf(rows, n);
        assert r[k].name == n;
      } else {
        assert r[at].name == n;
      }
    }
  }

  lemma SwapRemoveShows(rows: seq<Row>, m: map<Name, Entry>, i: nat)
    requires Shows(rows, m) && i < |rows|
    ensures Shows(SwapRemove(rows, i), m - {rows[i].name})
  {
    var r, m', last := SwapRemove(rows, i), m - {rows[i].name}, |rows| - 1;
    forall j | 0 <= j < |r| ensures HasRow(m', r[j]) {
      var k := if j == i then last else j;
      assert r[j] == rows[k] && HasRow(m, rows[k]) && k != i;
    }
    forall n | n in m' ensures IndexOf(r, n) >= 0 {
      var k := IndexOf(rows, n);
      assert r[if k == last then i else k].name == n;
    }
  }

  lemma ForgetShows(rows: seq<Row>, m: map<Name, Entry>, name: Name)
    requires Shows(rows, m)
    ensures Shows(ForgetRows(rows, name), m - {name})
  {
    FindIsLookup(rows, m, name);
    var i := IndexOf(rows, name);
    if i >= 0 {
      SwapRemoveShows(rows, m, i);
    } else {
      assert m - {name} == m;
    }
  }

  function RowOf(name: Name, e: Entry): Row {
    Row(name, e.meta, e.blocks, e.seen)
  }

  /** The map without the entries that p selects. */
  function Without(m: map<Name, Entry>, p: Row -> bool): map<Name, Entry> {
    map name | name in m && !p(RowOf(name, m[name])) :: m[name]
  }

  lemma RowOfFound(rows: seq<Row>, m: map<Name, Entry>, name: Name)
    requires Shows(rows, m) && name in m
    ensures IndexOf(rows, name) >= 0 && RowOf(name, m[name]) == rows[IndexOf(rows, name)]
  {
    FindIsLookup(rows, m, name);
  }

  lemma NothingToDrop(rows: seq<Row>, m: map<Name, Entry>, p: Row -> bool)
    requires Shows(rows, m) && forall j :: 0 <= j < |rows| ==> !p(rows[j])
    ensures Without(m, p) == m
  {
    forall n | n in m ensures !p(RowOf(n, m[n])) {
      RowOfFound(rows, m, n);
    }
  }

  lemma DroppedAnyway(rows: seq<Row>, m: map<Name, Entry>, p: Row -> bool, i: nat)
    requires Shows(rows, m) && i < |rows| && p(rows[i])
    ensures Without(m - {rows[i].name}, p) == Without(m, p)
  {
    var name := rows[i].name;
    assert HasRow(m, rows[i]) && RowOf(name, m[name]) == rows[i];
    forall n | n in m && !p(RowOf(n, m[n])) ensures n in m - {name} {
    }
  }

  lemma {:induction false} CompactShows(rows: seq<Row>, m: map<Name, Entry>, p: Row -> bool, i: nat)
    requires Shows(rows, m) && i <= |rows|
    requires forall j :: 0 <= j < i ==> !p(rows[j])
    ensures Shows(Compact(rows, p, i), Without(m, p))
    decreases |rows| - i
  {
    hide Shows, Without;
    if i == |rows| {
      NothingToDrop(rows, m, p);
    } else if p(rows[i]) {
      SwapRemoveShows(rows, m, i);
      DroppedAnyway(rows, m, p, i);
      CompactShows(SwapRemove(rows, i), m - {rows[i].name}, p, i);
    } else {
      CompactShows(rows, m, p, i + 1);
    }
  }

  function ClearSeenMap(m: map<Name, Entry>): map<Name, Entry> {
    map name | name in m :: m[name].(seen := false)
  }

  lemma ClearSeenShows(rows: seq<Row>, m: map<Name, Entry>)
    requires Shows(rows, m)
    ensures Shows(ClearSeenRows(rows), ClearSeenMap(m))
  {
    var r, m' := ClearSeenRows(rows), ClearSeenMap(m);
    forall j | 0 <= j < |r| ensures HasRow(m', r[j]) {
      assert HasRow(m, rows[j]);
    }
    forall n | n in m' ensures IndexOf(r, n) >= 0 {
      assert r[IndexOf(rows, n)].name == n;
    }
  }

  function MarkSeenMap(m: map<Name, Entry>, name: Name): map<Name, Entry> {
    if name in m then m[name := m[name].(seen := true)] else m
  }

  lemma MarkSeenShows(rows: seq<Row>, m: map<Name, Entry>, name: Name)
    requires Shows(rows, m)
    ensures Shows(MarkSeenRows(rows, name), MarkSeenMap(m, name))
  {
    FindIsLookup(rows, m, name);
    var r, m', i := MarkSeenRows(rows, name), MarkSeenMap(m, name), IndexOf(rows, name);
    if i >= 0 {
      forall j | 0 <= j < |r| ensures HasRow(m', r[j]) {
        assert j != i ==> HasRow(m, rows[j]);
      }
      StillFound(rows, r, m', name, i);
    }
  }

  // ------------------------------------------------------ whole runs

  /** One call on the index, with what its allocations did. A failed upsert changes
      nothing; a failed block or vector allocation costs only the blocks or the
      counters beyond the fourth. */
  datatype Op =
    | Upsert(name: Name, meta: Meta, blocks: seq<Hash>, roomOk: bool, versionOk: bool, blocksOk: bool)
    | Forget(name: Name)
    | ForgetUnseen(before: int)
    | Prune(cutoff: int)
    | ClearSeen
    | MarkSeen(name: Name)

  function StoredMeta(m: Meta, allocOk: bool): Meta {
    Meta(m.core, StoredVersion(m.version, allocOk))
  }

  function StoredBlocks(blocks: seq<Hash>, allocOk: bool): seq<Hash> {
    if allocOk then blocks else []
  }

  function StepRows(rows: seq<Row>, op: Op): seq<Row> {
    match op
    case Upsert(name, meta, blocks, roomOk, versionOk, blocksOk) =>
      if IndexOf(rows, name) < 0 && !roomOk then rows
      else UpsertRows(rows, name, StoredMeta(meta, versionOk), StoredBlocks(blocks, blocksOk))
    case Forget(name) => ForgetRows(rows, name)
    case ForgetUnseen(before) => Compact(rows, row => IsVanished(row, before), 0)
    case Prune(cutoff) => Compact(rows, row => IsOldTombstone(row, cutoff), 0)
    case ClearSeen => ClearSeenRows(rows)
    case MarkSeen(name) => MarkSeenRows(rows, name)
  }

  /** How the allocations of one upsert went. */
  datatype Mem = Mem(room: bool, version: bool, blocks: bool)

  function PutRow(rows: seq<Row>, name: Name, meta: Meta, blocks: seq<Hash>, mem: Mem): seq<Row> {
    StepRows(rows, Op.Upsert(name, meta, blocks, mem.room, mem.version, mem.blocks))
  }

  function StepMap(m: map<Name, Entry>, op: Op): map<Name, Entry> {
    match op
    case Upsert(name, meta, blocks, roomOk, versionOk, blocksOk) =>
      if name !in m && !roomOk then m
      else UpsertMap(m, name, StoredMeta(meta, versionOk), StoredBlocks(blocks, blocksOk))
    case Forget(name) => m - {name}
    case ForgetUnseen(before) => Without(m, row => IsVanished(row, before))
    case Prune(cutoff) => Without(m, row => IsOldTombstone(row, cutoff))
    case ClearSeen => ClearSeenMap(m)
    case MarkSeen(name) => MarkSeenMap(m, name)
  }

  lemma StepShows(rows: seq<Row>, m: map<Name, Entry>, op: Op)
    requires Shows(rows, m)
    ensures Shows(StepRows(rows, op), StepMap(m, op))
  {
    hide Shows;
    match op
    case Upsert(name, meta, blocks, roomOk, versionOk, blocksOk) =>
      FindIsLookup(rows, m, name);
      UpsertShows(rows, m, name, StoredMeta(meta, versionOk), StoredBlocks(blocks, blocksOk));
    case Forget(name) => ForgetShows(rows, m, name);
    case ForgetUnseen(before) => CompactShows(rows, m, row => IsVanished(row, before), 0);
    case Prune(cutoff) => CompactShows(rows, m, row => IsOldTombstone(row, cutoff), 0);
    case ClearSeen => ClearSeenShows(rows, m);
    case MarkSeen(name) => MarkSeenShows(rows, m, name);
  }

  /** What one call does to the entry of a name, field by field. */
  lemma StepInFields(m: map<Name, Entry>, op: Op, n: Name)
    ensures var r := StepMap(m, op);
            match op
            case Upsert(name, meta, blocks, roomOk, versionOk, blocksOk) =>
              var kept := if |meta.version| <= 4 then |meta.version| else if !versionOk then 4 else Min(|meta.version|, 16);
              && (n in r <==> n in m || (n == name && roomOk))
              && (n in m && n != name ==> r[n] == m[n])
              && (n in r && n == name ==>
                    && r[n].meta.core == meta.core && r[n].meta.version == meta.version[..kept]
                    && r[n].blocks == (if blocksOk then blocks else []) && r[n].seen == (n in m && m[n].seen))
            case Forget(name) => (n in r <==> n in m && n != name) && (n in r ==> r[n] == m[n])
            case ForgetUnseen(before) =>
              && (n in r <==>
                    && n in m
                    && var c := m[n].meta.core;
                       c.deleted != 0 || c.invalid != 0 || m[n].seen || c.sequence > before)
              && (n in r ==> r[n] == m[n])
            case Prune(cutoff) =>
              && (n in r <==> n in m && (m[n].meta.core.deleted == 0 || m[n].meta.core.modifiedS >= cutoff))
              && (n in r ==> r[n] == m[n])
            case ClearSeen =>
              (n in r <==> n in m) && (n in r ==> r[n].meta == m[n].meta && r[n].blocks == m[n].blocks && !r[n].seen)
            case MarkSeen(name) =>
              && (n in r <==> n in m)
              && (n in r ==> r[n].meta == m[n].meta && r[n].blocks == m[n].blocks && r[n].seen == (m[n].seen || n == name))
  {
  }

  /** The compaction loop keeps exactly the rows that p does not select. */
  lemma {:induction false} CompactKeeps(rows: seq<Row>, p: Row -> bool, i: nat, row: Row)
    requires i <= |rows| && forall j :: 0 <= j < i ==> !p(rows[j])
    ensures row in Compact(rows, p, i) <==> row in rows && !p(row)
    decreases |rows| - i
  {
    if i < |rows| {
      if p(rows[i]) {
        var r := SwapRemove(rows, i);
        CompactKeeps(r, p, i, row);
        if row in rows && !p(row) {
          var j :| 0 <= j < |rows| && rows[j] == row;
          assert row == r[if j == |r| then i else j];
        }
      } else {
        CompactKeeps(rows, p, i + 1, row);
      }
    }
  }

  /** And it removes something only if p selects something. */
  lemma {:induction false} CompactShrinks(rows: seq<Row>, p: Row -> bool, i: nat)
    requires i <= |rows| && forall j :: 0 <= j < i ==> !p(rows[j])
    ensures |Compact(rows, p, i)| < |rows| <==> exists k :: 0 <= k < |rows| && p(rows[k])
    decreases |rows| - i
  {
    if i < |rows| && !p(rows[i]) {
      CompactShrinks(rows, p, i + 1);
    }
  }

  /** Pruning keeps the live records and the tombstones not older than the cutoff. */
  lemma PruneKeeps(rows: seq<Row>, cutoff: int, row: Row)
    ensures row in StepRows(rows, Prune(cutoff)) <==>
              row in rows && (row.meta.core.deleted == 0 || row.meta.core.modifiedS >= cutoff)
  {
    CompactKeeps(rows, row => IsOldTombstone(row, cutoff), 0, row);
  }

  /** Forgetting the unseen keeps tombstones, placeholders, what was seen and what
      is newer than the walk. */
  lemma ForgetUnseenKeeps(rows: seq<Row>, before: int, row: Row)
    ensures row in StepRows(rows, ForgetUnseen(before)) <==>
              && row in rows
              && var c := row.meta.core;
                 c.deleted != 0 || c.invalid != 0 || row.seen || c.sequence > before
  {
    CompactKeeps(rows, row => IsVanished(row, before), 0, row);
  }

  lemma ForgetKeeps(rows: seq<Row>, name: Name, row: Row)
    requires Unique(rows)
    ensures row in StepRows(rows, Forget(name)) <==> row in rows && row.name != name
  {
    var i := IndexOf(rows, name);
    if i >= 0 {
      var r := SwapRemove(rows, i);
      if row in rows && row.name != name {
        var j :| 0 <= j < |rows| && rows[j] == row;
        assert row == r[if j == |r| then i else j];
      }
    }
  }

  function RunRows(rows: seq<Row>, ops: seq<Op>): seq<Row>
    decreases |ops|
  {
    if ops == [] then rows else RunRows(StepRows(rows, ops[0]), ops[1..])
  }

  function RunMap(m: map<Name, Entry>, ops: seq<Op>): map<Name, Entry>
    decreases |ops|
  {
    if ops == [] then m else RunMap(StepMap(m, ops[0]), ops[1..])
  }

  /** Over any run from the empty index, with allocations failing anywhere, the
      table and the map agree: find gives, for every name, the map's entry. */
  lemma {:induction false} RunAgrees(rows: seq<Row>, m: map<Name, Entry>, ops: seq<Op>)
    requires Shows(rows, m)
    ensures Shows(RunRows(rows, ops), RunMap(m, ops))
    decreases |ops|
  {
    if ops != [] {
      StepShows(rows, m, ops[0]);
      RunAgrees(StepRows(rows, ops[0]), StepMap(m, ops[0]), ops[1..]);
    }
  }
}
