/**
  When the index of a folder reaches the disk: the dirty flag, the snapshot taken
  under the lock by save_folder (src/scanner.c), the file written outside it by
  folder_state_write (src/folder.c), and load_folder_index (src/daemon.c). Workers
  may change the index between any two steps of a save.
*/
module SaveProtocol {
  import opened Bytes
  import opened PbufFormat
  import opened FoldRows
  import opened FoldState
  import opened IndexFormat
  import opened IndexLaws
  import opened IndexStore
  import opened IndexLoad

  /** An index as a file can hold it: its sequence and its records without marks. */
  datatype Image = Image(sequence: int, rows: seq<Row>)

  function ImageOf(sequence: int, rows: seq<Row>): Image {
    Image(sequence, RestoredAll(rows))
  }

  /** What a restart would load: nothing from a missing or unreadable file. */
  function Reload(disk: Option<seq<byte>>, id: Owner): Image {
    if disk.None? || Decoded(disk.value, id).None? then Image(0, [])
    else ImageOf(Decoded(disk.value, id).value.0, Decoded(disk.value, id).value.1)
  }

  /** Where a save is: not running; with a snapshot; writing it into the temporary file,
      which holds the front of it so far; with the temporary file complete and the old one
      out of the way if it could be deleted; or failed, the flag not yet set. */
  datatype Saver =
    | Idle
    | Snapped(buf: seq<byte>)
    | Writing(buf: seq<byte>)
    | Replacing(buf: seq<byte>)
    | Failed

  datatype State = State(id: Owner, sequence: int, rows: seq<Row>, dirty: bool, disk: Option<seq<byte>>,
                         temp: Option<seq<byte>>, saver: Saver)

  function Current(s: State): Image {
    ImageOf(s.sequence, s.rows)
  }

  datatype Event =
    | Change(op: Op)
    | NextSeq
    | Adopt(i: nat, version: seq<Counter>)
    | Snapshot(prune: bool, cutoff: int, memory: bool)
    | OpenTemp(ok: bool)
    | WriteTemp(n: nat)
    | WriteFails(left: bool)
    | DeleteOld(gone: bool)
    | Rename(ok: bool, left: bool)
    | FlagAgain

  // --------------------------------------------------------------- steps

  /** Whether a call leaves the flag set, by the contracts of FolderState. */
  function DirtyAfter(rows: seq<Row>, dirty: bool, op: Op): bool {
    match op
    case Upsert(name, _, _, roomOk, _, _) => dirty || IndexOf(rows, name) >= 0 || roomOk
    case Forget(name) => dirty || IndexOf(rows, name) >= 0
    case ForgetUnseen(_) => dirty || |StepRows(rows, op)| < |rows|
    case Prune(_) => dirty || |StepRows(rows, op)| < |rows|
    case ClearSeen => dirty
    case MarkSeen(_) => dirty
  }

  function Pruned(rows: seq<Row>, prune: bool, cutoff: int): seq<Row> {
    if prune then StepRows(rows, Op.Prune(cutoff)) else rows
  }

  function TakeSnapshot(s: State, prune: bool, cutoff: int, memory: bool): State {
    if !s.dirty then s
    else
      var rows := Pruned(s.rows, prune, cutoff);
      var buf := Encoded(s.id, s.sequence, rows);
      if memory && |buf| <= IndexSize(rows) then s.(rows := rows, dirty := false, saver := Snapped(buf))
      else s.(rows := rows)
  }

  /** A new record is taken only below the ceiling; the contract of Upsert. */
  predicate Fits(rows: seq<Row>, op: Op) {
    op.Upsert? && op.roomOk && IndexOf(rows, op.name) < 0 ==> |rows| < FOLDSTATE_MAX_FILES
  }

  predicate Enabled(s: State, e: Event) {
    match e
    case Change(op) => OpStorable(op) && Fits(s.rows, op)
    case NextSeq => s.sequence + 1 < TWO63
    case Adopt(i, version) => i < |s.rows| && CountersFit(version) && |version| <= BEP_MAX_COUNTERS
    case Snapshot(_, _, _) => s.saver.Idle?
    case OpenTemp(_) => s.saver.Snapped?
    case WriteTemp(n) => s.saver.Writing? && s.temp.Some? && |s.temp.value| < n <= |s.saver.buf|
    case WriteFails(_) => s.saver.Writing?
    case DeleteOld(_) => s.saver.Writing? && s.temp.Some? && |s.temp.value| == |s.saver.buf|
    case Rename(ok, _) => s.saver.Replacing? && (ok ==> s.disk.None? && s.temp.Some?)
    case FlagAgain => s.saver.Failed?
  }

  function StepState(s: State, e: Event): State
    requires Enabled(s, e)
  {
    match e
    case Change(op) => s.(rows := StepRows(s.rows, op), dirty := DirtyAfter(s.rows, s.dirty, op))
    case NextSeq => s.(sequence := s.sequence + 1, dirty := true)
    case Adopt(i, version) => s.(rows := s.rows[i := s.rows[i].(meta := s.rows[i].meta.(version := version))], dirty := true)
    case Snapshot(prune, cutoff, memory) => TakeSnapshot(s, prune, cutoff, memory)
    case OpenTemp(ok) => if ok then s.(temp := Some([]), saver := Writing(s.saver.buf)) else s.(saver := Failed)
    case WriteTemp(n) => s.(temp := Some(s.saver.buf[..n]))
    case WriteFails(left) => s.(temp := if left then s.temp else None, saver := Failed)
    case DeleteOld(gone) => s.(disk := if gone then None else s.disk, saver := Replacing(s.saver.buf))
    case Rename(ok, left) =>
      if ok then s.(disk := s.temp, temp := None, saver := Idle)
      else s.(temp := if left then s.temp else None, saver := Failed)
    case FlagAgain => s.(dirty := true, saver := Idle)
  }

  // ----------------------------------------------------------- invariant

  /** Records are what C's types allow, and names are unique. */
  predicate Sound(s: State) {
    OwnerOk(s.id) && IsInt64(s.sequence) && Unique(s.rows) && AllStorable(s.rows) && |s.rows| <= FOLDSTATE_MAX_FILES
  }

  /** With the flag clear, the disk holds the index, or the save under way will put
      it there. */
  predicate Saved(s: State) {
    match s.saver
    case Idle => !s.dirty ==> Reload(s.disk, s.id) == Current(s)
    case Failed => true
    case _ => !s.dirty ==> Reload(Some(s.saver.buf), s.id) == Current(s)
  }

  /** What is in the temporary file is the front of the snapshot, all of it before it
      takes the old file's place. */
  predicate TempOk(s: State) {
    match s.saver
    case Writing(buf) => s.temp.Some? && s.temp.value <= buf
    case Replacing(buf) => s.temp == Some(buf)
    case _ => true
  }

  predicate Inv(s: State) {
    Sound(s) && Saved(s) && TempOk(s)
  }

  predicate OpStorable(op: Op) {
    op.Upsert? ==> Storable(Row(op.name, op.meta, op.blocks, false))
  }

  lemma StoredStorable(op: Op, seen: bool)
    requires op.Upsert? && OpStorable(op)
    ensures Storable(Row(op.name, StoredMeta(op.meta, op.versionOk), StoredBlocks(op.blocks, op.blocksOk), seen))
  {
  }

  lemma SwapRemoveStorable(rows: seq<Row>, i: nat)
    requires AllStorable(rows) && i < |rows|
    ensures AllStorable(SwapRemove(rows, i))
  {
    hide Storable;
  }

  lemma {:induction false} CompactSound(rows: seq<Row>, p: Row -> bool, i: nat)
    requires Unique(rows) && AllStorable(rows) && i <= |rows|
    ensures Unique(Compact(rows, p, i)) && AllStorable(Compact(rows, p, i))
    ensures |Compact(rows, p, i)| == |rows| ==> Compact(rows, p, i) == rows
    decreases |rows| - i
  {
    hide Unique, AllStorable;
    if i < |rows| {
      if p(rows[i]) {
        SwapRemoveUnique(rows, i);
        SwapRemoveStorable(rows, i);
        CompactSound(SwapRemove(rows, i), p, i);
      } else {
        CompactSound(rows, p, i + 1);
      }
    }
  }

  lemma UpsertSound(rows: seq<Row>, op: Op)
    requires Unique(rows) && AllStorable(rows) && OpStorable(op) && op.Upsert?
    ensures Unique(StepRows(rows, op)) && AllStorable(StepRows(rows, op))
  {
    hide Storable;
    var meta, blocks := StoredMeta(op.meta, op.versionOk), StoredBlocks(op.blocks, op.blocksOk);
    var i := IndexOf(rows, op.name);
    StoredStorable(op, false);
    if i >= 0 {
      StoredStorable(op, rows[i].seen);
      assert rows[i].(meta := meta, blocks := blocks) == Row(op.name, meta, blocks, rows[i].seen);
    }
  }

  lemma SeenStorable(row: Row, seen: bool)
    ensures Storable(row.(seen := seen)) <==> Storable(row)
    ensures Restored(row.(seen := seen)) == Restored(row)
  {
  }

  lemma SeenSound(rows: seq<Row>, rows': seq<Row>)
    requires Unique(rows) && AllStorable(rows) && |rows'| == |rows|
    requires forall i :: 0 <= i < |rows| ==> rows'[i] == rows[i].(seen := rows'[i].seen)
    ensures Unique(rows') && AllStorable(rows') && RestoredAll(rows') == RestoredAll(rows)
  {
    hide Storable, Restored;
    forall i | 0 <= i < |rows| ensures Storable(rows'[i]) && Restored(rows'[i]) == Restored(rows[i]) {
      SeenStorable(rows[i], rows'[i].seen);
    }
  }

  /** No call breaks the records, and one that does not raise the flag changes nothing
      a file would hold. */
  lemma ChangeSound(rows: seq<Row>, dirty: bool, op: Op)
    requires Unique(rows) && AllStorable(rows) && OpStorable(op) && Fits(rows, op)
    ensures Unique(StepRows(rows, op)) && AllStorable(StepRows(rows, op))
    ensures |StepRows(rows, op)| <= Max(|rows|, FOLDSTATE_MAX_FILES)
    ensures !DirtyAfter(rows, dirty, op) ==> RestoredAll(StepRows(rows, op)) == RestoredAll(rows)
  {
    hide Unique, AllStorable, OpStorable, RestoredAll, Compact, SwapRemove;
    match op
    case Upsert(_, _, _, _, _, _) => UpsertSound(rows, op);
    case Forget(name) =>
      if IndexOf(rows, name) >= 0 {
        SwapRemoveUnique(rows, IndexOf(rows, name));
        SwapRemoveStorable(rows, IndexOf(rows, name));
      }
    case ForgetUnseen(before) => CompactSound(rows, row => IsVanished(row, before), 0);
    case Prune(cutoff) => CompactSound(rows, row => IsOldTombstone(row, cutoff), 0);
    case ClearSeen => SeenSound(rows, ClearSeenRows(rows));
    case MarkSeen(name) => SeenSound(rows, MarkSeenRows(rows, name));
  }

  lemma RestoredAgain(rows: seq<Row>)
    ensures RestoredAll(RestoredAll(rows)) == RestoredAll(rows)
  {
  }

  /** A snapshot reloads as the index it was taken of. */
  lemma SnapshotReloads(id: Owner, sequence: int, rows: seq<Row>)
    requires OwnerOk(id) && IsInt64(sequence) && Unique(rows) && AllStorable(rows) && |rows| <= FOLDSTATE_MAX_FILES
    ensures Reload(Some(Encoded(id, sequence, rows)), id) == ImageOf(sequence, rows)
  {
    hide RestoredAll, Encoded, Decoded, Unique, AllStorable;
    IndexRoundTrip(id, sequence, rows);
    RestoredAgain(rows);
  }

  lemma SnapshotKeeps(s: State, prune: bool, cutoff: int, memory: bool)
    requires Inv(s) && s.saver.Idle?
    ensures Inv(TakeSnapshot(s, prune, cutoff, memory))
  {
    hide RestoredAll, Encoded, Unique, AllStorable, OwnerOk, IndexSize, Decoded, StepRows;
    if s.dirty {
      if prune {
        PruneSound(s.rows, cutoff);
      }
      SnapshotReloads(s.id, s.sequence, Pruned(s.rows, prune, cutoff));
    }
  }

  lemma PruneSound(rows: seq<Row>, cutoff: int)
    requires Unique(rows) && AllStorable(rows)
    ensures var r := StepRows(rows, Op.Prune(cutoff)); Unique(r) && AllStorable(r) && |r| <= |rows|
  {
    hide Unique, AllStorable;
    CompactSound(rows, row => IsOldTombstone(row, cutoff), 0);
  }

  lemma AdoptSound(rows: seq<Row>, i: nat, version: seq<Counter>)
    requires Unique(rows) && AllStorable(rows) && i < |rows| && CountersFit(version) && |version| <= BEP_MAX_COUNTERS
    ensures var r := rows[i := rows[i].(meta := rows[i].meta.(version := version))]; Unique(r) && AllStorable(r)
  {
    var row := rows[i].(meta := rows[i].meta.(version := version));
    assert Storable(row);
    hide Storable;
  }

  lemma StepKeeps(s: State, e: Event)
    requires Inv(s) && Enabled(s, e)
    ensures Inv(StepState(s, e))
  {
    hide RestoredAll, Encoded, Unique, AllStorable, OpStorable, OwnerOk, IndexSize, Decoded, StepRows, DirtyAfter;
    match e
    case Change(op) =>
      ChangeSound(s.rows, s.dirty, op);
      FlagStays(s.rows, s.dirty, op);
    case Adopt(i, version) => AdoptSound(s.rows, i, version);
    case Snapshot(prune, cutoff, memory) => SnapshotKeeps(s, prune, cutoff, memory);
    case DeleteOld(_) => assert s.temp.value == s.saver.buf;
    case _ =>
  }

  lemma FlagStays(rows: seq<Row>, dirty: bool, op: Op)
    ensures dirty ==> DirtyAfter(rows, dirty, op)
  {
  }

  // ----------------------------------------------------------- whole runs

  /** States one after the other, each by an enabled event. */
  predicate IsRun(states: seq<State>, events: seq<Event>) {
    && |states| == |events| + 1
    && forall k :: 0 <= k < |events| ==>
                     Enabled(states[k], events[k]) && states[k + 1] == StepState(states[k], events[k])
  }

  /** Over every run: whenever the flag is clear and no save is in flight, a restart
      would load exactly the current index. */
  lemma {:induction false} CleanMeansSaved(states: seq<State>, events: seq<Event>, k: nat)
    requires IsRun(states, events) && Inv(states[0]) && k < |states|
    ensures Inv(states[k])
    ensures !states[k].dirty && states[k].saver.Idle? ==> Reload(states[k].disk, states[k].id) == Current(states[k])
    ensures var s := states[k];
            !s.dirty && s.saver.Idle? ==>
              if s.disk.Some? && Decoded(s.disk.value, s.id).Some?
              then Decoded(s.disk.value, s.id).value.0 == s.sequence
                   && RestoredAll(Decoded(s.disk.value, s.id).value.1) == RestoredAll(s.rows)
              else s.sequence == 0 && |s.rows| == 0
  {
    hide Reload, Current, Sound, StepState, Decoded, RestoredAll;
    if k > 0 {
      CleanMeansSaved(states, events, k - 1);
      StepKeeps(states[k - 1], events[k - 1]);
    }
    ReloadIs(states[k]);
  }

  lemma ReloadIs(s: State)
    ensures Reload(s.disk, s.id) == Current(s) <==>
              if s.disk.Some? && Decoded(s.disk.value, s.id).Some?
              then Decoded(s.disk.value, s.id).value.0 == s.sequence
                   && RestoredAll(Decoded(s.disk.value, s.id).value.1) == RestoredAll(s.rows)
              else s.sequence == 0 && |s.rows| == 0
  {
    hide Decoded, Restored;
    assert |RestoredAll(s.rows)| == |s.rows|;
  }

  /** Which calls raise the flag. */
  lemma DirtyExactly(rows: seq<Row>, op: Op)
    ensures DirtyAfter(rows, true, op)
    ensures DirtyAfter(rows, false, op) <==>
            match op
            case Upsert(name, _, _, roomOk, _, _) => roomOk || exists k :: 0 <= k < |rows| && rows[k].name == name
            case Forget(name) => exists k :: 0 <= k < |rows| && rows[k].name == name
            case ForgetUnseen(before) =>
              exists k :: 0 <= k < |rows| && !rows[k].seen && rows[k].meta.core.deleted == 0
                          && rows[k].meta.core.invalid == 0 && rows[k].meta.core.sequence <= before
            case Prune(cutoff) =>
              exists k :: 0 <= k < |rows| && rows[k].meta.core.deleted != 0 && rows[k].meta.core.modifiedS < cutoff
            case ClearSeen => false
            case MarkSeen(_) => false
  {
    match op
    case ForgetUnseen(before) => CompactShrinks(rows, row => IsVanished(row, before), 0);
    case Prune(cutoff) => CompactShrinks(rows, row => IsOldTombstone(row, cutoff), 0);
    case _ =>
  }

  /** What a worker does at any point of a save, the flag does not go down before the
      next snapshot. */
  lemma {:induction false} FlagHolds(states: seq<State>, events: seq<Event>, j: nat, k: nat)
    requires IsRun(states, events) && j <= k < |states| && states[j].dirty
    requires forall e :: j <= e < k ==> !events[e].Snapshot?
    ensures states[k].dirty
    decreases k - j
  {
    if j < k {
      var s, e := states[j], events[j];
      if e.Change? {
        FlagStays(s.rows, s.dirty, e.op);
      }
      FlagHolds(states, events, j + 1, k);
    }
  }

  /** Whatever the save is doing, records, marks, removals and new numbers may come
      between. */
  lemma NothingWaitsForASave(s: State, op: Op)
    requires s.sequence < 0x7FFF_FFFF_FFFF_FFFF
    requires op.Upsert? ==> Storable(Row(op.name, op.meta, op.blocks, false)) &&
                            (|s.rows| < 100000 || !op.roomOk || IndexOf(s.rows, op.name) >= 0)
    ensures Enabled(s, Change(op)) && Enabled(s, NextSeq) && StepState(s, NextSeq).sequence == s.sequence + 1
    ensures StepState(s, Change(op)).rows == StepRows(s.rows, op) && StepState(s, NextSeq).dirty
  {
  }

  /** A save that nothing goes wrong with puts the index on disk and leaves the flag
      down: the five steps of it one after the other. */
  lemma SaveCompletes(s: State, prune: bool, cutoff: int, left: bool) returns (states: seq<State>, events: seq<Event>)
    requires Sound(s) && s.saver.Idle? && s.dirty && s.sequence >= 0
    ensures IsRun(states, events) && states[0] == s && |states| == 6
    ensures events[0] == Snapshot(prune, cutoff, true) && events[4] == Rename(true, left)
    ensures var t := states[5];
            && t.saver.Idle? && !t.dirty && t.temp == None && t.sequence == s.sequence && t.id == s.id
            && t.rows == (if prune then StepRows(s.rows, Op.Prune(cutoff)) else s.rows)
            && t.disk == Some(Encoded(t.id, t.sequence, t.rows))
  {
    hide Encoded, IsRun, Enabled, StepState, IndexSize, StepRows, Sound;
    var buf, s1, s2, s3, s4, s5 := SaveSteps(s, prune, cutoff, left);
    states, events := [s], [];
    RunStart(s);
    RunMore(states, events, Snapshot(prune, cutoff, true), s1);
    states, events := states + [s1], events + [Snapshot(prune, cutoff, true)];
    RunMore(states, events, OpenTemp(true), s2);
    states, events := states + [s2], events + [OpenTemp(true)];
    RunMore(states, events, WriteTemp(|buf|), s3);
    states, events := states + [s3], events + [WriteTemp(|buf|)];
    RunMore(states, events, DeleteOld(true), s4);
    states, events := states + [s4], events + [DeleteOld(true)];
    RunMore(states, events, Rename(true, left), s5);
    states, events := states + [s5], events + [Rename(true, left)];
  }

  lemma RunStart(s: State)
    ensures IsRun([s], [])
  {
  }

  lemma RunMore(states: seq<State>, events: seq<Event>, e: Event, t: State)
    requires IsRun(states, events) && Enabled(states[|events|], e) && t == StepState(states[|events|], e)
    ensures IsRun(states + [t], events + [e])
  {
    hide Enabled, StepState;
  }

  lemma SaveSteps(s: State, prune: bool, cutoff: int, left: bool)
    returns (buf: seq<byte>, s1: State, s2: State, s3: State, s4: State, s5: State)
    requires Sound(s) && s.saver.Idle? && s.dirty && s.sequence >= 0
    ensures Enabled(s, Snapshot(prune, cutoff, true)) && StepState(s, Snapshot(prune, cutoff, true)) == s1
    ensures Enabled(s1, OpenTemp(true)) && StepState(s1, OpenTemp(true)) == s2
    ensures Enabled(s2, WriteTemp(|buf|)) && StepState(s2, WriteTemp(|buf|)) == s3
    ensures Enabled(s3, DeleteOld(true)) && StepState(s3, DeleteOld(true)) == s4
    ensures Enabled(s4, Rename(true, left)) && StepState(s4, Rename(true, left)) == s5
    ensures var rows := if prune then StepRows(s.rows, Op.Prune(cutoff)) else s.rows;
            s5 == State(s.id, s.sequence, rows, false, Some(Encoded(s.id, s.sequence, rows)), None, Idle)
  {
    hide Encoded, IndexSize, StepRows;
    PruneSound(s.rows, cutoff);
    var rows := Pruned(s.rows, prune, cutoff);
    buf := Encoded(s.id, s.sequence, rows);
    EstimateIsEnough(s.id, s.sequence, rows);
    EncodedSome(s.id, s.sequence, rows);
    s1 := s.(rows := rows, dirty := false, saver := Snapped(buf));
    s2 := s1.(temp := Some([]), saver := Writing(buf));
    s3 := s2.(temp := Some(buf));
    s4 := s3.(disk := None, saver := Replacing(buf));
    s5 := s4.(disk := Some(buf), temp := None, saver := Idle);
    assert buf[..|buf|] == buf;
  }

  /** The file b reloads as the index of some moment up to k. */
  predicate WasCurrent(states: seq<State>, k: nat, b: seq<byte>)
    requires k < |states|
  {
    exists j :: 0 <= j <= k && Reload(Some(b), states[j].id) == Current(states[j])
  }

  predicate WholeFile(states: seq<State>, k: nat)
    requires k < |states|
  {
    && (states[k].disk in {states[0].disk, None} || WasCurrent(states, k, states[k].disk.value))
    && (InFlight(states[k]) ==> WasCurrent(states, k, states[k].saver.buf))
  }

  predicate InFlight(s: State) {
    s.saver.Snapped? || s.saver.Writing? || s.saver.Replacing?
  }

  lemma FileSteps(s: State, e: Event)
    requires Enabled(s, e) && TempOk(s)
    ensures var t := StepState(s, e);
            && (t.disk == s.disk || t.disk == None || (InFlight(s) && t.disk == Some(s.saver.buf)))
            && (InFlight(t) && InFlight(s) ==> t.saver.buf == s.saver.buf)
            && (InFlight(t) && !InFlight(s) ==> t.saver.Snapped? && !t.dirty)
  {
    hide Encoded, StepRows, DirtyAfter, IndexSize, OpStorable, CountersFit, Pruned;
  }

  lemma Later(states: seq<State>, k: nat, b: seq<byte>)
    requires k + 1 < |states|
    ensures WasCurrent(states, k, b) ==> WasCurrent(states, k + 1, b)
  {
  }

  /** Whatever happens to a save, the file is at every moment the one there was at the
      start, or missing, or the whole index of one moment of the run: never part of one,
      never a mixture. */
  lemma {:induction false} NeverHalfWritten(states: seq<State>, events: seq<Event>, k: nat)
    requires IsRun(states, events) && Inv(states[0]) && states[0].saver.Idle? && k < |states|
    ensures WholeFile(states, k)
  {
    hide Reload, Current, Sound, StepState, WasCurrent, Enabled;
    if k > 0 {
      NeverHalfWritten(states, events, k - 1);
      CleanMeansSaved(states, events, k);
      CleanMeansSaved(states, events, k - 1);
      var s, t := states[k - 1], states[k];
      FileSteps(s, events[k - 1]);
      if t.disk.Some? {
        Later(states, k - 1, t.disk.value);
      }
      if InFlight(t) {
        Later(states, k - 1, t.saver.buf);
        if !InFlight(s) {
          CurrentNow(states, k, t.saver.buf);
        }
      }
    }
  }

  lemma CurrentNow(states: seq<State>, k: nat, b: seq<byte>)
    requires k < |states| && Reload(Some(b), states[k].id) == Current(states[k])
    ensures WasCurrent(states, k, b)
  {
  }

  // -------------------------------------------------------------- loading

  /** How far load_folder_index got with the file: its size is unknown; no memory for a
      buffer of that size; the read failed or came up short; or all of it was read. */
  datatype Reading = NoSize | NoBuffer | Short | Whole

  /** A file decoded at all: it is there, not empty, and all of it was read. */
  predicate Decodes(disk: Option<seq<byte>>, reading: Reading) {
    disk.Some? && disk.value != [] && reading.Whole?
  }

  /** mems tells of the allocations for each record of the file. */
  predicate Fitting(id: Owner, disk: Option<seq<byte>>, reading: Reading, mems: seq<Mem>) {
    Decodes(disk, reading) && FileOf(disk.value, id).Some? ==> |mems| == |FileOf(disk.value, id).value.records|
  }

  /** load_folder_index into a fresh index. */
  function Loaded(id: Owner, disk: Option<seq<byte>>, reading: Reading, mems: seq<Mem>): State
    requires Fitting(id, disk, reading, mems)
  {
    var file := if Decodes(disk, reading) then FileOf(disk.value, id) else None;
    var got := if file.Some? then Restore(file.value, mems) else None;
    if got.None? then State(id, 0, [], false, disk, None, Idle)
    else State(id, got.value.0, got.value.1, false, disk, None, Idle)
  }

  /** Nothing was missing: the whole file was read, and every allocation asked for while
      decoding it was granted. */
  predicate NothingMissing(id: Owner, disk: Option<seq<byte>>, reading: Reading, mems: seq<Mem>)
    requires Fitting(id, disk, reading, mems)
  {
    reading.Whole? &&
    (Decodes(disk, reading) && FileOf(disk.value, id).Some? ==> AllGranted(FileOf(disk.value, id).value.records, mems))
  }

  /** A file that counts its records and names none of them twice, as every file written
      by index_store_encode does. */
  predicate Honest(f: File) {
    Distinct(f.records) && f.count == |f.records| <= FOLDSTATE_MAX_FILES
  }

  predicate HonestFile(id: Owner, disk: Option<seq<byte>>) {
    disk.Some? && FileOf(disk.value, id).Some? ==> Honest(FileOf(disk.value, id).value)
  }

  /** After loading, the clear flag tells the truth if and only if nothing was missing, or
      there was nothing to miss. */
  lemma LoadIsSaved(id: Owner, disk: Option<seq<byte>>, reading: Reading, mems: seq<Mem>)
    requires Fitting(id, disk, reading, mems)
    requires disk.Some? && FileOf(disk.value, id).Some? ==>
               var f := FileOf(disk.value, id).value; Distinct(f.records) && f.count == |f.records| <= 100000
    ensures Saved(Loaded(id, disk, reading, mems)) <==>
            NothingMissing(id, disk, reading, mems) || Reload(disk, id) == Image(0, [])
  {
    hide RestoredAll, FileOf, AllGranted, Distinct, CommitAll;
    NoneRestored();
    EmptyFile(id);
    if Decodes(disk, reading) && FileOf(disk.value, id).Some? {
      var f := FileOf(disk.value, id).value;
      RestoredIfGranted(f.records, mems);
      RestoredCount(CommitAll(f.records, Plenty(|f.records|)));
      if !AllGranted(f.records, mems) {
        SomeRecord(f.records, mems);
      }
    }
  }

  lemma SomeRecord(cs: seq<Cur>, mems: seq<Mem>)
    requires |cs| == |mems| && !AllGranted(cs, mems)
    ensures cs != []
  {
  }

  /** For any file at all: what was not read is missed unless nothing was in it, and with
      nothing missing the flag tells the truth. */
  lemma LoadOfAnyFile(id: Owner, disk: Option<seq<byte>>, reading: Reading, mems: seq<Mem>)
    requires Fitting(id, disk, reading, mems)
    ensures !reading.Whole? ==> (Saved(Loaded(id, disk, reading, mems)) <==> Reload(disk, id) == Image(0, []))
    ensures NothingMissing(id, disk, reading, mems) ==> Saved(Loaded(id, disk, reading, mems))
  {
    hide RestoredAll, FileOf, AllGranted, CommitAll;
    NoneRestored();
    EmptyFile(id);
    if NothingMissing(id, disk, reading, mems) && Decodes(disk, reading) && FileOf(disk.value, id).Some? {
      GrantedIsPlenty(FileOf(disk.value, id).value.records, mems);
    }
  }

  /** An index comes back from its file and is rightly clean if and only if the file was
      read, and each record had room, each vector of more than four counters its memory
      and each block list its own; or the index was the empty one. */
  lemma SavedIndexLoads(id: Owner, sequence: int, rows: seq<Row>, reading: Reading, mems: seq<Mem>)
    requires OwnerOk(id) && IsInt64(sequence) && Unique(rows) && AllStorable(rows) && |rows| <= FOLDSTATE_MAX_FILES
    requires |mems| == |rows|
    ensures var disk := Some(Encoded(id, sequence, rows));
            Fitting(id, disk, reading, mems) && HonestFile(id, disk) &&
            (Saved(Loaded(id, disk, reading, mems)) <==>
             (reading.Whole? && forall k :: 0 <= k < |rows| ==> RowGranted(rows[k], mems[k])) || (sequence == 0 && rows == []))
  {
    hide Saved, Loaded, Encoded, FileOf, AllGranted, Distinct, RestoredAll, AllStorable, OwnerOk, Unique, Curs, RowGranted;
    var disk := Some(Encoded(id, sequence, rows));
    FileWritten(id, sequence, rows);
    CursCount(rows);
    CursDistinct(rows);
    EncodedSome(id, sequence, rows);
    LoadIsSaved(id, disk, reading, mems);
    SnapshotReloads(id, sequence, rows);
    RestoredCount(rows);
    NoneRestored();
    RowsGranted(rows, mems);
  }

  predicate RowGranted(row: Row, mem: Mem) {
    mem.room && (|row.meta.version| > FOLDREC_VIN ==> mem.version) && (row.blocks != [] ==> mem.blocks)
  }

  lemma RowsGranted(rows: seq<Row>, mems: seq<Mem>)
    requires AllStorable(rows) && |mems| == |rows|
    ensures |Curs(rows)| == |rows|
    ensures AllGranted(Curs(rows), mems) <==> forall k :: 0 <= k < |rows| ==> RowGranted(rows[k], mems[k])
  {
    hide CurOf, Granted, RowGranted, Storable;
    forall k | 0 <= k < |rows| ensures Granted(Curs(rows)[k], mems[k]) == RowGranted(rows[k], mems[k]) {
      CurGranted(rows[k], mems[k]);
    }
  }

  lemma CurGranted(row: Row, mem: Mem)
    requires Storable(row)
    ensures Granted(CurOf(row), mem) == RowGranted(row, mem)
  {
    hide Flat, Split;
    SplitFlat(row.blocks);
  }

  lemma NoneRestored()
    ensures RestoredAll([]) == []
  {
  }

  lemma EmptyFile(id: Owner)
    ensures FileOf([], id) == None
  {
    assert Parse([], 0) == Parsed([], true);
  }

  /** With a saved record on disk and no memory to read it, the index is empty, the flag
      clear, and the disk says something else. */
  lemma LoadWithoutMemory(id: Owner, sequence: int, row: Row)
    requires OwnerOk(id) && IsInt64(sequence) && Storable(row)
    ensures var disk, all := Some(Encoded(id, sequence, [row])), Plenty(1);
            Fitting(id, disk, NoBuffer, all) && !Saved(Loaded(id, disk, NoBuffer, all)) &&
            Fitting(id, disk, Whole, all) && Saved(Loaded(id, disk, Whole, all))
  {
    hide Encoded, Storable, Loaded, Saved;
    SavedIndexLoads(id, sequence, [row], NoBuffer, Plenty(1));
    SavedIndexLoads(id, sequence, [row], Whole, Plenty(1));
  }

  /** And with memory for all but one block list, the record comes back without it and
      counts as saved. */
  lemma LoadWithoutBlocks(id: Owner, sequence: int, row: Row)
    requires OwnerOk(id) && IsInt64(sequence) && Storable(row) && row.blocks != []
    ensures var disk, mems := Some(Encoded(id, sequence, [row])), [Mem(true, true, false)];
            Fitting(id, disk, Whole, mems) &&
            var s := Loaded(id, disk, Whole, mems);
            |s.rows| == 1 && s.rows[0].name == row.name && s.rows[0].blocks == [] && !s.dirty && !Saved(s)
  {
    hide Encoded, Storable, Saved, FileOf, Restored, Split, CurOf;
    var mems := [Mem(true, true, false)];
    SavedIndexLoads(id, sequence, [row], Whole, mems);
    FileWritten(id, sequence, [row]);
    EncodedSome(id, sequence, [row]);
    CursDistinct([row]);
    CommittedRows(Curs([row]), mems);
    assert (CurOf(row)).name == row.name by {
      CurName(row);
    }
  }

  lemma CurName(row: Row)
    ensures CurOf(row).name == row.name
  {
  }

  /** load_folder_index: what became of the file is the environment's doing. */
  method LoadFolderIndex(fs: FolderState, id: Owner, disk: Option<seq<byte>>, reading: Reading) returns (ghost mems: seq<Mem>)
    requires fs.Valid() && fs.rows == [] && fs.sequence == 0 && !fs.dirty
    modifies fs, fs.files, fs.names, fs.blocks, fs.nblocks, fs.seen, fs.hhead, fs.hnext
    ensures fs.Valid() && Fitting(id, disk, reading, mems)
    ensures var s := Loaded(id, disk, reading, mems); fs.rows == s.rows && fs.sequence == s.sequence && fs.dirty == s.dirty
    ensures fs.ample ==> mems == Plenty(|mems|)
  {
    hide SlotHolds, Chains, Unique, FileOf, Restore;
    mems := Plenty(0);
    if disk.None? || reading.NoSize? || |disk.value| == 0 {
      return;
    }
    if reading.NoBuffer? {
      return;
    }
    if reading.Whole? {
      var ok;
      ok, mems := IndexStoreDecode(fs, id, disk.value);
    }
  }

  // ------------------------------------------------- the snapshot, in place

  /** The size estimate, the buffer and the encoding. */
  method EncodeWhole(fs: FolderState, id: Owner) returns (buf: array<byte>, len: nat, got: bool)
    requires fs.Valid() && OwnerOk(id) && IsInt64(fs.sequence) && AllStorable(fs.rows)
    ensures len <= buf.Length && (fs.ample ==> got)
    ensures len > 0 <==> got && |Encoded(id, fs.sequence, fs.rows)| <= IndexSize(fs.rows)
    ensures len > 0 ==> buf[..len] == Encoded(id, fs.sequence, fs.rows)
  {
    hide SlotHolds, Chains, Unique, AllStorable, OwnerOk, Encoded, IndexSize;
    buf, len := new byte[0], 0;
    var cap := IndexStoreSize(fs);
    got := Allocate(fs.ample);
    if got {
      buf := new byte[cap];
      len := IndexStoreEncode(fs, id, buf, cap);
      EncodedSome(id, fs.sequence, fs.rows);
      if len > 0 {
        AtSlice(buf[..], 0, Encoded(id, fs.sequence, fs.rows));
      }
    }
  }

  /** The locked part of save_folder on the shared index itself; got says whether there
      was memory for the buffer. */
  method SnapshotInPlace(fs: FolderState, id: Owner, prune: bool, cutoff: int, ghost s: State)
    returns (buf: array<byte>, len: nat, got: bool)
    requires fs.Valid() && Inv(s) && s.saver.Idle? && s.id == id
    requires s.rows == fs.rows && s.sequence == fs.sequence && s.dirty == fs.dirty
    modifies fs, fs.files, fs.names, fs.blocks, fs.nblocks, fs.seen, fs.hhead, fs.hnext
    ensures fs.Valid() && len <= buf.Length && (fs.ample ==> got)
    ensures var t := TakeSnapshot(s, prune, cutoff, got);
            fs.rows == t.rows && fs.sequence == t.sequence && fs.dirty == t.dirty &&
            (len > 0 <==> t.saver.Snapped?) && (len > 0 ==> buf[..len] == t.saver.buf)
  {
    hide SlotHolds, Chains, Unique, AllStorable, OwnerOk, Encoded, Saved, StepRows, IndexSize;
    if !fs.dirty {
      return new byte[0], 0, true;
    }
    if prune {
      PruneSound(fs.rows, cutoff);
      var _ := fs.PruneTombstones(cutoff);
    }
    buf, len, got := EncodeWhole(fs, id);
    if len > 0 {
      fs.SetClean(fs.sequence);
    }
  }

  lemma EncodedSome(id: Owner, sequence: int, rows: seq<Row>)
    ensures |Encoded(id, sequence, rows)| > 0
  {
    hide Encoded;
    IndexParts(id, sequence, rows);
  }
}
