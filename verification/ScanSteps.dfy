/**
  The locked steps of a scan pass on the shared index itself (src/scanner.c), proved
  to be the steps of ScanPass.
*/
module ScanSteps {
  import opened Bytes
  import opened FoldRows
  import opened FoldState
  import opened ScanPass

  ghost function StateOf(fs: FolderState): State
    reads fs
  {
    State(fs.rows, fs.sequence)
  }

  /** rec_changed */
  method RecChanged(fs: FolderState, e: Listed, env: Env) returns (changed: bool)
    requires fs.Valid()
    ensures changed == Changed(fs.rows, e, env)
  {
    hide Chains, Unique;
    var i := fs.FindSlot(e.name);
    if i < 0 {
      return true;
    }
    assert SlotHolds(fs.files[i], fs.names[i], fs.blocks[i], fs.nblocks[i], fs.seen[i], fs.rows[i]);
    var c := fs.files[i].core;
    if c.deleted != 0 {
      return true;
    }
    if c.invalid != 0 {
      return true;
    }
    if c.size != e.size || (c.modifiedS != e.modifiedS && env.onDisk(c.modifiedS) != e.modifiedS) {
      return true;
    }
    changed := fs.nblocks[i] == 0;
  }

  /** The first locked part of scan_entry for a file. */
  method LookAt(fs: FolderState, e: Listed, env: Env) returns (changed: bool)
    requires fs.Valid()
    modifies fs`rows, fs.seen
    ensures fs.Valid() && StateOf(fs) == StepEvent(old(StateOf(fs)), Look(e), env)
    ensures changed == Changed(old(fs.rows), e, env)
  {
    hide Changed, SlotHolds, Chains, Unique;
    changed := RecChanged(fs, e, env);
    if !changed {
      fs.MarkSeen(e.name);
    }
  }

  /** foldstate_version of a record that may not exist. */
  method StoredVersionOf(fs: FolderState, name: Name) returns (v: seq<Counter>)
    requires fs.Valid()
    ensures v == VersionAt(fs.rows, name)
  {
    hide Chains, Unique;
    var i := fs.FindSlot(name);
    if i < 0 {
      return [];
    }
    assert SlotHolds(fs.files[i], fs.names[i], fs.blocks[i], fs.nblocks[i], fs.seen[i], fs.rows[i]);
    v := GetVersion(fs.files[i]);
  }

  /** A fresh number, the upsert, the mark: the common end of commit_file and commit_dir. */
  method Commit(fs: FolderState, name: Name, meta: Meta, blocks: seq<Hash>) returns (ghost mem: Mem)
    requires fs.Valid() && meta.core.sequence == fs.sequence + 1
    modifies fs, fs.files, fs.names, fs.blocks, fs.nblocks, fs.seen, fs.hhead, fs.hnext
    ensures fs.Valid() && fs.ArraysOwned() && fs.sequence == old(fs.sequence) + 1
    ensures fs.rows == MarkSeenRows(PutRow(old(fs.rows), name, meta, blocks, mem), name)
    ensures fs.ample && |old(fs.rows)| < FOLDSTATE_MAX_FILES ==> mem == Mem(true, true, true)
  {
    hide SlotHolds, Chains, Unique, MarkSeenRows;
    var _ := fs.NextSeq();
    var r; ghost var op;
    r, op := fs.Upsert(name, meta, blocks);
    mem := Mem(op.roomOk, op.versionOk, op.blocksOk);
    fs.MarkSeen(name);
  }

  method CommitTheFile(fs: FolderState, e: Listed, hash: Hash, blocks: seq<Hash>, env: Env) returns (ghost mem: Mem)
    requires fs.Valid()
    modifies fs, fs.files, fs.names, fs.blocks, fs.nblocks, fs.seen, fs.hhead, fs.hnext
    ensures fs.Valid() && fs.ArraysOwned()
    ensures StateOf(fs) == StepEvent(old(StateOf(fs)), CommitFile(e, hash, blocks, mem), env)
    ensures fs.ample && |old(fs.rows)| < FOLDSTATE_MAX_FILES ==> mem == Mem(true, true, true)
  {
    hide SlotHolds, Chains, Unique, MarkSeenRows, PutRow, VersionAt, Bump;
    var prev := StoredVersionOf(fs, e.name);
    var version := Bump(prev, env.shortId, env.stamp(e.modifiedS));
    var core := Core(e.size, 0x1A4, e.modifiedS, 0, env.shortId, fs.sequence + 1, env.blockSizeOf(e.size), hash,
                     BEP_FILE_FILE, 0, 0, 1);
    mem := Commit(fs, e.name, Meta(core, version), blocks);
  }

  method CommitTheDir(fs: FolderState, e: Listed, env: Env) returns (ghost mem: Mem)
    requires fs.Valid()
    modifies fs, fs.files, fs.names, fs.blocks, fs.nblocks, fs.seen, fs.hhead, fs.hnext
    ensures fs.Valid() && fs.ArraysOwned()
    ensures StateOf(fs) == StepEvent(old(StateOf(fs)), CommitDir(e, mem), env)
    ensures fs.ample && |old(fs.rows)| < FOLDSTATE_MAX_FILES ==> mem == Mem(true, true, true)
  {
    hide SlotHolds, Chains, Unique, MarkSeenRows, PutRow, VersionAt, Bump;
    mem := Mem(true, true, true);
    var live := DirIsLive(fs, e.name);
    if live {
      fs.MarkSeen(e.name);
      return;
    }
    var prev := StoredVersionOf(fs, e.name);
    var version := Bump(prev, env.shortId, env.stamp(e.modifiedS));
    var core := Core(0, 0x1ED, e.modifiedS, 0, env.shortId, fs.sequence + 1, 0, Zeros(BEP_HASH_LEN), BEP_FILE_DIRECTORY, 0, 0, 0);
    mem := Commit(fs, e.name, Meta(core, version), []);
  }

  method DirIsLive(fs: FolderState, name: Name) returns (live: bool)
    requires fs.Valid()
    ensures live == LiveDir(fs.rows, name)
  {
    hide Chains, Unique;
    var i := fs.FindSlot(name);
    if i < 0 {
      return false;
    }
    assert SlotHolds(fs.files[i], fs.names[i], fs.blocks[i], fs.nblocks[i], fs.seen[i], fs.rows[i]);
    live := fs.files[i].core.deleted == 0;
  }

  /** What the sweep reads of slot i. */
  method SlotRow(fs: FolderState, i: nat) returns (name: Name, meta: Meta, seen: bool)
    requires fs.Valid() && i < fs.numFiles
    ensures name == fs.rows[i].name && meta == fs.rows[i].meta && seen == fs.rows[i].seen
  {
    hide Chains, Unique;
    assert SlotHolds(fs.files[i], fs.names[i], fs.blocks[i], fs.nblocks[i], fs.seen[i], fs.rows[i]);
    name, meta, seen := fs.names[i].value, MetaFromRec(fs.files[i]), fs.seen[i];
  }

  /** Replacing the record of slot i by name: it stays where it is. */
  method ReplaceSlot(fs: FolderState, i: nat, name: Name, meta: Meta) returns (ghost versionOk: bool)
    requires fs.Valid() && i < fs.numFiles && name == fs.rows[i].name && meta.core.sequence == fs.sequence + 1
    modifies fs, fs.files, fs.names, fs.blocks, fs.nblocks, fs.seen, fs.hhead, fs.hnext
    ensures fs.Valid() && fs.ArraysOwned() && fs.sequence == old(fs.sequence) + 1
    ensures fs.rows == old(fs.rows)[i := old(fs.rows)[i].(meta := StoredMeta(meta, versionOk), blocks := [])]
    ensures fs.ample ==> versionOk
  {
    hide SlotHolds, Chains, StoredMeta, Unique;
    ghost var was := fs.rows;
    SlotIndex(fs, i);
    var _ := fs.NextSeq();
    var r; ghost var op;
    r, op := fs.Upsert(name, meta, []);
    versionOk := op.versionOk;
    assert StoredBlocks([], op.blocksOk) == [];
  }

  lemma SlotIndex(fs: FolderState, i: nat)
    requires fs.Valid() && i < fs.numFiles
    ensures IndexOf(fs.rows, fs.rows[i].name) == i && i < |fs.rows|
  {
    hide Chains, SlotHolds;
    IndexUnique(fs.rows, i);
  }

  /** One slot of the sweep. */
  method SweepSlot(fs: FolderState, i: nat, r: Rule) returns (ghost versionOk: bool)
    requires fs.Valid() && i < fs.numFiles
    modifies fs, fs.files, fs.names, fs.blocks, fs.nblocks, fs.seen, fs.hhead, fs.hnext
    ensures fs.Valid() && fs.ArraysOwned() && i < |old(fs.rows)| && (fs.ample ==> versionOk)
    ensures var row := old(fs.rows)[i];
            if Hidden(row, r) || Doomed(row, r) then
              fs.sequence == old(fs.sequence) + 1 &&
              fs.rows == old(fs.rows)[i := SweptRow(row, old(fs.sequence) + 1, r, versionOk)]
            else fs.rows == old(fs.rows) && fs.sequence == old(fs.sequence)
  {
    hide SlotHolds, Chains, StoredMeta, Unique, Bump;
    versionOk := true;
    var name, meta, seen := SlotRow(fs, i);
    if meta.core.deleted != 0 || meta.core.invalid != 0 || seen {
      return;
    }
    if r.env.ignored(name) {
      if meta.core.kind == BEP_FILE_FILE {
        var inv := meta.(core := meta.core.(invalid := 1, sequence := fs.sequence + 1));
        versionOk := ReplaceSlot(fs, i, name, inv);
      }
      return;
    }
    if meta.core.sequence > r.before {
      return;
    }
    var core := Core(0, meta.core.permissions, r.when, 0, r.env.shortId, fs.sequence + 1, 0, Zeros(BEP_HASH_LEN), meta.core.kind, 1, 0, 0);
    var tomb := Meta(core, Bump(meta.version, r.env.shortId, r.when % (U64_MAX + 1)));
    versionOk := ReplaceSlot(fs, i, name, tomb);
  }

  /** sweep_deletions */
  method SweepDeletions(fs: FolderState, r: Rule) returns (ghost versionOk: seq<bool>)
    requires fs.Valid()
    modifies fs, fs.files, fs.names, fs.blocks, fs.nblocks, fs.seen, fs.hhead, fs.hnext
    ensures fs.Valid() && |versionOk| == |old(fs.rows)|
    ensures StateOf(fs) == Sweep(old(StateOf(fs)), |old(fs.rows)|, r, versionOk)
    ensures fs.ample ==> forall i :: 0 <= i < |versionOk| ==> versionOk[i]
  {
    hide SlotHolds, Chains, Unique, Hidden, Doomed, SweptRow, Sweep;
    versionOk := [];
    ghost var s := StateOf(fs);
    CountIs(fs);
    SweepNone(s, r);
    var n := fs.numFiles;
    for i := 0 to n
      invariant fs.Valid() && fs.ArraysOwned() && n == |s.rows| == fs.numFiles && |versionOk| == i
      invariant StateOf(fs) == Sweep(s, i, r, versionOk)
      invariant fs.ample ==> forall k :: 0 <= k < i ==> versionOk[k]
    {
      ghost var ok;
      ok := SweepSlot(fs, i, r);
      SweepNext(s, i, r, versionOk, ok);
      versionOk := versionOk + [ok];
      CountIs(fs);
    }
  }

  lemma SweepNone(s: State, r: Rule)
    ensures Sweep(s, 0, r, []) == s
  {
  }

  lemma CountIs(fs: FolderState)
    requires fs.Valid()
    ensures fs.numFiles == |fs.rows|
  {
  }

  /** The start of a pass: the marks cleared, the high-water mark noted. */
  method StartPass(fs: FolderState) returns (before: int)
    requires fs.Valid()
    modifies fs`rows, fs.seen
    ensures fs.Valid() && before == fs.sequence && fs.rows == ClearSeenRows(old(fs.rows))
  {
    hide SlotHolds, Chains, Unique, ClearSeenRows;
    before := fs.sequence;
    fs.ClearSeen();
  }
}
