/**
  The shared folder index of src/foldstate.c: parallel arrays that grow together,
  a chained name hash over them, swap-remove compaction. Its ghost field rows is
  the table of module FoldRows, and every method says which step of that table it
  takes. Allocation may fail wherever the source asks for it.
*/
module FoldState {
  import opened Bytes
  import opened FoldRows

  const FOLDSTATE_INIT_FILES := 64

  /** An allocation: it may fail at any time, unless memory is ample. */
  method Allocate(ample: bool) returns (ok: bool)
    ensures ample ==> ok
  {
    ok := *;
    ok := ok || ample;
  }

  function Bucket(hash: Name -> nat, name: Name, cap: nat): (b: nat)
    requires cap > 0
    ensures b < cap
  {
    hash(name) % cap
  }

  /** The last of the first n rows in bucket b, or -1: where a chain stands. */
  function Last(rows: seq<Row>, hash: Name -> nat, cap: nat, b: nat, n: nat): (r: int)
    requires cap > 0 && n <= |rows|
    ensures -1 <= r < n
  {
    if n == 0 then -1
    else if Bucket(hash, rows[n - 1].name, cap) == b then n - 1
    else Last(rows, hash, cap, b, n - 1)
  }

  lemma {:induction false} LastIsLast(rows: seq<Row>, hash: Name -> nat, cap: nat, b: nat, n: nat)
    requires cap > 0 && n <= |rows|
    ensures var r := Last(rows, hash, cap, b, n);
            && (r >= 0 ==> Bucket(hash, rows[r].name, cap) == b)
            && forall j :: r < j < n ==> Bucket(hash, rows[j].name, cap) != b
  {
    if n > 0 && Bucket(hash, rows[n - 1].name, cap) != b {
      LastIsLast(rows, hash, cap, b, n - 1);
    }
  }

  /** The chains are those of the first n rows: each bucket's head is its last row,
      each link the row before it in the same bucket. Links strictly decrease. */
  ghost predicate Chains(heads: seq<int>, links: seq<int>, rows: seq<Row>, hash: Name -> nat, n: nat)
    requires n <= |rows| && n <= |links|
  {
    && (n > 0 ==> |heads| > 0)
    && (forall b :: 0 <= b < |heads| ==> heads[b] == Last(rows, hash, |heads|, b, n))
    && (forall i :: 0 <= i < n ==> links[i] == Last(rows, hash, |heads|, Bucket(hash, rows[i].name, |heads|), i))
  }

  lemma NoChains(heads: seq<int>, links: seq<int>, rows: seq<Row>, hash: Name -> nat)
    requires forall b :: 0 <= b < |heads| ==> heads[b] == -1
    ensures Chains(heads, links, rows, hash, 0)
  {
  }

  lemma {:induction false} LastPrefix(rows: seq<Row>, rows': seq<Row>, hash: Name -> nat, cap: nat, b: nat, n: nat)
    requires cap > 0 && n <= |rows| && n <= |rows'|
    requires forall i :: 0 <= i < n ==> rows[i].name == rows'[i].name
    ensures Last(rows, hash, cap, b, n) == Last(rows', hash, cap, b, n)
  {
    if n > 0 {
      LastPrefix(rows, rows', hash, cap, b, n - 1);
    }
  }

  /** No row from slot lo on carries the name. */
  ghost predicate Absent(rows: seq<Row>, name: Name, lo: nat) {
    forall j :: lo <= j < |rows| ==> rows[j].name != name
  }

  lemma NoneAfter(rows: seq<Row>, name: Name)
    ensures Absent(rows, name, |rows|)
  {
  }

  lemma AbsentEverywhere(rows: seq<Row>, name: Name)
    ensures Absent(rows, name, 0) ==> IndexOf(rows, name) == -1
  {
  }

  /** A step along the chain skips only names of other buckets. */
  lemma SkippedAreOthers(rows: seq<Row>, hash: Name -> nat, cap: nat, name: Name, upto: nat)
    requires cap > 0 && upto <= |rows| && Absent(rows, name, upto)
    ensures var i := Last(rows, hash, cap, Bucket(hash, name, cap), upto);
            if i < 0 then Absent(rows, name, 0) else rows[i].name != name ==> Absent(rows, name, i)
    ensures var i := Last(rows, hash, cap, Bucket(hash, name, cap), upto);
            i >= 0 ==> Bucket(hash, rows[i].name, cap) == Bucket(hash, name, cap)
  {
    LastIsLast(rows, hash, cap, Bucket(hash, name, cap), upto);
  }

  lemma BucketIs(hash: Name -> nat, name: Name, cap: nat)
    requires cap > 0
    ensures Bucket(hash, name, cap) == hash(name) % cap
  {
  }

  lemma ChainHead(heads: seq<int>, links: seq<int>, rows: seq<Row>, hash: Name -> nat, n: nat, b: nat)
    requires n <= |rows| && n <= |links| && Chains(heads, links, rows, hash, n) && b < |heads|
    ensures heads[b] == Last(rows, hash, |heads|, b, n)
  {
  }

  lemma ChainLink(heads: seq<int>, links: seq<int>, rows: seq<Row>, hash: Name -> nat, n: nat, i: nat)
    requires n <= |rows| && n <= |links| && Chains(heads, links, rows, hash, n) && i < n
    ensures links[i] == Last(rows, hash, |heads|, Bucket(hash, rows[i].name, |heads|), i)
  {
  }

  /** Chains depend on the names only. */
  lemma ChainsByName(heads: seq<int>, links: seq<int>, rows: seq<Row>, rows': seq<Row>, hash: Name -> nat, n: nat)
    requires n <= |rows| && n <= |rows'| && n <= |links| && Chains(heads, links, rows, hash, n)
    requires forall i :: 0 <= i < n ==> rows[i].name == rows'[i].name
    ensures Chains(heads, links, rows', hash, n)
  {
    forall b | 0 <= b < |heads| ensures heads[b] == Last(rows', hash, |heads|, b, n) {
      LastPrefix(rows, rows', hash, |heads|, b, n);
    }
    forall i | 0 <= i < n
      ensures links[i] == Last(rows', hash, |heads|, Bucket(hash, rows'[i].name, |heads|), i)
    {
      LastPrefix(rows, rows', hash, |heads|, Bucket(hash, rows[i].name, |heads|), i);
    }
  }

  /** One slot of the parallel arrays holds a row. */
  ghost predicate SlotHolds(rec: FolderRec, name: Option<Name>, blocks: Option<seq<Hash>>, nblocks: nat, seen: bool,
                            row: Row)
  {
    && RecOk(rec) && MetaFromRec(rec) == row.meta && name == Some(row.name) && seen == row.seen
    && nblocks == |row.blocks| && blocks == if row.blocks == [] then None else Some(row.blocks)
  }

  lemma SlotName(rec: FolderRec, name: Option<Name>, blocks: Option<seq<Hash>>, nblocks: nat, seen: bool, row: Row)
    requires SlotHolds(rec, name, blocks, nblocks, seen, row)
    ensures name == Some(row.name)
  {
  }

  lemma NameOnce(rows: seq<Row>, i: nat)
    requires Unique(rows) && i < |rows|
    ensures forall j :: 0 <= j < |rows| && rows[j].name == rows[i].name ==> j == i
  {
  }

  lemma NoRows()
    ensures Unique([])
  {
  }

  /** A larger copy of an array, its first n elements kept. */
  method Moved<T(0)>(a: array<T>, n: nat, newcap: nat) returns (b: array<T>)
    requires n <= a.Length && n <= newcap
    ensures fresh(b) && b.Length == newcap
    ensures forall i :: 0 <= i < n ==> b[i] == a[i]
  {
    b := new T[newcap];
    forall i | 0 <= i < n {
      b[i] := a[i];
    }
  }

  class FolderState {
    const nameHash: Name -> nat
    const ample: bool
    var sequence: int
    var pruneGen: int
    var dirty: bool
    var numFiles: nat
    var cap: nat
    var files: array<FolderRec>
    var names: array<Option<Name>>
    var blocks: array<Option<seq<Hash>>>
    var nblocks: array<nat>
    var seen: array<bool>
    var hhead: array<int>
    var hnext: array<int>
    ghost var rows: seq<Row>

    /** Every array is the one it was, or new. */
    twostate predicate ArraysOwned()
      reads this
    {
      && (files == old(files) || fresh(files)) && (names == old(names) || fresh(names))
      && (blocks == old(blocks) || fresh(blocks)) && (nblocks == old(nblocks) || fresh(nblocks))
      && (seen == old(seen) || fresh(seen)) && (hhead == old(hhead) || fresh(hhead)) && (hnext == old(hnext) || fresh(hnext))
    }

    /** The parallel arrays are distinct and have one length. */
    ghost predicate Shaped()
      reads this
    {
      && files.Length == names.Length == blocks.Length == nblocks.Length == seen.Length == cap
      && hhead.Length == hnext.Length == cap <= FOLDSTATE_MAX_FILES
      && hhead != hnext && nblocks as object != hhead && nblocks as object != hnext
    }

    /** They hold the rows, slot by slot. */
    ghost predicate SlotsValid()
      reads this, files, names, blocks, nblocks, seen
    {
      && Shaped() && numFiles == |rows| <= cap && Unique(rows)
      && forall i :: 0 <= i < numFiles ==> SlotHolds(files[i], names[i], blocks[i], nblocks[i], seen[i], rows[i])
    }

    ghost predicate Valid()
      reads this, files, names, blocks, nblocks, seen, hhead, hnext
    {
      SlotsValid() && Chains(hhead[..], hnext[..], rows, nameHash, numFiles)
    }

    /** foldstate_init: an empty index; the table is allocated on the first upsert. */
    constructor (hash: Name -> nat, ample: bool)
      ensures Valid() && rows == [] && nameHash == hash && this.ample == ample && sequence == 0 && !dirty
    {
      nameHash, this.ample := hash, ample;
      sequence, pruneGen, dirty, numFiles, cap := 0, 0, false, 0, 0;
      files, names, blocks, nblocks := new FolderRec[0], new Option<Name>[0], new Option<seq<Hash>>[0], new nat[0];
      seen, hhead, hnext := new bool[0], new int[0], new int[0];
      rows := [];
    }

    method DropAll()
      requires SlotsValid()
      modifies `numFiles, `rows
      ensures SlotsValid() && rows == []
    {
      hide SlotHolds, Unique;
      numFiles, rows := 0, [];
      NoRows();
    }

    method FreeArrays()
      requires SlotsValid() && rows == []
      modifies `cap, `files, `names, `blocks, `nblocks, `seen, `hhead, `hnext
      ensures Valid() && ArraysOwned()
    {
      hide SlotHolds, Unique, Chains;
      var nf, nm, nb, nn, ns := MoveData(0);
      var nh := new int[0];
      var nx := new int[0];
      Install(0, nf, nm, nb, nn, ns, nh, nx);
      HashRebuild();
    }

    /** The sequence as loaded; nothing unsaved. */
    method SetClean(seqNo: int)
      requires Valid()
      modifies `sequence, `dirty
      ensures Valid() && sequence == seqNo && !dirty
    {
      hide SlotHolds, Unique, Chains;
      sequence, dirty := seqNo, false;
    }

    /** foldstate_free and the two fields an index file restores: empty again. */
    method Reset()
      requires SlotsValid()
      modifies this
      ensures Valid() && ArraysOwned() && rows == [] && sequence == 0 && !dirty && pruneGen == old(pruneGen)
    {
      hide SlotHolds, Unique, Chains;
      DropAll();
      FreeArrays();
      SetClean(0);
    }

    /** Links slot i at the front of its bucket's chain. */
    method HashLink(i: nat)
      requires hhead.Length == hnext.Length > i && hhead != hnext && i < |rows| && i < names.Length
      requires names[i] == Some(rows[i].name) && Chains(hhead[..], hnext[..], rows, nameHash, i)
      modifies hhead, hnext
      ensures Chains(hhead[..], hnext[..], rows, nameHash, i + 1)
    {
      ghost var heads, links := hhead[..], hnext[..];
      var b := nameHash(names[i].value) % hhead.Length;
      hnext[i] := hhead[b];
      hhead[b] := i;
    }

    /** Rebuilds every chain, after a grow or a compaction. */
    method HashRebuild()
      requires SlotsValid()
      modifies hhead, hnext
      ensures Valid()
    {
      hide SlotHolds, Unique, Chains;
      for i := 0 to cap
        invariant forall k :: 0 <= k < i ==> hhead[k] == -1
      {
        hhead[i] := -1;
      }
      NoChains(hhead[..], hnext[..], rows, nameHash);
      for i := 0 to numFiles
        invariant Chains(hhead[..], hnext[..], rows, nameHash, i)
      {
        SlotName(files[i], names[i], blocks[i], nblocks[i], seen[i], rows[i]);
        HashLink(i);
      }
    }

    /** The slot of a name, or -1: a walk down one chain. */
    method FindSlot(name: Name) returns (i: int)
      requires Valid()
      ensures i == IndexOf(rows, name)
    {
      hide SlotHolds, Last, Unique, Chains, Bucket, IndexOf, Absent;
      NoneAfter(rows, name);
      if cap == 0 {
        return -1;
      }
      ghost var b, upto: nat := Bucket(nameHash, name, cap), numFiles;
      BucketIs(nameHash, name, cap);
      i := hhead[nameHash(name) % cap];
      ChainHead(hhead[..], hnext[..], rows, nameHash, numFiles, b);
      while i >= 0
        invariant upto <= numFiles && i == Last(rows, nameHash, cap, b, upto)
        invariant Absent(rows, name, upto)
        decreases i
      {
        SkippedAreOthers(rows, nameHash, cap, name, upto);
        SlotName(files[i], names[i], blocks[i], nblocks[i], seen[i], rows[i]);
        if names[i] == Some(name) {
          IndexUnique(rows, i);
          return;
        }
        ChainLink(hhead[..], hnext[..], rows, nameHash, numFiles, i);
        upto, i := i, hnext[i];
      }
      SkippedAreOthers(rows, nameHash, cap, name, upto);
      AbsentEverywhere(rows, name);
    }

    /** The new size: doubled from 64 until it fits, never above the ceiling. */
    method GrownCap(need: nat) returns (newcap: nat)
      requires cap < need <= FOLDSTATE_MAX_FILES && cap <= FOLDSTATE_MAX_FILES
      ensures need <= newcap <= FOLDSTATE_MAX_FILES
    {
      newcap := if cap > 0 then cap else FOLDSTATE_INIT_FILES;
      while newcap < need
        invariant newcap > 0
        decreases need - newcap
      {
        newcap := newcap * 2;
      }
      if newcap > FOLDSTATE_MAX_FILES {
        newcap := FOLDSTATE_MAX_FILES;
      }
    }

    /** The five data arrays moved into larger ones, slot by slot. */
    method MoveData(newcap: nat)
      returns (nf: array<FolderRec>, nm: array<Option<Name>>, nb: array<Option<seq<Hash>>>, nn: array<nat>, ns: array<bool>)
      requires SlotsValid() && numFiles <= newcap
      ensures fresh(nf) && fresh(nm) && fresh(nb) && fresh(nn) && fresh(ns)
      ensures nf.Length == nm.Length == nb.Length == nn.Length == ns.Length == newcap
      ensures forall i :: 0 <= i < numFiles ==> SlotHolds(nf[i], nm[i], nb[i], nn[i], ns[i], rows[i])
    {
      hide SlotHolds, Unique;
      nf := Moved(files, numFiles, newcap);
      nm := Moved(names, numFiles, newcap);
      nb := Moved(blocks, numFiles, newcap);
      nn := Moved(nblocks, numFiles, newcap);
      ns := Moved(seen, numFiles, newcap);
    }

    method Install(newcap: nat, nf: array<FolderRec>, nm: array<Option<Name>>, nb: array<Option<seq<Hash>>>,
                   nn: array<nat>, ns: array<bool>, nh: array<int>, nx: array<int>)
      modifies `cap, `files, `names, `blocks, `nblocks, `seen, `hhead, `hnext
      ensures cap == newcap && files == nf && names == nm && blocks == nb && nblocks == nn
      ensures seen == ns && hhead == nh && hnext == nx
    {
      cap, files, names, blocks, nblocks, seen, hhead, hnext := newcap, nf, nm, nb, nn, ns, nh, nx;
    }

    /** Moves into larger arrays and rebuilds the chains. */
    method Grow(newcap: nat)
      requires Valid() && numFiles <= newcap <= FOLDSTATE_MAX_FILES
      modifies this
      ensures Valid() && ArraysOwned() && rows == old(rows) && cap == newcap
      ensures sequence == old(sequence) && pruneGen == old(pruneGen) && dirty == old(dirty)
    {
      hide SlotHolds, Unique, Chains;
      var nf, nm, nb, nn, ns := MoveData(newcap);
      var nh := new int[newcap];
      var nx := new int[newcap];
      Install(newcap, nf, nm, nb, nn, ns, nh, nx);
      HashRebuild();
    }

    /** Room for need records, or false: at the ceiling, or without memory for all
        seven arrays. The rows stay either way. */
    method EnsureCap(need: nat) returns (ok: bool)
      requires Valid()
      modifies this
      ensures Valid() && ArraysOwned() && rows == old(rows)
      ensures ok ==> need <= cap
      ensures need <= old(cap) || (ample && need <= FOLDSTATE_MAX_FILES) ==> ok
      ensures sequence == old(sequence) && pruneGen == old(pruneGen) && dirty == old(dirty)
    {
      hide SlotHolds, Unique, Chains;
      if need <= cap {
        return true;
      }
      if need > FOLDSTATE_MAX_FILES {
        return false;
      }
      var newcap := GrownCap(need);
      ok := Allocate(ample);
      if ok {
        Grow(newcap);
      }
    }

    /** Only slot i of the five data arrays may differ. */
    twostate predicate OnlySlot(i: nat)
      reads this, files, names, blocks, nblocks, seen
    {
      && files == old(files) && names == old(names) && blocks == old(blocks) && nblocks == old(nblocks) && seen == old(seen)
      && (forall k :: 0 <= k < files.Length && k != i ==> files[k] == old(files[k]))
      && (forall k :: 0 <= k < names.Length && k != i ==> names[k] == old(names[k]))
      && (forall k :: 0 <= k < blocks.Length && k != i ==> blocks[k] == old(blocks[k]))
      && (forall k :: 0 <= k < nblocks.Length && k != i ==> nblocks[k] == old(nblocks[k]))
      && (forall k :: 0 <= k < seen.Length && k != i ==> seen[k] == old(seen[k]))
    }

    /** A fresh slot past the last one: no blocks, no counters, not seen, no name. */
    method FreshSlot(i: nat)
      requires Shaped() && i < cap
      modifies files, names, blocks, nblocks, seen
      ensures OnlySlot(i) && blocks[i] == None && nblocks[i] == 0 && !seen[i]
      ensures names[i] == None && RecOk(files[i])
    {
      blocks[i], nblocks[i], seen[i], names[i] := None, 0, false, None;
      files[i] := files[i].(vext := None, nver := 0);
    }

    /** set_blocks: a fresh copy of the hashes, or none when there is no memory. */
    method SetBlocks(i: nat, hashes: seq<Hash>) returns (ghost ok: bool)
      requires i < blocks.Length && i < nblocks.Length && nblocks as object != blocks
      requires blocks[i] == None ==> nblocks[i] == 0
      modifies blocks, nblocks
      ensures blocks[i] == (if StoredBlocks(hashes, ok) == [] then None else Some(hashes))
      ensures nblocks[i] == |StoredBlocks(hashes, ok)|
      ensures ample || hashes == [] ==> ok
      ensures forall k :: 0 <= k < blocks.Length && k != i ==> blocks[k] == old(blocks[k])
      ensures forall k :: 0 <= k < nblocks.Length && k != i ==> nblocks[k] == old(nblocks[k])
    {
      ok := true;
      if blocks[i].Some? {
        blocks[i], nblocks[i] := None, 0;
      }
      if |hashes| > 0 {
        var p := Allocate(ample);
        ok := p;
        if p {
          blocks[i], nblocks[i] := Some(hashes), |hashes|;
        }
      }
    }

    /** rec_from_meta and set_blocks on a named slot. */
    method FillSlot(i: nat, meta: Meta, hashes: seq<Hash>) returns (ghost versionOk: bool, ghost blocksOk: bool)
      requires Shaped() && i < cap && names[i].Some? && (blocks[i] == None ==> nblocks[i] == 0)
      modifies files, blocks, nblocks
      ensures OnlySlot(i) && names[i] == old(names[i]) && seen[i] == old(seen[i])
      ensures SlotHolds(files[i], names[i], blocks[i], nblocks[i], seen[i],
                        Row(names[i].value, StoredMeta(meta, versionOk), StoredBlocks(hashes, blocksOk), seen[i]))
      ensures ample ==> versionOk && blocksOk
    {
      var ok := Allocate(ample);
      versionOk := ok;
      MetaRoundTrip(files[i], meta, ok);
      files[i] := RecFromMeta(files[i], meta, ok);
      blocksOk := SetBlocks(i, hashes);
    }

    /** The data of a new record in the slot after the last, if there is memory for
        its name. */
    method AppendSlot(name: Name, meta: Meta, hashes: seq<Hash>)
      returns (named: bool, ghost versionOk: bool, ghost blocksOk: bool)
      requires Shaped() && numFiles < cap
      modifies files, names, blocks, nblocks, seen
      ensures OnlySlot(numFiles)
      ensures named ==> var i := numFiles;
                SlotHolds(files[i], names[i], blocks[i], nblocks[i], seen[i],
                          Row(name, StoredMeta(meta, versionOk), StoredBlocks(hashes, blocksOk), false))
      ensures ample ==> named && versionOk && blocksOk
    {
      hide SlotHolds, RecOk;
      var i := numFiles;
      FreshSlot(i);
      named := Allocate(ample);
      versionOk, blocksOk := false, false;
      if named {
        names[i] := Some(name);
        versionOk, blocksOk := FillSlot(i, meta, hashes);
      }
    }

    /** A filled slot after the last becomes a row, linked into its chain. */
    method AddRow(ghost row: Row)
      requires Valid() && numFiles < cap && IndexOf(rows, row.name) < 0
      requires SlotHolds(files[numFiles], names[numFiles], blocks[numFiles], nblocks[numFiles], seen[numFiles], row)
      modifies `rows, `numFiles, hhead, hnext
      ensures Valid() && rows == old(rows) + [row]
    {
      hide SlotHolds, Chains, Unique, Bucket, IndexOf, Last;
      SlotName(files[numFiles], names[numFiles], blocks[numFiles], nblocks[numFiles], seen[numFiles], row);
      AppendUnique(rows, row);
      ghost var r := rows + [row];
      ChainsByName(hhead[..], hnext[..], rows, r, nameHash, numFiles);
      rows := r;
      HashLink(numFiles);
      numFiles := numFiles + 1;
    }

    /** A new name: the record goes after the last one and into its chain. */
    method Append(name: Name, meta: Meta, hashes: seq<Hash>)
      returns (named: bool, ghost versionOk: bool, ghost blocksOk: bool)
      requires Valid() && numFiles < cap && IndexOf(rows, name) < 0
      modifies `rows, `numFiles, files, names, blocks, nblocks, seen, hhead, hnext
      ensures Valid()
      ensures named ==> rows == old(rows) + [Row(name, StoredMeta(meta, versionOk), StoredBlocks(hashes, blocksOk), false)]
      ensures !named ==> rows == old(rows)
      ensures ample ==> named && versionOk && blocksOk
    {
      hide SlotHolds, Chains, Unique;
      named, versionOk, blocksOk := AppendSlot(name, meta, hashes);
      if named {
        AddRow(Row(name, StoredMeta(meta, versionOk), StoredBlocks(hashes, blocksOk), false));
      }
    }

    /** A new name, if there is room for another record and memory for its name. */
    method Insert(name: Name, meta: Meta, hashes: seq<Hash>)
      returns (ok: bool, ghost versionOk: bool, ghost blocksOk: bool)
      requires Valid() && IndexOf(rows, name) < 0
      modifies this, hhead, hnext, files, names, blocks, nblocks, seen
      ensures Valid() && ArraysOwned()
      ensures rows == if ok then old(rows) + [Row(name, StoredMeta(meta, versionOk), StoredBlocks(hashes, blocksOk), false)]
                      else old(rows)
      ensures ok ==> |old(rows)| < FOLDSTATE_MAX_FILES
      ensures ample && |old(rows)| < FOLDSTATE_MAX_FILES ==> ok && versionOk && blocksOk
      ensures sequence == old(sequence) && pruneGen == old(pruneGen) && dirty == old(dirty)
    {
      hide SlotHolds, Chains, Unique, IndexOf, StoredMeta, StoredBlocks;
      versionOk, blocksOk := false, false;
      ok := EnsureCap(numFiles + 1);
      if ok {
        ok, versionOk, blocksOk := Append(name, meta, hashes);
      }
    }

    /** foldstate_upsert: insert or replace by name. False only for a new name that
        finds the index full or no memory; replacing never fails. */
    method Upsert(name: Name, meta: Meta, hashes: seq<Hash>) returns (r: bool, ghost op: Op)
      requires Valid()
      modifies this, files, names, blocks, nblocks, seen, hhead, hnext
      ensures Valid() && ArraysOwned()
      ensures op.Upsert? && op == Op.Upsert(name, meta, hashes, op.roomOk, op.versionOk, op.blocksOk)
      ensures rows == StepRows(old(rows), op)
      ensures r == op.roomOk && (IndexOf(old(rows), name) >= 0 ==> r)
      ensures r && IndexOf(old(rows), name) < 0 ==> |old(rows)| < 100000
      ensures ample && |old(rows)| < 100000 ==> r
      ensures ample && r ==> op.versionOk && op.blocksOk
      ensures dirty == (old(dirty) || r) && sequence == old(sequence) && pruneGen == old(pruneGen)
    {
      hide SlotHolds, Chains, Unique, IndexOf, StoredMeta, StoredBlocks;
      var i := FindSlot(name);
      ghost var versionOk, blocksOk;
      if i < 0 {
        r, versionOk, blocksOk := Insert(name, meta, hashes);
      } else {
        versionOk, blocksOk := Replace(i, meta, hashes);
        r := true;
      }
      op := Op.Upsert(name, meta, hashes, r, versionOk, blocksOk);
      dirty := dirty || r;
    }

    /** An existing name: the record and blocks are replaced where they are. */
    method Replace(i: nat, meta: Meta, hashes: seq<Hash>) returns (ghost versionOk: bool, ghost blocksOk: bool)
      requires Valid() && i < numFiles
      modifies `rows, files, blocks, nblocks
      ensures Valid()
      ensures rows == old(rows)[i := old(rows)[i].(meta := StoredMeta(meta, versionOk), blocks := StoredBlocks(hashes, blocksOk))]
      ensures ample ==> versionOk && blocksOk
    {
      hide Chains;
      ghost var was := rows;
      assert SlotHolds(files[i], names[i], blocks[i], nblocks[i], seen[i], rows[i]);
      versionOk, blocksOk := FillSlot(i, meta, hashes);
      rows := rows[i := rows[i].(meta := StoredMeta(meta, versionOk), blocks := StoredBlocks(hashes, blocksOk))];
      ChainsByName(hhead[..], hnext[..], was, rows, nameHash, numFiles);
    }

    method CopySlot(i: nat, from: nat)
      requires Shaped() && i < cap && from < cap
      modifies files, names, blocks, nblocks, seen
      ensures OnlySlot(i) && files[i] == old(files[from]) && names[i] == old(names[from])
      ensures blocks[i] == old(blocks[from]) && nblocks[i] == old(nblocks[from]) && seen[i] == old(seen[from])
    {
      files[i], names[i] := files[from], names[from];
      blocks[i], nblocks[i], seen[i] := blocks[from], nblocks[from], seen[from];
    }

    method MoveTail(i: nat)
      requires SlotsValid() && i < numFiles
      modifies files, names, blocks, nblocks, seen
      ensures var r := SwapRemove(rows, i);
              forall k :: 0 <= k < |r| ==> SlotHolds(files[k], names[k], blocks[k], nblocks[k], seen[k], r[k])
    {
      hide SlotHolds, Unique;
      var last := numFiles - 1;
      CopySlot(i, last);
      assert SlotHolds(files[i], names[i], blocks[i], nblocks[i], seen[i], rows[last]);
      FreshSlot(last);
    }

    /** The swap-remove shared by forget and the two compactions: the tail record
        moves into the hole. The chains are stale until they are rebuilt. */
    method TakeTail(i: nat)
      requires SlotsValid() && i < numFiles
      modifies `rows, `numFiles, files, names, blocks, nblocks, seen
      ensures SlotsValid() && rows == SwapRemove(old(rows), i)
    {
      hide SlotHolds, Unique, SwapRemove;
      SwapRemoveUnique(rows, i);
      MoveTail(i);
      rows := SwapRemove(rows, i);
      numFiles := numFiles - 1;
    }

    method LinearSearch(name: Name) returns (i: nat)
      requires SlotsValid()
      ensures i <= numFiles && IndexOf(rows, name) == if i < numFiles then i else -1
    {
      hide RecOk, MetaFromRec;
      i := 0;
      while i < numFiles && names[i] != Some(name)
        invariant i <= numFiles && forall j :: 0 <= j < i ==> rows[j].name != name
      {
        assert SlotHolds(files[i], names[i], blocks[i], nblocks[i], seen[i], rows[i]);
        i := i + 1;
      }
      if i < numFiles {
        assert SlotHolds(files[i], names[i], blocks[i], nblocks[i], seen[i], rows[i]);
        IndexUnique(rows, i);
      }
    }

    /** foldstate_forget: a linear search, then the swap-remove. */
    method Forget(name: Name) returns (r: bool)
      requires Valid()
      modifies this, files, names, blocks, nblocks, seen, hhead, hnext
      ensures Valid() && rows == StepRows(old(rows), Op.Forget(name))
      ensures forall row :: row in rows <==> row in old(rows) && row.name != name
      ensures r == (IndexOf(old(rows), name) >= 0) && sequence == old(sequence)
      ensures dirty == (old(dirty) || r) && pruneGen == old(pruneGen) + (if r then 1 else 0)
    {
      hide SlotHolds, Chains, Unique;
      var i := LinearSearch(name);
      r := i < numFiles;
      if r {
        RemoveSlot(i);
        dirty, pruneGen := true, pruneGen + 1;
      }
      hide IndexOf, SwapRemove;
      forall row { ForgetKeeps(old(rows), name, row); }
    }

    method RemoveSlot(i: nat)
      requires Valid() && i < numFiles
      modifies `rows, `numFiles, files, names, blocks, nblocks, seen, hhead, hnext
      ensures Valid() && rows == SwapRemove(old(rows), i)
    {
      TakeTail(i);
      HashRebuild();
    }

    /** The test of one slot: a tombstone, an invalid placeholder, a seen record or
        one newer than the walk is left alone. */
    method Spared(i: nat, before: int) returns (skip: bool)
      requires SlotsValid() && i < numFiles
      ensures skip == !IsVanished(rows[i], before)
    {
      assert SlotHolds(files[i], names[i], blocks[i], nblocks[i], seen[i], rows[i]);
      var m := files[i].core;
      skip := m.deleted != 0 || m.invalid != 0 || seen[i] || m.sequence > before;
    }

    method OldTombstone(i: nat, cutoff: int) returns (drop: bool)
      requires SlotsValid() && i < numFiles
      ensures drop == IsOldTombstone(rows[i], cutoff)
    {
      assert SlotHolds(files[i], names[i], blocks[i], nblocks[i], seen[i], rows[i]);
      var m := files[i].core;
      drop := m.deleted != 0 && m.modifiedS < cutoff;
    }

    method DropUnseen(before: int) returns (removed: nat)
      requires SlotsValid()
      modifies `rows, `numFiles, files, names, blocks, nblocks, seen
      ensures SlotsValid() && rows == StepRows(old(rows), Op.ForgetUnseen(before))
      ensures removed == |old(rows)| - |rows| && (removed == 0 ==> rows == old(rows))
    {
      hide SlotHolds, Unique, IsVanished, Compact;
      ghost var p := row => IsVanished(row, before);
      var i := 0;
      removed := 0;
      while i < numFiles
        invariant SlotsValid() && i <= numFiles && removed == |old(rows)| - |rows|
        invariant removed == 0 ==> rows == old(rows)
        invariant Compact(rows, p, i) == Compact(old(rows), p, 0)
        decreases numFiles - i
      {
        CompactStep(rows, p, i);
        var skip := Spared(i, before);
        if !skip {
          TakeTail(i);
          removed := removed + 1;
        } else {
          i := i + 1;
        }
      }
      CompactEnd(rows, p);
    }

    /** foldstate_forget_unseen: the receive-only counterpart of the deletion sweep. */
    method ForgetUnseen(before: int) returns (removed: nat)
      requires Valid()
      modifies this, files, names, blocks, nblocks, seen, hhead, hnext
      ensures Valid() && rows == StepRows(old(rows), Op.ForgetUnseen(before))
      ensures forall row :: row in rows <==>
                && row in old(rows)
                && var c := row.meta.core;
                   c.deleted != 0 || c.invalid != 0 || row.seen || c.sequence > before
      ensures removed == |old(rows)| - |rows| && sequence == old(sequence)
      ensures dirty == (old(dirty) || removed > 0) && pruneGen == old(pruneGen) + (if removed > 0 then 1 else 0)
    {
      hide SlotHolds, Unique, Chains, StepRows;
      removed := DropUnseen(before);
      forall row { ForgetUnseenKeeps(old(rows), before, row); }
      if removed > 0 {
        HashRebuild();
        dirty, pruneGen := true, pruneGen + 1;
      }
    }

    method DropTombstones(cutoff: int) returns (removed: nat)
      requires SlotsValid()
      modifies `rows, `numFiles, files, names, blocks, nblocks, seen
      ensures SlotsValid() && rows == StepRows(old(rows), Op.Prune(cutoff))
      ensures removed == |old(rows)| - |rows| && (removed == 0 ==> rows == old(rows))
    {
      hide SlotHolds, Unique, IsOldTombstone, Compact;
      ghost var p := row => IsOldTombstone(row, cutoff);
      var i := 0;
      removed := 0;
      while i < numFiles
        invariant SlotsValid() && i <= numFiles && removed == |old(rows)| - |rows|
        invariant removed == 0 ==> rows == old(rows)
        invariant Compact(rows, p, i) == Compact(old(rows), p, 0)
        decreases numFiles - i
      {
        CompactStep(rows, p, i);
        var drop := OldTombstone(i, cutoff);
        if drop {
          TakeTail(i);
          removed := removed + 1;
        } else {
          i := i + 1;
        }
      }
      CompactEnd(rows, p);
    }

    /** foldstate_prune_tombstones; the sequence high-water stays. */
    method PruneTombstones(cutoff: int) returns (removed: nat)
      requires Valid()
      modifies this, files, names, blocks, nblocks, seen, hhead, hnext
      ensures Valid() && rows == StepRows(old(rows), Op.Prune(cutoff))
      ensures forall row :: row in rows <==>
                row in old(rows) && (row.meta.core.deleted == 0 || row.meta.core.modifiedS >= cutoff)
      ensures removed == |old(rows)| - |rows| && sequence == old(sequence)
      ensures dirty == (old(dirty) || removed > 0) && pruneGen == old(pruneGen) + (if removed > 0 then 1 else 0)
    {
      hide SlotHolds, Unique, Chains, StepRows;
      removed := DropTombstones(cutoff);
      forall row { PruneKeeps(old(rows), cutoff, row); }
      if removed > 0 {
        HashRebuild();
        dirty, pruneGen := true, pruneGen + 1;
      }
    }

    method ClearSeen()
      requires Valid()
      modifies `rows, seen
      ensures Valid() && rows == StepRows(old(rows), Op.ClearSeen) && |rows| == |old(rows)|
      ensures forall i :: 0 <= i < |rows| ==> rows[i] == old(rows)[i].(seen := false)
    {
      hide Chains, RecOk, MetaFromRec;
      ghost var was := rows;
      for i := 0 to numFiles
        invariant rows == was && forall k :: 0 <= k < seen.Length ==> seen[k] == (k >= i && old(seen[k]))
      {
        seen[i] := false;
      }
      rows := ClearSeenRows(rows);
      ChainsByName(hhead[..], hnext[..], was, rows, nameHash, numFiles);
      assert forall i :: 0 <= i < numFiles ==> SlotHolds(files[i], names[i], blocks[i], nblocks[i], old(seen[i]), was[i]);
    }

    method SetSeen(i: nat)
      requires Valid() && i < numFiles
      modifies `rows, seen
      ensures Valid() && rows == old(rows)[i := old(rows)[i].(seen := true)]
    {
      hide Chains, RecOk, MetaFromRec;
      ghost var was := rows;
      assert SlotHolds(files[i], names[i], blocks[i], nblocks[i], seen[i], rows[i]);
      seen[i] := true;
      rows := rows[i := rows[i].(seen := true)];
      ChainsByName(hhead[..], hnext[..], was, rows, nameHash, numFiles);
    }

    method MarkSeen(name: Name)
      requires Valid()
      modifies `rows, seen
      ensures Valid() && rows == StepRows(old(rows), Op.MarkSeen(name)) && |rows| == |old(rows)|
      ensures forall i :: 0 <= i < |rows| ==> rows[i] == old(rows)[i].(seen := old(rows)[i].seen || old(rows)[i].name == name)
    {
      hide Chains, SlotHolds, Unique;
      var i := FindSlot(name);
      if i >= 0 {
        NameOnce(rows, i);
        SetSeen(i);
      }
    }

    method NextSeq() returns (seqNo: int)
      requires Valid()
      modifies `dirty, `sequence
      ensures Valid() && dirty && sequence == old(sequence) + 1 && seqNo == sequence
    {
      dirty, sequence := true, sequence + 1;
      seqNo := sequence;
    }

    /** foldstate_find with foldstate_meta and foldstate_blocks: what the index
        answers for a name is what the map it stands for holds. */
    method Find(name: Name, ghost m: map<Name, Entry>) returns (found: Option<Entry>)
      requires Valid() && Shows(rows, m)
      ensures found == if name in m then Some(m[name]) else None
    {
      hide Chains, Shows;
      FindIsLookup(rows, m, name);
      var i := FindSlot(name);
      if i < 0 {
        return None;
      }
      assert SlotHolds(files[i], names[i], blocks[i], nblocks[i], seen[i], rows[i]);
      found := Some(Entry(MetaFromRec(files[i]), if blocks[i].Some? then blocks[i].value else [], seen[i]));
    }
  }
}
