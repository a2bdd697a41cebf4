/**
  What a scan pass does to a record, field by field: the laws of ScanPass said
  without its predicates and records.
*/
module ScanFields {
  import opened Bytes
  import opened FoldRows
  import opened ScanPass

  // ------------------------------------------------------------ commits

  /** Writing a record and marking it: the named one is what was written, all others
      are as they were. */
  lemma Written(rows: seq<Row>, name: Name, meta: Meta, blocks: seq<Hash>, mem: Mem)
    requires Unique(rows)
    ensures var r := MarkSeenRows(PutRow(rows, name, meta, blocks, mem), name);
            && (forall row: Row :: row.name != name ==> (row in r <==> row in rows))
            && (IndexOf(rows, name) >= 0 || mem.room ==>
                  IndexOf(r, name) >= 0 &&
                  r[IndexOf(r, name)] == Row(name, StoredMeta(meta, mem.version), StoredBlocks(blocks, mem.blocks), true))
  {
    hide StoredMeta, StoredBlocks;
    var put := PutRow(rows, name, meta, blocks, mem);
    var r, i := MarkSeenRows(put, name), IndexOf(rows, name);
    if i >= 0 {
      IndexUnique(put, i);
      IndexUnique(r, i);
    } else if mem.room {
      AppendUnique(rows, put[|rows|]);
      IndexUnique(put, |rows|);
      IndexUnique(r, |rows|);
    }
    forall row: Row | row.name != name ensures row in r <==> row in rows {
      if row in rows {
        var k :| 0 <= k < |rows| && rows[k] == row;
        assert r[k] == row;
      }
      if row in r {
        var k :| 0 <= k < |r| && r[k] == row;
        assert rows[k] == row;
      }
    }
  }

  /** The vector of a new version: every other device's counter as before, ours above
      the old one and no less than the stamp, but for a full vector or a full counter. */
  lemma Bumps(v: seq<Counter>, id: nat, value: nat, stored: seq<Counter>, ok: bool, other: nat)
    requires value <= 0xFFFF_FFFF_FFFF_FFFF && (forall j :: 0 <= j < |v| ==> v[j].value <= 0xFFFF_FFFF_FFFF_FFFF)
    requires stored == StoredVersion(Bump(v, id, value), ok) && |v| <= 16 && (ok || |v| < 4)
    ensures other != id ==> CounterOf(stored, other) == CounterOf(v, other)
    ensures CounterOf(stored, id) > CounterOf(v, id) <==>
            CounterOf(v, id) < 0xFFFF_FFFF_FFFF_FFFF && (CounterOf(v, id) >= 0 || |v| < 16)
    ensures CounterOf(stored, id) > CounterOf(v, id) ==> CounterOf(stored, id) == Max(value, CounterOf(v, id) + 1)
  {
    BumpRaisesOurs(v, id, value, other);
    BumpOneLonger(v, 0, id, value);
    assert stored == Bump(v, id, value);
  }

  lemma {:induction false} BumpOneLonger(v: seq<Counter>, at: nat, id: nat, value: nat)
    requires at <= |v|
    ensures |Bumped(v, at, id, value)| <= |v| + 1
    decreases |v| - at
  {
    if at < |v| && v[at].id != id {
      BumpOneLonger(v, at + 1, id, value);
    }
  }

  /** A file that was hashed: its record says what was found, under a fresh number, as
      our change and with a newer version than the one before. */
  lemma FileCommitted(s: State, e: Listed, hash: Hash, blocks: seq<Hash>, mem: Mem, env: Env, other: nat)
    requires Unique(s.rows) && env.stamp(e.modifiedS) <= 0xFFFF_FFFF_FFFF_FFFF
    ensures var t := StepEvent(s, CommitFile(e, hash, blocks, mem), env);
            var was, i := IndexOf(s.rows, e.name), IndexOf(t.rows, e.name);
            && t.sequence == s.sequence + 1 && (forall row: Row :: row.name != e.name ==> (row in t.rows <==> row in s.rows))
            && (was >= 0 || mem.room ==>
                  && i >= 0
                  && var row := t.rows[i];
                     var c, v := row.meta.core, if was >= 0 then s.rows[was].meta.version else [];
                     && row.seen && row.blocks == (if mem.blocks then blocks else [])
                     && c.size == e.size && c.permissions == 420 && c.modifiedS == e.modifiedS && c.modifiedNs == 0
                     && c.modifiedBy == env.shortId && c.sequence == s.sequence + 1 && c.blockSize == env.blockSizeOf(e.size)
                     && c.contentHash == hash && c.hasContentHash == 1 && c.kind == 0 && c.deleted == 0 && c.invalid == 0
                     && (|v| <= 16 && (mem.version || |v| < 4) && (forall j :: 0 <= j < |v| ==> v[j].value <= 0xFFFF_FFFF_FFFF_FFFF) ==>
                           && (other != env.shortId ==> CounterOf(row.meta.version, other) == CounterOf(v, other))
                           && (CounterOf(row.meta.version, env.shortId) > CounterOf(v, env.shortId) <==>
                                 CounterOf(v, env.shortId) < 0xFFFF_FFFF_FFFF_FFFF && (CounterOf(v, env.shortId) >= 0 || |v| < 16))))
  {
    hide Bump, StoredVersion, PutRow, MarkSeenRows, CounterOf, Unique;
    var meta := FileMeta(s.rows, e, hash, s.sequence + 1, env);
    Written(s.rows, e.name, meta, blocks, mem);
    var v := VersionAt(s.rows, e.name);
    if |v| <= 16 && (mem.version || |v| < 4) && forall j :: 0 <= j < |v| ==> v[j].value <= 0xFFFF_FFFF_FFFF_FFFF {
      Bumps(v, env.shortId, env.stamp(e.modifiedS), StoredVersion(meta.version, mem.version), mem.version, other);
    }
  }

  /** A directory: marked when a live record is there, otherwise committed like a file,
      without content. */
  lemma DirCommitted(s: State, e: Listed, mem: Mem, env: Env, other: nat)
    requires Unique(s.rows) && env.stamp(e.modifiedS) <= 0xFFFF_FFFF_FFFF_FFFF
    ensures var t := StepEvent(s, CommitDir(e, mem), env);
            var was, i := IndexOf(s.rows, e.name), IndexOf(t.rows, e.name);
            if was >= 0 && s.rows[was].meta.core.deleted == 0 then t == State(s.rows[was := s.rows[was].(seen := true)], s.sequence)
            else
              && t.sequence == s.sequence + 1 && (forall row: Row :: row.name != e.name ==> (row in t.rows <==> row in s.rows))
              && (was >= 0 || mem.room ==>
                    && i >= 0
                    && var row := t.rows[i];
                       var c, v := row.meta.core, if was >= 0 then s.rows[was].meta.version else [];
                       && row.seen && row.blocks == [] && c.size == 0 && c.permissions == 493 && c.modifiedS == e.modifiedS
                       && c.modifiedNs == 0 && c.modifiedBy == env.shortId && c.sequence == s.sequence + 1 && c.blockSize == 0
                       && c.hasContentHash == 0 && c.kind == 1 && c.deleted == 0 && c.invalid == 0
                       && (|v| <= 16 && (mem.version || |v| < 4) && (forall j :: 0 <= j < |v| ==> v[j].value <= 0xFFFF_FFFF_FFFF_FFFF) ==>
                             && (other != env.shortId ==> CounterOf(row.meta.version, other) == CounterOf(v, other))
                             && (CounterOf(row.meta.version, env.shortId) > CounterOf(v, env.shortId) <==>
                                   CounterOf(v, env.shortId) < 0xFFFF_FFFF_FFFF_FFFF && (CounterOf(v, env.shortId) >= 0 || |v| < 16))))
  {
    hide Bump, StoredVersion, PutRow, CounterOf, Unique;
    var meta := DirMeta(s.rows, e, s.sequence + 1, env);
    Written(s.rows, e.name, meta, [], mem);
    var v := VersionAt(s.rows, e.name);
    if |v| <= 16 && (mem.version || |v| < 4) && forall j :: 0 <= j < |v| ==> v[j].value <= 0xFFFF_FFFF_FFFF_FFFF {
      Bumps(v, env.shortId, env.stamp(e.modifiedS), StoredVersion(meta.version, mem.version), mem.version, other);
    }
  }

  /** A file looked at is left to be hashed when it has no record, a deleted or invalid
      one, one of another size or time, or one without blocks. Otherwise its record is
      marked. Either way the look says which. */
  lemma Looked(s: State, e: Listed, env: Env)
    ensures var i := IndexOf(s.rows, e.name);
            var same := && i >= 0 && s.rows[i].meta.core.deleted == 0 && s.rows[i].meta.core.invalid == 0
                        && s.rows[i].meta.core.size == e.size && |s.rows[i].blocks| > 0
                        && e.modifiedS in [s.rows[i].meta.core.modifiedS, env.onDisk(s.rows[i].meta.core.modifiedS)];
            && (Changed(s.rows, e, env) <==> !same)
            && StepEvent(s, Look(e), env) == (if same then State(s.rows[i := s.rows[i].(seen := true)], s.sequence) else s)
            && Reported(s, Look(e), env) == if same then {e.name} else {}
  {
  }

  /** What is reported: a file looked at and unchanged, and everything committed or kept;
      of what workers write, nothing. */
  lemma WhatIsReported(s: State, e: Listed, hash: Hash, blocks: seq<Hash>, mem: Mem, meta: Meta, env: Env)
    ensures Reported(s, CommitFile(e, hash, blocks, mem), env) == Reported(s, Keep(e), env) == Reported(s, CommitDir(e, mem), env)
            == {e.name}
    ensures Reported(s, Worker(e.name, meta, blocks, mem), env) == {}
    ensures IndexOf(s.rows, e.name) < 0 ==> StepEvent(s, Keep(e), env) == s
    ensures var i := IndexOf(s.rows, e.name);
            i >= 0 ==> StepEvent(s, Keep(e), env) == State(s.rows[i := s.rows[i].(seen := true)], s.sequence)
    ensures StepEvent(s, Worker(e.name, meta, blocks, mem), env).sequence == s.sequence + 1
  {
  }

  // ---------------------------------------------------------- the sweep

  lemma SettledInFields(s: State, t: State, i: nat, r: Rule, versionOk: seq<bool>, other: nat)
    requires i < |s.rows| == |t.rows| <= |versionOk| && Settled(s, t, i, r, versionOk)
    ensures var row, now := s.rows[i], t.rows[i];
            var c, d, v := row.meta.core, now.meta.core, row.meta.version;
            var unmarked, id := c.deleted == 0 && c.invalid == 0 && !row.seen, r.env.shortId;
            if unmarked && !r.env.ignored(row.name) && c.sequence <= r.before then
              && now.name == row.name && now.blocks == [] && s.sequence < d.sequence <= t.sequence
              && d.deleted == 1 && d.invalid == 0 && d.size == 0 && d.blockSize == 0 && d.hasContentHash == 0
              && d.kind == c.kind && d.permissions == c.permissions
              && d.modifiedBy == id && d.modifiedS == r.when && d.modifiedNs == 0
              && (|v| <= 16 && (versionOk[i] || |v| < 4) && (forall j :: 0 <= j < |v| ==> v[j].value <= 0xFFFF_FFFF_FFFF_FFFF) ==>
                    && (other != id ==> CounterOf(now.meta.version, other) == CounterOf(v, other))
                    && (CounterOf(now.meta.version, id) > CounterOf(v, id) <==>
                          CounterOf(v, id) < 0xFFFF_FFFF_FFFF_FFFF && (CounterOf(v, id) >= 0 || |v| < 16)))
            else if unmarked && r.env.ignored(row.name) && c.kind == 0 then
              && now.name == row.name && now.blocks == [] && s.sequence < d.sequence <= t.sequence
              && d == c.(invalid := 1, sequence := d.sequence)
              && (|v| <= 4 || (versionOk[i] && |v| <= 16) ==> now.meta.version == v)
            else now == row
  {
    hide Bump, CounterOf, StoredVersion;
    var row, v := s.rows[i], s.rows[i].meta.version;
    VersionKept(v, versionOk[i]);
    if Doomed(row, r) && |v| <= 16 && (versionOk[i] || |v| < 4)
       && forall j :: 0 <= j < |v| ==> v[j].value <= 0xFFFF_FFFF_FFFF_FFFF {
      Bumps(v, r.env.shortId, r.when % (U64_MAX + 1), t.rows[i].meta.version, versionOk[i], other);
    }
  }

  lemma VersionKept(v: seq<Counter>, ok: bool)
    ensures |v| <= 4 || (ok && |v| <= 16) ==> StoredVersion(v, ok) == v
  {
  }

  /** A complete pass, slot by slot, for every run of scanner and worker steps. A live
      record nothing marked, that is not ignored and no newer than the pass, becomes a
      deletion of its own kind by us, newer than before for every peer; an ignored file
      is taken back as invalid, keeping all else; every other record stays. */
  lemma PassInFields(rows: seq<Row>, sequence: int, evs: seq<Event>, env: Env, when: int, versionOk: seq<bool>,
                     i: nat, other: nat)
    requires Unique(rows) && forall j :: 0 <= j < |rows| ==> rows[j].meta.core.sequence <= sequence
    requires forall j, k :: 0 <= j < k < |rows| ==> rows[j].meta.core.sequence != rows[k].meta.core.sequence
    requires forall name :: name in ReportedIn(State(ClearSeenRows(rows), sequence), evs, env) ==> !env.ignored(name)
    requires i < |versionOk| == |RunEvents(State(ClearSeenRows(rows), sequence), evs, env).rows|
    ensures var s := RunEvents(State(ClearSeenRows(rows), sequence), evs, env);
            var t := Sweep(s, |s.rows|, Rule(sequence, when, env), versionOk);
            && |t.rows| == |s.rows| && t.rows[i].meta.core.sequence <= t.sequence
            && (forall j :: 0 <= j < |t.rows| && j != i ==> t.rows[j].meta.core.sequence != t.rows[i].meta.core.sequence)
            && var row, now := s.rows[i], t.rows[i];
               var c, d, v := row.meta.core, now.meta.core, row.meta.version;
               var unmarked, id := c.deleted == 0 && c.invalid == 0 && !row.seen, env.shortId;
               if unmarked && !env.ignored(row.name) && c.sequence <= sequence then
                 && now.name == row.name && now.blocks == [] && s.sequence < d.sequence <= t.sequence
                 && row.name !in ReportedIn(State(ClearSeenRows(rows), sequence), evs, env)
                 && d.deleted == 1 && d.invalid == 0 && d.size == 0 && d.blockSize == 0 && d.hasContentHash == 0
                 && d.kind == c.kind && d.permissions == c.permissions
                 && d.modifiedBy == id && d.modifiedS == when && d.modifiedNs == 0
                 && (|v| <= 16 && (versionOk[i] || |v| < 4) && (forall j :: 0 <= j < |v| ==> v[j].value <= 0xFFFF_FFFF_FFFF_FFFF) ==>
                       && (other != id ==> CounterOf(now.meta.version, other) == CounterOf(v, other))
                       && (CounterOf(now.meta.version, id) > CounterOf(v, id) <==>
                             CounterOf(v, id) < 0xFFFF_FFFF_FFFF_FFFF && (CounterOf(v, id) >= 0 || |v| < 16)))
               else if unmarked && env.ignored(row.name) && c.kind == 0 then
                 && now.name == row.name && now.blocks == [] && s.sequence < d.sequence <= t.sequence
                 && d == c.(invalid := 1, sequence := d.sequence)
                 && (|v| <= 4 || (versionOk[i] && |v| <= 16) ==> now.meta.version == v)
               else now == row
  {
    assert Numbered(rows, sequence);
    hide Unique, ReportedIn, RunEvents, Sweep, Settled, CounterOf, ClearSeenRows;
    PassIsSafe(rows, sequence, evs, env, when, versionOk);
    var s := RunEvents(State(ClearSeenRows(rows), sequence), evs, env);
    var t := Sweep(s, |s.rows|, Rule(sequence, when, env), versionOk);
    assert Settled(s, t, i, Rule(sequence, when, env), versionOk);
    SettledInFields(s, t, i, Rule(sequence, when, env), versionOk, other);
  }
}
