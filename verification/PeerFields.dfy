/**
  What the peer manager does, said in the fields of its slots: the laws of
  Supervision and PeerManager without their predicates.
*/
module PeerFields {
  import opened Bytes
  import opened Supervision
  import opened PeerManager
  import DeviceId

  /** At most one startup block per slot is outstanding: a slot's process runs, or its
      reply waits, and no other process or reply belongs to that slot. */
  lemma OneBlockPerSlot(slots: seq<PeerSlot>, running: map<nat, nat>, port: seq<Reply>)
    requires Matched(slots, running, port)
    ensures forall p, q :: p in running && q in running && running[p] == running[q] ==> p == q
    ensures forall p, k :: p in running && 0 <= k < |port| ==> running[p] != port[k].slot && p != port[k].proc
    ensures forall j, k :: 0 <= j < k < |port| ==> port[j].slot != port[k].slot && port[j].proc != port[k].proc
    ensures forall i :: 0 <= i < |slots| && slots[i].proc.Some? ==>
              var p := slots[i].proc.value;
              (p in running && running[p] == i) || exists k :: 0 <= k < |port| && port[k].proc == p && port[k].slot == i
    ensures forall i :: 0 <= i < |slots| && slots[i].proc.None? ==>
              (forall p :: p in running ==> running[p] != i) && forall k :: 0 <= k < |port| ==> port[k].slot != i
  {
    forall i | 0 <= i < |slots| && slots[i].proc.Some?
      ensures var p := slots[i].proc.value;
              (p in running && running[p] == i) || exists k :: 0 <= k < |port| && port[k].proc == p && port[k].slot == i
    {
      var p := slots[i].proc.value;
      if p in running {
        assert slots[running[p]].proc == Some(p);
      } else {
        var k :| 0 <= k < |port| && port[k].proc == p;
        assert slots[port[k].slot].proc == Some(p);
      }
    }
  }

  /** The bytes that the ended workers of slot i have moved, one reply after the other. */
  lemma SumIs(rs: seq<Reply>, r: Reply, i: nat)
    ensures Sum([], i, In) == 0 && Sum([], i, Out) == 0
    ensures Sum(rs + [r], i, In) == Sum(rs, i, In) + if r.slot == i then r.moved.received else 0
    ensures Sum(rs + [r], i, Out) == Sum(rs, i, Out) + if r.slot == i then r.moved.sent else 0
  {
    SumSnoc(rs, r, i, In);
    SumSnoc(rs, r, i, Out);
  }

  /** Who gets a signal: the workers of all slots, of the paused ones or of the removed
      ones, and nobody else. */
  lemma {:induction false} SentIs(slots: seq<PeerSlot>, who: Who, sig: Sig, n: nat, p: nat, sig': Sig)
    requires n <= |slots|
    ensures (p, sig') in Sent(slots, who, sig, n) <==>
              sig' == sig && exists i :: 0 <= i < n && slots[i].proc == Some(p)
                                         && (who == Paused ==> slots[i].paused) && (who == Removed ==> slots[i].removed)
  {
    if n > 0 {
      SentIs(slots, who, sig, n - 1, p, sig');
    }
  }

  /** And each of them once. */
  lemma {:induction false} SentOnce(slots: seq<PeerSlot>, who: Who, sig: Sig, n: nat, j: nat, k: nat)
    requires n <= |slots| && forall i, i' :: 0 <= i < i' < |slots| && slots[i].proc.Some? ==> slots[i].proc != slots[i'].proc
    requires j < k < |Sent(slots, who, sig, n)|
    ensures Sent(slots, who, sig, n)[j].0 != Sent(slots, who, sig, n)[k].0
  {
    var s := Sent(slots, who, sig, n - 1);
    if k < |s| {
      SentOnce(slots, who, sig, n - 1, j, k);
    } else {
      assert s[j] in s && s[j] == (s[j].0, s[j].1);
      SentIs(slots, who, sig, n - 1, s[j].0, s[j].1);
    }
  }

  /** The answer of pause and resume: how many peers were meant. */
  lemma {:induction false} CountMeantIs(slots: seq<PeerSlot>, all: bool, id: Text, n: nat)
    requires n <= |slots|
    ensures var meant := set i | 0 <= i < n && !slots[i].removed && (all || SameDevice(slots[i].id, id));
            CountMeant(slots, all, id, n) == |meant|
  {
    hide SameDevice;
    var meant := set i | 0 <= i < n && !slots[i].removed && (all || SameDevice(slots[i].id, id));
    if n == 0 {
      assert meant == {};
    } else {
      CountMeantIs(slots, all, id, n - 1);
      var less := set i | 0 <= i < n - 1 && !slots[i].removed && (all || SameDevice(slots[i].id, id));
      if Meant(slots[n - 1], all, id) {
        assert meant == less + {n - 1};
      } else {
        assert meant == less;
      }
    }
  }

  /** The answers of peer_manager_add. */
  lemma AddResultIs(slots: seq<PeerSlot>, peers: nat, id: Text)
    ensures var live := exists i :: 0 <= i < |slots| && !slots[i].removed && SameDevice(slots[i].id, id);
            var gone := exists i :: 0 <= i < |slots| && slots[i].removed && SameDevice(slots[i].id, id);
            AddResult(slots, peers, id) ==
            if DeviceId.Normalized(id).None? then 0
            else if live then -1
            else if gone then 1
            else if peers >= 16 then -2
            else if |slots| != peers then -3
            else 1
  {
    hide SameDevice;
    if DeviceId.Normalized(id).Some? {
      forall i | 0 <= i < |slots| {
        SameAsCanonical(slots[i].id, id);
      }
    }
  }

  /** The backoff of a slot after one more of its workers ended: two seconds after a
      session, otherwise twice what it was but a minute at most; of a slot that may not
      be dialled it stays. */
  lemma BackoffStep(s: PeerSlot, i: nat, shuttingDown: bool, rs: seq<Reply>, r: Reply)
    ensures BackoffAfter(s, i, shuttingDown, []) == s.backoff
    ensures var b := BackoffAfter(s, i, shuttingDown, rs);
            BackoffAfter(s, i, shuttingDown, rs + [r]) ==
            if r.slot == i && !shuttingDown && s.haveAddr && !s.paused && !s.removed
            then if r.connected then 2 else Min(2 * b, 60)
            else b
  {
    assert (rs + [r])[..|rs|] == rs;
  }

  /** And the dial that follows: at two seconds after a session, else after the backoff
      so far. */
  lemma DialStep(slots: seq<PeerSlot>, shuttingDown: bool, rs: seq<Reply>, r: Reply)
    ensures DialsAfter(slots, shuttingDown, []) == []
    ensures DialsAfter(slots, shuttingDown, rs + [r]) ==
            DialsAfter(slots, shuttingDown, rs) +
            if r.slot < |slots| && !shuttingDown
               && var s := slots[r.slot]; s.haveAddr && !s.paused && !s.removed
            then [Dial(r.slot, if r.connected then 2 else BackoffAfter(slots[r.slot], r.slot, shuttingDown, rs))]
            else []
  {
    assert (rs + [r])[..|rs|] == rs;
  }

  /** peer_manager_start dials every slot with an address, at once. */
  lemma {:induction false} StartFor(slots: seq<PeerSlot>, n: nat, d: Dial)
    requires n <= |slots|
    ensures d in StartDials(slots, n) <==> d.slot < n && slots[d.slot].haveAddr && d.delay == 0
  {
    if n > 0 {
      StartFor(slots, n - 1, d);
    }
  }

  /** A peer that was paused is left alone: whatever workers end, neither the replies nor
      a retry dial it. */
  method QuietAfterPause(pm: PeerManager, all: bool, id: Text)
    requires pm.Valid() && !pm.exec.forbidden
    modifies pm`slots, pm`dials, pm.exec
    ensures pm.Valid() && |pm.slots| == |old(pm.slots)|
    ensures forall i :: 0 <= i < |pm.slots| && !old(pm.slots)[i].removed && (all || SameDevice(old(pm.slots)[i].id, id)) ==>
              pm.slots[i].paused && forall k :: |old(pm.dials)| <= k < |pm.dials| ==> pm.dials[k].slot != i
  {
    hide Matched, Folded, LogFits, InPort, BackoffsAfter, DialsAfter, BackoffsOk, OnlyDialable, SameDevice, RetryDials;
    var _ := pm.Pause(all, id);
    ghost var paused, first := pm.slots, pm.dials;
    ghost var _ := pm.Handle();
    ConfigSame(pm.slots, paused);
    ghost var handled, second := pm.slots, pm.dials;
    pm.Retry();
    ButProcSame(pm.slots, handled);
  }
}
