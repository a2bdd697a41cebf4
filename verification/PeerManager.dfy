/**
  The peer manager of src/peer.c on top of Supervision: dialling, reaping, signalling
  under Forbid(), pausing, adding, removing, shutting down. That a Signal never reaches
  a process that has ended is the precondition of Exec.Signal, met at its one call.
*/
module PeerManager {
  import opened Bytes
  import opened Supervision
  import DeviceId

  type Text = seq<byte>

  const CONFIG_MAX_PEERS: nat := 16

  datatype Who = All | Paused | Removed

  predicate Chosen(s: PeerSlot, who: Who) {
    s.proc.Some? && (who.Paused? ==> s.paused) && (who.Removed? ==> s.removed)
  }

  /** The signals of a signalling pass over the first n slots, in order. */
  function Sent(slots: seq<PeerSlot>, who: Who, sig: Sig, n: nat): seq<(nat, Sig)>
    requires n <= |slots|
  {
    if n == 0 then []
    else Sent(slots, who, sig, n - 1) + if Chosen(slots[n - 1], who) then [(slots[n - 1].proc.value, sig)] else []
  }

  predicate Startable(s: PeerSlot, shuttingDown: bool) {
    !shuttingDown && s.haveAddr && !s.paused && !s.removed
  }

  predicate SameConfig(a: PeerSlot, b: PeerSlot) {
    a.id == b.id && a.host == b.host && a.haveAddr == b.haveAddr && a.paused == b.paused && a.removed == b.removed
  }

  predicate AllSameConfig(a: seq<PeerSlot>, b: seq<PeerSlot>) {
    |a| == |b| && forall i :: 0 <= i < |a| ==> SameConfig(a[i], b[i])
  }

  /** A dial may have given a slot a worker; nothing else about it changed. */
  predicate SameButProc(a: PeerSlot, b: PeerSlot) {
    a == b.(proc := a.proc)
  }

  predicate AllSameButProc(a: seq<PeerSlot>, b: seq<PeerSlot>) {
    |a| == |b| && forall i :: 0 <= i < |a| ==> SameButProc(a[i], b[i])
  }

  predicate BackoffsOk(slots: seq<PeerSlot>) {
    forall i :: 0 <= i < |slots| ==> PEER_BACKOFF_MIN <= slots[i].backoff <= PEER_BACKOFF_MAX
  }

  /** device_id_equal: both are IDs, and the same one. */
  predicate SameDevice(a: Text, b: Text) {
    DeviceId.Normalized(a).Some? && DeviceId.Normalized(a) == DeviceId.Normalized(b)
  }

  method DeviceEqual(a: Text, b: Text) returns (equal: bool)
    ensures equal == SameDevice(a, b)
    ensures equal <==> DeviceId.Normalized(a).Some? && DeviceId.Normalized(b).Some?
                       && DeviceId.Normalized(a).value == DeviceId.Normalized(b).value
  {
    var na := DeviceId.Normalize(a);
    var nb := DeviceId.Normalize(b);
    equal := na.Some? && nb.Some? && na == nb;
  }

  /** An ID in its canonical form names the same devices as the text it came from. */
  lemma SameAsCanonical(a: Text, b: Text)
    requires DeviceId.Normalized(b).Some?
    ensures SameDevice(a, DeviceId.Normalized(b).value) == SameDevice(a, b)
  {
    hide DeviceId.ChecksOut;
    var c := DeviceId.Normalized(b).value;
    DeviceId.KeptAlphabet(c);
  }

  lemma CanonicalIsId(a: Text)
    requires DeviceId.Normalized(a).Some?
    ensures SameDevice(DeviceId.Normalized(a).value, a)
  {
    hide DeviceId.ChecksOut;
    DeviceId.KeptAlphabet(DeviceId.Normalized(a).value);
  }

  /** Whether a request for id, or for every peer, means this slot. */
  predicate Meant(s: PeerSlot, all: bool, id: Text) {
    !s.removed && (all || SameDevice(s.id, id))
  }

  function CountMeant(slots: seq<PeerSlot>, all: bool, id: Text, n: nat): nat
    requires n <= |slots|
  {
    if n == 0 then 0 else CountMeant(slots, all, id, n - 1) + if Meant(slots[n - 1], all, id) then 1 else 0
  }

  /** The first slot of a device that is removed, or that is not; past the end if none is. */
  function FirstOf(slots: seq<PeerSlot>, id: Text, removed: bool): (i: nat)
    ensures i <= |slots| && (i < |slots| ==> SameDevice(slots[i].id, id) && slots[i].removed == removed)
    ensures forall j :: 0 <= j < i ==> !SameDevice(slots[j].id, id) || slots[j].removed != removed
  {
    if slots == [] || (SameDevice(slots[0].id, id) && slots[0].removed == removed) then 0 else 1 + FirstOf(slots[1..], id, removed)
  }

  /** Of the running workers the ones that were not there before belong to such peers. */
  predicate OnlyDialable(running: map<nat, nat>, was: map<nat, nat>, slots: seq<PeerSlot>, shuttingDown: bool) {
    forall p :: p in running ==>
                  (p in was && running[p] == was[p]) ||
                  (running[p] < |slots| && Startable(slots[running[p]], shuttingDown))
  }

  lemma OnlyDialableKept(running': map<nat, nat>, running: map<nat, nat>, was: map<nat, nat>, slots': seq<PeerSlot>,
                         slots: seq<PeerSlot>, shuttingDown: bool)
    requires OnlyDialable(running, was, slots, shuttingDown) && OnlyDialable(running', running, slots', shuttingDown)
    requires |slots| <= |slots'|
    requires forall i :: 0 <= i < |slots| && Startable(slots[i], shuttingDown) ==> Startable(slots'[i], shuttingDown)
    ensures OnlyDialable(running', was, slots', shuttingDown)
  {
    hide Startable;
  }

  lemma NoneNew(running': map<nat, nat>, running: map<nat, nat>, slots: seq<PeerSlot>, shuttingDown: bool)
    requires forall p :: p in running' ==> p in running && running'[p] == running[p]
    ensures OnlyDialable(running', running, slots, shuttingDown)
  {
  }

  lemma StillOnlyDialable(running': map<nat, nat>, running: map<nat, nat>, was: map<nat, nat>, slots': seq<PeerSlot>,
                          slots: seq<PeerSlot>, shuttingDown: bool)
    requires OnlyDialable(running, was, slots, shuttingDown) && OnlyDialable(running', running, slots', shuttingDown)
    requires AllSameConfig(slots', slots)
    ensures OnlyDialable(running', was, slots', shuttingDown)
  {
    forall i | 0 <= i < |slots| ensures Startable(slots[i], shuttingDown) == Startable(slots'[i], shuttingDown) {
    }
    OnlyDialableKept(running', running, was, slots', slots, shuttingDown);
  }

  // ----------------------------------------------------------- dials and waits

  /** An attempt to start a worker for a slot, which waits before it connects. */
  datatype Dial = Dial(slot: nat, delay: nat)

  function NextBackoff(b: nat): nat {
    if b < PEER_BACKOFF_MAX / 2 then b * 2 else PEER_BACKOFF_MAX
  }

  /** What the end of these workers, in this order, makes of the backoff of slot i. */
  function BackoffAfter(s: PeerSlot, i: nat, shuttingDown: bool, rs: seq<Reply>): nat {
    if rs == [] then s.backoff
    else
      var r, b := rs[|rs| - 1], BackoffAfter(s, i, shuttingDown, rs[..|rs| - 1]);
      if r.slot != i || !Startable(s, shuttingDown) then b else if r.connected then PEER_BACKOFF_MIN else NextBackoff(b)
  }

  predicate BackoffsAfter(slots: seq<PeerSlot>, was: seq<PeerSlot>, shuttingDown: bool, rs: seq<Reply>) {
    |slots| == |was| && forall i :: 0 <= i < |slots| ==> slots[i].backoff == BackoffAfter(was[i], i, shuttingDown, rs)
  }

  /** The dial one reply leads to: at once after a session, else after the backoff so far. */
  function DialAfter(slots: seq<PeerSlot>, shuttingDown: bool, rs: seq<Reply>, r: Reply): seq<Dial> {
    if r.slot < |slots| && Startable(slots[r.slot], shuttingDown) then
      [Dial(r.slot, if r.connected then PEER_BACKOFF_MIN else BackoffAfter(slots[r.slot], r.slot, shuttingDown, rs))]
    else []
  }

  /** The dials that follow on the end of these workers. */
  function DialsAfter(slots: seq<PeerSlot>, shuttingDown: bool, rs: seq<Reply>): seq<Dial> {
    if rs == [] then []
    else
      var less := rs[..|rs| - 1];
      DialsAfter(slots, shuttingDown, less) + DialAfter(slots, shuttingDown, less, rs[|rs| - 1])
  }

  lemma ReplyBacks(slots: seq<PeerSlot>, slots': seq<PeerSlot>, was: seq<PeerSlot>, shuttingDown: bool, rs: seq<Reply>, r: Reply)
    requires BackoffsAfter(slots, was, shuttingDown, rs) && AllSameConfig(slots, was)
    requires |slots'| == |slots| && forall i :: 0 <= i < |slots| ==>
                                             slots'[i].backoff ==
                                             if i == r.slot && Startable(slots[i], shuttingDown)
                                             then if r.connected then PEER_BACKOFF_MIN else NextBackoff(slots[i].backoff)
                                             else slots[i].backoff
    ensures BackoffsAfter(slots', was, shuttingDown, rs + [r])
  {
    hide NextBackoff;
    assert (rs + [r])[..|rs|] == rs;
  }

  lemma ReplyDials(slots: seq<PeerSlot>, was: seq<PeerSlot>, shuttingDown: bool, rs: seq<Reply>, r: Reply)
    requires BackoffsAfter(slots, was, shuttingDown, rs) && AllSameConfig(slots, was) && r.slot < |slots|
    ensures DialsAfter(was, shuttingDown, rs + [r]) ==
            DialsAfter(was, shuttingDown, rs) +
            if Startable(slots[r.slot], shuttingDown)
            then [Dial(r.slot, if r.connected then PEER_BACKOFF_MIN else slots[r.slot].backoff)] else []
  {
    hide BackoffAfter;
    assert (rs + [r])[..|rs|] == rs;
  }

  lemma {:induction false} NoDials(slots: seq<PeerSlot>, rs: seq<Reply>)
    ensures DialsAfter(slots, true, rs) == []
  {
    if rs != [] {
      NoDials(slots, rs[..|rs| - 1]);
    }
  }

  /** Those dials are for peers with an address, neither paused nor removed, and for
      none while shutting down. */
  lemma {:induction false} DialsFor(slots: seq<PeerSlot>, shuttingDown: bool, rs: seq<Reply>, d: Dial)
    requires d in DialsAfter(slots, shuttingDown, rs)
    ensures !shuttingDown && d.slot < |slots|
    ensures var s := slots[d.slot]; s.haveAddr && !s.paused && !s.removed
  {
    var less, r := rs[..|rs| - 1], rs[|rs| - 1];
    if d in DialsAfter(slots, shuttingDown, less) {
      DialsFor(slots, shuttingDown, less, d);
    } else {
      assert d in DialAfter(slots, shuttingDown, less, r);
    }
  }

  lemma DialsAdded(slots: seq<PeerSlot>, shuttingDown: bool, rs: seq<Reply>, before: seq<Dial>, dials: seq<Dial>)
    requires dials == before + DialsAfter(slots, shuttingDown, rs)
    ensures forall k :: |before| <= k < |dials| ==>
              !shuttingDown && dials[k].slot < |slots| &&
              var s := slots[dials[k].slot]; s.haveAddr && !s.paused && !s.removed
  {
    hide DialsAfter;
    forall k | |before| <= k < |dials|
      ensures !shuttingDown && dials[k].slot < |slots| &&
              var s := slots[dials[k].slot]; s.haveAddr && !s.paused && !s.removed
    {
      assert dials[k] == DialsAfter(slots, shuttingDown, rs)[k - |before|];
      DialsFor(slots, shuttingDown, rs, dials[k]);
    }
  }

  lemma ConfigSame(a: seq<PeerSlot>, b: seq<PeerSlot>)
    requires AllSameConfig(a, b)
    ensures |a| == |b| && forall i :: 0 <= i < |a| ==>
                            a[i].haveAddr == b[i].haveAddr && a[i].paused == b[i].paused && a[i].removed == b[i].removed
  {
  }

  lemma NothingAfter(slots: seq<PeerSlot>, shuttingDown: bool)
    ensures BackoffsAfter(slots, slots, shuttingDown, []) && DialsAfter(slots, shuttingDown, []) == []
  {
  }

  /** How often in a row the workers of slot i have failed. */
  function Failures(rs: seq<Reply>, i: nat): nat {
    if rs == [] then 0
    else
      var r, n := rs[|rs| - 1], Failures(rs[..|rs| - 1], i);
      if r.slot != i then n else if r.connected then 0 else n + 1
  }

  /** The waits double from two seconds, and stay at a minute from the sixth on; a session
      that connects starts the series again. */
  lemma {:induction false} BackoffSeries(s: PeerSlot, i: nat, rs: seq<Reply>)
    requires s.backoff == 2 && s.haveAddr && !s.paused && !s.removed
    ensures var k := Failures(rs, i);
            BackoffAfter(s, i, false, rs) == if k < 5 then [2, 4, 8, 16, 32][k] else 60
  {
    if rs != [] {
      BackoffSeries(s, i, rs[..|rs| - 1]);
    }
  }

  function RetryDials(slots: seq<PeerSlot>, shuttingDown: bool, n: nat): seq<Dial>
    requires n <= |slots|
  {
    if n == 0 then []
    else
      var s := slots[n - 1];
      RetryDials(slots, shuttingDown, n - 1) + if Startable(s, shuttingDown) && s.proc == None then [Dial(n - 1, s.backoff)] else []
  }

  /** Exactly the peers with an address and no worker that are neither paused nor
      removed, each after its own backoff. */
  lemma {:induction false} RetryFor(slots: seq<PeerSlot>, shuttingDown: bool, n: nat, d: Dial)
    requires n <= |slots|
    ensures d in RetryDials(slots, shuttingDown, n) <==>
              && !shuttingDown && d.slot < n
              && var s := slots[d.slot];
                 s.haveAddr && !s.paused && !s.removed && s.proc == None && d.delay == s.backoff
  {
    if n > 0 {
      RetryFor(slots, shuttingDown, n - 1, d);
    }
  }

  lemma RetryAdds(was: seq<PeerSlot>, shuttingDown: bool, before: seq<Dial>, dials: seq<Dial>)
    requires dials == before + RetryDials(was, shuttingDown, |was|)
    ensures forall k :: |before| <= k < |dials| ==>
              !shuttingDown && dials[k].slot < |was| &&
              var s := was[dials[k].slot]; s.haveAddr && !s.paused && !s.removed
  {
    hide RetryDials;
    forall k | |before| <= k < |dials|
      ensures !shuttingDown && dials[k].slot < |was| &&
              var s := was[dials[k].slot]; s.haveAddr && !s.paused && !s.removed
    {
      assert dials[k] == RetryDials(was, shuttingDown, |was|)[k - |before|];
      RetryFor(was, shuttingDown, |was|, dials[k]);
    }
  }

  lemma RetryReaches(was: seq<PeerSlot>, shuttingDown: bool, before: seq<Dial>, dials: seq<Dial>)
    requires dials == before + RetryDials(was, shuttingDown, |was|)
    ensures forall i :: 0 <= i < |was| && !shuttingDown && was[i].haveAddr && !was[i].paused && !was[i].removed
                        && was[i].proc == None ==>
              exists k :: |before| <= k < |dials| && dials[k] == Dial(i, was[i].backoff)
  {
    hide RetryDials;
    var more := RetryDials(was, shuttingDown, |was|);
    forall i | 0 <= i < |was| && !shuttingDown && was[i].haveAddr && !was[i].paused && !was[i].removed && was[i].proc == None
      ensures exists k :: |before| <= k < |dials| && dials[k] == Dial(i, was[i].backoff)
    {
      RetryFor(was, shuttingDown, |was|, Dial(i, was[i].backoff));
      var k :| 0 <= k < |more| && more[k] == Dial(i, was[i].backoff);
      assert dials[|before| + k] == more[k];
    }
  }

  lemma ButProcSame(a: seq<PeerSlot>, b: seq<PeerSlot>)
    requires AllSameButProc(a, b)
    ensures |a| == |b| && forall i :: 0 <= i < |a| ==>
                            a[i].haveAddr == b[i].haveAddr && a[i].paused == b[i].paused && a[i].removed == b[i].removed
                            && a[i].backoff == b[i].backoff
  {
  }

  function StartDials(slots: seq<PeerSlot>, n: nat): seq<Dial>
    requires n <= |slots|
  {
    if n == 0 then [] else StartDials(slots, n - 1) + if slots[n - 1].haveAddr then [Dial(n - 1, 0)] else []
  }

  /** A slot as peer_resume leaves it, but for a new worker. */
  function Resumed(s: PeerSlot, all: bool, id: Text): PeerSlot {
    if Meant(s, all, id) && s.paused then s.(paused := false, backoff := PEER_BACKOFF_MIN) else s
  }

  function ResumeDials(slots: seq<PeerSlot>, all: bool, id: Text, n: nat): seq<Dial>
    requires n <= |slots|
  {
    if n == 0 then []
    else
      var s := slots[n - 1];
      ResumeDials(slots, all, id, n - 1) +
      if Meant(s, all, id) && s.paused && s.haveAddr && s.proc == None then [Dial(n - 1, 0)] else []
  }

  lemma {:induction false} ResumeFor(slots: seq<PeerSlot>, all: bool, id: Text, n: nat, d: Dial)
    requires n <= |slots|
    ensures d in ResumeDials(slots, all, id, n) <==>
              && d.slot < n && d.delay == 0
              && var s := slots[d.slot];
                 s.haveAddr && s.paused && !s.removed && s.proc == None && (all || SameDevice(s.id, id))
  {
    hide SameDevice;
    if n > 0 {
      ResumeFor(slots, all, id, n - 1, d);
    }
  }

  /** The slots after peer_resume, and the dials it added. */
  lemma ResumeAdds(was: seq<PeerSlot>, slots: seq<PeerSlot>, all: bool, id: Text, before: seq<Dial>, dials: seq<Dial>)
    requires dials == before + ResumeDials(was, all, id, |was|)
    requires |slots| == |was| && forall i :: 0 <= i < |slots| ==> SameButProc(slots[i], Resumed(was[i], all, id))
    ensures forall k :: |before| <= k < |dials| ==>
              dials[k].slot < |slots| &&
              var s := slots[dials[k].slot]; s.haveAddr && !s.paused && !s.removed
    ensures forall i :: 0 <= i < |slots| ==>
              var s, w := slots[i], was[i];
              var woken := w.paused && !w.removed && (all || SameDevice(w.id, id));
              && s.id == w.id && s.host == w.host && s.haveAddr == w.haveAddr && s.removed == w.removed
              && s.totals == w.totals && s.paused == (w.paused && !woken) && s.backoff == (if woken then 2 else w.backoff)
              && (woken && w.haveAddr && w.proc == None ==> exists k :: |before| <= k < |dials| && dials[k] == Dial(i, 0))
  {
    hide SameDevice, ResumeDials;
    var more := ResumeDials(was, all, id, |was|);
    forall k | |before| <= k < |dials|
      ensures dials[k].slot < |slots| &&
              var s := slots[dials[k].slot]; s.haveAddr && !s.paused && !s.removed
    {
      assert dials[k] == more[k - |before|];
      ResumeFor(was, all, id, |was|, dials[k]);
      var i := dials[k].slot;
      assert SameButProc(slots[i], Resumed(was[i], all, id)) && Meant(was[i], all, id);
    }
    forall i | 0 <= i < |slots| && was[i].paused && !was[i].removed && (all || SameDevice(was[i].id, id)) && was[i].haveAddr
               && was[i].proc == None
      ensures exists k :: |before| <= k < |dials| && dials[k] == Dial(i, 0)
    {
      ResumeFor(was, all, id, |was|, Dial(i, 0));
      var k :| 0 <= k < |more| && more[k] == Dial(i, 0);
      assert dials[|before| + k] == more[k];
    }
  }

  /** The address a slot gets: none without a host. */
  function Addressed(s: PeerSlot, host: string): PeerSlot {
    if host == "" then s else s.(host := host, haveAddr := true)
  }

  /** What adding a device comes to, peers being how many the configuration has. */
  function AddResult(slots: seq<PeerSlot>, peers: nat, id: Text): int {
    match DeviceId.Normalized(id)
    case None => 0
    case Some(canon) =>
      if FirstOf(slots, canon, false) < |slots| then -1
      else if FirstOf(slots, canon, true) < |slots| then 1
      else if peers >= CONFIG_MAX_PEERS then -2
      else if |slots| != peers then -3
      else 1
  }

  /** A removed slot whose device is added again. */
  function Revived(s: PeerSlot, host: string): PeerSlot {
    Addressed(s.(removed := false, paused := false, backoff := PEER_BACKOFF_MIN), host)
  }

  function Placed(slots: seq<PeerSlot>, at: nat, s: PeerSlot): seq<PeerSlot>
    requires at <= |slots|
  {
    if at < |slots| then slots[at := s] else slots + [s]
  }

  function NewSlot(id: Text, host: string): PeerSlot {
    Addressed(PeerSlot(id, "", false, false, false, None, PEER_BACKOFF_MIN, Count(0, 0)), host)
  }

  class PeerManager {
    const exec: Exec
    var slots: seq<PeerSlot>
    var numPeers: nat
    var shuttingDown: bool
    ghost var dials: seq<Dial>

    ghost predicate Valid()
      reads this, exec
    {
      && exec.Valid() && Matched(slots, exec.running, exec.port) && Folded(slots, exec.port, exec.log)
      && LogFits(exec.log, |slots|) && BackoffsOk(slots) && |slots| <= CONFIG_MAX_PEERS
    }

    /** Only peers that may be dialled got a new worker. */
    twostate predicate StartsOnlyDialable()
      reads this, exec
    {
      OnlyDialable(exec.running, old(exec.running), slots, shuttingDown)
    }

    /** peer_manager_create: a slot for each configured peer, dialled by nobody yet. */
    constructor (exec: Exec, peers: seq<(Text, string)>)
      requires exec.Valid() && exec.running == map[] && exec.port == [] && exec.log == [] && |peers| <= CONFIG_MAX_PEERS
      ensures Valid() && !shuttingDown && this.exec == exec && dials == []
      ensures |slots| == |peers| == numPeers && forall i :: 0 <= i < |peers| ==> slots[i] == NewSlot(peers[i].0, peers[i].1)
    {
      this.exec, shuttingDown, numPeers, dials := exec, false, |peers|, [];
      slots := seq(|peers|, i requires 0 <= i < |peers| => NewSlot(peers[i].0, peers[i].1));
    }

    /** Changing only what the invariant does not look at. */
    method Put(i: nat, s: PeerSlot)
      requires Valid() && i < |slots| && s.proc == slots[i].proc && s.totals == slots[i].totals
      requires PEER_BACKOFF_MIN <= s.backoff <= PEER_BACKOFF_MAX
      modifies `slots
      ensures Valid() && slots == old(slots)[i := s]
    {
      hide Matched, Folded, LogFits;
      EditKeeps(slots, exec.running, exec.port, exec.log, i, s);
      slots := slots[i := s];
    }

    /** dialable */
    predicate Dialable(i: nat)
      requires i < |slots|
      reads this
    {
      Startable(slots[i], shuttingDown) && slots[i].proc == None
    }

    /** spawn: a startup block and a process for a slot that has neither. */
    method Spawn(i: nat, delay: nat) returns (ok: bool)
      requires Valid() && i < |slots| && slots[i].proc == None
      modifies `slots, `dials, exec`running, exec`next
      ensures Valid() && |slots| == |old(slots)| && dials == old(dials) + [Dial(i, delay)]
      ensures !ok ==> slots == old(slots) && exec.running == old(exec.running)
      ensures ok ==> slots[i].proc.Some? && slots[i].proc.value !in old(exec.running)
      ensures slots == old(slots)[i := old(slots)[i].(proc := slots[i].proc)]
      ensures ok ==> exec.running == old(exec.running)[slots[i].proc.value := i]
    {
      hide Matched, Folded, LogFits, InPort, DeviceId.Normalized;
      dials := dials + [Dial(i, delay)];
      var block: bool := *;
      if !block {
        return false;
      }
      ghost var was := exec.running;
      var p := exec.CreateProc(i);
      if p.None? {
        return false;
      }
      ghost var s := slots[i].(proc := p);
      SpawnKeeps(slots, was, exec.port, i, p.value, s);
      SpawnFolds(slots, exec.port, exec.log, i, s);
      slots := slots[i := slots[i].(proc := p)];
      ok := true;
    }

    /** slot_fold on a reply just taken from the port. */
    method Fold(r: Reply)
      requires exec.Valid() && Matched(slots, exec.running, [r] + exec.port) && Folded(slots, [r] + exec.port, exec.log)
      requires LogFits(exec.log, |slots|) && BackoffsOk(slots) && |slots| <= CONFIG_MAX_PEERS
      modifies `slots
      ensures Valid() && r.slot < |old(slots)|
      ensures var s := old(slots)[r.slot];
              slots == old(slots)[r.slot := s.(proc := None, totals := Add(s.totals, r.moved))]
    {
      hide Matched, Folded, LogFits;
      ghost var port := [r] + exec.port;
      assert port[0] == r && port[1..] == exec.port;
      ReplySlot(slots, exec.running, port);
      var s := slots[r.slot].(proc := None, totals := Add(slots[r.slot].totals, r.moved));
      ReapKeeps(slots, exec.running, port, s);
      ReapFolds(slots, port, exec.log, s);
      slots := slots[r.slot := s];
    }

    /** What follows the end of a worker: a new dial, at once or after the backoff. */
    method Redial(i: nat, connected: bool)
      requires Valid() && i < |slots| && slots[i].proc == None
      modifies `slots, `dials, exec`running, exec`next
      ensures Valid() && AllSameConfig(slots, old(slots)) && StartsOnlyDialable()
      ensures shuttingDown ==> exec.running == old(exec.running)
      ensures forall j :: 0 <= j < |slots| ==>
                slots[j].backoff == if j == i && Startable(old(slots)[j], shuttingDown)
                                    then if connected then PEER_BACKOFF_MIN else NextBackoff(old(slots)[j].backoff)
                                    else old(slots)[j].backoff
      ensures dials == old(dials) + if Startable(old(slots)[i], shuttingDown)
                                    then [Dial(i, if connected then PEER_BACKOFF_MIN else old(slots)[i].backoff)] else []
      ensures forall k :: |old(dials)| <= k < |dials| ==>
                !shuttingDown && dials[k].slot < |slots| &&
                var s := slots[dials[k].slot]; s.haveAddr && !s.paused && !s.removed
    {
      hide Matched, Folded, LogFits;
      if !Dialable(i) {
        return;
      }
      var delay := if connected then PEER_BACKOFF_MIN else slots[i].backoff;
      Put(i, slots[i].(backoff := if connected then PEER_BACKOFF_MIN else NextBackoff(slots[i].backoff)));
      var _ := Spawn(i, delay);
    }

    /** What the replies taken so far have come to, since there were these slots, dials,
        processes and replies. */
    ghost predicate Handled(was: seq<PeerSlot>, before: seq<Dial>, running: map<nat, nat>, port: seq<Reply>,
                            log: seq<Reply>, taken: seq<Reply>)
      reads this, exec
    {
      && Valid() && AllSameConfig(slots, was) && OnlyDialable(exec.running, running, slots, shuttingDown)
      && Flows(port, log, taken + exec.port, exec.log) && BackoffsAfter(slots, was, shuttingDown, taken)
      && dials == before + DialsAfter(was, shuttingDown, taken)
    }

    /** The next reply, if there is one, and what follows from it. */
    method HandleOne(ghost was: seq<PeerSlot>, ghost before: seq<Dial>, ghost running: map<nat, nat>,
                     ghost port: seq<Reply>, ghost log: seq<Reply>, ghost taken: seq<Reply>)
      returns (more: bool, ghost taken': seq<Reply>)
      requires Handled(was, before, running, port, log, taken) && !exec.forbidden
      modifies `slots, `dials, exec`running, exec`port, exec`quota, exec`log, exec`next
      ensures Handled(was, before, running, port, log, taken')
      ensures if more then |taken'| == |taken| + 1 else taken' == taken && exec.port == []
      ensures exec.quota + |exec.port| + (if more then 1 else 0) == old(exec.quota) + |old(exec.port)|
      ensures shuttingDown ==> |exec.running| + |exec.port| + (if more then 1 else 0) == |old(exec.running)| + |old(exec.port)|
      ensures old(exec.port) != [] ==> more
    {
      hide Matched, Folded, LogFits, InPort, BackoffsOk, Flows, BackoffsAfter, DialsAfter, NextBackoff, OnlyDialable;
      hide AllSameConfig, SameConfig, Startable;
      ghost var port1, log1, running1, slots1 := exec.port, exec.log, exec.running, slots;
      var r := exec.GetMsg(slots);
      ghost var left := exec.running;
      NoneNew(left, running1, slots, shuttingDown);
      SameRefl(slots);
      StillOnlyDialable(left, running1, running, slots, slots, shuttingDown);
      FlowsOn(port, log, taken, port1, log1, (if r.Some? then [r.value] else []) + exec.port, exec.log);
      if r.None? {
        assert taken + ([] + exec.port) == taken + exec.port;
        return false, taken;
      }
      assert taken + ([r.value] + exec.port) == (taken + [r.value]) + exec.port;
      Answer(r.value, was, taken, before);
      SameBoth(slots, slots1, was);
      StillOnlyDialable(exec.running, left, running, slots, slots1, shuttingDown);
      more, taken' := true, taken + [r.value];
    }

    /** peer_manager_handle: every waiting reply is folded, its peer dialled again where
        that is wanted. After it nothing waits. */
    method Handle() returns (ghost taken: seq<Reply>)
      requires Valid() && !exec.forbidden
      modifies `slots, `dials, exec`running, exec`port, exec`quota, exec`log, exec`next
      ensures Valid() && exec.port == [] && AllSameConfig(slots, old(slots)) && StartsOnlyDialable()
      ensures Flows(old(exec.port), old(exec.log), taken, exec.log)
      ensures old(exec.log) <= exec.log && taken == old(exec.port) + exec.log[|old(exec.log)|..]
      ensures BackoffsAfter(slots, old(slots), shuttingDown, taken)
      ensures dials == old(dials) + DialsAfter(old(slots), shuttingDown, taken)
      ensures shuttingDown ==> |exec.running| <= |old(exec.running)| + |old(exec.port)|
      ensures shuttingDown && old(exec.port) != [] ==> |exec.running| < |old(exec.running)| + |old(exec.port)|
      ensures forall k :: |old(dials)| <= k < |dials| ==>
                !shuttingDown && dials[k].slot < |slots| &&
                var s := slots[dials[k].slot]; s.haveAddr && !s.paused && !s.removed
    {
      hide Matched, Folded, LogFits, InPort, BackoffsOk, Flows, BackoffsAfter, DialsAfter, NextBackoff, OnlyDialable;
      hide AllSameConfig, SameConfig, Startable;
      NoneNew(exec.running, exec.running, slots, shuttingDown);
      SameRefl(slots);
      FlowsStart(exec.port, exec.log);
      NothingAfter(slots, shuttingDown);
      taken := [];
      assert taken + exec.port == exec.port;
      var more := true;
      while more
        invariant Handled(old(slots), old(dials), old(exec.running), old(exec.port), old(exec.log), taken)
        invariant shuttingDown ==> |exec.running| + |exec.port| + |taken| == |old(exec.running)| + |old(exec.port)|
        invariant more && taken == [] && old(exec.port) != [] ==> exec.port != []
        invariant !more ==> exec.port == [] && (old(exec.port) != [] ==> taken != [])
        decreases more, exec.quota + |exec.port|
      {
        more, taken := HandleOne(old(slots), old(dials), old(exec.running), old(exec.port), old(exec.log), taken);
      }
      assert taken + [] == taken;
      DialsAdded(old(slots), shuttingDown, taken, old(dials), dials);
      ConfigSame(slots, old(slots));
      FlowsMean(old(exec.port), old(exec.log), taken, exec.log);
    }

    /** One reply: folded, followed by a dial, and what that adds to the replies so far. */
    method Answer(r: Reply, ghost was: seq<PeerSlot>, ghost taken: seq<Reply>, ghost before: seq<Dial>)
      requires exec.Valid() && Matched(slots, exec.running, [r] + exec.port) && Folded(slots, [r] + exec.port, exec.log)
      requires LogFits(exec.log, |slots|) && BackoffsOk(slots) && |slots| <= CONFIG_MAX_PEERS
      requires AllSameConfig(slots, was) && BackoffsAfter(slots, was, shuttingDown, taken)
      requires dials == before + DialsAfter(was, shuttingDown, taken)
      modifies `slots, `dials, exec`running, exec`next
      ensures Valid() && AllSameConfig(slots, was) && StartsOnlyDialable()
      ensures shuttingDown ==> exec.running == old(exec.running)
      ensures BackoffsAfter(slots, was, shuttingDown, taken + [r])
      ensures dials == before + DialsAfter(was, shuttingDown, taken + [r])
    {
      hide Matched, Folded, LogFits, InPort, DeviceId.Normalized, BackoffsOk, BackoffsAfter, DialsAfter, NextBackoff, Startable;
      Fold(r);
      ghost var free := slots;
      BackoffsKept(free, old(slots), was, shuttingDown, taken);
      SameTrans(free, old(slots), was);
      ReplyDials(free, was, shuttingDown, taken, r);
      Redial(r.slot, r.connected);
      SameTrans(slots, free, was);
      ReplyBacks(free, slots, was, shuttingDown, taken, r);
    }

    /** pm_drain_locked */
    method Drain()
      requires Valid() && exec.forbidden
      modifies `slots, exec`running, exec`port, exec`quota, exec`log
      ensures Valid() && exec.port == [] && AllSameConfig(slots, old(slots))
      ensures exec.running == old(exec.running) && exec.log == old(exec.log)
      ensures forall i :: 0 <= i < |slots| ==> slots[i].backoff == old(slots)[i].backoff
    {
      hide Matched, Folded, LogFits, InPort, DeviceId.Normalized, BackoffsOk;
      SameRefl(slots);
      while true
        invariant Valid() && AllSameConfig(slots, old(slots))
        invariant exec.running == old(exec.running) && exec.log == old(exec.log)
        invariant forall i :: 0 <= i < |slots| ==> slots[i].backoff == old(slots)[i].backoff
        decreases |exec.port|
      {
        var r := exec.GetMsg(slots);
        if r.None? {
          return;
        }
        Fold(r.value);
      }
    }

    /** Forbid() and the drain: from now on a process a slot holds is there. */
    method Lock()
      requires Valid() && !exec.forbidden
      modifies `slots, exec`running, exec`port, exec`quota, exec`log, exec`forbidden
      ensures Valid() && exec.forbidden && exec.port == [] && AllSameConfig(slots, old(slots)) && old(exec.log) <= exec.log
      ensures forall i :: 0 <= i < |slots| ==> slots[i].backoff == old(slots)[i].backoff
      ensures forall i :: 0 <= i < |slots| && slots[i].proc.Some? ==> slots[i].proc.value in exec.running
      ensures forall p :: p in exec.running ==> p in old(exec.running) && exec.running[p] == old(exec.running)[p]
      ensures |exec.running| <= |old(exec.running)| + |old(exec.port)|
    {
      hide Matched, Folded, LogFits, InPort, DeviceId.Normalized, BackoffsOk, SameConfig;
      exec.Forbid(slots);
      Drain();
      AllLive(slots, exec.running);
    }

    /** pm_signal_workers: every chosen worker that is still there gets the signal, and
        nothing that has ended does. The peers of workers that ended before Forbid() are
        dialled again; those of later ones are only folded. */
    method SignalWorkers(who: Who, sig: Sig) returns (ghost taken: seq<Reply>)
      requires Valid() && !exec.forbidden
      modifies `slots, `dials, exec
      ensures Valid() && !exec.forbidden && exec.port == [] && AllSameConfig(slots, old(slots)) && StartsOnlyDialable()
      ensures exec.signals == old(exec.signals) + Sent(slots, who, sig, |slots|)
      ensures forall i :: 0 <= i < |slots| && slots[i].proc.Some? ==> slots[i].proc.value in exec.running
      ensures old(exec.log) <= exec.log && taken <= old(exec.port) + exec.log[|old(exec.log)|..]
      ensures BackoffsAfter(slots, old(slots), shuttingDown, taken)
      ensures dials == old(dials) + DialsAfter(old(slots), shuttingDown, taken)
      ensures shuttingDown ==> |exec.running| <= |old(exec.running)| + |old(exec.port)|
      ensures forall k :: |old(dials)| <= k < |dials| ==>
                !shuttingDown && dials[k].slot < |slots| &&
                var s := slots[dials[k].slot]; s.haveAddr && !s.paused && !s.removed
    {
      hide Matched, Folded, LogFits, InPort, DeviceId.Normalized, BackoffsOk, Flows, BackoffsAfter, DialsAfter, SameConfig, Startable, OnlyDialable;
      taken := Handle();
      ghost var log, handled, running := exec.log, slots, exec.running;
      Lock();
      NoneNew(exec.running, running, slots, shuttingDown);
      StillOnlyDialable(exec.running, running, old(exec.running), slots, handled, shuttingDown);
      TakenFirst(old(exec.port), old(exec.log), taken, log, exec.log);
      SameTrans(slots, handled, old(slots));
      BackoffsKept(slots, handled, old(slots), shuttingDown, taken);
      DialsAdded(old(slots), shuttingDown, taken, old(dials), dials);
      ConfigSame(slots, old(slots));
      SignalChosen(who, sig);
      exec.Permit();
    }

    /** The loop of signals, under Forbid(). */
    method SignalChosen(who: Who, sig: Sig)
      requires exec.forbidden && forall i :: 0 <= i < |slots| && slots[i].proc.Some? ==> slots[i].proc.value in exec.running
      modifies exec`signals
      ensures exec.signals == old(exec.signals) + Sent(slots, who, sig, |slots|)
    {
      ghost var before := exec.signals;
      for i := 0 to |slots|
        invariant exec.signals == before + Sent(slots, who, sig, i)
      {
        if slots[i].proc.Some? && (who.Paused? ==> slots[i].paused) && (who.Removed? ==> slots[i].removed) {
          exec.Signal(slots[i].proc.value, sig);
        }
      }
    }

    method CountLive() returns (live: nat)
      requires Valid()
      ensures live == 0 <==> forall i :: 0 <= i < |slots| ==> slots[i].proc == None
    {
      live := 0;
      for i := 0 to |slots|
        invariant live == 0 <==> forall j :: 0 <= j < i ==> slots[j].proc == None
      {
        if slots[i].proc.Some? {
          live := live + 1;
        }
      }
    }

    /** Handle, once no worker is started any more. */
    method Reap()
      requires Valid() && !exec.forbidden && shuttingDown
      modifies `slots, exec`running, exec`port, exec`quota, exec`log, exec`next, `dials
      ensures Valid() && exec.port == [] && |slots| == |old(slots)| && old(exec.log) <= exec.log && dials == old(dials)
      ensures |exec.running| <= |old(exec.running)| + |old(exec.port)|
      ensures old(exec.port) != [] ==> |exec.running| < |old(exec.running)| + |old(exec.port)|
    {
      hide Matched, Folded, LogFits, InPort, DeviceId.Normalized, BackoffsOk, BackoffsAfter, DialsAfter;
      ghost var taken := Handle();
      NoDials(old(slots), taken);
    }

    /** The wait for the last worker. */
    method AwaitAll()
      requires Valid() && !exec.forbidden && shuttingDown
      modifies `slots, `dials, exec`running, exec`port, exec`quota, exec`log, exec`next
      ensures Valid() && exec.port == [] && forall i :: 0 <= i < |slots| ==> slots[i].proc == None
      ensures |slots| == |old(slots)| && old(exec.log) <= exec.log && dials == old(dials)
    {
      hide Matched, Folded, LogFits, InPort, DeviceId.Normalized, BackoffsOk, SameConfig;
      Reap();
      var live := CountLive();
      while live > 0
        invariant Valid() && exec.port == [] && |slots| == |old(slots)| && old(exec.log) <= exec.log && dials == old(dials)
        invariant live == 0 <==> forall i :: 0 <= i < |slots| ==> slots[i].proc == None
        decreases |exec.running|
      {
        SomeRuns(slots, exec.running);
        exec.WaitPort(slots);
        Reap();
        live := CountLive();
      }
    }

    /** peer_manager_shutdown: it comes back only when no worker is left, none was started
        meanwhile, and the totals are exactly what all sessions together have moved. */
    method Shutdown()
      requires Valid() && !exec.forbidden
      modifies this, exec
      ensures exec.running == map[] && exec.port == [] && dials == old(dials)
      ensures forall i :: 0 <= i < |slots| ==> slots[i].proc == None
      ensures forall i, w :: 0 <= i < |slots| ==> Part(slots[i].totals, w) == Sum(exec.log, i, w)
      ensures |slots| == |old(slots)| && old(exec.log) <= exec.log
      ensures forall i :: 0 <= i < |slots| ==>
                slots[i].totals.received == Sum(exec.log, i, In) && slots[i].totals.sent == Sum(exec.log, i, Out)
    {
      hide Matched, Folded, LogFits, InPort, DeviceId.Normalized, BackoffsOk, SameConfig, BackoffsAfter, DialsAfter;
      shuttingDown := true;
      ghost var taken := SignalWorkers(All, Stop);
      NoDials(old(slots), taken);
      AwaitAll();
      NoneRuns(slots, exec.running, exec.log);
    }

    /** peer_manager_start, on a table without workers: whoever has an address is dialled. */
    method Start()
      requires Valid() && forall i :: 0 <= i < |slots| ==> slots[i].proc == None
      modifies `slots, `dials, exec`running, exec`next
      ensures Valid() && AllSameButProc(slots, old(slots)) && dials == old(dials) + StartDials(old(slots), |old(slots)|)
      ensures forall i :: 0 <= i < |slots| && slots[i].proc.Some? ==> slots[i].haveAddr
    {
      hide Matched, Folded, LogFits, InPort, DeviceId.Normalized, BackoffsOk;
      for i := 0 to |slots|
        invariant Valid() && AllSameButProc(slots, old(slots)) && dials == old(dials) + StartDials(old(slots), i)
        invariant forall j :: i <= j < |slots| ==> slots[j].proc == None
        invariant forall j :: 0 <= j < i && slots[j].proc.Some? ==> slots[j].haveAddr
      {
        if slots[i].haveAddr {
          var _ := Spawn(i, 0);
        }
      }
    }

    /** One slot of a loop that dials whatever may be dialled. */
    method DialIfFree(i: nat, delay: nat)
      requires Valid() && i < |slots|
      modifies `slots, `dials, exec`running, exec`next
      ensures Valid() && StartsOnlyDialable() && |slots| == |old(slots)|
      ensures slots == old(slots)[i := old(slots)[i].(proc := slots[i].proc)]
      ensures dials == old(dials) + if old(Dialable(i)) then [Dial(i, delay)] else []
      ensures !old(Dialable(i)) ==> slots == old(slots) && exec.running == old(exec.running)
      ensures forall p :: p in old(exec.running) ==> p in exec.running && exec.running[p] == old(exec.running)[p]
    {
      hide Matched, Folded, LogFits, InPort, DeviceId.Normalized, BackoffsOk;
      if Dialable(i) {
        var _ := Spawn(i, delay);
      }
    }

    /** peer_manager_retry: every peer that should have a worker and has none is dialled. */
    method Retry()
      requires Valid()
      modifies `slots, `dials, exec`running, exec`next
      ensures Valid() && AllSameButProc(slots, old(slots)) && StartsOnlyDialable()
      ensures dials == old(dials) + RetryDials(old(slots), shuttingDown, |old(slots)|)
      ensures forall k :: |old(dials)| <= k < |dials| ==>
                !shuttingDown && dials[k].slot < |slots| &&
                var s := slots[dials[k].slot]; s.haveAddr && !s.paused && !s.removed
      ensures forall i :: 0 <= i < |slots| && !shuttingDown && slots[i].haveAddr && !slots[i].paused && !slots[i].removed
                          && old(slots)[i].proc == None ==>
                exists k :: |old(dials)| <= k < |dials| && dials[k] == Dial(i, slots[i].backoff)
    {
      hide Matched, Folded, LogFits, InPort, DeviceId.Normalized, BackoffsOk, OnlyDialable;
      NoneNew(exec.running, exec.running, slots, shuttingDown);
      if shuttingDown {
        NoRetries(slots, |slots|);
        return;
      }
      for i := 0 to |slots|
        invariant Valid() && AllSameButProc(slots, old(slots)) && StartsOnlyDialable()
        invariant forall j :: i <= j < |slots| ==> slots[j] == old(slots)[j]
        invariant dials == old(dials) + RetryDials(old(slots), shuttingDown, i)
      {
        ghost var running, before := exec.running, slots;
        DialIfFree(i, slots[i].backoff);
        OnlyDialableKept(exec.running, running, old(exec.running), slots, before, shuttingDown);
      }
      RetryAdds(old(slots), shuttingDown, old(dials), dials);
      RetryReaches(old(slots), shuttingDown, old(dials), dials);
      ButProcSame(slots, old(slots));
    }

    method MarkPaused(all: bool, id: Text) returns (count: nat)
      requires Valid()
      modifies `slots
      ensures Valid() && |slots| == |old(slots)| && count == CountMeant(old(slots), all, id, |old(slots)|)
      ensures forall i :: 0 <= i < |slots| ==>
                slots[i] == if Meant(old(slots)[i], all, id) then old(slots)[i].(paused := true) else old(slots)[i]
    {
      hide Matched, Folded, LogFits, InPort, DeviceId.Normalized;
      count := 0;
      for i := 0 to |slots|
        invariant Valid() && |slots| == |old(slots)| && count == CountMeant(old(slots), all, id, i)
        invariant forall j :: 0 <= j < |slots| ==>
                    slots[j] == if j < i && Meant(old(slots)[j], all, id) then old(slots)[j].(paused := true) else old(slots)[j]
      {
        var same := DeviceEqual(slots[i].id, id);
        if !slots[i].removed && (all || same) {
          Put(i, slots[i].(paused := true));
          count := count + 1;
        }
      }
    }

    /** peer_pause: every peer meant is paused, and every paused peer's worker told. */
    method Pause(all: bool, id: Text) returns (count: nat)
      requires Valid() && !exec.forbidden
      modifies `slots, `dials, exec
      ensures Valid() && !exec.forbidden && |slots| == |old(slots)| && StartsOnlyDialable()
      ensures count == CountMeant(old(slots), all, id, |old(slots)|)
      ensures forall i :: 0 <= i < |slots| ==>
                SameConfig(slots[i], old(slots)[i].(paused := old(slots)[i].paused || Meant(old(slots)[i], all, id)))
      ensures exec.signals == old(exec.signals) + Sent(slots, Paused, Stop, |slots|)
      ensures forall i :: 0 <= i < |slots| && slots[i].proc.Some? ==> slots[i].proc.value in exec.running
      ensures forall k :: |old(dials)| <= k < |dials| ==>
                !shuttingDown && dials[k].slot < |slots| &&
                var s := slots[dials[k].slot]; s.haveAddr && !s.paused && !s.removed
      ensures forall i :: 0 <= i < |slots| ==>
                var s, was := slots[i], old(slots)[i];
                && s.id == was.id && s.host == was.host && s.haveAddr == was.haveAddr && s.removed == was.removed
                && s.paused == (was.paused || (!was.removed && (all || SameDevice(was.id, id))))
    {
      hide Matched, Folded, LogFits, InPort, DeviceId.Normalized, BackoffsAfter, DialsAfter;
      count := MarkPaused(all, id);
      ghost var _ := SignalWorkers(Paused, Stop);
    }

    /** peer_resume: every peer meant starts afresh, at once if it can be dialled. */
    method Resume(all: bool, id: Text) returns (count: nat)
      requires Valid()
      modifies `slots, `dials, exec`running, exec`next
      ensures Valid() && StartsOnlyDialable()
      ensures shuttingDown ==> count == 0 && slots == old(slots) && exec.running == old(exec.running) && dials == old(dials)
      ensures !shuttingDown ==>
                && count == CountMeant(old(slots), all, id, |old(slots)|) && |slots| == |old(slots)|
                && (forall i :: 0 <= i < |slots| ==> SameButProc(slots[i], Resumed(old(slots)[i], all, id)))
                && dials == old(dials) + ResumeDials(old(slots), all, id, |old(slots)|)
      ensures forall k :: |old(dials)| <= k < |dials| ==>
                !shuttingDown && dials[k].slot < |slots| &&
                var s := slots[dials[k].slot]; s.haveAddr && !s.paused && !s.removed
      ensures !shuttingDown ==> forall i :: 0 <= i < |slots| ==>
                var s, was := slots[i], old(slots)[i];
                var woken := was.paused && !was.removed && (all || SameDevice(was.id, id));
                && s.id == was.id && s.host == was.host && s.haveAddr == was.haveAddr && s.removed == was.removed
                && s.totals == was.totals && s.paused == (was.paused && !woken) && s.backoff == (if woken then 2 else was.backoff)
                && (woken && was.haveAddr && was.proc == None ==> exists k :: |old(dials)| <= k < |dials| && dials[k] == Dial(i, 0))
    {
      hide Matched, Folded, LogFits, InPort, DeviceId.Normalized, BackoffsOk, OnlyDialable, SameDevice;
      NoneNew(exec.running, exec.running, slots, shuttingDown);
      count := 0;
      if shuttingDown {
        return;
      }
      for i := 0 to |slots|
        invariant Valid() && |slots| == |old(slots)| && StartsOnlyDialable()
        invariant count == CountMeant(old(slots), all, id, i) && dials == old(dials) + ResumeDials(old(slots), all, id, i)
        invariant forall j :: i <= j < |slots| ==> slots[j] == old(slots)[j]
        invariant forall j :: 0 <= j < i ==> SameButProc(slots[j], Resumed(old(slots)[j], all, id))
      {
        var same := DeviceEqual(slots[i].id, id);
        if !slots[i].removed && (all || same) {
          if slots[i].paused {
            ghost var running, before := exec.running, slots;
            ResumeOne(i);
            OnlyDialableKept(exec.running, running, old(exec.running), slots, before, shuttingDown);
          }
          count := count + 1;
        }
      }
      ResumeAdds(old(slots), slots, all, id, old(dials), dials);
    }

    method ResumeOne(i: nat)
      requires Valid() && i < |slots| && !shuttingDown && !slots[i].removed
      modifies `slots, `dials, exec`running, exec`next
      ensures Valid() && StartsOnlyDialable() && |slots| == |old(slots)|
      ensures var s := old(slots)[i].(paused := false, backoff := PEER_BACKOFF_MIN);
              && slots == old(slots)[i := s.(proc := slots[i].proc)]
              && dials == old(dials) + if s.haveAddr && s.proc == None then [Dial(i, 0)] else []
    {
      hide Matched, Folded, LogFits, InPort, DeviceId.Normalized, BackoffsOk;
      Put(i, slots[i].(paused := false, backoff := PEER_BACKOFF_MIN));
      DialIfFree(i, 0);
    }

    method MarkRemoved(id: Text) returns (found: bool)
      requires Valid()
      modifies `slots
      ensures Valid() && |slots| == |old(slots)|
      ensures found <==> FirstOf(old(slots), id, false) < |old(slots)|
      ensures forall i :: 0 <= i < |slots| ==>
                slots[i] == if Meant(old(slots)[i], false, id) then old(slots)[i].(removed := true, paused := true) else old(slots)[i]
    {
      hide Matched, Folded, LogFits, InPort, DeviceId.Normalized;
      found := false;
      for i := 0 to |slots|
        invariant Valid() && |slots| == |old(slots)|
        invariant !found ==> forall j :: 0 <= j < i ==> !Meant(old(slots)[j], false, id)
        invariant found ==> exists j :: 0 <= j < i && Meant(old(slots)[j], false, id)
        invariant forall j :: 0 <= j < |slots| ==>
                    slots[j] == if j < i && Meant(old(slots)[j], false, id) then old(slots)[j].(removed := true, paused := true)
                                else old(slots)[j]
      {
        var same := DeviceEqual(slots[i].id, id);
        if !slots[i].removed && same {
          assert Meant(old(slots)[i], false, id);
          Put(i, slots[i].(removed := true, paused := true));
          found := true;
        }
      }
    }

    /** peer_manager_remove: a tombstone, never compaction; paused rides along. */
    method Remove(id: Text) returns (found: bool)
      requires Valid() && !exec.forbidden
      modifies `slots, `dials, exec
      ensures Valid() && !exec.forbidden && |slots| == |old(slots)| && StartsOnlyDialable()
      ensures found <==> FirstOf(old(slots), id, false) < |old(slots)|
      ensures FirstOf(slots, id, false) == |slots|
      ensures forall i :: 0 <= i < |slots| ==>
                SameConfig(slots[i],
                           if Meant(old(slots)[i], false, id) then old(slots)[i].(removed := true, paused := true) else old(slots)[i])
      ensures exec.signals == old(exec.signals) + if found then Sent(slots, Removed, Stop, |slots|) else []
      ensures forall k :: |old(dials)| <= k < |dials| ==>
                !shuttingDown && dials[k].slot < |slots| &&
                var s := slots[dials[k].slot]; s.haveAddr && !s.paused && !s.removed
      ensures forall i :: 0 <= i < |slots| ==>
                var s, was := slots[i], old(slots)[i];
                var goes := !was.removed && SameDevice(was.id, id);
                && s.id == was.id && s.host == was.host && s.haveAddr == was.haveAddr
                && s.removed == (was.removed || goes) && s.paused == (was.paused || goes)
    {
      hide Matched, Folded, LogFits, InPort, DeviceId.Normalized, BackoffsAfter, DialsAfter;
      found := MarkRemoved(id);
      if found {
        ghost var _ := SignalWorkers(Removed, Stop);
      }
    }

    /** peer_manager_has */
    method Has(id: Text) returns (has: bool)
      ensures has <==> FirstOf(slots, id, false) < |slots|
    {
      for i := 0 to |slots|
        invariant forall j :: 0 <= j < i ==> !Meant(slots[j], false, id)
      {
        var same := DeviceEqual(slots[i].id, id);
        if !slots[i].removed && same {
          return true;
        }
      }
      has := false;
    }

    /** A slot for a new peer at the end of the table. */
    method Append(id: Text, host: string)
      requires Valid() && |slots| < CONFIG_MAX_PEERS
      modifies `slots
      ensures Valid() && slots == old(slots) + [NewSlot(id, host)]
    {
      hide Matched, Folded, LogFits, InPort, DeviceId.Normalized;
      var s := NewSlot(id, host);
      GrowMatches(slots, exec.running, exec.port, s);
      PortFits(slots, exec.running, exec.port);
      GrowFolds(slots, exec.port, exec.log, s);
      slots := slots + [s];
    }

    /** peer_manager_add: refused when the id is none (0), is there (-1), the table is full
        (-2) or out of step with the configuration (-3); a removed slot of this id comes
        back to life. */
    method AddPeer(id: Text, host: string) returns (rc: int)
      requires Valid()
      modifies `slots, `dials, `numPeers, exec`running, exec`next
      ensures Valid() && StartsOnlyDialable()
      ensures rc == AddResult(old(slots), old(numPeers), id)
      ensures rc <= 0 ==> slots == old(slots) && dials == old(dials) && numPeers == old(numPeers)
      ensures rc > 0 ==>
                var canon := DeviceId.Normalized(id).value;
                var at := FirstOf(old(slots), canon, true);
                var s := if at < |old(slots)| then Revived(old(slots)[at], host) else NewSlot(canon, host);
                && at < |slots| && slots == Placed(old(slots), at, s.(proc := slots[at].proc)) && Meant(slots[at], false, id)
                && dials == old(dials) + (if Startable(s, shuttingDown) && s.proc == None then [Dial(at, 0)] else [])
                && numPeers == old(numPeers) + if at < |old(slots)| then 0 else 1
      ensures forall k :: |old(dials)| <= k < |dials| ==>
                !shuttingDown && dials[k].slot < |slots| &&
                var s := slots[dials[k].slot]; s.haveAddr && !s.paused && !s.removed
      ensures rc > 0 ==>
                exists at :: 0 <= at < |slots| && var s := slots[at];
                && SameDevice(s.id, id) && !s.removed && !s.paused && s.backoff == 2
                && (host != "" ==> s.host == host && s.haveAddr)
                && (forall i :: 0 <= i < |slots| && i != at ==> i < |old(slots)| && slots[i] == old(slots)[i])
                && (if at < |old(slots)| then s.totals == old(slots)[at].totals && old(slots)[at].removed
                    else s.totals == Count(0, 0) && at == |old(slots)| == |slots| - 1)
                && (s.haveAddr && !shuttingDown && (at == |old(slots)| || old(slots)[at].proc == None) ==>
                      dials == old(dials) + [Dial(at, 0)])
    {
      hide Matched, Folded, LogFits, InPort, DeviceId.Normalized, BackoffsOk, SameDevice;
      rc := 0;
      var canon := DeviceId.Normalize(id);
      if canon.None? {
        return;
      }
      var has := Has(canon.value);
      if has {
        return -1;
      }
      var i := FindRemoved(canon.value);
      if i < |slots| {
        SameAsCanonical(slots[i].id, id);
        Revive(i, host);
        return 1;
      }
      if numPeers >= CONFIG_MAX_PEERS {
        return -2;
      }
      if |slots| != numPeers {
        return -3;
      }
      CanonicalIsId(id);
      numPeers := numPeers + 1;
      Append(canon.value, host);
      DialIfFree(i, 0);
      rc := 1;
    }

    method FindRemoved(id: Text) returns (i: nat)
      ensures i == FirstOf(slots, id, true)
    {
      i := 0;
      while i < |slots|
        invariant i <= |slots| && forall j :: 0 <= j < i ==> !SameDevice(slots[j].id, id) || !slots[j].removed
      {
        var same := DeviceEqual(slots[i].id, id);
        if slots[i].removed && same {
          break;
        }
        i := i + 1;
      }
      FirstIs(slots, id, true, i);
    }

    method Revive(i: nat, host: string)
      requires Valid() && i < |slots|
      modifies `slots, `dials, exec`running, exec`next
      ensures Valid() && StartsOnlyDialable() && |slots| == |old(slots)|
      ensures var s := Revived(old(slots)[i], host);
              && slots == old(slots)[i := s.(proc := slots[i].proc)]
              && dials == old(dials) + if Startable(s, shuttingDown) && s.proc == None then [Dial(i, 0)] else []
    {
      hide Matched, Folded, LogFits, InPort, DeviceId.Normalized, BackoffsOk, Startable;
      Put(i, Revived(slots[i], host));
      DialIfFree(i, 0);
    }

    /** A slot gets a new address, and is dialled at once when it has no worker. */
    method Readdress(i: nat, host: string)
      requires Valid() && i < |slots| && !shuttingDown && host != ""
      modifies `slots, `dials, exec`running, exec`next
      ensures Valid() && StartsOnlyDialable() && |slots| == |old(slots)|
      ensures var s := Addressed(old(slots)[i], host);
              var free := Startable(s, shuttingDown) && s.proc == None;
              && slots == old(slots)[i := s.(proc := slots[i].proc, backoff := if free then PEER_BACKOFF_MIN else s.backoff)]
              && dials == old(dials) + if free then [Dial(i, 0)] else []
    {
      hide Matched, Folded, LogFits, InPort, DeviceId.Normalized;
      if slots[i].haveAddr && slots[i].host == host && slots[i].proc.Some? {
        return;
      }
      Put(i, Addressed(slots[i], host));
      if Dialable(i) {
        Put(i, slots[i].(backoff := PEER_BACKOFF_MIN));
        var _ := Spawn(i, 0);
      }
    }

    /** peer_manager_discovered: a new address for the first slot of the peer that is not
        removed, dialled at once when it has no worker. */
    method Discovered(id: Text, host: string)
      requires Valid()
      modifies `slots, `dials, exec`running, exec`next
      ensures Valid() && StartsOnlyDialable()
      ensures var at := FirstOf(old(slots), id, false);
              if shuttingDown || host == "" || at == |old(slots)| then slots == old(slots) && dials == old(dials)
              else
                var s := Addressed(old(slots)[at], host);
                var free := Startable(s, shuttingDown) && s.proc == None;
                && |slots| == |old(slots)|
                && slots == old(slots)[at := s.(proc := slots[at].proc, backoff := if free then PEER_BACKOFF_MIN else s.backoff)]
                && dials == old(dials) + if free then [Dial(at, 0)] else []
      ensures forall k :: |old(dials)| <= k < |dials| ==>
                !shuttingDown && dials[k].slot < |slots| &&
                var s := slots[dials[k].slot]; s.haveAddr && !s.paused && !s.removed
      ensures !shuttingDown && host != "" ==>
                forall i :: 0 <= i < |old(slots)| && !old(slots)[i].removed && SameDevice(old(slots)[i].id, id)
                            && (forall j :: 0 <= j < i ==> old(slots)[j].removed || !SameDevice(old(slots)[j].id, id)) ==>
                              |slots| == |old(slots)| && slots[i].host == host && slots[i].haveAddr &&
                              (!slots[i].paused && old(slots)[i].proc == None ==>
                                 dials == old(dials) + [Dial(i, 0)] && slots[i].backoff == 2)
    {
      hide Matched, Folded, LogFits, InPort, DeviceId.Normalized, SameDevice, BackoffsOk, OnlyDialable;
      NoneNew(exec.running, exec.running, slots, shuttingDown);
      if shuttingDown || host == "" {
        return;
      }
      for i := 0 to |slots|
        invariant slots == old(slots) && exec.running == old(exec.running) && dials == old(dials) && Valid()
        invariant forall j :: 0 <= j < i ==> !SameDevice(slots[j].id, id) || slots[j].removed
      {
        var same := DeviceEqual(slots[i].id, id);
        if !slots[i].removed && same {
          FirstIs(slots, id, false, i);
          Readdress(i, host);
          return;
        }
      }
      FirstIs(slots, id, false, |slots|);
    }

    /** peer_rescan */
    method RescanAll()
      requires Valid() && !exec.forbidden
      modifies `slots, `dials, exec
      ensures Valid() && !exec.forbidden && AllSameConfig(slots, old(slots))
      ensures exec.signals == old(exec.signals) + Sent(slots, All, Rescan, |slots|)
      ensures forall k :: |old(dials)| <= k < |dials| ==>
                !shuttingDown && dials[k].slot < |slots| &&
                var s := slots[dials[k].slot]; s.haveAddr && !s.paused && !s.removed
    {
      ghost var _ := SignalWorkers(All, Rescan);
    }
  }

  lemma FirstIs(slots: seq<PeerSlot>, id: Text, removed: bool, i: nat)
    requires i <= |slots| && (i < |slots| ==> SameDevice(slots[i].id, id) && slots[i].removed == removed)
    requires forall j :: 0 <= j < i ==> !SameDevice(slots[j].id, id) || slots[j].removed != removed
    ensures FirstOf(slots, id, removed) == i
  {
  }

  lemma {:induction false} NoRetries(slots: seq<PeerSlot>, n: nat)
    requires n <= |slots|
    ensures RetryDials(slots, true, n) == []
  {
    if n > 0 {
      NoRetries(slots, n - 1);
    }
  }

  lemma TakenFirst(port: seq<Reply>, log: seq<Reply>, taken: seq<Reply>, log1: seq<Reply>, log2: seq<Reply>)
    requires Flows(port, log, taken, log1) && log1 <= log2
    ensures log <= log2 && taken <= port + log2[|log|..]
  {
    assert log2[..|log|] == log1[..|log|] == log;
    assert log2[|log|..] == log1[|log|..] + log2[|log1|..];
    assert port + log2[|log|..] == taken + log2[|log1|..];
  }

  lemma SameBoth(a: seq<PeerSlot>, b: seq<PeerSlot>, c: seq<PeerSlot>)
    requires AllSameConfig(a, c) && AllSameConfig(b, c)
    ensures AllSameConfig(a, b) && AllSameConfig(b, b)
  {
  }

  lemma SameTrans(a: seq<PeerSlot>, b: seq<PeerSlot>, c: seq<PeerSlot>)
    requires AllSameConfig(a, b) && AllSameConfig(b, c)
    ensures AllSameConfig(a, c)
  {
  }

  lemma BackoffsKept(a: seq<PeerSlot>, b: seq<PeerSlot>, was: seq<PeerSlot>, shuttingDown: bool, rs: seq<Reply>)
    requires |a| == |b| && (forall i :: 0 <= i < |a| ==> a[i].backoff == b[i].backoff)
    requires BackoffsAfter(b, was, shuttingDown, rs)
    ensures BackoffsAfter(a, was, shuttingDown, rs)
  {
  }

  lemma SameRefl(a: seq<PeerSlot>)
    ensures AllSameConfig(a, a)
  {
  }

  lemma AllLive(slots: seq<PeerSlot>, running: map<nat, nat>)
    requires Matched(slots, running, [])
    ensures forall i :: 0 <= i < |slots| && slots[i].proc.Some? ==> slots[i].proc.value in running
  {
  }

  lemma SomeRuns(slots: seq<PeerSlot>, running: map<nat, nat>)
    requires Matched(slots, running, []) && exists i :: 0 <= i < |slots| && slots[i].proc != None
    ensures |running| > 0
  {
    var i :| 0 <= i < |slots| && slots[i].proc != None;
    assert slots[i].proc.value in running;
  }

  lemma NoneRuns(slots: seq<PeerSlot>, running: map<nat, nat>, log: seq<Reply>)
    requires Matched(slots, running, []) && Folded(slots, [], log) && forall i :: 0 <= i < |slots| ==> slots[i].proc == None
    ensures running == map[]
    ensures forall i, w :: 0 <= i < |slots| ==> Part(slots[i].totals, w) == Sum(log, i, w)
  {
    hide Part;
    assert forall p :: p in running ==> slots[running[p]].proc == Some(p);
    assert forall i, w :: Sum([], i, w) == 0;
  }

  lemma ReplySlot(slots: seq<PeerSlot>, running: map<nat, nat>, port: seq<Reply>)
    requires Matched(slots, running, port) && port != []
    ensures port[0].slot < |slots|
  {
  }

  lemma SpawnFolds(slots: seq<PeerSlot>, port: seq<Reply>, log: seq<Reply>, i: nat, s: PeerSlot)
    requires Folded(slots, port, log) && i < |slots| && s.totals == slots[i].totals
    ensures Folded(slots[i := s], port, log)
  {
    hide Sum;
    assert forall j :: 0 <= j < |slots| ==> slots[i := s][j].totals == slots[j].totals;
  }
}
