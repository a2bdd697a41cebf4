/**
  What the workers of one folder share besides the index (src/foldstate.c): the
  open-addressed sets of wanted content, one per worker, and the fetch claims.
  Content is a 32-bit key that is never 0 (want_key), an owner is the address of a
  worker's block, 0 standing for a null pointer.
*/
module FoldWants {
  import opened Bytes

  const FOLDSTATE_MAX_CLAIMS := 16
  const FOLDSTATE_WANT_MAX := 4096

  type Key = k: nat | 0 < k witness 1

  // ------------------------------------------------------ open addressing

  /** Table sizes: powers of two, so that key & (cap - 1) is key % cap. */
  predicate TableSize(cap: nat) {
    cap in {64, 128, 256, 512, 1024, 2048, 4096, 8192}
  }

  function Home(k: nat, cap: nat): (h: nat)
    requires cap > 0
    ensures h < cap
  {
    k % cap
  }

  function Next(i: nat, cap: nat): (r: nat)
    requires i < cap
    ensures r < cap
  {
    if i + 1 == cap then 0 else i + 1
  }

  /** How far a probe at i is from slot e. */
  function Ahead(i: nat, e: nat, cap: nat): (d: nat)
    requires i < cap && e < cap
    ensures d < cap
  {
    if i <= e then e - i else e - i + cap
  }

  /** A probe for k from slot i finds it within the given number of slots. */
  predicate Probe(keys: seq<nat>, i: nat, k: nat, steps: nat)
    requires i < |keys|
    decreases steps
  {
    steps > 0 && keys[i] != 0 && (keys[i] == k || Probe(keys, Next(i, |keys|), k, steps - 1))
  }

  /** The table answers yes for k. */
  predicate Answers(keys: seq<nat>, k: nat) {
    |keys| > 0 && Probe(keys, Home(k, |keys|), k, |keys|)
  }

  function Live(keys: seq<nat>): (n: nat)
    ensures n <= |keys|
  {
    if keys == [] then 0 else Live(keys[..|keys| - 1]) + if keys[|keys| - 1] != 0 then 1 else 0
  }

  function Members(keys: seq<nat>): set<nat> {
    set i | 0 <= i < |keys| && keys[i] != 0 :: keys[i]
  }

  /** Every stored key is found from its home slot. */
  predicate Findable(keys: seq<nat>) {
    forall i :: 0 <= i < |keys| && keys[i] != 0 ==> Answers(keys, keys[i])
  }

  lemma {:induction false} FreeSlot(keys: seq<nat>) returns (e: nat)
    requires Live(keys) < |keys|
    ensures e < |keys| && keys[e] == 0
  {
    var last := |keys| - 1;
    if keys[last] == 0 {
      e := last;
    } else {
      e := FreeSlot(keys[..last]);
    }
  }

  lemma {:induction false} LiveUpdate(keys: seq<nat>, e: nat, k: nat)
    requires e < |keys| && keys[e] == 0 && k != 0
    ensures Live(keys[e := k]) == Live(keys) + 1
  {
    var last := |keys| - 1;
    var keys' := keys[e := k];
    if e == last {
      assert keys'[..last] == keys[..last];
    } else {
      LiveUpdate(keys[..last], e, k);
      assert keys'[..last] == keys[..last][e := k];
    }
  }

  lemma {:induction false} LiveZero(keys: seq<nat>)
    ensures Live(keys) == 0 <==> forall i :: 0 <= i < |keys| ==> keys[i] == 0
  {
    if keys != [] {
      LiveZero(keys[..|keys| - 1]);
    }
  }

  lemma {:induction false} ProbeFinds(keys: seq<nat>, i: nat, k: nat, steps: nat)
    requires i < |keys| && Probe(keys, i, k, steps) && k != 0
    ensures k in Members(keys)
    decreases steps
  {
    if keys[i] == k {
      assert keys[i] in Members(keys);
    } else {
      ProbeFinds(keys, Next(i, |keys|), k, steps - 1);
    }
  }

  /** Filling an empty slot breaks no other probe: none of them crosses it. */
  lemma {:induction false} ProbeKept(keys: seq<nat>, i: nat, k: nat, steps: nat, e: nat, key: nat)
    requires i < |keys| && e < |keys| && keys[e] == 0 && key != 0 && Probe(keys, i, k, steps)
    ensures Probe(keys[e := key], i, k, steps)
    decreases steps
  {
    if keys[i] != k {
      ProbeKept(keys, Next(i, |keys|), k, steps - 1, e, key);
    }
  }

  /** In a findable table the answer is exactly membership. */
  lemma AnswersMembers(keys: seq<nat>, k: nat)
    requires Findable(keys) && k != 0
    ensures Answers(keys, k) <==> k in Members(keys)
  {
    if Answers(keys, k) {
      ProbeFinds(keys, Home(k, |keys|), k, |keys|);
    }
  }

  /** The slots from h to the empty slot e are taken by other keys. */
  predicate Crowded(keys: seq<nat>, h: nat, e: nat, k: nat)
    requires h < |keys| && e < |keys|
    decreases Ahead(h, e, |keys|)
  {
    h == e || (keys[h] != 0 && keys[h] != k && Crowded(keys, Next(h, |keys|), e, k))
  }

  lemma {:induction false} PutIsFound(keys: seq<nat>, h: nat, e: nat, k: nat)
    requires h < |keys| && e < |keys| && k != 0 && Crowded(keys, h, e, k)
    ensures Probe(keys[e := k], h, k, Ahead(h, e, |keys|) + 1)
    decreases Ahead(h, e, |keys|)
  {
    if h != e {
      PutIsFound(keys, Next(h, |keys|), e, k);
    }
  }

  lemma {:induction false} ProbeLonger(keys: seq<nat>, i: nat, k: nat, steps: nat, more: nat)
    requires i < |keys| && Probe(keys, i, k, steps) && steps <= more
    ensures Probe(keys, i, k, more)
    decreases steps
  {
    if keys[i] != k {
      ProbeLonger(keys, Next(i, |keys|), k, steps - 1, more - 1);
    }
  }

  /** Putting k into the first empty slot of its probe keeps the table findable. */
  lemma PutFindable(keys: seq<nat>, e: nat, k: nat)
    requires Findable(keys) && e < |keys| && keys[e] == 0 && k != 0
    requires Crowded(keys, Home(k, |keys|), e, k)
    ensures Findable(keys[e := k]) && Members(keys[e := k]) == Members(keys) + {k}
  {
    var keys', cap := keys[e := k], |keys|;
    PutIsFound(keys, Home(k, cap), e, k);
    ProbeLonger(keys', Home(k, cap), k, Ahead(Home(k, cap), e, cap) + 1, cap);
    forall i | 0 <= i < cap && keys'[i] != 0 ensures Answers(keys', keys'[i]) {
      if i != e {
        ProbeKept(keys, Home(keys[i], cap), keys[i], cap, e, k);
      }
    }
    forall x | x in Members(keys) + {k} ensures x in Members(keys') {
      if x == k {
        assert keys'[e] == x;
      } else {
        var i :| 0 <= i < cap && keys[i] != 0 && keys[i] == x;
        assert keys'[i] == x;
      }
    }
    forall x | x in Members(keys') ensures x in Members(keys) + {k} {
      var i :| 0 <= i < cap && keys'[i] != 0 && keys'[i] == x;
      assert i != e ==> keys[i] == x;
    }
  }

  /** A probe that ends at an empty slot has looked for a key that is not there. */
  lemma PutIsNew(keys: seq<nat>, e: nat, k: nat)
    requires Findable(keys) && e < |keys| && keys[e] == 0 && k != 0
    requires Crowded(keys, Home(k, |keys|), e, k)
    ensures k !in Members(keys)
  {
    CrowdedProbe(keys, Home(k, |keys|), e, k, |keys|);
    AnswersMembers(keys, k);
  }

  lemma {:induction false} CrowdedGrows(keys: seq<nat>, h: nat, i: nat, k: nat)
    requires h < |keys| && i < |keys| && Crowded(keys, h, i, k) && keys[i] != 0 && keys[i] != k
    requires Next(i, |keys|) != h
    ensures Crowded(keys, h, Next(i, |keys|), k)
    decreases Ahead(h, i, |keys|)
  {
    if h != i {
      CrowdedGrows(keys, Next(h, |keys|), i, k);
    } else {
      assert Crowded(keys, Next(i, |keys|), Next(i, |keys|), k);
    }
  }

  lemma {:induction false} CrowdedProbe(keys: seq<nat>, h: nat, i: nat, k: nat, steps: nat)
    requires h < |keys| && i < |keys| && Crowded(keys, h, i, k) && steps >= Ahead(h, i, |keys|)
    ensures Probe(keys, h, k, steps) <==> Probe(keys, i, k, steps - Ahead(h, i, |keys|))
    decreases Ahead(h, i, |keys|)
  {
    if h != i {
      CrowdedProbe(keys, Next(h, |keys|), i, k, steps - 1);
    }
  }

  // ------------------------------------------------- one worker's set

  class FolderWantSet {
    const ample: bool
    var owner: nat
    var keys: array<nat>
    var cap: nat
    var n: nat
    var overflow: bool

    /** Load is at most half, so every probe meets an empty slot. */
    ghost predicate Valid()
      reads this, keys
    {
      && keys.Length == cap && (cap == 0 || TableSize(cap))
      && Findable(keys[..]) && n == Live(keys[..]) == |Members(keys[..])| && 2 * n <= cap
    }

    ghost function Wanted(): set<nat>
      reads this, keys
    {
      Members(keys[..])
    }

    constructor (ample: bool)
      ensures Valid() && fresh(keys) && owner == 0 && !overflow && Wanted() == {} && this.ample == ample
    {
      this.ample := ample;
      owner, cap, n, overflow := 0, 0, 0, false;
      keys := new nat[0];
    }

    /** want_put: probe to the key or to the first empty slot. */
    method Put(key: nat)
      requires key != 0 && cap > 0 && keys.Length == cap && Findable(keys[..]) && n == Live(keys[..]) < cap
      modifies this`n, keys
      ensures Findable(keys[..]) && n == Live(keys[..]) <= old(n) + 1
      ensures Wanted() == old(Wanted()) + {key}
      ensures old(n == |Wanted()|) ==> n == |Wanted()|
    {
      hide Findable, Members, Live, Answers, Home;
      ghost var home, s := Home(key, cap), keys[..];
      ghost var e := FreeSlot(s);
      var i: nat := Home(key, cap);
      while keys[i] != 0
        invariant i < cap && keys[..] == s && n == Live(s) && Crowded(s, home, i, key)
        invariant Ahead(home, i, cap) + Ahead(i, e, cap) == Ahead(home, e, cap)
        decreases Ahead(i, e, cap)
      {
        if keys[i] == key {
          MemberAt(s, i);
          return;
        }
        CrowdedGrows(s, home, i, key);
        i := Next(i, cap);
      }
      PutFindable(s, i, key);
      PutIsNew(s, i, key);
      LiveUpdate(s, i, key);
      keys[i] := key;
      n := n + 1;
      assert keys[..] == s[i := key];
    }

    /** want_grow: twice the size, everything rehashed; false without memory or at
        the ceiling, and then nothing changes. */
    method Grow() returns (ok: bool)
      requires Valid() && 2 * n >= cap
      modifies this`keys, this`cap, this`n
      ensures Valid() && Wanted() == old(Wanted()) && (keys == old(keys) || fresh(keys))
      ensures ok ==> 2 * n < cap
      ensures ample && n < FOLDSTATE_WANT_MAX ==> ok
      ensures !ok ==> keys == old(keys) && cap == old(cap) && n == old(n)
    {
      hide Findable, Members, Live;
      var newcap := if cap > 0 then cap * 2 else 64;
      if newcap > FOLDSTATE_WANT_MAX * 2 {
        return false;
      }
      ok := *;
      ok := ok || ample;
      if !ok {
        return;
      }
      var was, oldcap := keys, cap;
      ghost var all := was[..];
      keys := new nat[newcap](_ => 0);
      cap, n := newcap, 0;
      EmptyTable(keys[..]);
      NoKeys(all[..0]);
      for i := 0 to oldcap
        invariant fresh(keys) && keys.Length == cap == newcap && was[..] == all
        invariant Findable(keys[..]) && n == Live(keys[..]) <= Live(all[..i]) && Wanted() == Members(all[..i])
        invariant n == |Wanted()|
      {
        PrefixStep(all, i);
        if was[i] != 0 {
          Put(was[i]);
        }
      }
      assert all[..oldcap] == all;
    }

    /** A free slot gets an owner. */
    method Take(who: nat)
      requires Valid() && Wanted() == {}
      modifies this`owner, this`n, this`overflow
      ensures Valid() && owner == who && !overflow && Wanted() == {}
    {
      owner, n, overflow := who, 0, false;
      NoMembers(keys[..]);
    }

    method Record(key: Key)
      requires Valid() && 2 * n < cap
      modifies this`n, keys
      ensures Valid() && Wanted() == old(Wanted()) + {key}
    {
      hide Findable, Members, Live;
      Put(key);
    }

    /** What foldstate_want_add does with the owner's set. */
    method Add(key: Key)
      requires Valid()
      modifies this`keys, this`cap, this`n, this`overflow, keys
      ensures Valid() && (keys == old(keys) || fresh(keys))
      ensures old(overflow) ==> overflow
      ensures !overflow ==> Wanted() == old(Wanted()) + {key}
      ensures ample && !old(overflow) && |old(Wanted())| < 4096 ==> !overflow
      ensures |Wanted()| <= 4096
    {
      hide Findable, Members, Live;
      if overflow {
        return;
      }
      if n * 2 >= cap {
        var ok := Grow();
        overflow := !ok;
      }
      if !overflow {
        Record(key);
      }
    }

    /** The probe of foldstate_want_any. */
    method Holds(key: Key) returns (found: bool)
      requires Valid()
      ensures found == (key in Wanted())
    {
      hide Findable, Members, Live, Home;
      if cap == 0 {
        NoKeys(keys[..]);
        return false;
      }
      ghost var s, home := keys[..], Home(key, cap);
      ghost var e := FreeSlot(s);
      AnswersMembers(s, key);
      var i: nat := Home(key, cap);
      while keys[i] != 0
        invariant i < cap && Crowded(s, home, i, key)
        invariant Ahead(home, i, cap) + Ahead(i, e, cap) == Ahead(home, e, cap)
        decreases Ahead(i, e, cap)
      {
        CrowdedProbe(s, home, i, key, cap);
        if keys[i] == key {
          return true;
        }
        CrowdedGrows(s, home, i, key);
        i := Next(i, cap);
      }
      CrowdedProbe(s, home, i, key, cap);
      found := false;
    }

    /** What foldstate_want_clear does: the table is kept, only emptied. */
    method Clear()
      requires Valid()
      modifies this`n, this`overflow, keys
      ensures Valid() && !overflow && Wanted() == {}
    {
      for k := 0 to cap
        invariant forall j :: 0 <= j < k ==> keys[j] == 0
      {
        keys[k] := 0;
      }
      EmptyTable(keys[..]);
      n, overflow := 0, false;
    }

    /** What foldstate_want_release does: the table is freed, the slot given up. */
    method Release()
      requires Valid()
      modifies this
      ensures Valid() && fresh(keys) && !overflow && Wanted() == {} && owner == 0
    {
      keys := new nat[0];
      cap, n, overflow, owner := 0, 0, false, 0;
    }
  }

  lemma MembersZero(keys: seq<nat>)
    ensures Members(keys) == {} <==> forall i :: 0 <= i < |keys| ==> keys[i] == 0
  {
    if i :| 0 <= i < |keys| && keys[i] != 0 {
      assert keys[i] in Members(keys);
    }
  }

  lemma NoMembers(keys: seq<nat>)
    requires Members(keys) == {}
    ensures Live(keys) == 0
  {
    MembersZero(keys);
    LiveZero(keys);
  }

  lemma EmptyWhenNoneLive(keys: seq<nat>)
    ensures Live(keys) == 0 <==> Members(keys) == {}
  {
    LiveZero(keys);
    MembersZero(keys);
  }

  lemma NoKeys(keys: seq<nat>)
    requires keys == []
    ensures Members(keys) == {}
  {
  }

  lemma MemberAt(keys: seq<nat>, i: nat)
    requires i < |keys| && keys[i] != 0
    ensures keys[i] in Members(keys) && Members(keys) + {keys[i]} == Members(keys)
  {
  }

  lemma EmptyTable(keys: seq<nat>)
    requires forall i :: 0 <= i < |keys| ==> keys[i] == 0
    ensures Findable(keys) && Live(keys) == 0 && Members(keys) == {}
  {
    LiveZero(keys);
  }

  lemma PrefixStep(keys: seq<nat>, i: nat)
    requires i < |keys|
    ensures Members(keys[..i + 1]) == Members(keys[..i]) + if keys[i] != 0 then {keys[i]} else {}
    ensures Live(keys[..i + 1]) == Live(keys[..i]) + if keys[i] != 0 then 1 else 0
  {
    var longer, shorter := keys[..i + 1], keys[..i];
    assert longer[..i] == shorter;
    forall x | x in Members(shorter) ensures x in Members(longer) {
      var j :| 0 <= j < i && shorter[j] != 0 && shorter[j] == x;
      assert longer[j] == x;
    }
    if keys[i] != 0 {
      assert longer[i] == keys[i];
    }
    forall x | x in Members(longer) ensures x in Members(shorter) || (keys[i] != 0 && x == keys[i]) {
      var j :| 0 <= j < i + 1 && longer[j] != 0 && longer[j] == x;
      assert j < i ==> shorter[j] == x;
    }
  }
}
