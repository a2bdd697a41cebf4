/**
  The sixteen want sets and sixteen fetch claims of a folder. Its ghost fields are
  what the workers rely on: pending, the content each owner has asked for since it
  last cleared or released, and held, who holds the claim on each name hash.
*/
module FoldShare {
  import opened Bytes
  import opened FoldWants

  type Owner = o: nat | 0 < o witness 1

  /** How many of the owners are not null. */
  function Taken(owners: seq<nat>): (n: nat)
    ensures n <= |owners|
  {
    if owners == [] then 0 else Taken(owners[..|owners| - 1]) + if owners[|owners| - 1] != 0 then 1 else 0
  }

  predicate OwnersDiffer(owners: seq<nat>) {
    forall i, j :: 0 <= i < j < |owners| && owners[i] != 0 ==> owners[i] != owners[j]
  }

  function OwnerSet(owners: seq<nat>): set<nat> {
    set i | 0 <= i < |owners| && owners[i] != 0 :: owners[i]
  }

  lemma OwnerSetStep(owners: seq<nat>)
    requires owners != []
    ensures var last := |owners| - 1;
            OwnerSet(owners) == OwnerSet(owners[..last]) + if owners[last] != 0 then {owners[last]} else {}
  {
    var last := |owners| - 1;
    var less := owners[..last];
    forall x | x in OwnerSet(less) ensures x in OwnerSet(owners) {
      var i :| 0 <= i < last && less[i] != 0 && less[i] == x;
      assert owners[i] == x;
    }
    forall x | x in OwnerSet(owners) ensures x in OwnerSet(less) || (owners[last] != 0 && x == owners[last]) {
      var i :| 0 <= i < |owners| && owners[i] != 0 && owners[i] == x;
      assert i < last ==> less[i] == x;
    }
    if owners[last] != 0 {
      assert owners[last] in OwnerSet(owners);
    }
  }

  lemma InOwnerSet(owners: seq<nat>, o: Owner)
    ensures o in OwnerSet(owners) <==> exists k :: 0 <= k < |owners| && owners[k] == o
  {
  }

  /** With different owners, the slots taken are as many as the owners. */
  lemma {:induction false} TakenCounts(owners: seq<nat>)
    requires OwnersDiffer(owners)
    ensures |OwnerSet(owners)| == Taken(owners)
  {
    hide OwnerSet;
    if owners == [] {
      NoOwners();
    } else {
      var last := |owners| - 1;
      TakenCounts(owners[..last]);
      OwnerSetStep(owners);
      NotAmongEarlier(owners);
    }
  }

  lemma NoOwners()
    ensures OwnerSet([]) == {}
  {
  }

  lemma NotAmongEarlier(owners: seq<nat>)
    requires OwnersDiffer(owners) && owners != []
    ensures owners[|owners| - 1] !in OwnerSet(owners[..|owners| - 1])
  {
    var less, last := owners[..|owners| - 1], owners[|owners| - 1];
    forall x | x in OwnerSet(less) ensures x != last {
      var i :| 0 <= i < |less| && less[i] != 0 && less[i] == x;
      assert owners[i] == less[i];
    }
  }

  lemma {:induction false} FreeIffNotAllTaken(owners: seq<nat>)
    ensures Taken(owners) < |owners| <==> exists i :: 0 <= i < |owners| && owners[i] == 0
  {
    if owners != [] {
      var last := |owners| - 1;
      var less := owners[..last];
      FreeIffNotAllTaken(less);
      assert forall i :: 0 <= i < last ==> less[i] == owners[i];
    }
  }

  lemma OwnersGain(owners: seq<nat>, i: nat, owner: Owner)
    requires OwnersDiffer(owners) && i < |owners| && owners[i] == 0 && owner !in OwnerSet(owners)
    ensures OwnersDiffer(owners[i := owner]) && OwnerSet(owners[i := owner]) == OwnerSet(owners) + {owner}
  {
    var more := owners[i := owner];
    forall x | x in OwnerSet(owners) ensures x in OwnerSet(more) {
      var j :| 0 <= j < |owners| && owners[j] != 0 && owners[j] == x;
      assert more[j] == x;
    }
    assert more[i] in OwnerSet(more);
    forall x | x in OwnerSet(more) ensures x in OwnerSet(owners) + {owner} {
      var j :| 0 <= j < |more| && more[j] != 0 && more[j] == x;
      assert j != i ==> owners[j] == x;
    }
    forall j | 0 <= j < |owners| && j != i ensures more[j] != owner {
      assert owners[j] != 0 ==> owners[j] in OwnerSet(owners);
    }
  }

  lemma OwnersLose(owners: seq<nat>, i: nat)
    requires OwnersDiffer(owners) && i < |owners| && owners[i] != 0
    ensures OwnersDiffer(owners[i := 0]) && OwnerSet(owners[i := 0]) == OwnerSet(owners) - {owners[i]}
  {
    var fewer := owners[i := 0];
    forall x | x in OwnerSet(owners) - {owners[i]} ensures x in OwnerSet(fewer) {
      var j :| 0 <= j < |owners| && owners[j] != 0 && owners[j] == x;
      assert fewer[j] == x;
    }
    forall x | x in OwnerSet(fewer) ensures x in OwnerSet(owners) && x != owners[i] {
      var j :| 0 <= j < |fewer| && fewer[j] != 0 && fewer[j] == x;
      assert owners[j] == x && (j < i ==> owners[j] != owners[i]) && (i < j ==> owners[i] != owners[j]);
    }
  }

  /** The claimed slots carry different hashes, and held is what they say. */
  predicate HeldBy(owners: seq<nat>, hashes: seq<nat>, held: map<nat, nat>)
    requires |owners| == |hashes|
  {
    && (forall i :: 0 <= i < |owners| && owners[i] != 0 ==> hashes[i] in held && held[hashes[i]] == owners[i])
    && (forall i, j :: 0 <= i < j < |owners| && owners[i] != 0 && owners[j] != 0 ==> hashes[i] != hashes[j])
    && (forall h :: h in held ==> exists i :: 0 <= i < |owners| && owners[i] != 0 && hashes[i] == h)
  }

  lemma ClaimShows(owners: seq<nat>, hashes: seq<nat>, held: map<nat, nat>, i: nat, owner: Owner, hash: nat)
    requires |owners| == |hashes| && HeldBy(owners, hashes, held) && i < |owners| && owners[i] == 0
    requires forall j :: 0 <= j < |owners| && owners[j] != 0 ==> hashes[j] != hash
    ensures HeldBy(owners[i := owner], hashes[i := hash], held[hash := owner])
  {
    var owners', hashes', held' := owners[i := owner], hashes[i := hash], held[hash := owner];
    forall h | h in held' ensures exists k :: 0 <= k < |owners'| && owners'[k] != 0 && hashes'[k] == h {
      if h == hash {
        assert owners'[i] != 0 && hashes'[i] == h;
      } else {
        var k :| 0 <= k < |owners| && owners[k] != 0 && hashes[k] == h;
        assert owners'[k] != 0 && hashes'[k] == h;
      }
    }
  }

  lemma UnclaimShows(owners: seq<nat>, owners': seq<nat>, hashes: seq<nat>, held: map<nat, nat>, owner: Owner)
    requires |owners| == |owners'| == |hashes| && HeldBy(owners, hashes, held)
    requires forall j :: 0 <= j < |owners| ==> owners'[j] == if owners[j] == owner then 0 else owners[j]
    ensures HeldBy(owners', hashes, map h | h in held && held[h] != owner :: held[h])
  {
    forall h | h in held && held[h] != owner
      ensures exists k :: 0 <= k < |owners'| && owners'[k] != 0 && hashes[k] == h
    {
      var k :| 0 <= k < |owners| && owners[k] != 0 && hashes[k] == h;
      assert owners'[k] != 0 && hashes[k] == h;
    }
  }

  class Claims {
    var owners: array<nat>
    var hashes: array<nat>
    ghost var held: map<nat, nat>

    ghost predicate Valid()
      reads this, owners, hashes
    {
      && owners.Length == hashes.Length == FOLDSTATE_MAX_CLAIMS && owners != hashes
      && HeldBy(owners[..], hashes[..], held)
    }

    constructor ()
      ensures Valid() && held == map[]
    {
      owners := new nat[FOLDSTATE_MAX_CLAIMS](_ => 0);
      hashes := new nat[FOLDSTATE_MAX_CLAIMS](_ => 0);
      held := map[];
    }

    /** foldstate_claim. A held hash is answered by who holds it; a free one is
        claimed while a slot is left. */
    method Claim(hash: nat, owner: Owner) returns (ok: bool)
      requires Valid()
      modifies this`held, owners, hashes
      ensures Valid()
      ensures hash in old(held) ==> held == old(held) && ok == (held[hash] == owner)
      ensures hash !in old(held) ==> held == if ok then old(held)[hash := owner] else old(held)
      ensures hash !in old(held) && !ok ==> owners.Length == 16 && forall i :: 0 <= i < 16 ==> owners[i] != 0
    {
      ok := false;
      var slot, i := -1, 0;
      while i < FOLDSTATE_MAX_CLAIMS
        invariant 0 <= i <= FOLDSTATE_MAX_CLAIMS && -1 <= slot < i
        invariant if slot >= 0 then owners[slot] == 0 else forall j :: 0 <= j < i ==> owners[j] != 0
        invariant forall j :: 0 <= j < i && owners[j] != 0 ==> hashes[j] != hash
      {
        if owners[i] == 0 {
          if slot < 0 {
            slot := i;
          }
        } else if hashes[i] == hash {
          return owners[i] == owner;
        }
        i := i + 1;
      }
      if slot >= 0 {
        ClaimShows(owners[..], hashes[..], held, slot, owner, hash);
        owners[slot], hashes[slot] := owner, hash;
        held := held[hash := owner];
        ok := true;
        assert owners[..] == old(owners[..])[slot := owner] && hashes[..] == old(hashes[..])[slot := hash];
      }
    }

    /** foldstate_unclaim: every claim of this owner, and no other. */
    method Unclaim(owner: Owner)
      requires Valid()
      modifies this`held, owners
      ensures Valid()
      ensures held == map h | h in old(held) && old(held)[h] != owner :: old(held)[h]
    {
      hide HeldBy;
      for i := 0 to FOLDSTATE_MAX_CLAIMS
        invariant held == old(held)
        invariant forall j :: 0 <= j < owners.Length ==>
                    owners[j] == if j < i && old(owners[j]) == owner then 0 else old(owners[j])
      {
        if owners[i] == owner {
          owners[i] := 0;
        }
      }
      UnclaimShows(old(owners[..]), owners[..], hashes[..], held, owner);
      held := map h | h in held && held[h] != owner :: held[h];
    }
  }

  class Wants {
    const sets: seq<FolderWantSet>
    ghost var pending: map<Owner, set<nat>>

    /** Sixteen separate, well-formed sets. */
    ghost predicate Separate()
      reads this, sets, set i | 0 <= i < |sets| :: sets[i].keys
    {
      && |sets| == FOLDSTATE_MAX_CLAIMS
      && (forall i :: 0 <= i < |sets| ==> sets[i].Valid())
      && (forall i, j :: 0 <= i < j < |sets| ==> sets[i] != sets[j] && sets[i].keys != sets[j].keys)
    }

    ghost function Owners(): (r: seq<nat>)
      reads sets
      ensures |r| == |sets|
    {
      seq(|sets|, i requires 0 <= i < |sets| reads sets => sets[i].owner)
    }

    /** A slot answers for what its owner has pending: exactly, or for everything. */
    ghost predicate Answering(i: nat)
      requires i < |sets|
      reads this, sets, set k | 0 <= k < |sets| :: sets[k].keys
    {
      if sets[i].owner == 0 then !sets[i].overflow && sets[i].Wanted() == {}
      else sets[i].owner in pending && (sets[i].overflow || sets[i].Wanted() == pending[sets[i].owner])
    }

    ghost predicate Valid()
      reads this, sets, set i | 0 <= i < |sets| :: sets[i].keys
    {
      && Separate() && OwnersDiffer(Owners()) && OwnerSet(Owners()) == pending.Keys
      && forall i :: 0 <= i < |sets| ==> Answering(i)
    }

    constructor (ample: bool)
      ensures Valid() && pending == map[] && forall i :: 0 <= i < |sets| ==> sets[i].ample == ample
    {
      var slots: seq<FolderWantSet> := [];
      for k := 0 to FOLDSTATE_MAX_CLAIMS
        invariant |slots| == k
        invariant forall i :: 0 <= i < k ==> fresh(slots[i]) && fresh(slots[i].keys) && slots[i].Valid()
        invariant forall i :: 0 <= i < k ==> slots[i].owner == 0 && !slots[i].overflow && slots[i].Wanted() == {}
        invariant forall i :: 0 <= i < k ==> slots[i].ample == ample
        invariant forall i, j :: 0 <= i < j < k ==> slots[i] != slots[j] && slots[i].keys != slots[j].keys
      {
        hide FolderWantSet.Valid, FolderWantSet.Wanted;
        var w := new FolderWantSet(ample);
        slots := slots + [w];
      }
      sets := slots;
      pending := map[];
      new;
      ghost var owners := Owners();
      assert forall i :: 0 <= i < |owners| ==> owners[i] == 0;
    }

    /** want_set without the claiming: the owner's slot, else a free one, else -1. */
    method FindSet(owner: Owner) returns (i: int)
      requires Valid()
      ensures -1 <= i < |sets|
      ensures owner in pending <==> i >= 0 && sets[i].owner == owner
      ensures owner !in pending ==> if |pending| < 16 then i >= 0 && sets[i].owner == 0 else i == -1
    {
      hide FolderWantSet.Valid, FolderWantSet.Wanted, OwnerSet, Taken, OwnersDiffer;
      ghost var owners := Owners();
      TakenCounts(owners);
      FreeIffNotAllTaken(owners);
      InOwnerSet(owners, owner);
      i := -1;
      for k := 0 to FOLDSTATE_MAX_CLAIMS
        invariant -1 <= i < k && (i >= 0 ==> owners[i] == 0)
        invariant i < 0 ==> forall j :: 0 <= j < k ==> owners[j] != 0
        invariant forall j :: 0 <= j < k ==> owners[j] != owner
      {
        assert owners[k] == sets[k].owner;
        if sets[k].owner == owner {
          return k;
        }
        if sets[k].owner == 0 && i < 0 {
          i := k;
        }
      }
    }

    /** A free slot is claimed for a new owner. */
    method TakeSlot(i: nat, w: FolderWantSet, owner: Owner)
      requires Valid() && i < |sets| && sets[i] == w && w.owner == 0 && owner !in pending
      modifies this`pending, w`owner, w`n, w`overflow
      ensures Valid() && pending == old(pending)[owner := {}] && w.owner == owner
    {
      hide FolderWantSet.Valid, FolderWantSet.Wanted, OwnerSet;
      ghost var owners := Owners();
      assert Answering(i);
      w.Take(owner);
      pending := pending[owner := {}];
      OwnersGain(owners, i, owner);
      assert Owners() == owners[i := owner];
      forall j | 0 <= j < |sets| ensures Answering(j) {
        assert old(Answering(j));
      }
    }

    method AddTo(i: nat, w: FolderWantSet, key: Key, ghost owner: Owner)
      requires Valid() && i < |sets| && sets[i] == w && w.owner == owner && owner in pending
      modifies this`pending, w`keys, w`cap, w`n, w`overflow, w.keys
      ensures Valid() && pending == old(pending)[owner := old(pending)[owner] + {key}]
    {
      hide FolderWantSet.Valid, FolderWantSet.Wanted, OwnerSet;
      ghost var owners := Owners();
      assert Answering(i) && owners[i] == owner;
      w.Add(key);
      pending := pending[owner := pending[owner] + {key}];
      assert Owners() == owners;
      forall j | 0 <= j < |sets| ensures Answering(j) {
        assert old(Answering(j));
        assert j < i ==> owners[j] != owners[i];
        assert i < j ==> owners[i] != owners[j];
      }
    }

    /** foldstate_want_add. With at most sixteen owners the content is recorded; a
        seventeenth finds no slot, and then nothing at all is recorded. */
    method WantAdd(owner: Owner, key: Key)
      requires Valid()
      modifies this`pending, sets, set i | 0 <= i < |sets| :: sets[i].keys
      ensures Valid()
      ensures pending == if owner in old(pending) then old(pending)[owner := old(pending)[owner] + {key}]
                         else if |old(pending)| < 16 then old(pending)[owner := {key}]
                         else old(pending)
    {
      hide FolderWantSet.Valid, FolderWantSet.Wanted, OwnerSet, OwnersDiffer;
      var i := FindSet(owner);
      if i >= 0 {
        if sets[i].owner == 0 {
          TakeSlot(i, sets[i], owner);
        }
        AddTo(i, sets[i], key, owner);
      }
    }

    /** foldstate_want_any: yes for all content pending with any owner; a yes beyond
        that comes only from a set that stopped recording. */
    method WantAny(key: Key) returns (found: bool)
      requires Valid()
      ensures found <==> (exists o :: o in pending && key in pending[o]) || exists i :: 0 <= i < |sets| && sets[i].overflow
    {
      hide FolderWantSet.Valid, FolderWantSet.Wanted, OwnersDiffer;
      ghost var owners := Owners();
      found := false;
      for i := 0 to FOLDSTATE_MAX_CLAIMS
        invariant !found
        invariant forall j :: 0 <= j < i ==> !sets[j].overflow && key !in sets[j].Wanted()
      {
        assert Answering(i) && owners[i] == sets[i].owner;
        if sets[i].owner != 0 {
          assert owners[i] in OwnerSet(owners);
          if sets[i].overflow {
            return true;
          }
          found := sets[i].Holds(key);
          if found {
            return;
          }
        }
      }
      forall o | o in pending ensures key !in pending[o] {
        var j :| 0 <= j < |owners| && owners[j] != 0 && owners[j] == o;
        assert Answering(j);
      }
    }

    method ClearAt(i: nat, w: FolderWantSet, ghost owner: Owner)
      requires Valid() && i < |sets| && sets[i] == w && w.owner == owner
      modifies this`pending, w`n, w`overflow, w.keys
      ensures Valid() && pending == old(pending)[owner := {}] && Owners() == old(Owners())
    {
      hide FolderWantSet.Valid, FolderWantSet.Wanted, OwnerSet;
      ghost var owners := Owners();
      assert Answering(i) && owners[i] == owner;
      w.Clear();
      pending := pending[owner := {}];
      assert Owners() == owners;
      forall j | 0 <= j < |sets| ensures Answering(j) {
        assert old(Answering(j));
        assert j < i ==> owners[j] != owners[i];
        assert i < j ==> owners[i] != owners[j];
      }
    }

    /** foldstate_want_clear: nothing is pending with this owner any more. */
    method WantClear(owner: Owner)
      requires Valid()
      modifies this`pending, sets, set i | 0 <= i < |sets| :: sets[i].keys
      ensures Valid()
      ensures pending == if owner in old(pending) then old(pending)[owner := {}] else old(pending)
    {
      hide FolderWantSet.Valid, FolderWantSet.Wanted, OwnersDiffer;
      ghost var owners := Owners();
      ghost var before, cleared := pending, pending[owner := {}];
      for i := 0 to FOLDSTATE_MAX_CLAIMS
        invariant Valid() && Owners() == owners
        invariant forall j :: 0 <= j < |sets| ==> sets[j].keys == old(sets[j].keys)
        invariant pending == if exists j :: 0 <= j < i && owners[j] == owner then cleared else before
      {
        if sets[i].owner == owner {
          assert owners[i] == owner;
          ClearAt(i, sets[i], owner);
        }
      }
    }

    method ReleaseAt(i: nat, w: FolderWantSet, ghost owner: Owner)
      requires Valid() && i < |sets| && sets[i] == w && w.owner == owner
      modifies this`pending, w
      ensures Valid() && pending == old(pending) - {owner} && Owners() == old(Owners())[i := 0]
      ensures fresh(w.keys)
    {
      hide FolderWantSet.Valid, FolderWantSet.Wanted, OwnerSet;
      ghost var owners := Owners();
      assert owners[i] == owner;
      OwnersLose(owners, i);
      w.Release();
      pending := pending - {owner};
      assert Owners() == owners[i := 0];
      forall j | 0 <= j < |sets| ensures Answering(j) {
        assert old(Answering(j));
        assert j < i ==> owners[j] != owners[i];
        assert i < j ==> owners[i] != owners[j];
      }
    }

    /** foldstate_want_release: the owner is forgotten, its slot free for another. */
    method WantRelease(owner: Owner)
      requires Valid()
      modifies this`pending, sets, set i | 0 <= i < |sets| :: sets[i].keys
      ensures Valid() && pending == old(pending) - {owner}
    {
      hide FolderWantSet.Valid, FolderWantSet.Wanted, OwnersDiffer;
      ghost var owners, before := Owners(), pending;
      for i := 0 to FOLDSTATE_MAX_CLAIMS
        invariant Valid()
        invariant forall j :: 0 <= j < |sets| ==> Owners()[j] == if j < i && owners[j] == owner then 0 else owners[j]
        invariant forall j :: 0 <= j < |sets| ==> sets[j].keys == old(sets[j].keys) || fresh(sets[j].keys)
        invariant pending == if exists j :: 0 <= j < i && owners[j] == owner then before - {owner} else before
      {
        ghost var now := Owners();
        assert now[i] == sets[i].owner;
        if sets[i].owner == owner {
          ReleaseAt(i, sets[i], owner);
        }
      }
    }

    /** foldstate_want_idle: yes exactly when no content is pending and no set has
        stopped recording. */
    method WantIdle() returns (idle: bool)
      requires Valid()
      ensures idle <==> (forall o :: o in pending ==> pending[o] == {}) && forall i :: 0 <= i < |sets| ==> !sets[i].overflow
    {
      hide OwnersDiffer;
      ghost var owners := Owners();
      for i := 0 to FOLDSTATE_MAX_CLAIMS
        invariant forall j :: 0 <= j < i ==> !sets[j].overflow && sets[j].Wanted() == {}
      {
        assert Answering(i) && owners[i] == sets[i].owner;
        EmptyWhenNoneLive(sets[i].keys[..]);
        if sets[i].owner != 0 {
          assert owners[i] in OwnerSet(owners);
          if sets[i].n > 0 || sets[i].overflow {
            return false;
          }
        }
      }
      idle := true;
      forall o | o in pending ensures pending[o] == {} {
        var j :| 0 <= j < |owners| && owners[j] != 0 && owners[j] == o;
        assert Answering(j);
      }
    }
  }
}
