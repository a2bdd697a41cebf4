/**
  The block copies both LZ4 loops are built from: memcpy of a few bytes at a time,
  wild copies that may run past their end, and the overlapping match copy with its
  two small offset tables. Memcpy demands disjoint regions, as C's memcpy does, so
  that no caller below ever copies overlapping memory is part of what is verified.
*/
module Lz4Copy {
  import opened Bytes
  import opened Lz4Format

  const WILDCOPYLENGTH := 8
  const MATCH_SAFEGUARD_DISTANCE := 12

  /** How many bytes an 8-byte wild copy of n bytes writes. */
  function Wild(n: int): (r: nat)
    ensures r % 8 == 0 && n <= r && r >= 8 && r <= Max(8, n + 7)
  {
    if n <= 8 then 8 else (n + 7) / 8 * 8
  }

  method Memcpy(a: array<byte>, d: nat, s: nat, n: nat)
    requires d + n <= a.Length && s + n <= a.Length
    requires d + n <= s || s + n <= d
    modifies a
    ensures forall k :: 0 <= k < a.Length ==> a[k] == if d <= k < d + n then old(a[s + k - d]) else old(a[k])
  {
    forall k | 0 <= k < n {
      a[d + k] := a[s + k];
    }
  }

  method MemcpyFrom(a: array<byte>, d: nat, src: seq<byte>, s: nat, n: nat)
    requires d + n <= a.Length && s + n <= |src|
    modifies a
    ensures forall k :: 0 <= k < a.Length ==> a[k] == if d <= k < d + n then src[s + k - d] else old(a[k])
    ensures a[d..d + n] == src[s..s + n]
  {
    forall k | 0 <= k < n {
      a[d + k] := src[s + k];
    }
  }

  /** LZ4_wildCopy8 from another buffer: 8 bytes at a time until d reaches e. */
  method WildCopy8From(a: array<byte>, d: nat, src: seq<byte>, s: nat, e: int)
    requires d + Wild(e - d) <= a.Length && s + Wild(e - d) <= |src|
    modifies a
    ensures forall k :: 0 <= k < a.Length && !(d <= k < d + Wild(e - d)) ==> a[k] == old(a[k])
    ensures d <= e ==> a[d..e] == src[s..s + (e - d)]
  {
    MemcpyFrom(a, d, src, s, 8);
    var i := 8;
    while d + i < e
      invariant 8 <= i <= Wild(e - d) && i % 8 == 0
      invariant forall k :: 0 <= k < a.Length ==> a[k] == if d <= k < d + i then src[s + k - d] else old(a[k])
    {
      MemcpyFrom(a, d + i, src, s + i, 8);
      i := i + 8;
    }
  }

  // ------------------------------------------------- repeating sequences

  /** Byte k of s is the one offset places before it (for offset 0: zero). Named,
      so that the quantifiers below are used only where it is mentioned. */
  predicate RepeatsAt(s: seq<byte>, k: nat, offset: nat)
    requires offset <= k < |s|
  {
    s[k] == if offset == 0 then 0 else s[k - offset]
  }

  /** s repeats with the given offset between lo and hi. */
  predicate Repeats(s: seq<byte>, lo: nat, hi: nat, offset: nat)
    requires hi <= |s| && offset <= lo
  {
    forall k :: lo <= k < hi ==> RepeatsAt(s, k, offset)
  }

  /** A copy of n bytes from offset bytes back prolongs a repeating region. */
  method Prolong(a: array<byte>, lo: nat, hi: nat, n: nat, offset: nat)
    requires offset <= lo <= hi && n <= offset && hi + n <= a.Length
    requires Repeats(a[..], lo, hi, offset)
    modifies a
    ensures Repeats(a[..], lo, hi + n, offset)
    ensures forall k :: 0 <= k < a.Length && !(hi <= k < hi + n) ==> a[k] == old(a[k])
  {
    ghost var was := a[..];
    Memcpy(a, hi, hi - offset, n);
    ghost var now := a[..];
    forall k | lo <= k < hi + n ensures RepeatsAt(now, k, offset) {
      assert k < hi ==> RepeatsAt(was, k, offset);
    }
  }

  /** LZ4_wildCopy8 within one buffer, at least 8 bytes behind the destination:
      what was written repeats with the distance of the copy. */
  method WildCopy8(a: array<byte>, d: nat, s: nat, e: int)
    requires s + 8 <= d && d + Wild(e - d) <= a.Length
    modifies a
    ensures Repeats(a[..], d, d + Wild(e - d), d - s)
    ensures forall k :: 0 <= k < a.Length && !(d <= k < d + Wild(e - d)) ==> a[k] == old(a[k])
  {
    Prolong(a, d, d, 8, d - s);
    var i := 8;
    while d + i < e
      invariant 8 <= i <= Wild(e - d) && i % 8 == 0
      invariant Repeats(a[..], d, d + i, d - s)
      invariant forall k :: 0 <= k < a.Length && !(d <= k < d + i) ==> a[k] == old(a[k])
    {
      Prolong(a, d, d + i, 8, d - s);
      i := i + 8;
    }
  }

  /** A match copy is exactly the extension that repeats with its offset. */
  lemma {:induction false} RepeatsIsCopyMatch(s: seq<byte>, lo: nat, hi: nat, offset: nat)
    requires lo <= hi <= |s| && offset <= lo
    ensures Repeats(s, lo, hi, offset) <==> s[..hi] == CopyMatch(s[..lo], offset, hi - lo)
    decreases hi - lo
  {
    if lo < hi {
      var next: byte := if offset == 0 then 0 else s[lo - offset];
      assert Repeats(s, lo, hi, offset) ==> RepeatsAt(s, lo, offset);
      if s[lo] == next {
        assert s[..lo] + [next] == s[..lo + 1];
        RepeatsIsCopyMatch(s, lo + 1, hi, offset);
      } else {
        assert s[..hi][lo] != (s[..lo] + [next])[lo];
      }
    }
  }

  /** Byte by byte: each the one the offset places before it, or zero for offset 0. */
  lemma CopyMatchBytes(s: seq<byte>, lo: nat, hi: nat, offset: nat)
    requires lo <= hi <= |s| && offset <= lo
    ensures s[..hi] == CopyMatch(s[..lo], offset, hi - lo) <==>
              forall k :: lo <= k < hi ==> s[k] == if offset == 0 then 0 else s[k - offset]
  {
    hide CopyMatch;
    RepeatsIsCopyMatch(s, lo, hi, offset);
    assert forall k :: lo <= k < hi ==> (RepeatsAt(s, k, offset) <==> s[k] == if offset == 0 then 0 else s[k - offset]);
  }

  // ------------------------------------------------------ the match copy

  /** inc32table and dec64table of src/lz4.c. */
  function Inc32(offset: nat): int
    requires offset < 8
  {
    [0, 1, 2, 1, 0, 4, 4, 4][offset]
  }

  function Dec64(offset: nat): int
    requires offset < 8
  {
    [0, 0, 0, -1, -4, 1, 2, 3][offset]
  }

  /** The distance the copy continues with after its first eight bytes. */
  function Distance(offset: nat): (d: nat)
    ensures d >= 8 && d - 8 <= offset
  {
    if offset < 8 then 8 + offset - Inc32(offset) + Dec64(offset) else offset
  }

  /** d is a whole number of offsets. */
  predicate Whole(d: nat, offset: nat)
    requires offset > 0
  {
    d == 0 || (d >= offset && Whole(d - offset, offset))
  }

  /** The tables are right because they keep the distance a whole number of
      periods while raising it to at least eight. */
  lemma DistanceIsWhole(offset: nat)
    requires offset > 0
    ensures Whole(Distance(offset), offset)
  {
    if offset < 8 {
      assert offset in [1, 2, 3, 4, 5, 6, 7];
      var d := Distance(offset);
      assert Whole(2 * offset, offset) && Whole(3 * offset, offset) && Whole(4 * offset, offset);
      assert Whole(5, 1) && Whole(6, 1) && Whole(7, 1);
    } else {
      assert Whole(0, offset);
    }
  }

  /** Stepping back over whole periods inside a repeating region. */
  lemma {:induction false} StepBack(s: seq<byte>, lo: nat, hi: nat, offset: nat, j: nat, d: nat)
    requires hi <= |s| && 0 < offset <= lo && Repeats(s, lo, hi, offset)
    requires d > 0 && Whole(d, offset) && j < hi && j - d + offset >= lo
    ensures s[j] == s[j - d]
    decreases d
  {
    assert RepeatsAt(s, j, offset);
    if d > offset {
      StepBack(s, lo, hi, offset, j - offset, d - offset);
    }
  }

  /** Eight bytes that repeat, continued at Distance, go on repeating. */
  lemma {:induction false} RepeatsContinue(s: seq<byte>, lo: nat, hi: nat, offset: nat)
    requires lo + 8 <= hi <= |s| && offset <= lo && Repeats(s, lo, lo + 8, offset)
    requires Repeats(s, lo + 8, hi, Distance(offset))
    ensures Repeats(s, lo, hi, offset)
    decreases hi
  {
    hide Inc32, Dec64;
    if lo + 8 < hi {
      var k, d := hi - 1, Distance(offset);
      RepeatsContinue(s, lo, k, offset);
      assert RepeatsAt(s, k, d);
      if offset == 0 {
        DistanceOfZero();
        assert RepeatsAt(s, k - 8, 0);
      } else if d > offset {
        DistanceIsWhole(offset);
        StepBack(s, lo, k, offset, k - offset, d - offset);
      }
    }
  }

  lemma DistanceOfZero()
    ensures Distance(0) == 8
  {
  }

  /** Bytes 4 to 7 are copied from a place the first table picks. */
  lemma FirstEightRepeat(s: seq<byte>, op: nat, offset: nat)
    requires offset < 8 && offset <= op && op + 8 <= |s| && Repeats(s, op, op + 4, offset)
    requires Repeats(s, op + 4, op + 8, 4 + offset - Inc32(offset))
    ensures Repeats(s, op, op + 8, offset)
  {
    var e := 4 + offset - Inc32(offset);
    assert RepeatsAt(s, op, offset) && RepeatsAt(s, op + 1, offset);
    assert RepeatsAt(s, op + 2, offset) && RepeatsAt(s, op + 3, offset);
    assert RepeatsAt(s, op + 4, e) && RepeatsAt(s, op + 5, e);
    assert RepeatsAt(s, op + 6, e) && RepeatsAt(s, op + 7, e);
    assert offset in [0, 1, 2, 3, 4, 5, 6, 7];
  }

  lemma FirstDistance(offset: nat)
    requires offset < 8
    ensures 0 <= Inc32(offset) && 4 <= 4 + offset - Inc32(offset) <= offset + 4
  {
    assert offset in [0, 1, 2, 3, 4, 5, 6, 7];
  }

  /** The first eight bytes of a match, op bytes being out. */
  method CopyFirstEight(a: array<byte>, op: nat, offset: nat)
    requires offset <= op && op + 8 <= a.Length
    modifies a
    ensures Repeats(a[..], op, op + 8, offset)
    ensures forall k :: 0 <= k < a.Length && !(op <= k < op + 8) ==> a[k] == old(a[k])
  {
    hide Inc32;
    var from := op - offset;
    if offset < 8 {
      a[op], a[op + 1], a[op + 2], a[op + 3] := 0, 0, 0, 0;
      a[op] := a[from];
      a[op + 1] := a[from + 1];
      a[op + 2] := a[from + 2];
      a[op + 3] := a[from + 3];
      assert Repeats(a[..], op, op + 4, offset);
      FirstDistance(offset);
      ghost var was, e := a[..], 4 + offset - Inc32(offset);
      Memcpy(a, op + 4, from + Inc32(offset), 4);
      ghost var now := a[..];
      forall k | op <= k < op + 4 ensures RepeatsAt(now, k, offset) {
        assert RepeatsAt(was, k, offset);
      }
      FirstEightRepeat(now, op, offset);
    } else {
      Prolong(a, op, op, 8, offset);
    }
  }

  /** The rest of a match up to cpy, at a distance of at least eight. Near the end
      of the buffer it goes 8 bytes at a time up to seven bytes before the end,
      then byte by byte; elsewhere it may run past cpy. */
  method ContinueMatch(a: array<byte>, op: nat, from: nat, length: nat, cpy: nat, cap: nat)
    requires from + 8 <= op && op + 4 <= cpy + 8 && length == cpy + 8 - op
    requires op <= cap <= a.Length && cpy + LASTLITERALS <= cap
    modifies a
    ensures Repeats(a[..], op, Max(cpy, op), op - from)
    ensures forall k :: 0 <= k < op || cap <= k < a.Length ==> a[k] == old(a[k])
  {
    ghost var d := op - from;
    if cpy > cap - MATCH_SAFEGUARD_DISTANCE {
      var to, match_ := op, from;
      var copyLimit := cap - (WILDCOPYLENGTH - 1);
      if to < copyLimit {
        WildCopy8(a, to, match_, copyLimit);
        match_ := match_ + (copyLimit - to);
        to := copyLimit;
      }
      while to < cpy
        invariant op <= to <= Max(cpy, to) <= cap && to - match_ == d
        invariant Repeats(a[..], op, to, d)
        invariant forall k :: 0 <= k < op || cap <= k < a.Length ==> a[k] == old(a[k])
      {
        Prolong(a, op, to, 1, to - match_);
        to, match_ := to + 1, match_ + 1;
      }
    } else {
      Memcpy(a, op, from, 8);
      ghost var was := a[..];
      if length > 16 {
        WildCopy8(a, op + 8, from + 8, cpy);
      }
      ghost var now := a[..];
      forall k | op <= k < Max(cpy, op) ensures RepeatsAt(now, k, d) {
        if k < op + 8 {
          assert RepeatsAt(was, k, d);
        }
      }
    }
  }

  /** The match copy of the safe decode loop. It may scribble past the match but
      never past cap; ok is false for a match ending inside the last five bytes. */
  method CopyMatchInPlace(a: array<byte>, op: nat, offset: nat, length: nat, cap: nat) returns (ok: bool)
    requires offset <= op && length >= MINMATCH && op + MFLIMIT <= cap <= a.Length
    modifies a
    ensures ok == (op + length + LASTLITERALS <= cap)
    ensures ok ==> a[..op + length] == CopyMatch(old(a[..op]), offset, length)
    ensures a[cap..] == old(a[cap..])
  {
    var cpy := op + length;
    CopyFirstEight(a, op, offset);
    if cpy > cap - LASTLITERALS {
      return false;
    }
    var from := if offset < 8 then op - offset + Inc32(offset) - Dec64(offset) else op - offset + 8;
    assert op + 8 - from == Distance(offset);
    ghost var eight := a[..];
    ContinueMatch(a, op + 8, from, length, cpy, cap);
    ok := true;
    ghost var s, hi := a[..], Max(cpy, op + 8);
    forall k | op <= k < op + 8 ensures RepeatsAt(s, k, offset) {
      assert RepeatsAt(eight, k, offset);
    }
    RepeatsContinue(s, op, hi, offset);
    assert Repeats(s, op, cpy, offset);
    RepeatsIsCopyMatch(s, op, cpy, offset);
    assert s[..op] == old(a[..op]);
  }
}
