/**
  LZ4_decompress_safe for a full block without a dictionary: the safe loop of
  src/lz4.c with its two-stage shortcut, writing into dst in place. It returns
  what Decode says, byte for byte and code for code, and touches nothing at or
  after dst + cap. Every array access below is within bounds, so it also never
  reads outside the block or before the start of dst.
*/
module Lz4Decompress {
  import opened Bytes
  import opened Lz4Format
  import opened Lz4Copy

  /** read_variable_length; error leaves next where the reading stopped. */
  method ReadVariableLength(src: seq<byte>, ip: nat, limit: int, initialCheck: bool)
    returns (error: bool, length: nat, next: nat)
    requires limit < |src| && (ip < |src| || initialCheck)
    ensures if initialCheck && ip >= limit then error && next == ip
            else match ReadRun(src, ip, limit, 0)
                 case Length(value, at) => !error && length == value && next == at
                 case Overrun(at) => error && next == at
  {
    error, length, next := true, 0, ip;
    if initialCheck && ip >= limit {
      return;
    }
    while true
      invariant ip <= next < |src| && error
      invariant ReadRun(src, ip, limit, 0) == ReadRun(src, next, limit, length)
      decreases |src| - next
    {
      var s := src[next];
      next, length := next + 1, length + s;
      if next > limit || length > MAX_LENGTH {
        return;
      }
      if s != 255 {
        error := false;
        return;
      }
    }
  }

  /** The output so far with the bytes written at its end. */
  lemma Extends(before: seq<byte>, now: seq<byte>, op: nat, add: seq<byte>)
    requires op + |add| <= |now| && op <= |before|
    requires now[..op] == before[..op] && now[op..op + |add|] == add
    ensures now[..op + |add|] == before[..op] + add
  {
    assert now[..op + |add|] == now[..op] + now[op..op + |add|];
  }

  /** Copies a run of literals that is not the last, by a 16-byte memcpy in the
      shortcut and by a wild copy otherwise. */
  method CopyLiterals(src: seq<byte>, ip: nat, dst: array<byte>, op: nat, length: nat, fast: bool, cap: nat)
    requires op + length <= cap <= dst.Length
    requires fast ==> length <= 14 && ip + 16 <= |src| && op + 16 <= cap
    requires !fast ==> ip + length + 8 <= |src| && op + length + MFLIMIT <= cap
    modifies dst
    ensures dst[..op + length] == old(dst[..op]) + src[ip..ip + length]
    ensures dst[cap..] == old(dst[cap..])
  {
    if fast {
      MemcpyFrom(dst, op, src, ip, 16);
    } else {
      WildCopy8From(dst, op, src, ip, op + length);
    }
    assert dst[..op] == old(dst[..op]);
    assert dst[op..op + length] == src[ip..ip + length];
    Extends(old(dst[..]), dst[..], op, src[ip..ip + length]);
  }

  /** Copies the last run of literals exactly. */
  method CopyLast(src: seq<byte>, ip: nat, dst: array<byte>, op: nat, length: nat, cap: nat)
    requires op + length <= cap <= dst.Length && ip + length <= |src|
    modifies dst
    ensures dst[..op + length] == old(dst[..op]) + src[ip..ip + length]
    ensures dst[cap..] == old(dst[cap..])
  {
    MemcpyFrom(dst, op, src, ip, length);
    assert dst[..op] == old(dst[..op]);
    assert dst[op..op + length] == src[ip..ip + length];
    Extends(old(dst[..]), dst[..], op, src[ip..ip + length]);
  }

  /** The shortcut's match copy: 18 bytes, whatever the match length. */
  method CopyEighteen(dst: array<byte>, op: nat, offset: nat, length: nat, cap: nat)
    requires 8 <= offset <= op && length <= 18 && op + 18 <= cap <= dst.Length
    modifies dst
    ensures dst[..op + length] == CopyMatch(old(dst[..op]), offset, length)
    ensures dst[cap..] == old(dst[cap..])
  {
    Prolong(dst, op, op, 8, offset);
    Prolong(dst, op, op + 8, 8, offset);
    Prolong(dst, op, op + 16, 2, offset);
    ghost var now := dst[..];
    assert now[..op] == old(dst[..op]);
    forall k | op <= k < op + length ensures RepeatsAt(now, k, offset) {
    }
    RepeatsIsCopyMatch(now, op, op + length, offset);
  }

  /** The match half of a turn, ip at the offset field: the shortcut's copy, or the
      length bytes and the general copy. next is where an error is reported. */
  method DecodeMatch(src: seq<byte>, ip: nat, nibble: nat, fast: bool, dst: array<byte>, op: nat, cap: nat)
    returns (ok: bool, next: nat, op': nat)
    requires ip + 2 < |src| && nibble <= 15 && op <= cap <= dst.Length
    requires if fast then op + 18 <= cap else op + MFLIMIT <= cap
    modifies dst
    ensures match ReadMatch(src, ip, nibble, fast, op, cap)
            case BadMatch(at) => !ok && next == at
            case GoodMatch(offset, len, at) =>
              ok && next == at && op' == op + len && dst[..op'] == CopyMatch(old(dst[..op]), offset, len)
    ensures dst[cap..] == old(dst[cap..])
  {
    hide ReadRun, CopyMatch;
    ok, next, op' := false, ip + 2, op;
    var length := nibble;
    var offset := (src[ip] as int) + 256 * (src[ip + 1] as int);
    if fast && length != ML_MASK && offset >= 8 && op - offset >= 0 {
      length := length + MINMATCH;
      CopyEighteen(dst, op, offset, length, cap);
    } else {
      if length == ML_MASK {
        var error, addl;
        error, addl, next := ReadVariableLength(src, next, |src| - LASTLITERALS + 1, false);
        if error {
          return;
        }
        length := length + addl;
      }
      length := length + MINMATCH;
      if op - offset < 0 {
        return;
      }
      var fits := CopyMatchInPlace(dst, op, offset, length, cap);
      if !fits {
        return;
      }
    }
    ok, op' := true, op + length;
  }

  /** The literal half of a turn, ip just past the token: the shortcut test, the
      length bytes, and the test that tells the last run from the others. */
  method ScanLiterals(src: seq<byte>, ip: nat, nibble: nat, op: nat, cap: nat) returns (lit: Literals)
    requires ip <= |src| && nibble <= 15 && op <= cap
    ensures lit == ReadLiterals(src, ip, nibble, op, cap)
  {
    hide ReadRun;
    var length, next := nibble, ip;
    if length != RUN_MASK && ip < |src| - 16 && op <= cap - 32 {
      return MoreLiterals(length, ip, true);
    }
    if length == RUN_MASK {
      var error, addl;
      error, addl, next := ReadVariableLength(src, ip, |src| - RUN_MASK, true);
      if error {
        return BadLiterals(next);
      }
      length := length + addl;
    }
    if op + length > cap - MFLIMIT || next + length > |src| - (2 + 1 + LASTLITERALS) {
      if next + length != |src| || op + length > cap {
        return BadLiterals(next);
      }
      return LastLiterals(length, next);
    }
    return MoreLiterals(length, next, false);
  }

  /** One turn of the decode loop, ip at a token: done with the return code r, or
      another sequence written and the cursors moved past it. */
  method DecodeTurn(src: seq<byte>, ip: nat, dst: array<byte>, op: nat, cap: nat)
    returns (done: bool, r: int, ip': nat, op': nat)
    requires ip < |src| && op <= cap <= dst.Length
    modifies dst
    ensures match ReadSequence(src, ip, old(dst[..op]), cap)
            case Stop(Block(b)) => done && r == |b| && dst[..r] == b
            case Stop(Corrupt(at)) => done && r == -1 - at
            case Go(lits, offset, len, next) =>
              && !done && ip' == next && op' == op + |lits| + len
              && dst[..op'] == Apply(old(dst[..op]), Sequence(lits, offset, len))
    ensures dst[cap..] == old(dst[cap..])
  {
    hide ReadLiterals, CopyMatch, ReadMatch;
    done, r, ip', op' := true, 0, ip, op;
    var lit := ScanLiterals(src, ip + 1, src[ip] / 16, op, cap);
    match lit
    case BadLiterals(at) =>
      r := -1 - at;
    case LastLiterals(length, at) =>
      CopyLast(src, at, dst, op, length, cap);
      r := op + length;
    case MoreLiterals(length, at, fast) =>
      CopyLiterals(src, at, dst, op, length, fast, cap);
      var ok;
      ok, ip', op' := DecodeMatch(src, at + length, src[ip] % 16, fast, dst, op + length, cap);
      done, r := !ok, -1 - ip';
  }

  method DecompressSafe(src: seq<byte>, dst: array<byte>, cap: int) returns (r: int)
    requires cap <= dst.Length
    modifies dst
    ensures match Decode(src, cap)
            case Block(b) => r == |b| && dst[..r] == b
            case Corrupt(at) => r == -1 - at
    ensures var c := Max(cap, 0); dst[c..] == old(dst[c..])
  {
    hide ReadSequence, Apply;
    if cap < 0 {
      return -1;
    }
    if cap == 0 {
      return if src == [0] then 0 else -1;
    }
    if src == [] {
      return -1;
    }
    var ip: nat, op: nat := 0, 0;
    while true
      invariant ip < |src| && op <= cap
      invariant Decode(src, cap) == DecodeFrom(src, ip, dst[..op], cap)
      invariant dst[cap..] == old(dst[cap..])
      decreases |src| - ip
    {
      var done: bool;
      done, r, ip, op := DecodeTurn(src, ip, dst, op, cap);
      if done {
        return;
      }
    }
  }
}
