/**
  The writing half of the compressor: token, length bytes, literals, offset and
  match length, each proved against the byte sequence the format prescribes and
  kept within the space the caller's budget test leaves.
*/
module Lz4Emit {
  import opened Bytes
  import opened Lz4Format
  import opened Lz4Laws
  import opened Lz4Copy

  /** After the token and its length bytes, the literal run of a sequence needs
      this much room, wild copy included: the budget of src/lz4.c:1116. */
  function LiteralBudget(lit: nat): nat {
    lit + (2 + 1 + LASTLITERALS) + lit / 255
  }

  /** And the match length this much: the budget of src/lz4.c:1191. */
  function MatchBudget(matchCode: nat): nat {
    1 + LASTLITERALS + (matchCode + 240) / 255
  }

  /** The length bytes of a literal run, one 255 at a time. */
  method WriteExt(dst: array<byte>, op: nat, n: nat) returns (op': nat)
    requires op + n / 255 + 1 <= dst.Length
    modifies dst
    ensures op' == op + n / 255 + 1 && dst[op..op'] == Ext(n)
    ensures forall k :: 0 <= k < dst.Length && !(op <= k < op') ==> dst[k] == old(dst[k])
  {
    op' := op;
    var len := n;
    while len >= 255
      invariant 0 <= len <= n && n % 255 == len % 255 && op' == op + n / 255 - len / 255
      invariant forall k :: op <= k < op' ==> dst[k] == 255
      invariant forall k :: 0 <= k < dst.Length && !(op <= k < op') ==> dst[k] == old(dst[k])
    {
      dst[op'] := 255;
      op', len := op' + 1, len - 255;
    }
    dst[op'] := len;
    op' := op' + 1;
    ExtShape(n);
    assert forall k :: 0 <= k < |Ext(n)| ==> dst[op..op'][k] == Ext(n)[k];
  }

  method Write32Ones(dst: array<byte>, op: nat)
    requires op + 4 <= dst.Length
    modifies dst
    ensures forall k :: 0 <= k < dst.Length ==> dst[k] == if op <= k < op + 4 then 255 else old(dst[k])
  {
    dst[op], dst[op + 1], dst[op + 2], dst[op + 3] := 255, 255, 255, 255;
  }

  /** The length bytes of a match, by four-byte runs of 255 that may go up to four
      bytes past the last one used. */
  method WriteMatchExt(dst: array<byte>, op: nat, n: nat, lim: nat) returns (op': nat)
    requires op + n / 255 + 4 <= lim <= dst.Length
    modifies dst
    ensures op' == op + n / 255 + 1 && dst[op..op'] == Ext(n)
    ensures forall k :: 0 <= k < op || lim <= k < dst.Length ==> dst[k] == old(dst[k])
  {
    op' := op;
    var matchCode := n;
    Write32Ones(dst, op');
    while matchCode >= 4 * 255
      invariant 0 <= matchCode <= n && n % 255 == matchCode % 255 && op' == op + n / 255 - matchCode / 255
      invariant forall k :: op <= k < op' + 4 ==> dst[k] == 255
      invariant forall k :: 0 <= k < op || lim <= k < dst.Length ==> dst[k] == old(dst[k])
    {
      op' := op' + 4;
      matchCode := matchCode - 4 * 255;
      Write32Ones(dst, op');
    }
    op' := op' + matchCode / 255;
    dst[op'] := matchCode % 255;
    op' := op' + 1;
    ExtShape(n);
    assert forall k :: 0 <= k < |Ext(n)| ==> dst[op..op'][k] == Ext(n)[k];
  }

  /** The token, its low half still zero, and the length bytes of lit literals. */
  method EmitToken(dst: array<byte>, token: nat, lit: nat) returns (op: nat)
    requires token + 1 + ExtLen(lit) <= dst.Length
    modifies dst
    ensures op == token + 1 + ExtLen(lit)
    ensures dst[token..op] == [Nibble(lit) * 16] + ExtIf(lit)
    ensures forall k :: 0 <= k < dst.Length && !(token <= k < op) ==> dst[k] == old(dst[k])
  {
    op := token + 1;
    dst[token] := Nibble(lit) * 16;
    if lit >= RUN_MASK {
      op := WriteExt(dst, op, lit - RUN_MASK);
    }
    assert dst[token..op] == [dst[token]] + dst[token + 1..op];
  }

  /** Token and literals of a sequence that is not the last. */
  method EmitLiterals(src: seq<byte>, anchor: nat, ip: nat, dst: array<byte>, token: nat, lim: nat) returns (op: nat)
    requires anchor <= ip && ip + MFLIMIT <= |src|
    requires token + 1 + LiteralBudget(ip - anchor) <= lim <= dst.Length
    modifies dst
    ensures op == token + 1 + ExtLen(ip - anchor) + (ip - anchor) && op <= lim
    ensures dst[token..op] == EncodeLits(src[anchor..ip], 0)
    ensures forall k :: 0 <= k < token || lim <= k < dst.Length ==> dst[k] == old(dst[k])
  {
    hide ExtIf;
    var lit := ip - anchor;
    op := EmitToken(dst, token, lit);
    ghost var head := dst[token..op];
    WildCopy8From(dst, op, src, anchor, op + lit);
    assert dst[token..op] == head;
    assert dst[token..op + lit] == dst[token..op] + dst[op..op + lit];
    op := op + lit;
  }

  /** The last literals: an exact copy. */
  method EmitLast(src: seq<byte>, anchor: nat, dst: array<byte>, token: nat) returns (op: nat)
    requires anchor <= |src|
    requires token + 1 + ExtLen(|src| - anchor) + (|src| - anchor) <= dst.Length
    modifies dst
    ensures op == token + 1 + ExtLen(|src| - anchor) + (|src| - anchor)
    ensures dst[token..op] == EncodeLits(src[anchor..], 0)
    ensures forall k :: 0 <= k < dst.Length && !(token <= k < op) ==> dst[k] == old(dst[k])
  {
    hide ExtIf;
    var lit := |src| - anchor;
    op := EmitToken(dst, token, lit);
    ghost var head := dst[token..op];
    MemcpyFrom(dst, op, src, anchor, lit);
    assert dst[token..op] == head && dst[op..op + lit] == src[anchor..];
    assert dst[token..op + lit] == dst[token..op] + dst[op..op + lit];
    op := op + lit;
  }

  /** The match length: the low half of the token and the length bytes. */
  method EmitMatchLength(dst: array<byte>, token: nat, op: nat, matchCode: nat, lim: nat) returns (op': nat)
    requires token < op && op + MatchBudget(matchCode) <= lim <= dst.Length
    requires dst[token] as int + 15 < 256
    modifies dst
    ensures op' == op + ExtLen(matchCode)
    ensures dst[token] == old(dst[token]) as int + Nibble(matchCode) && dst[op..op'] == ExtIf(matchCode)
    ensures forall k :: 0 <= k < token || token < k < op || lim <= k < dst.Length ==> dst[k] == old(dst[k])
  {
    op' := op;
    if matchCode >= ML_MASK {
      dst[token] := dst[token] + ML_MASK;
      op' := WriteMatchExt(dst, op, matchCode - ML_MASK, lim);
    } else {
      dst[token] := dst[token] + matchCode;
    }
  }
}
