/**
  The LZ4 block format: what a block means (Expand), how it is written (Encode),
  and what the daemon's decoder accepts (Decode), as functions on byte sequences.

  Decode copies literals and matches one byte at a time. It makes the same
  decisions in the same order as the loop in src/lz4.c, so the in-place decoder
  of module Lz4Decompress can be proved equal to it.
*/
module Lz4Format {
  import opened Bytes

  const MINMATCH := 4
  const LASTLITERALS := 5
  const MFLIMIT := 12
  const ML_MASK := 15
  const RUN_MASK := 15
  const DISTANCE_MAX := 65535
  const MAX_INPUT_SIZE := 0x7E000000
  // Half the range of a 32-bit size_t: the decoder's length accumulator limit.
  const MAX_LENGTH := 0x7FFFFFFF

  // ---------------------------------------------------------------- blocks

  /** Some literal bytes, then a copy of matchLen bytes from offset bytes back. */
  datatype Sequence = Sequence(lits: seq<byte>, offset: nat, matchLen: nat)

  predicate SequenceFits(s: Sequence) {
    s.offset <= DISTANCE_MAX && s.matchLen >= MINMATCH
  }

  predicate AllFit(ss: seq<Sequence>) {
    forall i :: 0 <= i < |ss| ==> SequenceFits(ss[i])
  }

  /** out with len more bytes, each the byte offset places before it; a zero
      offset, which the decoder does not refuse, yields zero bytes. */
  function CopyMatch(out: seq<byte>, offset: nat, len: nat): (r: seq<byte>)
    requires offset <= |out|
    ensures |r| == |out| + len && out <= r
    decreases len
  {
    if len == 0 then out
    else
      var next: byte := if offset == 0 then 0 else out[|out| - offset];
      assert out <= out + [next];
      CopyMatch(out + [next], offset, len - 1)
  }

  function Apply(out: seq<byte>, s: Sequence): (r: seq<byte>)
    requires s.offset <= |out| + |s.lits|
    ensures |r| == |out| + |s.lits| + s.matchLen
  {
    CopyMatch(out + s.lits, s.offset, s.matchLen)
  }

  /** Every offset stays inside what has been produced so far. */
  predicate InRange(outLen: nat, ss: seq<Sequence>)
    decreases |ss|
  {
    ss == [] ||
    (ss[0].offset <= outLen + |ss[0].lits| &&
     InRange(outLen + |ss[0].lits| + ss[0].matchLen, ss[1..]))
  }

  function ExpandFrom(out: seq<byte>, ss: seq<Sequence>): (r: seq<byte>)
    requires InRange(|out|, ss)
    ensures |r| >= |out|
    decreases |ss|
  {
    if ss == [] then out else ExpandFrom(Apply(out, ss[0]), ss[1..])
  }

  /** The bytes a block stands for. */
  function Expand(ss: seq<Sequence>, last: seq<byte>): seq<byte>
    requires InRange(0, ss)
  {
    ExpandFrom([], ss) + last
  }

  // ------------------------------------------------------------- encoding

  /** The extra bytes of a length whose nibble is full: runs of 255, then the rest. */
  function Ext(n: nat): (r: seq<byte>)
    ensures |r| == n / 255 + 1
  {
    if n < 255 then [n] else [255] + Ext(n - 255)
  }

  function ExtLen(n: nat): nat {
    if n >= 15 then (n - 15) / 255 + 1 else 0
  }

  function ExtIf(n: nat): (r: seq<byte>)
    ensures |r| == ExtLen(n)
  {
    if n >= 15 then Ext(n - 15) else []
  }

  function Nibble(n: nat): (r: nat)
    ensures r <= 15
  {
    if n >= 15 then 15 else n
  }

  function EncodeLits(lits: seq<byte>, low: nat): (r: seq<byte>)
    requires low <= 15
    ensures |r| == 1 + ExtLen(|lits|) + |lits|
  {
    [Nibble(|lits|) * 16 + low] + ExtIf(|lits|) + lits
  }

  function SequenceLen(s: Sequence): (n: nat)
    requires SequenceFits(s)
    ensures n >= 3
  {
    1 + ExtLen(|s.lits|) + |s.lits| + 2 + ExtLen(s.matchLen - MINMATCH)
  }

  function EncodeSequence(s: Sequence): (r: seq<byte>)
    requires SequenceFits(s)
    ensures |r| == SequenceLen(s)
  {
    var m := s.matchLen - MINMATCH;
    EncodeLits(s.lits, Nibble(m)) + [s.offset % 256, s.offset / 256] + ExtIf(m)
  }

  function EncodeAll(ss: seq<Sequence>): (r: seq<byte>)
    requires AllFit(ss)
  {
    if ss == [] then [] else EncodeSequence(ss[0]) + EncodeAll(ss[1..])
  }

  function BlockLen(ss: seq<Sequence>, last: seq<byte>): (n: nat)
    requires AllFit(ss)
    ensures n >= 1
  {
    if ss == [] then 1 + ExtLen(|last|) + |last| else SequenceLen(ss[0]) + BlockLen(ss[1..], last)
  }

  /** A whole block. Writers leave nibble 0; the decoder ignores it. */
  function Encode(ss: seq<Sequence>, last: seq<byte>, nibble: nat := 0): seq<byte>
    requires AllFit(ss) && nibble <= 15
  {
    EncodeAll(ss) + EncodeLits(last, nibble)
  }

  lemma {:induction false} EncodeLength(ss: seq<Sequence>, last: seq<byte>, nibble: nat)
    requires AllFit(ss) && nibble <= 15
    ensures |Encode(ss, last, nibble)| == BlockLen(ss, last)
  {
    if ss != [] {
      EncodeLength(ss[1..], last, nibble);
    }
  }

  // ------------------------------------------------------------- decoding

  datatype LengthResult = Length(value: nat, next: nat) | Overrun(at: nat)

  /** read_variable_length from its first byte on: each byte is added, then the
      read limit and the accumulator limit are tested, then 255 continues. */
  function ReadRun(src: seq<byte>, ip: nat, limit: int, acc: nat): (r: LengthResult)
    requires ip < |src| && limit < |src|
    ensures r.Length? ==> ip < r.next <= limit
    decreases |src| - ip
  {
    var s := src[ip];
    if ip + 1 > limit || acc + s > MAX_LENGTH then Overrun(ip + 1)
    else if s != 255 then Length(acc + s, ip + 1)
    else ReadRun(src, ip + 1, limit, acc + s)
  }

  datatype Literals =
    | BadLiterals(at: nat)
    | LastLiterals(len: nat, ip: nat)
    | MoreLiterals(len: nat, ip: nat, fast: bool)

  /** Enter the two-stage shortcut: a short run, more than 16 bytes of input left
      after the token, and at least 32 bytes of room. */
  predicate Shortcut(nibble: nat, left: int, outLen: nat, cap: nat) {
    nibble != RUN_MASK && left > 16 && outLen <= cap - 32
  }

  /** The literal stage, ip just past the token. */
  function ReadLiterals(src: seq<byte>, ip: nat, nibble: nat, outLen: nat, cap: nat): (r: Literals)
    requires ip <= |src| && nibble <= 15 && outLen <= cap
    ensures r.MoreLiterals? ==> ip <= r.ip && r.ip + r.len + 2 < |src| && outLen + r.len <= cap
    ensures r.MoreLiterals? && r.fast ==> r.len <= 14 && outLen + r.len + 18 <= cap && r.ip + 16 < |src|
    ensures r.MoreLiterals? && !r.fast ==> r.ip + r.len + 8 <= |src| && outLen + r.len + 12 <= cap
    ensures r.LastLiterals? ==> ip <= r.ip && r.ip + r.len == |src| && outLen + r.len <= cap
  {
    if Shortcut(nibble, |src| - ip, outLen, cap) then MoreLiterals(nibble, ip, true)
    else if nibble == RUN_MASK && ip >= |src| - RUN_MASK then BadLiterals(ip)
    else
      var run := if nibble == RUN_MASK then ReadRun(src, ip, |src| - RUN_MASK, 0) else Length(0, ip);
      if run.Overrun? then BadLiterals(run.at)
      else
        var len := nibble + run.value;
        if outLen + len > cap - MFLIMIT || run.next + len > |src| - (2 + 1 + LASTLITERALS) then
          if run.next + len != |src| || outLen + len > cap then BadLiterals(run.next)
          else LastLiterals(len, run.next)
        else MoreLiterals(len, run.next, false)
  }

  datatype Match = BadMatch(at: nat) | GoodMatch(offset: nat, len: nat, next: nat)

  function ReadOffset(src: seq<byte>, ip: nat): (r: nat)
    requires ip + 2 <= |src|
    ensures r <= DISTANCE_MAX
  {
    (src[ip] as int) + 256 * (src[ip + 1] as int)
  }

  /** The match stage, ip at the offset field and outLen counting the literals. */
  function ReadMatch(src: seq<byte>, ip: nat, nibble: nat, fast: bool, outLen: nat, cap: nat): (r: Match)
    requires ip + 2 < |src| && nibble <= 15
    requires fast ==> outLen + 18 <= cap
    ensures r.GoodMatch? ==> r.offset <= outLen && outLen + r.len <= cap && ip < r.next < |src|
    ensures r.GoodMatch? ==> r.offset <= DISTANCE_MAX && r.len >= MINMATCH
  {
    var offset := ReadOffset(src, ip);
    if fast && nibble != ML_MASK && offset >= 8 && offset <= outLen then
      GoodMatch(offset, nibble + MINMATCH, ip + 2)
    else
      var run := if nibble == ML_MASK then ReadRun(src, ip + 2, |src| - LASTLITERALS + 1, 0) else Length(0, ip + 2);
      if run.Overrun? then BadMatch(run.at)
      else
        var len := nibble + run.value + MINMATCH;
        if offset > outLen || outLen + len > cap - LASTLITERALS then BadMatch(run.next)
        else GoodMatch(offset, len, run.next)
  }

  datatype Decoded = Block(bytes: seq<byte>) | Corrupt(at: nat)

  datatype Step = Stop(result: Decoded) | Go(lits: seq<byte>, offset: nat, len: nat, next: nat)

  /** One turn of the main loop, ip at a token: the sequence found there, or the
      end of the block, or an error. */
  function ReadSequence(src: seq<byte>, ip: nat, out: seq<byte>, cap: nat): (r: Step)
    requires ip < |src| && |out| <= cap
    ensures r.Stop? && r.result.Block? ==> |r.result.bytes| <= cap
    ensures r.Go? ==> ip < r.next < |src| && r.offset <= |out| + |r.lits| && |out| + |r.lits| + r.len <= cap
    ensures r.Go? ==> SequenceFits(Sequence(r.lits, r.offset, r.len))
  {
    match ReadLiterals(src, ip + 1, src[ip] / 16, |out|, cap)
    case BadLiterals(at) => Stop(Corrupt(at))
    case LastLiterals(len, ip') => Stop(Block(out + src[ip'..ip' + len]))
    case MoreLiterals(len, ip', fast) =>
      match ReadMatch(src, ip' + len, src[ip] % 16, fast, |out| + len, cap)
      case BadMatch(at) => Stop(Corrupt(at))
      case GoodMatch(offset, mlen, next) => Go(src[ip'..ip' + len], offset, mlen, next)
  }

  function DecodeFrom(src: seq<byte>, ip: nat, out: seq<byte>, cap: nat): (r: Decoded)
    requires ip < |src| && |out| <= cap
    ensures r.Block? ==> |r.bytes| <= cap
    decreases |src| - ip
  {
    match ReadSequence(src, ip, out, cap)
    case Stop(result) => result
    case Go(lits, offset, len, next) => DecodeFrom(src, next, Apply(out, Sequence(lits, offset, len)), cap)
  }

  /** LZ4_decompress_safe: Block(b) is success, Corrupt(at) is the code -at - 1. */
  function Decode(src: seq<byte>, cap: int): (r: Decoded)
    ensures r.Block? ==> |r.bytes| <= cap
  {
    if cap < 0 then Corrupt(0)
    else if cap == 0 then (if src == [0] then Block([]) else Corrupt(0))
    else if src == [] then Corrupt(0)
    else DecodeFrom(src, 0, [], cap)
  }

  // ------------------------------------------- which blocks are accepted

  /** A run of l literals that is not the block's last is taken when restLen bytes
      of block follow it. */
  predicate LiteralsAccepted(l: nat, fast: bool, restLen: nat, outLen: nat, cap: nat) {
    fast || (outLen + l + MFLIMIT <= cap && restLen >= 8 && l - 15 <= MAX_LENGTH)
  }

  /** A match of m + 4 bytes is taken when restLen bytes of block follow it. */
  predicate MatchAccepted(offset: nat, m: nat, fast: bool, restLen: nat, outLen: nat, cap: nat) {
    && offset <= outLen
    && (|| (fast && m < 15 && offset >= 8)
        || (&& (m >= 15 ==> restLen >= 4 && m - 15 <= MAX_LENGTH)
            && outLen + m + MINMATCH + LASTLITERALS <= cap))
  }

  /** The decoder takes sequence s when outLen bytes are out and restLen bytes
      follow the sequence in the block. */
  predicate SequenceAccepted(s: Sequence, outLen: nat, restLen: nat, cap: nat)
    requires SequenceFits(s)
  {
    var l, m := |s.lits|, s.matchLen - MINMATCH;
    var fast := Shortcut(Nibble(l), SequenceLen(s) - 1 + restLen, outLen, cap);
    && LiteralsAccepted(l, fast, 2 + ExtLen(m) + restLen, outLen, cap)
    && MatchAccepted(s.offset, m, fast, restLen, outLen + l, cap)
  }

  predicate Accepted(ss: seq<Sequence>, last: seq<byte>, outLen: nat, cap: nat)
    requires AllFit(ss)
  {
    if ss == [] then outLen + |last| <= cap && |last| - 15 <= MAX_LENGTH
    else
      && SequenceAccepted(ss[0], outLen, BlockLen(ss[1..], last), cap)
      && Accepted(ss[1..], last, outLen + |ss[0].lits| + ss[0].matchLen, cap)
  }

  predicate KeepsEnd(s: Sequence, outLen: nat, total: nat) {
    outLen + |s.lits| + MFLIMIT <= total && outLen + |s.lits| + s.matchLen + LASTLITERALS <= total
  }

  /** The format's "Parsing restrictions": the last match starts at least 12
      bytes, and ends at least 5 bytes, before the end of the block's output.
      total is the output length. */
  predicate EndRules(ss: seq<Sequence>, outLen: nat, total: nat) {
    ss == [] ||
    (KeepsEnd(ss[0], outLen, total) && EndRules(ss[1..], outLen + |ss[0].lits| + ss[0].matchLen, total))
  }
}
