/**
  LZ4_compress_default: the greedy compressor of src/lz4.c for one block without a
  dictionary, in the modes notLimited and limitedOutput and with the table kinds
  byU16, byU32 and byPtr. The hash only chooses where to look; that a match is a
  match rests on the four-byte comparison and the distance test.
*/
module Lz4Compress {
  import opened Bytes
  import opened Lz4Format
  import opened Lz4Laws
  import opened Lz4Copy
  import opened Lz4Emit

  const LIMIT_64K := 65536 + (MFLIMIT - 1)
  const SKIP_TRIGGER := 64
  const STEPSIZE := 4

  /** LZ4_COMPRESSBOUND. */
  function CompressBound(n: nat): nat {
    if n > MAX_INPUT_SIZE then 0 else n + n / 255 + 16
  }

  // ------------------------------------------------------ the hash table

  datatype TableType = ByU16 | ByU32 | ByPtr

  function HashSize(kind: TableType): nat {
    if kind == ByU16 then 8192 else 4096
  }

  /** Four bytes as a 32-bit word, most significant first as on the 68000. */
  function Word(a: byte, b: byte, c: byte, d: byte): (r: nat)
    ensures r < 0x1_0000_0000
  {
    a as int * 0x100_0000 + b as int * 0x1_0000 + c as int * 0x100 + d as int
  }

  function Read32(src: seq<byte>, p: nat): (r: nat)
    requires p + 4 <= |src|
    ensures r < 0x1_0000_0000
  {
    Word(src[p], src[p + 1], src[p + 2], src[p + 3])
  }

  /** LZ4_hash4: a 32-bit multiplication, keeping the top 13 or 12 bits. */
  function HashPosition(src: seq<byte>, p: nat, kind: TableType): (h: nat)
    requires p + 4 <= |src|
    ensures h < HashSize(kind)
  {
    var product := (Read32(src, p) * 2654435761) % 0x1_0000_0000;
    product / (if kind == ByU16 then 0x8_0000 else 0x10_0000)
  }

  /** What the table stores for position p: an index, or in a byPtr table the
      address of p in a source buffer at address base. A cleared table holds 0,
      which is position 0 or the null pointer. */
  function Entry(kind: TableType, base: nat, p: nat): nat {
    if kind == ByPtr then base + p else p
  }

  function Candidate(kind: TableType, base: nat, entry: nat): int {
    if kind == ByPtr then entry - base else entry
  }

  /** byU16 tables are used only where no distance can be too large. */
  predicate TooFar(kind: TableType, m: int, ip: nat) {
    kind != ByU16 && m + DISTANCE_MAX < ip
  }

  /** Every entry is a position before ip, or the null pointer. */
  predicate TableBefore(table: seq<nat>, kind: TableType, base: nat, ip: nat) {
    && |table| == HashSize(kind)
    && (kind == ByPtr ==> base > DISTANCE_MAX)
    && forall h :: 0 <= h < |table| ==>
         && Candidate(kind, base, table[h]) < ip
         && (Candidate(kind, base, table[h]) < 0 ==> kind == ByPtr && table[h] == 0)
  }

  /** The n bytes at p and at q are the same. */
  predicate SameRun(src: seq<byte>, p: nat, q: nat, n: nat)
    requires q <= p && p + n <= |src|
  {
    src[p..p + n] == src[q..q + n]
  }

  /** m is an earlier occurrence of the four bytes at ip, within reach. */
  predicate FourMatch(src: seq<byte>, m: int, ip: nat) {
    0 <= m < ip && ip + 4 <= |src| && ip - m <= DISTANCE_MAX && SameRun(src, ip, m, 4)
  }

  lemma WordTops(a: byte, b: byte, c: byte, d: byte)
    ensures var w := Word(a, b, c, d);
            w / 0x100_0000 == a && w / 0x1_0000 == a as int * 0x100 + b as int
            && w / 0x100 == a as int * 0x1_0000 + b as int * 0x100 + c as int
  {
  }

  lemma Read32Equal(src: seq<byte>, m: nat, ip: nat)
    requires m <= ip && ip + 4 <= |src| && Read32(src, m) == Read32(src, ip)
    ensures SameRun(src, ip, m, 4)
  {
    WordTops(src[m], src[m + 1], src[m + 2], src[m + 3]);
    WordTops(src[ip], src[ip + 1], src[ip + 2], src[ip + 3]);
    assert src[m] == src[ip] && src[m + 1] == src[ip + 1] && src[m + 2] == src[ip + 2] && src[m + 3] == src[ip + 3];
  }

  /** The search for a match from ip on, skipping faster the longer it fails. */
  method FindMatch(src: seq<byte>, base: nat, table: array<nat>, kind: TableType, start: nat, acceleration: nat)
    returns (found: bool, ip: nat, m: int)
    requires |src| >= MFLIMIT + 1 && start <= |src| - MFLIMIT + 1 && acceleration >= 1
    requires kind == ByU16 ==> |src| < LIMIT_64K
    requires TableBefore(table[..], kind, base, start)
    modifies table
    ensures found ==> start <= ip <= |src| - MFLIMIT && FourMatch(src, m, ip)
    ensures found ==> TableBefore(table[..], kind, base, ip + 1)
  {
    hide Read32, HashPosition;
    var forwardIp := start;
    var forwardH: nat := HashPosition(src, start, kind);
    var step, searchMatchNb := 1, acceleration * SKIP_TRIGGER;
    while true
      invariant start <= forwardIp <= |src| - MFLIMIT + 1 && step >= 1 && searchMatchNb >= SKIP_TRIGGER
      invariant forwardH < table.Length
      invariant TableBefore(table[..], kind, base, forwardIp)
      decreases |src| - forwardIp
    {
      var h := forwardH;
      ip := forwardIp;
      forwardIp := forwardIp + step;
      step, searchMatchNb := searchMatchNb / SKIP_TRIGGER, searchMatchNb + 1;
      if forwardIp > |src| - MFLIMIT + 1 {
        return false, ip, 0;
      }
      m := Candidate(kind, base, table[h]);
      forwardH := HashPosition(src, forwardIp, kind);
      table[h] := Entry(kind, base, ip);
      if !TooFar(kind, m, ip) && Read32(src, m) == Read32(src, ip) {
        Read32Equal(src, m, ip);
        return true, ip, m;
      }
    }
  }

  /** Step back over equal bytes before the match, not past anchor or the start. */
  method CatchUp(src: seq<byte>, anchor: nat, ip: nat, m: nat) returns (ip': nat, m': nat)
    requires anchor <= ip <= |src| && m < ip
    ensures anchor <= ip' <= ip && ip - ip' == m - m'
    ensures SameRun(src, ip', m', ip - ip')
  {
    ip', m' := ip, m;
    while ip' > anchor && m' > 0 && src[ip' - 1] == src[m' - 1]
      invariant anchor <= ip' <= ip && ip - ip' == m - m'
      invariant SameRun(src, ip', m', ip - ip')
    {
      ip', m' := ip' - 1, m' - 1;
    }
  }

  /** The index of the first byte that differs in two different 32-bit words: the
      leading zero bytes of their difference, as LZ4_NbCommonBytes counts them on
      a big-endian machine. */
  function NbCommonBytes(a: nat, b: nat): (n: nat)
    requires a != b && a < 0x1_0000_0000 && b < 0x1_0000_0000
    ensures n < 4
  {
    if a / 0x100_0000 != b / 0x100_0000 then 0
    else if a / 0x1_0000 != b / 0x1_0000 then 1
    else if a / 0x100 != b / 0x100 then 2
    else 3
  }

  /** c is the exact length of the common run of pIn and pMatch, up to limit. */
  predicate CommonRun(src: seq<byte>, pIn: nat, pMatch: nat, limit: nat, c: nat)
    requires pMatch <= pIn && limit <= |src|
  {
    && pIn + c <= limit
    && SameRun(src, pIn, pMatch, c)
    && (pIn + c < limit ==> src[pIn + c] != src[pMatch + c])
  }

  lemma WordsDiffer(src: seq<byte>, p: nat, q: nat)
    requires q <= p && p + 4 <= |src| && Read32(src, p) != Read32(src, q)
    ensures var n := NbCommonBytes(Read32(src, q), Read32(src, p));
            SameRun(src, p, q, n) && src[p + n] != src[q + n]
  {
    WordTops(src[q], src[q + 1], src[q + 2], src[q + 3]);
    WordTops(src[p], src[p + 1], src[p + 2], src[p + 3]);
    var n := NbCommonBytes(Read32(src, q), Read32(src, p));
    assert n > 0 ==> src[p] == src[q];
    assert n > 1 ==> src[p + 1] == src[q + 1];
    assert n > 2 ==> src[p + 2] == src[q + 2];
  }

  lemma RunsJoin(src: seq<byte>, p: nat, q: nat, c: nat, n: nat)
    requires q <= p && p + c + n <= |src|
    ensures SameRun(src, p, q, c + n) <==> SameRun(src, p, q, c) && SameRun(src, p + c, q + c, n)
  {
    var a, b := src[p..p + c + n], src[q..q + c + n];
    assert src[p..p + c] == a[..c] && src[p + c..p + c + n] == a[c..];
    assert src[q..q + c] == b[..c] && src[q + c..q + c + n] == b[c..];
    assert a == a[..c] + a[c..] && b == b[..c] + b[c..];
  }

  lemma ShortRun(src: seq<byte>, p: nat, q: nat, n: nat)
    requires q <= p && p + n <= |src| && n <= 2
    requires n > 0 ==> src[p] == src[q] && src[p + n - 1] == src[q + n - 1]
    ensures SameRun(src, p, q, n)
  {
  }

  /** LZ4_count: a word at a time, then two bytes, then one. */
  method Count(src: seq<byte>, pIn: nat, pMatch: nat, limit: nat) returns (c: nat)
    requires pMatch <= pIn <= limit <= |src|
    ensures CommonRun(src, pIn, pMatch, limit, c)
  {
    hide Read32, NbCommonBytes, SameRun;
    ShortRun(src, pIn, pMatch, 0);
    c := 0;
    while pIn + c < limit - (STEPSIZE - 1)
      invariant pIn + c <= limit && SameRun(src, pIn, pMatch, c)
      decreases limit - c
    {
      var p, q := pIn + c, pMatch + c;
      if Read32(src, q) != Read32(src, p) {
        WordsDiffer(src, p, q);
        var n := NbCommonBytes(Read32(src, q), Read32(src, p));
        RunsJoin(src, pIn, pMatch, c, n);
        return c + n;
      }
      Read32Equal(src, q, p);
      RunsJoin(src, pIn, pMatch, c, 4);
      c := c + STEPSIZE;
    }
    c := CountTail(src, pIn, pMatch, limit, c);
  }

  method CountTail(src: seq<byte>, pIn: nat, pMatch: nat, limit: nat, done: nat) returns (c: nat)
    requires pMatch <= pIn && pIn + done <= limit <= pIn + done + 3 && limit <= |src|
    requires SameRun(src, pIn, pMatch, done)
    ensures CommonRun(src, pIn, pMatch, limit, c)
  {
    hide SameRun;
    c := done;
    if pIn + c < limit - 1 && src[pMatch + c] == src[pIn + c] && src[pMatch + c + 1] == src[pIn + c + 1] {
      ShortRun(src, pIn + c, pMatch + c, 2);
      RunsJoin(src, pIn, pMatch, c, 2);
      c := c + 2;
    }
    if pIn + c < limit && src[pMatch + c] == src[pIn + c] {
      ShortRun(src, pIn + c, pMatch + c, 1);
      RunsJoin(src, pIn, pMatch, c, 1);
      c := c + 1;
    }
  }

  /** Fill the table behind ip, then look ip itself up: the test that lets two
      matches follow each other without literals. */
  method TestNext(src: seq<byte>, base: nat, table: array<nat>, kind: TableType, ip: nat)
    returns (hit: bool, m: int)
    requires 2 <= ip <= |src| - MFLIMIT && TableBefore(table[..], kind, base, ip)
    requires kind == ByU16 ==> |src| < LIMIT_64K
    modifies table
    ensures hit ==> FourMatch(src, m, ip)
    ensures TableBefore(table[..], kind, base, ip + 1)
  {
    hide Read32, HashPosition;
    table[HashPosition(src, ip - 2, kind)] := Entry(kind, base, ip - 2);
    var h := HashPosition(src, ip, kind);
    m := Candidate(kind, base, table[h]);
    table[h] := Entry(kind, base, ip);
    hit := !TooFar(kind, m, ip) && Read32(src, m) == Read32(src, ip);
    if hit {
      Read32Equal(src, m, ip);
    }
  }

  // ------------------------------------------------------ what is written

  /** bytes encode the sequences ss, which expand to the first anchor bytes of src
      and keep the format's end rules for all of it. */
  ghost predicate Emitted(ss: seq<Sequence>, src: seq<byte>, anchor: nat, bytes: seq<byte>) {
    && AllFit(ss) && (forall i :: 0 <= i < |ss| ==> ss[i].offset > 0)
    && InRange(0, ss) && EndRules(ss, 0, |src|) && OutputLen(ss, 0) == anchor <= |src|
    && ExpandFrom([], ss) == src[..anchor] && bytes == EncodeAll(ss)
  }

  lemma RunAt(src: seq<byte>, p: nat, q: nat, n: nat, k: nat)
    requires q <= p && p + n <= |src| && SameRun(src, p, q, n) && k < n
    ensures src[p + k] == src[q + k]
  {
    assert src[p + k] == src[p..p + n][k] == src[q..q + n][k];
  }

  lemma SameRunRepeats(src: seq<byte>, ip: nat, m: nat, n: nat)
    requires m < ip && ip + n <= |src| && SameRun(src, ip, m, n)
    ensures Repeats(src, ip, ip + n, ip - m)
  {
    var offset := ip - m;
    forall k | ip <= k < ip + n ensures RepeatsAt(src, k, offset) {
      RunAt(src, ip, m, n, k - ip);
    }
  }

  lemma EmitMore(ss: seq<Sequence>, src: seq<byte>, anchor: nat, bytes: seq<byte>, s: Sequence)
    requires Emitted(ss, src, anchor, bytes) && SequenceFits(s)
    requires var ip := anchor + |s.lits|;
             && ip + s.matchLen + LASTLITERALS <= |src| && ip + MFLIMIT <= |src|
             && s.lits == src[anchor..ip] && 0 < s.offset <= ip
             && SameRun(src, ip, ip - s.offset, s.matchLen)
    ensures Emitted(ss + [s], src, anchor + |s.lits| + s.matchLen, bytes + EncodeSequence(s))
  {
    hide EncodeSequence, CopyMatch;
    var ip := anchor + |s.lits|;
    EncodeAppend(ss, s);
    RulesAppend(ss, s, 0, |src|);
    assert EndRules([s], anchor, |src|) by {
      assert EndRules([s][1..], ip + s.matchLen, |src|);
    }
    ExpandLength([], ss);
    ExpandAppend([], ss, s);
    assert src[..anchor] + s.lits == src[..ip];
    SameRunRepeats(src, ip, ip - s.offset, s.matchLen);
    RepeatsIsCopyMatch(src, ip, ip + s.matchLen, s.offset);
  }

  /** block is a well-formed encoding of src that keeps the end rules and never
      uses offset 0. */
  ghost predicate EncodingOf(block: seq<byte>, src: seq<byte>) {
    exists ss: seq<Sequence>, last: seq<byte> :: EncodedAs(ss, last, block, src)
  }

  ghost predicate EncodedAs(ss: seq<Sequence>, last: seq<byte>, block: seq<byte>, src: seq<byte>) {
    && AllFit(ss) && (forall i :: 0 <= i < |ss| ==> ss[i].offset > 0)
    && InRange(0, ss) && EndRules(ss, 0, |src|)
    && block == Encode(ss, last) && Expand(ss, last) == src
  }

  lemma EmittedAll(ss: seq<Sequence>, src: seq<byte>, anchor: nat, bytes: seq<byte>)
    requires Emitted(ss, src, anchor, bytes)
    ensures EncodingOf(bytes + EncodeLits(src[anchor..], 0), src)
  {
    hide EncodeLits;
    assert src[..anchor] + src[anchor..] == src;
    assert EncodedAs(ss, src[anchor..], bytes + EncodeLits(src[anchor..], 0), src);
  }

  /** Any such block decodes to src, in a buffer of exactly its size or larger. */
  lemma EncodingDecodes(block: seq<byte>, src: seq<byte>, cap: nat)
    requires EncodingOf(block, src) && |src| <= cap && |src| <= MAX_LENGTH
    ensures Decode(block, cap) == Block(src)
  {
    var ss, last :| EncodedAs(ss, last, block, src);
    ExpandLength([], ss);
    if cap > 0 {
      EndRulesAre(ss, 0, |src|);
      hide Encode, Expand, Decode;
      EndRulesSuffice(ss, last, cap);
    } else {
      assert ss == [] && last == [];
      assert Encode([], []) == [0];
    }
  }

  // ------------------------------------------------------ the compressor

  /** In notLimited mode the cursor stays within a + a/255 of the bytes consumed. */
  predicate SizeBound(op: nat, start: nat, anchor: nat) {
    op <= start + anchor + anchor / 255
  }

  lemma SizeStep(op: nat, start: nat, anchor: nat, lit: nat, matchCode: nat)
    requires SizeBound(op, start, anchor)
    ensures SizeBound(op + 1 + ExtLen(lit) + lit + 2 + ExtLen(matchCode), start, anchor + lit + MINMATCH + matchCode)
  {
  }

  lemma SizeRoom(op: nat, start: nat, anchor: nat, lit: nat, matchCode: nat, n: nat)
    requires SizeBound(op, start, anchor)
    ensures anchor + lit + MFLIMIT <= n ==> op + 1 + LiteralBudget(lit) <= start + n + n / 255 + 16
    ensures anchor + lit + MINMATCH + matchCode + LASTLITERALS <= n ==>
              op + 1 + ExtLen(lit) + lit + 2 + MatchBudget(matchCode) <= start + n + n / 255 + 16
    ensures anchor + lit == n ==> op + 1 + ExtLen(lit) + lit <= start + n + n / 255 + 16
  {
  }

  lemma RunReaches(src: seq<byte>, ip: nat, m: nat, limit: nat, c: nat, n: nat)
    requires m < ip && limit <= |src| && n >= MINMATCH && ip + n <= limit && SameRun(src, ip, m, n)
    requires CommonRun(src, ip + MINMATCH, m + MINMATCH, limit, c)
    ensures c + MINMATCH >= n
  {
    if c + MINMATCH < n {
      RunAt(src, ip, m, n, c + MINMATCH);
    }
  }

  /** From _next_match on: offset, match length and its length bytes, for a match
      known to reach at least known bytes. ok is false when the budget is spent. */
  method EmitMatch(src: seq<byte>, anchor: nat, ip: nat, m: nat, known: nat, dst: array<byte>, token: nat, op: nat,
                   start: nat, lim: nat, limited: bool)
    returns (ok: bool, ip': nat, op': nat)
    requires anchor <= ip && m < ip && ip - m <= DISTANCE_MAX && known >= MINMATCH
    requires ip + known + LASTLITERALS <= |src| && SameRun(src, ip, m, known)
    requires start <= token && op == token + 1 + ExtLen(ip - anchor) + (ip - anchor) && lim <= dst.Length
    requires op + 2 <= lim && dst[token..op] == EncodeLits(src[anchor..ip], 0)
    requires !limited ==> SizeBound(token, start, anchor) && start + |src| + |src| / 255 + 16 <= lim
    modifies dst
    ensures !limited ==> ok && SizeBound(op', start, ip')
    ensures limited && ok ==> op' + 1 + LASTLITERALS <= lim
    ensures ok ==> ip + known <= ip' <= |src| - LASTLITERALS && SameRun(src, ip, m, ip' - ip)
    ensures ok ==> token < op' <= lim
                   && dst[token..op'] == EncodeSequence(Sequence(src[anchor..ip], ip - m, ip' - ip))
    ensures forall k :: 0 <= k < token || lim <= k < dst.Length ==> dst[k] == old(dst[k])
  {
    hide SizeBound, ExtIf, Ext, SameRun;
    ghost var lits := src[anchor..ip];
    dst[op], dst[op + 1] := (ip - m) % 256, (ip - m) / 256;
    op' := op + 2;
    var matchCode := Count(src, ip + MINMATCH, m + MINMATCH, |src| - LASTLITERALS);
    RunReaches(src, ip, m, |src| - LASTLITERALS, matchCode, known);
    RunsJoin(src, ip, m, MINMATCH, matchCode);
    RunsJoin(src, ip, m, MINMATCH, known - MINMATCH);
    ip' := ip + MINMATCH + matchCode;
    if !limited {
      SizeRoom(token, start, anchor, ip - anchor, matchCode, |src|);
      SizeStep(token, start, anchor, ip - anchor, matchCode);
    }
    if limited && op' + (1 + LASTLITERALS) + (matchCode + 240) / 255 > lim {
      return false, ip', op';
    }
    op' := FinishSequence(dst, token, op, lits, ip - m, matchCode, lim);
    ok := true;
  }

  /** With literals and offset in place, the match length completes the sequence. */
  method FinishSequence(dst: array<byte>, token: nat, op: nat, ghost lits: seq<byte>, offset: nat, matchCode: nat,
                        lim: nat)
    returns (op': nat)
    requires offset <= DISTANCE_MAX && token < op && op + 2 + MatchBudget(matchCode) <= lim <= dst.Length
    requires dst[token..op] == EncodeLits(lits, 0) && dst[op] == offset % 256 && dst[op + 1] == offset / 256
    modifies dst
    ensures op' == op + 2 + ExtLen(matchCode) && op' + 1 + LASTLITERALS <= lim
    ensures dst[token..op'] == EncodeSequence(Sequence(lits, offset, matchCode + MINMATCH))
    ensures forall k :: 0 <= k < token || lim <= k < dst.Length ==> dst[k] == old(dst[k])
  {
    hide ExtIf, Ext;
    ghost var was := dst[..];
    assert was[token..op][0] == Nibble(|lits|) * 16;
    op' := EmitMatchLength(dst, token, op + 2, matchCode, lim);
    ghost var now, code := dst[..], EncodeLits(lits, 0);
    assert now[token + 1..op] == was[token + 1..op] == was[token..op][1..] == code[1..];
    assert now[token..op] == [now[token]] + now[token + 1..op];
    assert now[token..op] == EncodeLits(lits, Nibble(matchCode));
    assert now[op..op + 2] == [offset % 256, offset / 256];
    assert now[token..op'] == now[token..op] + now[op..op + 2] + now[op + 2..op'];
  }

  lemma EmittedNothing(src: seq<byte>)
    ensures Emitted([], src, 0, [])
  {
    assert src[..0] == [];
  }

  method StartTable(src: seq<byte>, base: nat, table: array<nat>, kind: TableType)
    requires |src| >= 4 && table.Length == HashSize(kind) && (kind == ByPtr ==> base > DISTANCE_MAX)
    requires forall h :: 0 <= h < table.Length ==> table[h] == 0
    modifies table
    ensures TableBefore(table[..], kind, base, 1)
  {
    hide HashPosition;
    table[HashPosition(src, 0, kind)] := Entry(kind, base, 0);
  }

  lemma TableLater(table: seq<nat>, kind: TableType, base: nat, ip: nat, later: nat)
    requires TableBefore(table, kind, base, ip) && ip <= later
    ensures TableBefore(table, kind, base, later)
  {
  }

  /** A match found at filled, stepped back to ip, still reaches past filled. */
  lemma MatchAfterCatchUp(src: seq<byte>, ip: nat, m: nat, filled: nat)
    requires m < ip <= filled && filled + 4 <= |src| && SameRun(src, ip, m, filled - ip)
    requires FourMatch(src, m + (filled - ip), filled)
    ensures SameRun(src, ip, m, filled - ip + 4) && ip - m <= DISTANCE_MAX
  {
    RunsJoin(src, ip, m, filled - ip, 4);
  }

  /** EmitMatch, and what the whole output means afterwards. */
  method AddMatch(src: seq<byte>, anchor: nat, ip: nat, m: nat, known: nat, dst: array<byte>, start: nat, token: nat,
                  op: nat, lim: nat, limited: bool, ghost ss: seq<Sequence>)
    returns (ok: bool, ip': nat, op': nat, ghost ss': seq<Sequence>)
    requires anchor <= ip && m < ip && ip - m <= DISTANCE_MAX && known >= MINMATCH
    requires ip + known + LASTLITERALS <= |src| && ip + MFLIMIT <= |src| && SameRun(src, ip, m, known)
    requires start <= token && op == token + 1 + ExtLen(ip - anchor) + (ip - anchor) && op + 2 <= lim <= dst.Length
    requires Emitted(ss, src, anchor, dst[start..token]) && dst[token..op] == EncodeLits(src[anchor..ip], 0)
    requires !limited ==> SizeBound(token, start, anchor) && start + |src| + |src| / 255 + 16 <= lim
    modifies dst
    ensures !limited ==> ok && SizeBound(op', start, ip')
    ensures limited && ok ==> op' + 1 + LASTLITERALS <= lim
    ensures ok ==> ip + known <= ip' <= |src| && start <= op' <= lim && Emitted(ss', src, ip', dst[start..op'])
    ensures forall k :: (0 <= k < start || lim <= k) && k < dst.Length ==> dst[k] == old(dst[k])
  {
    hide EncodeSequence, EncodeLits, Emitted, SizeBound, SameRun;
    ghost var done := dst[start..token];
    ok, ip', op' := EmitMatch(src, anchor, ip, m, known, dst, token, op, start, lim, limited);
    ss' := ss;
    if ok {
      ghost var s := Sequence(src[anchor..ip], ip - m, ip' - ip);
      EmitMore(ss, src, anchor, done, s);
      ss' := ss + [s];
      assert dst[start..token] == done;
      assert dst[start..op'] == dst[start..token] + dst[token..op'];
    }
  }

  /** The token of a sequence without literals. */
  method EmptyToken(src: seq<byte>, ip: nat, dst: array<byte>, start: nat, token: nat)
    requires ip <= |src| && start <= token < dst.Length
    modifies dst
    ensures dst[start..token] == old(dst[start..token]) && dst[token..token + 1] == EncodeLits(src[ip..ip], 0)
    ensures forall k :: 0 <= k < dst.Length && k != token ==> dst[k] == old(dst[k])
  {
    dst[token] := 0;
  }

  /** The literals before a found match, that match, and every match that follows
      it directly. ok is false when the budget is spent; otherwise the bytes from
      start to op' encode all of src up to the new anchor ip'. */
  method EmitMatches(src: seq<byte>, base: nat, table: array<nat>, kind: TableType, anchor: nat, at: nat, match_: nat,
                     found: nat, dst: array<byte>, start: nat, op: nat, lim: nat, limited: bool, ghost ss: seq<Sequence>)
    returns (ok: bool, ip: nat, op': nat, ghost ss': seq<Sequence>)
    requires anchor <= at <= found <= |src| - MFLIMIT && match_ < at && at - match_ <= DISTANCE_MAX
    requires SameRun(src, at, match_, found - at + MINMATCH)
    requires TableBefore(table[..], kind, base, found + 1) && (kind == ByU16 ==> |src| < LIMIT_64K)
    requires start <= op && op + 1 + LiteralBudget(at - anchor) <= lim <= dst.Length
    requires Emitted(ss, src, anchor, dst[start..op])
    requires !limited ==> SizeBound(op, start, anchor) && start + |src| + |src| / 255 + 16 <= lim
    modifies dst, table
    ensures !limited ==> ok && SizeBound(op', start, ip)
    ensures limited && ok ==> op' + 1 + LASTLITERALS <= lim
    ensures ok ==> found + MINMATCH <= ip <= |src| && start <= op' <= lim && Emitted(ss', src, ip, dst[start..op'])
    ensures ok && ip < |src| - MFLIMIT + 1 ==> TableBefore(table[..], kind, base, ip + 1)
    ensures forall k :: (0 <= k < start || lim <= k) && k < dst.Length ==> dst[k] == old(dst[k])
  {
    hide EncodeSequence, EncodeLits, TableBefore, Emitted, SizeBound, SameRun;
    ok, ip, op', ss' := true, at, op, ss;
    var anchor': nat, m: nat, filled: nat, token: nat := anchor, match_, found, op;
    ghost var done := dst[start..op];
    op' := EmitLiterals(src, anchor, ip, dst, token, lim);
    assert dst[start..token] == done;
    assert op' + 2 <= lim;
    while true
      invariant anchor' <= ip <= filled <= |src| - MFLIMIT && found <= filled
      invariant m < ip && ip - m <= DISTANCE_MAX && SameRun(src, ip, m, filled - ip + MINMATCH)
      invariant TableBefore(table[..], kind, base, filled + 1)
      invariant start <= token && op' == token + 1 + ExtLen(ip - anchor') + (ip - anchor') && op' + 2 <= lim
      invariant Emitted(ss', src, anchor', dst[start..token]) && dst[token..op'] == EncodeLits(src[anchor'..ip], 0)
      invariant !limited ==> SizeBound(token, start, anchor')
      invariant forall k :: (0 <= k < start || lim <= k) && k < dst.Length ==> dst[k] == old(dst[k])
      decreases |src| - ip
    {
      ok, ip, op', ss' := AddMatch(src, anchor', ip, m, filled - ip + MINMATCH, dst, start, token, op', lim, limited, ss');
      if !ok {
        return;
      }
      anchor' := ip;
      if ip >= |src| - MFLIMIT + 1 {
        return;
      }
      TableLater(table[..], kind, base, filled + 1, ip);
      var hit, m' := TestNext(src, base, table, kind, ip);
      if !hit {
        return;
      }
      m, filled, token := m', ip, op';
      if !limited {
        SizeRoom(token, start, ip, 0, 0, |src|);
      }
      EmptyToken(src, ip, dst, start, token);
      op' := token + 1;
    }
  }

  datatype Round = NoMatch | Spent | Continue

  /** One turn of the main loop, the search starting at ip: no match any more, or
      the budget is spent, or everything up to the new anchor is written. */
  method CompressRound(src: seq<byte>, base: nat, table: array<nat>, kind: TableType, acceleration: nat, anchor: nat,
                       ip: nat, dst: array<byte>, start: nat, op: nat, lim: int, limited: bool, ghost ss: seq<Sequence>)
    returns (round: Round, anchor': nat, op': nat, ghost ss': seq<Sequence>)
    requires anchor < ip <= |src| - MFLIMIT + 1 && |src| >= MFLIMIT + 1 && acceleration >= 1
    requires TableBefore(table[..], kind, base, ip) && (kind == ByU16 ==> |src| < LIMIT_64K)
    requires start <= op <= dst.Length && lim <= dst.Length && Emitted(ss, src, anchor, dst[start..op])
    requires !limited ==> SizeBound(op, start, anchor) && start + |src| + |src| / 255 + 16 <= lim
    modifies dst, table
    ensures !limited ==> round != Spent && SizeBound(op', start, anchor')
    ensures round == NoMatch ==> anchor' == anchor
    ensures round == Continue ==> ip < anchor' && (anchor' < |src| - MFLIMIT + 1 ==> TableBefore(table[..], kind, base, anchor' + 1))
    ensures round != Spent ==> anchor' <= |src| && start <= op' <= dst.Length && Emitted(ss', src, anchor', dst[start..op'])
    ensures forall k :: (0 <= k < start || Max(lim, 0) <= k) && k < dst.Length ==> dst[k] == old(dst[k])
  {
    hide EncodeSequence, EncodeLits, TableBefore, Emitted, SizeBound, SameRun, FourMatch, LiteralBudget;
    round, anchor', op', ss' := NoMatch, anchor, op, ss;
    var found, at, m := FindMatch(src, base, table, kind, ip, acceleration);
    if !found {
      return;
    }
    FourMatchBounds(src, m, at);
    var ip', m' := CatchUp(src, anchor, at, m);
    MatchAfterCatchUp(src, ip', m', at);
    if limited {
      if op + 1 + LiteralBudget(ip' - anchor) > lim {
        round := Spent;
        return;
      }
    } else {
      SizeRoom(op, start, anchor, ip' - anchor, 0, |src|);
    }
    var ok;
    ok, anchor', op', ss' := EmitMatches(src, base, table, kind, anchor, ip', m', at, dst, start, op, lim, limited, ss);
    round := if ok then Continue else Spent;
  }

  /** LZ4_compress_generic_validated: one block. lim is the end of the room granted:
      in notLimited mode the worst case of LZ4_COMPRESSBOUND, in limitedOutput mode
      wherever the capacity ends, possibly before start. */
  method CompressBlock(src: seq<byte>, base: nat, dst: array<byte>, start: nat, lim: int, limited: bool,
                       kind: TableType, acceleration: nat)
    returns (r: nat)
    requires 0 < |src| <= MAX_INPUT_SIZE && acceleration >= 1
    requires kind == ByU16 ==> |src| < LIMIT_64K
    requires kind == ByPtr ==> base > DISTANCE_MAX
    requires start <= dst.Length && lim <= dst.Length
    requires !limited ==> start + |src| + |src| / 255 + 16 <= lim
    modifies dst
    ensures !limited ==> r > 0
    ensures r > 0 ==> start + r <= lim && EncodingOf(dst[start..start + r], src)
    ensures forall k :: (0 <= k < start || Max(lim, 0) <= k) && k < dst.Length ==> dst[k] == old(dst[k])
  {
    hide TableBefore, EncodingOf, Emitted, SizeBound;
    var anchor: nat, op: nat := 0, start;
    ghost var ss: seq<Sequence> := [];
    var table := new nat[HashSize(kind)](_ => 0);
    EmittedNothing(src);
    assert dst[start..op] == [];
    NothingYet(start);
    if |src| >= MFLIMIT + 1 {
      StartTable(src, base, table, kind);
      var ip: nat := 1;
      while ip <= |src| - MFLIMIT + 1
        invariant anchor < ip && anchor <= |src| && fresh(table)
        invariant ip <= |src| - MFLIMIT + 1 ==> TableBefore(table[..], kind, base, ip)
        invariant start <= op <= dst.Length
        invariant Emitted(ss, src, anchor, dst[start..op])
        invariant !limited ==> SizeBound(op, start, anchor)
        invariant forall k :: (0 <= k < start || Max(lim, 0) <= k) && k < dst.Length ==> dst[k] == old(dst[k])
        decreases |src| - ip
      {
        var round;
        round, anchor, op, ss :=
          CompressRound(src, base, table, kind, acceleration, anchor, ip, dst, start, op, lim, limited, ss);
        if round == Spent {
          return 0;
        }
        if round == NoMatch || anchor >= |src| - MFLIMIT + 1 {
          break;
        }
        ip := anchor + 1;
      }
    }
    r := FinishBlock(src, anchor, dst, start, op, lim, limited, ss);
  }

  lemma NothingYet(start: nat)
    ensures SizeBound(start, start, 0)
  {
  }

  lemma FourMatchBounds(src: seq<byte>, m: int, ip: nat)
    requires FourMatch(src, m, ip)
    ensures 0 <= m < ip
  {
  }

  /** _last_literals. */
  method FinishBlock(src: seq<byte>, anchor: nat, dst: array<byte>, start: nat, op: nat, lim: int, limited: bool,
                     ghost ss: seq<Sequence>)
    returns (r: nat)
    requires start <= op <= dst.Length && lim <= dst.Length && anchor <= |src|
    requires Emitted(ss, src, anchor, dst[start..op])
    requires !limited ==> SizeBound(op, start, anchor) && start + |src| + |src| / 255 + 16 <= lim
    modifies dst
    ensures !limited ==> r > 0
    ensures r > 0 ==> start + r <= lim && EncodingOf(dst[start..start + r], src)
    ensures forall k :: (0 <= k < start || Max(lim, 0) <= k) && k < dst.Length ==> dst[k] == old(dst[k])
  {
    hide EncodeSequence, EncodeLits, EncodingOf, Emitted, SizeBound;
    var lastRun := |src| - anchor;
    if limited {
      if op + lastRun + 1 + (lastRun + 255 - RUN_MASK) / 255 > lim {
        return 0;
      }
    } else {
      SizeRoom(op, start, anchor, lastRun, 0, |src|);
    }
    ghost var done := dst[start..op];
    EmittedAll(ss, src, anchor, done);
    var end := EmitLast(src, anchor, dst, op);
    assert dst[start..op] == done;
    assert dst[start..end] == dst[start..op] + dst[op..end];
    r := end - start;
  }

  /** LZ4_compress_default: picks the mode by the capacity and the table by the
      input size and the address of the source. dst is written from start on, and never
      past the capacity or the worst case, whichever is less. */
  method CompressDefault(src: seq<byte>, base: nat, dst: array<byte>, start: nat, maxOutputSize: int) returns (r: nat)
    requires start <= dst.Length && start + maxOutputSize <= dst.Length
    modifies dst
    ensures r > 0 ==> r <= maxOutputSize && EncodingOf(dst[start..start + r], src) && |src| <= 0x7E000000
    ensures var bound := |src| + |src| / 255 + 16;
            maxOutputSize >= bound && |src| <= 0x7E000000 ==> 0 < r <= bound
    ensures var room := Min(maxOutputSize, CompressBound(|src|));
            forall k :: (0 <= k < start || Max(start + room, 0) <= k) && k < dst.Length ==> dst[k] == old(dst[k])
  {
    hide EncodingOf;
    var limited := maxOutputSize < CompressBound(|src|);
    if |src| > MAX_INPUT_SIZE {
      return 0;
    }
    if src == [] {
      if limited && maxOutputSize <= 0 {
        return 0;
      }
      dst[start] := 0;
      EmptyBlock();
      assert dst[start..start + 1] == [0];
      return 1;
    }
    var kind := if |src| < LIMIT_64K then ByU16 else if base > DISTANCE_MAX then ByPtr else ByU32;
    var room := if limited then maxOutputSize else CompressBound(|src|);
    r := CompressBlock(src, base, dst, start, start + room, limited, kind, 1);
  }

  lemma EmptyBlock()
    ensures EncodingOf([0], [])
  {
    assert Encode([], []) == [0];
    assert EncodedAs([], [], [0], []);
  }
}
