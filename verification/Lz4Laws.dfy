/**
  The decoder inverts the encoder: exactly which blocks it accepts, that it gives
  them their meaning, and that everything it accepts is a well-formed block.
*/
module Lz4Laws {
  import opened Bytes
  import opened Lz4Format

  // ------------------------------------------------------- length fields

  lemma {:induction false} RunOfExt(src: seq<byte>, ip: nat, n: nat, limit: int, acc: nat)
    requires ip + |Ext(n)| <= |src| && limit < |src|
    requires At(src, ip, Ext(n))
    ensures ReadRun(src, ip, limit, acc).Length? <==> ip + |Ext(n)| <= limit && acc + n <= MAX_LENGTH
    ensures ReadRun(src, ip, limit, acc).Length? ==> ReadRun(src, ip, limit, acc) == Length(acc + n, ip + |Ext(n)|)
    decreases n
  {
    assert src[ip] == Ext(n)[0];
    if n >= 255 {
      assert Ext(n) == [255] + Ext(n - 255);
      AtConcat(src, ip, [255], Ext(n - 255));
      RunOfExt(src, ip + 1, n - 255, limit, acc + 255);
    }
  }

  lemma {:induction false} ExtOfRun(src: seq<byte>, ip: nat, limit: int, acc: nat)
    requires ip < |src| && limit < |src|
    requires ReadRun(src, ip, limit, acc).Length?
    ensures var r := ReadRun(src, ip, limit, acc);
            acc <= r.value <= MAX_LENGTH && src[ip..r.next] == Ext(r.value - acc)
    decreases |src| - ip
  {
    var s, r := src[ip], ReadRun(src, ip, limit, acc);
    if s == 255 {
      ExtOfRun(src, ip + 1, limit, acc + s);
      assert src[ip..r.next] == [src[ip]] + src[ip + 1..r.next];
    } else {
      assert src[ip..r.next] == [s];
    }
  }

  // ------------------------------------------------ a block in bytes

  lemma {:induction false} ExtShape(n: nat)
    ensures |Ext(n)| == n / 255 + 1 && Ext(n)[n / 255] == n % 255
    ensures forall k :: 0 <= k < n / 255 ==> Ext(n)[k] == 255
  {
    if n >= 255 {
      ExtShape(n - 255);
      assert Ext(n) == [255] + Ext(n - 255);
      assert n / 255 == (n - 255) / 255 + 1 && n % 255 == (n - 255) % 255;
    }
  }

  /** A run of literals in bytes: the token's high half is the length, or 15 and
      then bytes of 255 and a smaller one that add up to the rest. */
  lemma LiteralsInBytes(lits: seq<byte>, low: nat)
    requires low <= 15
    ensures var w, l := EncodeLits(lits, low), |lits|;
            if l < 15 then w == [l * 16 + low] + lits
            else
              var n := (l - 15) / 255;
              && |w| == 2 + n + l && w[0] == 15 * 16 + low && w[2 + n..] == lits
              && (forall k :: 1 <= k <= n ==> w[k] == 255) && w[n + 1] == (l - 15) % 255
  {
    if |lits| >= 15 {
      var n := (|lits| - 15) / 255;
      ExtShape(|lits| - 15);
      var w := EncodeLits(lits, low);
      assert w[1..2 + n] == Ext(|lits| - 15);
      forall k | 1 <= k <= n + 1 ensures w[k] == Ext(|lits| - 15)[k - 1] {
        assert w[k] == w[1..2 + n][k - 1];
      }
      assert w[n + 1] == Ext(|lits| - 15)[n];
    }
  }

  /** A sequence in bytes: behind the literals the offset, least byte first; the
      token's low half is the match length less 4, or 15 and the rest behind the
      offset, in the bytes of ExtShape. */
  lemma SequenceInBytes(s: Sequence)
    requires s.offset <= 65535 && s.matchLen >= 4
    ensures var m := s.matchLen - 4;
            EncodeSequence(s) ==
            EncodeLits(s.lits, if m < 15 then m else 15) + [s.offset % 256, s.offset / 256] + if m < 15 then [] else Ext(m - 15)
  {
    hide EncodeLits, Ext;
  }

  // ------------------------------------------------------- one sequence

  lemma LiteralsOfEncoding(src: seq<byte>, ip: nat, l: nat, restLen: nat, outLen: nat, cap: nat)
    requires restLen >= 3 && outLen <= cap
    requires |src| == ip + ExtLen(l) + l + restLen
    requires At(src, ip, ExtIf(l))
    ensures var r := ReadLiterals(src, ip, Nibble(l), outLen, cap);
            var fast := Shortcut(Nibble(l), |src| - ip, outLen, cap);
            if LiteralsAccepted(l, fast, restLen, outLen, cap)
            then r == MoreLiterals(l, ip + ExtLen(l), fast)
            else r.BadLiterals?
  {
    if l >= 15 {
      RunOfExt(src, ip, l - 15, |src| - RUN_MASK, 0);
    }
  }

  lemma MatchOfEncoding(src: seq<byte>, ip: nat, offset: nat, m: nat, restLen: nat, fast: bool, outLen: nat, cap: nat)
    requires restLen >= 1 && offset <= DISTANCE_MAX
    requires fast ==> outLen + 18 <= cap
    requires |src| == ip + 2 + ExtLen(m) + restLen
    requires src[ip] == offset % 256 && src[ip + 1] == offset / 256 && At(src, ip + 2, ExtIf(m))
    ensures var r := ReadMatch(src, ip, Nibble(m), fast, outLen, cap);
            if MatchAccepted(offset, m, fast, restLen, outLen, cap)
            then r == GoodMatch(offset, m + MINMATCH, ip + 2 + ExtLen(m))
            else r.BadMatch?
  {
    assert ReadOffset(src, ip) == offset;
    if m >= 15 {
      RunOfExt(src, ip + 2, m - 15, |src| - LASTLITERALS + 1, 0);
    }
  }

  /** Where the parts of an encoded sequence stand. */
  predicate PartsAt(src: seq<byte>, ip: nat, s: Sequence)
    requires SequenceFits(s)
  {
    var l, m := |s.lits|, s.matchLen - MINMATCH;
    var a := ip + 1 + ExtLen(l);
    && ip + SequenceLen(s) <= |src|
    && src[ip] / 16 == Nibble(l) && src[ip] % 16 == Nibble(m)
    && At(src, ip + 1, ExtIf(l)) && At(src, a, s.lits)
    && src[a + l] == s.offset % 256 && src[a + l + 1] == s.offset / 256 && At(src, a + l + 2, ExtIf(m))
  }

  lemma SequenceParts(src: seq<byte>, ip: nat, s: Sequence)
    requires SequenceFits(s) && At(src, ip, EncodeSequence(s))
    ensures PartsAt(src, ip, s)
  {
    var l, m := |s.lits|, s.matchLen - MINMATCH;
    hide At;
    AtFirst(src, ip, EncodeSequence(s));
    var t: seq<byte>, o: seq<byte> := [Nibble(l) * 16 + Nibble(m)], [s.offset % 256, s.offset / 256];
    AtConcat3(src, ip, EncodeLits(s.lits, Nibble(m)), o, ExtIf(m));
    AtConcat3(src, ip, t, ExtIf(l), s.lits);
    AtFirst(src, ip, t);
    assert src[ip] == Nibble(l) * 16 + Nibble(m);
    var a := ip + 1 + ExtLen(l) + l;
    assert o == o[..1] + o[1..];
    AtConcat(src, a, o[..1], o[1..]);
    AtFirst(src, a, o[..1]);
    AtFirst(src, a + 1, o[1..]);
  }

  /** One sequence: taken exactly when SequenceAccepted says. */
  lemma ReadOneSequence(src: seq<byte>, ip: nat, s: Sequence, out: seq<byte>, cap: nat)
    requires SequenceFits(s) && |out| <= cap
    requires ip + SequenceLen(s) < |src| && PartsAt(src, ip, s)
    ensures var r := ReadSequence(src, ip, out, cap);
            if SequenceAccepted(s, |out|, |src| - (ip + SequenceLen(s)), cap)
            then r == Go(s.lits, s.offset, s.matchLen, ip + SequenceLen(s))
            else r.Stop? && r.result.Corrupt?
  {
    hide At, ReadLiterals, ReadMatch, ExtLen, ExtIf, Nibble, LiteralsAccepted, MatchAccepted, Shortcut;
    var l, m := |s.lits|, s.matchLen - MINMATCH;
    var a, restLen := ip + 1 + ExtLen(l), |src| - (ip + SequenceLen(s));
    AtSlice(src, a, s.lits);
    LiteralsOfEncoding(src, ip + 1, l, 2 + ExtLen(m) + restLen, |out|, cap);
    var r := ReadLiterals(src, ip + 1, Nibble(l), |out|, cap);
    if r.MoreLiterals? {
      MatchOfEncoding(src, a + l, s.offset, m, restLen, r.fast, |out| + l, cap);
    }
  }

  // ------------------------------------------------------- whole blocks

  lemma ReadLastLiterals(src: seq<byte>, ip: nat, last: seq<byte>, nibble: nat, out: seq<byte>, cap: nat)
    requires nibble <= 15 && |out| <= cap
    requires At(src, ip, EncodeLits(last, nibble)) && ip + 1 + ExtLen(|last|) + |last| == |src|
    ensures var r := ReadSequence(src, ip, out, cap);
            if |out| + |last| <= cap && |last| - 15 <= MAX_LENGTH then r == Stop(Block(out + last))
            else r.Stop? && r.result.Corrupt?
  {
    hide At, ReadRun, ReadMatch, Shortcut;
    var l := |last|;
    var t: seq<byte> := [Nibble(l) * 16 + nibble];
    AtConcat3(src, ip, t, ExtIf(l), last);
    AtFirst(src, ip, t);
    AtSlice(src, ip + 1 + ExtLen(l), last);
    if l >= 15 {
      RunOfExt(src, ip + 1, l - 15, |src| - RUN_MASK, 0);
    }
  }

  lemma {:induction false} DecodeEncodeFrom(src: seq<byte>, ip: nat, ss: seq<Sequence>, last: seq<byte>,
                                            nibble: nat, out: seq<byte>, cap: nat)
    requires AllFit(ss) && nibble <= 15 && |out| <= cap
    requires At(src, ip, Encode(ss, last, nibble)) && ip + BlockLen(ss, last) == |src|
    ensures if Accepted(ss, last, |out|, cap)
            then InRange(|out|, ss) && DecodeFrom(src, ip, out, cap) == Block(ExpandFrom(out, ss) + last)
            else DecodeFrom(src, ip, out, cap).Corrupt?
    decreases |ss|
  {
    hide At, PartsAt, SequenceAccepted, ReadSequence, SequenceLen, EncodeSequence, EncodeLits;
    if ss == [] {
      assert Encode(ss, last, nibble) == EncodeLits(last, nibble);
      ReadLastLiterals(src, ip, last, nibble, out, cap);
    } else {
      var s, tail := ss[0], Encode(ss[1..], last, nibble);
      assert Encode(ss, last, nibble) == EncodeSequence(s) + tail;
      AtConcat(src, ip, EncodeSequence(s), tail);
      SequenceParts(src, ip, s);
      ReadOneSequence(src, ip, s, out, cap);
      var next := ip + SequenceLen(s);
      if SequenceAccepted(s, |out|, |src| - next, cap) {
        DecodeEncodeFrom(src, next, ss[1..], last, nibble, Apply(out, s), cap);
      }
    }
  }

  /** Exactly the Accepted blocks decode, and each decodes to its meaning. */
  lemma DecodeEncode(ss: seq<Sequence>, last: seq<byte>, nibble: nat, cap: nat)
    requires AllFit(ss) && nibble <= 15 && cap > 0
    ensures if Accepted(ss, last, 0, cap)
            then InRange(0, ss) && Decode(Encode(ss, last, nibble), cap) == Block(Expand(ss, last))
            else Decode(Encode(ss, last, nibble), cap).Corrupt?
  {
    var src := Encode(ss, last, nibble);
    EncodeLength(ss, last, nibble);
    assert At(src, 0, src);
    DecodeEncodeFrom(src, 0, ss, last, nibble, [], cap);
  }

  lemma {:induction false} EndRulesAccepted(ss: seq<Sequence>, last: seq<byte>, outLen: nat, total: nat, cap: nat)
    requires AllFit(ss) && InRange(outLen, ss) && EndRules(ss, outLen, total)
    requires total <= cap && total <= MAX_LENGTH
    requires total == OutputLen(ss, outLen) + |last|
    ensures Accepted(ss, last, outLen, cap)
    decreases |ss|
  {
    OutputLenGrows(ss, outLen);
    if ss != [] {
      var next := outLen + |ss[0].lits| + ss[0].matchLen;
      EndRulesAccepted(ss[1..], last, next, total, cap);
      RestOfBlock(ss[1..], last, next, total);
    }
  }

  function OutputLen(ss: seq<Sequence>, outLen: nat): nat
    decreases |ss|
  {
    if ss == [] then outLen else OutputLen(ss[1..], outLen + |ss[0].lits| + ss[0].matchLen)
  }

  lemma {:induction false} OutputLenGrows(ss: seq<Sequence>, outLen: nat)
    ensures OutputLen(ss, outLen) >= outLen
    decreases |ss|
  {
    if ss != [] {
      OutputLenGrows(ss[1..], outLen + |ss[0].lits| + ss[0].matchLen);
    }
  }

  /** A block that still owes five literals is at least six bytes long. */
  lemma {:induction false} RestOfBlock(ss: seq<Sequence>, last: seq<byte>, outLen: nat, total: nat)
    requires AllFit(ss) && EndRules(ss, outLen, total)
    requires total == OutputLen(ss, outLen) + |last| && outLen + LASTLITERALS <= total
    ensures BlockLen(ss, last) >= 1 + LASTLITERALS
    decreases |ss|
  {
    if ss != [] {
      var next := outLen + |ss[0].lits| + ss[0].matchLen;
      RestOfBlock(ss[1..], last, next, total);
    }
  }

  /** The same at the sequence after the first i. */
  lemma OutputLenNext(ss: seq<Sequence>, outLen: nat, i: nat)
    requires i < |ss|
    ensures OutputLen(ss[..i + 1], outLen) == OutputLen(ss[1..][..i], outLen + |ss[0].lits| + ss[0].matchLen)
  {
    assert ss[..i + 1][1..] == ss[1..][..i];
  }

  /** The end rules, sequence by sequence. */
  lemma {:induction false} EndRulesAre(ss: seq<Sequence>, outLen: nat, total: nat)
    ensures EndRules(ss, outLen, total) <==>
              forall i :: 0 <= i < |ss| ==> KeepsEnd(ss[i], OutputLen(ss[..i], outLen), total)
    decreases |ss|
  {
    hide KeepsEnd;
    if ss != [] {
      var next := outLen + |ss[0].lits| + ss[0].matchLen;
      var rest := ss[1..];
      EndRulesAre(rest, next, total);
      assert ss[..0] == [];
      forall i | 0 <= i < |rest|
        ensures rest[i] == ss[i + 1] && OutputLen(ss[..i + 1], outLen) == OutputLen(rest[..i], next)
      {
        OutputLenNext(ss, outLen, i);
      }
      if forall i :: 0 <= i < |ss| ==> KeepsEnd(ss[i], OutputLen(ss[..i], outLen), total) {
        forall i | 0 <= i < |rest| ensures KeepsEnd(rest[i], OutputLen(rest[..i], next), total) {
          assert KeepsEnd(ss[i + 1], OutputLen(ss[..i + 1], outLen), total);
        }
      }
      if EndRules(ss, outLen, total) {
        forall i | 0 <= i < |ss| ensures KeepsEnd(ss[i], OutputLen(ss[..i], outLen), total) {
          if i > 0 {
            assert KeepsEnd(rest[i - 1], OutputLen(rest[..i - 1], next), total);
          }
        }
      }
    }
  }

  /** A block whose every match starts at least 12 bytes, and ends at least 5
      bytes, before the end of the output decodes into any buffer that can hold
      it, down to one of exactly its size. */
  lemma EndRulesSuffice(ss: seq<Sequence>, last: seq<byte>, cap: nat)
    requires AllFit(ss) && InRange(0, ss)
    requires var total := OutputLen(ss, 0) + |last|;
             && 0 < cap && total <= cap && total <= 0x7FFFFFFF
             && forall i :: 0 <= i < |ss| ==>
                  var start := OutputLen(ss[..i], 0) + |ss[i].lits|;
                  start + 12 <= total && start + ss[i].matchLen + 5 <= total
    ensures Decode(Encode(ss, last), cap) == Block(Expand(ss, last))
  {
    EndRulesAre(ss, 0, OutputLen(ss, 0) + |last|);
    EndRulesAccepted(ss, last, 0, OutputLen(ss, 0) + |last|, cap);
    DecodeEncode(ss, last, 0, cap);
  }

  /** Accepted, sequence by sequence. */
  lemma {:induction false} AcceptedAre(ss: seq<Sequence>, last: seq<byte>, outLen: nat, cap: nat)
    requires AllFit(ss)
    ensures Accepted(ss, last, outLen, cap) <==>
              && OutputLen(ss, outLen) + |last| <= cap && |last| - 15 <= MAX_LENGTH
              && forall i :: 0 <= i < |ss| ==>
                   SequenceAccepted(ss[i], OutputLen(ss[..i], outLen), BlockLen(ss[i + 1..], last), cap)
    decreases |ss|
  {
    hide SequenceAccepted, BlockLen;
    if ss != [] {
      var next := outLen + |ss[0].lits| + ss[0].matchLen;
      var rest := ss[1..];
      AcceptedAre(rest, last, next, cap);
      assert ss[..0] == [];
      forall i | 0 <= i < |rest|
        ensures rest[i] == ss[i + 1] && OutputLen(ss[..i + 1], outLen) == OutputLen(rest[..i], next)
        ensures ss[i + 1 + 1..] == rest[i + 1..]
      {
        OutputLenNext(ss, outLen, i);
      }
      if forall i :: 0 <= i < |ss| ==> SequenceAccepted(ss[i], OutputLen(ss[..i], outLen), BlockLen(ss[i + 1..], last), cap) {
        forall i | 0 <= i < |rest|
          ensures SequenceAccepted(rest[i], OutputLen(rest[..i], next), BlockLen(rest[i + 1..], last), cap)
        {
          assert SequenceAccepted(ss[i + 1], OutputLen(ss[..i + 1], outLen), BlockLen(ss[i + 1 + 1..], last), cap);
        }
      }
      if Accepted(ss, last, outLen, cap) {
        forall i | 0 <= i < |ss|
          ensures SequenceAccepted(ss[i], OutputLen(ss[..i], outLen), BlockLen(ss[i + 1..], last), cap)
        {
          if i > 0 {
            assert SequenceAccepted(rest[i - 1], OutputLen(rest[..i - 1], next), BlockLen(rest[i - 1 + 1..], last), cap);
          }
        }
      }
    }
  }

  lemma AcceptedInNumbers(s: Sequence, outLen: nat, after: nat, rest: nat, cap: nat)
    requires SequenceFits(s) && s.offset <= outLen + |s.lits| && after == SequenceLen(s) - 1 + rest
    ensures SequenceAccepted(s, outLen, rest, cap) <==>
              var l, m := |s.lits|, s.matchLen - 4;
              var start := outLen + l;
              var short := l < 15 && after > 16 && start - l + 32 <= cap;
              && (|| short
                  || (&& start + 12 <= cap && l <= 0x7FFFFFFF + 15
                      && 2 + (if m < 15 then 0 else (m - 15) / 255 + 1) + rest >= 8))
              && (|| (short && m < 15 && s.offset >= 8)
                  || (start + m + 4 + 5 <= cap && (m >= 15 ==> rest >= 4 && m <= 0x7FFFFFFF + 15)))
  {
  }

  /** Which blocks decode, in numbers. Sequence i puts its match at start, with
      after bytes of block behind its token and rest behind its last byte. Either
      it takes the shortcut (fewer than 15 literals, 16 bytes behind the token, 32
      bytes of room), or 12 bytes of room follow the literals and 8 bytes of block;
      and its match is a short one of the shortcut, or ends 5 bytes before the end
      of the room. The last run need only fit. */
  lemma DecodesExactly(ss: seq<Sequence>, last: seq<byte>, nibble: nat, cap: nat)
    requires forall i :: 0 <= i < |ss| ==> ss[i].offset <= 65535 && ss[i].matchLen >= 4
    requires InRange(0, ss) && nibble <= 15 && cap > 0
    ensures Decode(Encode(ss, last, nibble), cap).Block? <==>
              && |Expand(ss, last)| <= cap && |last| <= 0x7FFFFFFF + 15
              && forall i :: 0 <= i < |ss| ==>
                   var l, m := |ss[i].lits|, ss[i].matchLen - 4;
                   var start := OutputLen(ss[..i], 0) + l;
                   var after, rest := |Encode(ss[i..], last)| - 1, |Encode(ss[i + 1..], last)|;
                   var short := l < 15 && after > 16 && start - l + 32 <= cap;
                   && (|| short
                       || (&& start + 12 <= cap && l <= 0x7FFFFFFF + 15
                           && 2 + (if m < 15 then 0 else (m - 15) / 255 + 1) + rest >= 8))
                   && (|| (short && m < 15 && ss[i].offset >= 8)
                       || (start + m + 4 + 5 <= cap && (m >= 15 ==> rest >= 4 && m <= 0x7FFFFFFF + 15)))
    ensures Decode(Encode(ss, last, nibble), cap).Block? ==> Decode(Encode(ss, last, nibble), cap).bytes == Expand(ss, last)
  {
    hide SequenceAccepted, SequenceLen, BlockLen, Encode, Decode, EncodeSequence;
    assert AllFit(ss);
    DecodeEncode(ss, last, nibble, cap);
    AcceptedAre(ss, last, 0, cap);
    ExpandLength([], ss);
    forall i | 0 <= i < |ss|
      ensures SequenceAccepted(ss[i], OutputLen(ss[..i], 0), BlockLen(ss[i + 1..], last), cap) <==>
                var l, m := |ss[i].lits|, ss[i].matchLen - 4;
                var start := OutputLen(ss[..i], 0) + l;
                var after, rest := |Encode(ss[i..], last)| - 1, |Encode(ss[i + 1..], last)|;
                var short := l < 15 && after > 16 && start - l + 32 <= cap;
                && (|| short
                    || (&& start + 12 <= cap && l <= 0x7FFFFFFF + 15
                        && 2 + (if m < 15 then 0 else (m - 15) / 255 + 1) + rest >= 8))
                && (|| (short && m < 15 && ss[i].offset >= 8)
                    || (start + m + 4 + 5 <= cap && (m >= 15 ==> rest >= 4 && m <= 0x7FFFFFFF + 15)))
    {
      OffsetInRange(ss, 0, i);
      LengthsFrom(ss, last, i);
      AcceptedInNumbers(ss[i], OutputLen(ss[..i], 0), |Encode(ss[i..], last)| - 1, |Encode(ss[i + 1..], last)|, cap);
    }
  }

  lemma LengthsFrom(ss: seq<Sequence>, last: seq<byte>, i: nat)
    requires AllFit(ss) && i < |ss|
    ensures |Encode(ss[i + 1..], last)| == BlockLen(ss[i + 1..], last)
    ensures |Encode(ss[i..], last)| == SequenceLen(ss[i]) + |Encode(ss[i + 1..], last)|
  {
    EncodeLength(ss[i..], last, 0);
    EncodeLength(ss[i + 1..], last, 0);
    assert ss[i..][1..] == ss[i + 1..];
  }

  lemma {:induction false} OffsetInRange(ss: seq<Sequence>, outLen: nat, i: nat)
    requires InRange(outLen, ss) && i < |ss|
    ensures ss[i].offset <= OutputLen(ss[..i], outLen) + |ss[i].lits|
    decreases i
  {
    if i > 0 {
      OutputLenNext(ss, outLen, i - 1);
      OffsetInRange(ss[1..], outLen + |ss[0].lits| + ss[0].matchLen, i - 1);
    }
  }

  /** Outside the shortcut the decoder enforces both end rules: a match that starts
      fewer than 12 bytes, or ends fewer than 5 bytes, before the end of the room
      is refused. */
  lemma LateMatchRefused(ss: seq<Sequence>, last: seq<byte>, nibble: nat, cap: nat, i: nat)
    requires forall i :: 0 <= i < |ss| ==> ss[i].offset <= 65535 && ss[i].matchLen >= 4
    requires InRange(0, ss) && nibble <= 15 && i < |ss| && cap > 0
    requires |ss[i].lits| >= 15 || |Encode(ss[i..], last)| <= 17 || OutputLen(ss[..i], 0) + 32 > cap
    requires var start := OutputLen(ss[..i], 0) + |ss[i].lits|; cap < start + 12 || cap < start + ss[i].matchLen + 5
    ensures Decode(Encode(ss, last, nibble), cap).Corrupt?
  {
    hide Encode, Decode;
    DecodesExactly(ss, last, nibble, cap);
    var rest := |Encode(ss[i + 1..], last)|;
  }

  // ------------------------------------------- what acceptance implies

  lemma AtNothing(src: seq<byte>, ip: nat)
    requires ip <= |src|
    ensures At(src, ip, [])
  {
  }

  lemma LiteralsAreEncoded(src: seq<byte>, ip: nat, nibble: nat, outLen: nat, cap: nat)
    requires ip <= |src| && nibble <= 15 && outLen <= cap
    ensures match ReadLiterals(src, ip, nibble, outLen, cap)
            case BadLiterals(_) => true
            case LastLiterals(len, at) => Nibble(len) == nibble && at == ip + ExtLen(len) && At(src, ip, ExtIf(len))
            case MoreLiterals(len, at, _) => Nibble(len) == nibble && at == ip + ExtLen(len) && At(src, ip, ExtIf(len))
  {
    hide At, ReadRun, Shortcut;
    AtNothing(src, ip);
    if nibble == 15 && ip < |src| - 15 && ReadRun(src, ip, |src| - 15, 0).Length? {
      var run := ReadRun(src, ip, |src| - 15, 0);
      ExtOfRun(src, ip, |src| - 15, 0);
      AtSlice(src, ip, Ext(run.value));
    }
  }

  lemma MatchIsEncoded(src: seq<byte>, ip: nat, nibble: nat, fast: bool, outLen: nat, cap: nat)
    requires ip + 2 < |src| && nibble <= 15 && (fast ==> outLen + 18 <= cap)
    requires ReadMatch(src, ip, nibble, fast, outLen, cap).GoodMatch?
    ensures var r := ReadMatch(src, ip, nibble, fast, outLen, cap);
            var m := r.len - MINMATCH;
            && src[ip] == r.offset % 256 && src[ip + 1] == r.offset / 256
            && Nibble(m) == nibble && r.next == ip + 2 + ExtLen(m) && At(src, ip + 2, ExtIf(m))
  {
    var r := ReadMatch(src, ip, nibble, fast, outLen, cap);
    if nibble == 15 {
      ExtOfRun(src, ip + 2, |src| - LASTLITERALS + 1, 0);
      AtSlice(src, ip + 2, Ext(r.len - 19));
    }
  }

  /** PartsAt describes an encoded sequence completely. */
  lemma PartsMakeSequence(src: seq<byte>, ip: nat, s: Sequence)
    requires SequenceFits(s) && PartsAt(src, ip, s)
    ensures At(src, ip, EncodeSequence(s))
  {
    hide ExtIf, ExtLen, Nibble;
    var l, m := |s.lits|, s.matchLen - MINMATCH;
    var a := ip + 1 + ExtLen(l) + l;
    var t: seq<byte>, o: seq<byte> := [Nibble(l) * 16 + Nibble(m)], [s.offset % 256, s.offset / 256];
    assert At(src, ip, t) && At(src, a, o);
    hide At;
    AtConcat3(src, ip, t, ExtIf(l), s.lits);
    AtConcat3(src, ip, EncodeLits(s.lits, Nibble(m)), o, ExtIf(m));
  }

  lemma SequenceIsEncoded(src: seq<byte>, ip: nat, out: seq<byte>, cap: nat)
    requires ip < |src| && |out| <= cap && ReadSequence(src, ip, out, cap).Go?
    ensures var r := ReadSequence(src, ip, out, cap);
            var s := Sequence(r.lits, r.offset, r.len);
            SequenceFits(s) && At(src, ip, EncodeSequence(s)) && r.next == ip + SequenceLen(s)
  {
    hide At, ReadLiterals, ReadMatch, ExtLen, ExtIf, Nibble;
    var r := ReadSequence(src, ip, out, cap);
    var l := ReadLiterals(src, ip + 1, src[ip] / 16, |out|, cap);
    var s := Sequence(r.lits, r.offset, r.len);
    LiteralsAreEncoded(src, ip + 1, src[ip] / 16, |out|, cap);
    MatchIsEncoded(src, l.ip + l.len, src[ip] % 16, l.fast, |out| + l.len, cap);
    AtSlice(src, l.ip, r.lits);
    PartsMakeSequence(src, ip, s);
  }

  lemma LastIsEncoded(src: seq<byte>, ip: nat, out: seq<byte>, cap: nat) returns (last: seq<byte>, nibble: nat)
    requires ip < |src| && |out| <= cap
    requires var r := ReadSequence(src, ip, out, cap); r.Stop? && r.result.Block?
    ensures ReadSequence(src, ip, out, cap).result.bytes == out + last && nibble <= 15
    ensures src[ip..] == EncodeLits(last, nibble)
  {
    hide At, ReadLiterals, ReadMatch, ExtLen, ExtIf, Nibble;
    var l := ReadLiterals(src, ip + 1, src[ip] / 16, |out|, cap);
    LiteralsAreEncoded(src, ip + 1, src[ip] / 16, |out|, cap);
    last, nibble := src[l.ip..], src[ip] % 16;
    AtSlice(src, l.ip, last);
    var t: seq<byte> := [src[ip]];
    AtOne(src, ip);
    AtConcat3(src, ip, t, ExtIf(|last|), last);
    AtSlice(src, ip, EncodeLits(last, nibble));
  }

  lemma {:induction false} ParseFrom(src: seq<byte>, ip: nat, out: seq<byte>, cap: nat)
    returns (ss: seq<Sequence>, last: seq<byte>, nibble: nat)
    requires ip < |src| && |out| <= cap && DecodeFrom(src, ip, out, cap).Block?
    ensures AllFit(ss) && InRange(|out|, ss) && nibble <= 15
    ensures src[ip..] == Encode(ss, last, nibble)
    ensures DecodeFrom(src, ip, out, cap).bytes == ExpandFrom(out, ss) + last
    decreases |src| - ip
  {
    hide At, ReadSequence, EncodeSequence, SequenceLen, EncodeLits;
    var r := ReadSequence(src, ip, out, cap);
    if r.Stop? {
      ss := [];
      last, nibble := LastIsEncoded(src, ip, out, cap);
      assert Encode(ss, last, nibble) == EncodeLits(last, nibble);
    } else {
      var s := Sequence(r.lits, r.offset, r.len);
      SequenceIsEncoded(src, ip, out, cap);
      AtSlice(src, ip, EncodeSequence(s));
      var rest: seq<Sequence>;
      rest, last, nibble := ParseFrom(src, r.next, Apply(out, s), cap);
      ss := [s] + rest;
      assert ss[1..] == rest;
      assert src[ip..] == src[ip..r.next] + src[r.next..];
      assert Encode(ss, last, nibble) == EncodeSequence(s) + Encode(rest, last, nibble);
    }
  }

  /** Whatever the decoder accepts is a well-formed block, its matches all within
      what came before them, and the output is what that block means. */
  lemma DecodedIsWellFormed(src: seq<byte>, cap: nat) returns (ss: seq<Sequence>, last: seq<byte>, nibble: nat)
    requires Decode(src, cap).Block?
    ensures AllFit(ss) && InRange(0, ss) && nibble <= 15
    ensures src == Encode(ss, last, nibble) && Decode(src, cap).bytes == Expand(ss, last)
  {
    if cap == 0 {
      ss, last, nibble := [], [], 0;
      assert src == Encode(ss, last, nibble);
    } else {
      ss, last, nibble := ParseFrom(src, 0, [], cap);
      assert src[0..] == src;
    }
  }

  /** The end rules are sufficient but not enforced: the shortcut lets a match run
      to the very end of the buffer. Seventeen bytes of sequence and an empty last
      run fill 32 bytes, the last 18 of them from a match. */
  lemma ShortcutSkipsEndRules(lits: seq<byte>)
    requires |lits| == 14
    ensures var ss := [Sequence(lits, 14, 18)];
            && AllFit(ss) && InRange(0, ss) && !EndRules(ss, 0, 32)
            && Decode(Encode(ss, []), 32) == Block(Expand(ss, []))
  {
    hide CopyMatch, Decode, Ext, EncodeSequence;
    var ss := [Sequence(lits, 14, 18)];
    assert Accepted(ss[1..], [], 32, 32);
    assert SequenceAccepted(ss[0], 0, 1, 32);
    DecodeEncode(ss, [], 0, 32);
  }

  // ---------------------------------------------- building a block up

  lemma {:induction false} ExpandLength(out: seq<byte>, ss: seq<Sequence>)
    requires InRange(|out|, ss)
    ensures |ExpandFrom(out, ss)| == OutputLen(ss, |out|)
    decreases |ss|
  {
    if ss != [] {
      ExpandLength(Apply(out, ss[0]), ss[1..]);
    }
  }

  lemma {:induction false} EncodeAppend(ss: seq<Sequence>, s: Sequence)
    requires AllFit(ss) && SequenceFits(s)
    ensures AllFit(ss + [s]) && EncodeAll(ss + [s]) == EncodeAll(ss) + EncodeSequence(s)
  {
    hide EncodeSequence;
    if ss == [] {
      assert EncodeAll([]) == [] && EncodeAll([s][1..]) == [];
      assert EncodeAll([s]) == EncodeSequence(s) + EncodeAll([s][1..]);
    } else {
      EncodeAppend(ss[1..], s);
      assert (ss + [s])[1..] == ss[1..] + [s];
    }
  }

  lemma {:induction false} RulesAppend(ss: seq<Sequence>, s: Sequence, outLen: nat, total: nat)
    ensures OutputLen(ss + [s], outLen) == OutputLen(ss, outLen) + |s.lits| + s.matchLen
    ensures InRange(outLen, ss + [s]) <==> InRange(outLen, ss) && s.offset <= OutputLen(ss, outLen) + |s.lits|
    ensures EndRules(ss + [s], outLen, total) <==> EndRules(ss, outLen, total) && EndRules([s], OutputLen(ss, outLen), total)
    decreases |ss|
  {
    if ss == [] {
      assert ss + [s] == [s];
      assert OutputLen([s][1..], outLen + |s.lits| + s.matchLen) == outLen + |s.lits| + s.matchLen;
    } else {
      RulesAppend(ss[1..], s, outLen + |ss[0].lits| + ss[0].matchLen, total);
      assert (ss + [s])[1..] == ss[1..] + [s];
    }
  }

  lemma {:induction false} ExpandAppend(out: seq<byte>, ss: seq<Sequence>, s: Sequence)
    requires InRange(|out|, ss) && InRange(|out|, ss + [s])
    ensures s.offset <= |ExpandFrom(out, ss)| + |s.lits|
    ensures ExpandFrom(out, ss + [s]) == Apply(ExpandFrom(out, ss), s)
    decreases |ss|
  {
    hide Apply;
    if ss == [] {
      assert ss + [s] == [s] && ExpandFrom(Apply(out, s), [s][1..]) == Apply(out, s);
    } else {
      assert (ss + [s])[1..] == ss[1..] + [s];
      ExpandAppend(Apply(out, ss[0]), ss[1..], s);
    }
  }
}
