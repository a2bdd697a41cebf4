/**
  The name mapping of Utf8Names byte by byte: the UTF-8 sequences of section 4 of
  RFC 3629, what becomes of each character, and which names are safe.
*/
module Utf8Rules {
  import opened Bytes
  import opened Utf8Names

  // ---------------------------------------------------------- sequences

  /** A continuation byte. */
  predicate IsTail(s: Text, i: nat) {
    i < |s| && 0x80 <= s[i] <= 0xBF
  }

  /** The grammar of RFC 3629: which bytes begin a sequence of each length. */
  lemma Sequences(s: Text, i: nat)
    requires i < |s|
    ensures SeqAt(s, i).0 == 1 <==> s[i] <= 0x7F
    ensures SeqAt(s, i).0 == 2 <==> 0xC2 <= s[i] <= 0xDF && IsTail(s, i + 1)
    ensures SeqAt(s, i).0 == 3 <==>
              && i + 1 < |s| && IsTail(s, i + 2)
              && (|| (s[i] == 0xE0 && 0xA0 <= s[i + 1] <= 0xBF)
                  || (0xE1 <= s[i] <= 0xEC && IsTail(s, i + 1))
                  || (s[i] == 0xED && 0x80 <= s[i + 1] <= 0x9F)
                  || (0xEE <= s[i] <= 0xEF && IsTail(s, i + 1)))
    ensures SeqAt(s, i).0 == 4 <==>
              && i + 1 < |s| && IsTail(s, i + 2) && IsTail(s, i + 3)
              && (|| (s[i] == 0xF0 && 0x90 <= s[i + 1] <= 0xBF)
                  || (0xF1 <= s[i] <= 0xF3 && IsTail(s, i + 1))
                  || (s[i] == 0xF4 && 0x80 <= s[i + 1] <= 0x8F))
    ensures SeqAt(s, i).0 in {0, 1, 2, 3, 4}
  {
  }

  /** The number a sequence stands for: the low bits of its bytes, one after the other. */
  lemma CodePoints(s: Text, i: nat)
    requires i < |s|
    ensures var (n, cp) := SeqAt(s, i);
            && (n == 1 ==> cp == s[i])
            && (n == 2 ==> cp == s[i] as int % 0x20 * 0x40 + s[i + 1] as int % 0x40)
            && (n == 3 ==> cp == s[i] as int % 0x10 * 0x1000 + s[i + 1] as int % 0x40 * 0x40 + s[i + 2] as int % 0x40)
            && (n == 4 ==> cp == s[i] as int % 8 * 0x4_0000 + s[i + 1] as int % 0x40 * 0x1000
                                 + s[i + 2] as int % 0x40 * 0x40 + s[i + 3] as int % 0x40)
  {
  }

  // -------------------------------------------------------- the mapping

  /** Latin-1 as UTF-8: a byte from 0x80 on becomes two. */
  function Spread(d: Text): (w: Text) {
    if d == [] then []
    else (if d[0] < 0x80 then [d[0]] else [0xC0 + d[0] / 0x40, 0x80 + d[0] % 0x40]) + Spread(d[1..])
  }

  lemma {:induction false} SpreadIs(d: Text)
    ensures Utf8All(Points(d)) == Spread(d)
  {
    if d != [] {
      SpreadIs(d[1..]);
      assert Points(d)[1..] == Points(d[1..]);
    }
  }

  /** To the disk: what is Latin-1 written as UTF-8 becomes Latin-1; anything else stays. */
  lemma ToLocalIs(c: Text, d: Text)
    ensures c == Spread(d) ==> ToLocal(c) == d
    ensures ToLocal(c) == c || Spread(ToLocal(c)) == c
  {
    SpreadIs(d);
    DecodesExactly(Spread(d), Points(d));
    if c == Spread(d) {
      assert Latin1(Points(d)) == d;
    }
    if Class(c) == 1 {
      var cps := DecodeFrom(c, 0).value;
      DecodesExactly(c, cps);
      SpreadIs(Latin1(cps));
      assert Points(Latin1(cps)) == cps;
    }
  }

  /** From the disk: what reads as UTF-8 with a character beyond Latin-1 stays, for it
      cannot have come from a name of the other kind; all else is spread. */
  lemma FromLocalIs(d: Text)
    ensures FromLocal(d) ==
            if exists cps :: AllScalar(cps) && d == Utf8All(cps) && exists k :: 0 <= k < |cps| && cps[k] > 0xFF
            then d else Spread(d)
  {
    SpreadIs(d);
    hide Utf8All;
    if Class(d) == 2 {
      DecodesExactly(d, DecodeFrom(d, 0).value);
    }
    if cps :| AllScalar(cps) && d == Utf8All(cps) && exists k :: 0 <= k < |cps| && cps[k] > 0xFF {
      DecodesExactly(d, cps);
    }
  }

  // ---------------------------------------------------------- safe names

  /** The bytes from a to b stand between two slashes, or the ends. */
  predicate Between(s: Text, a: int, b: int): (r: bool)
    ensures r ==> 0 <= a <= b <= |s|
  {
    0 <= a <= b <= |s| && (a == 0 || s[a - 1] == 0x2F) && (b == |s| || s[b] == 0x2F) && 0x2F !in s[a..b]
  }

  lemma SliceOfRest(s: Text, n: nat, a: nat, b: nat)
    requires a <= b && n + b <= |s|
    ensures s[n..][a..b] == s[n + a..n + b]
  {
  }

  lemma BetweenFirst(s: Text, a: int, b: int)
    requires Between(s, a, b)
    ensures var e := EndOf(s);
            (a == 0 && b == e) || (e < a && Between(s[e + 1..], a - e - 1, b - e - 1) && s[e + 1..][a - e - 1..b - e - 1] == s[a..b])
  {
    var e := EndOf(s);
    if a == 0 {
      EndIs(s, b);
    } else {
      NotBefore(s, a);
      SliceOfRest(s, e + 1, a - e - 1, b - e - 1);
    }
  }

  lemma NotBefore(s: Text, a: nat)
    requires 0 < a <= |s| && s[a - 1] == 0x2F
    ensures EndOf(s) < a
  {
    assert forall k :: 0 <= k < EndOf(s) ==> s[..EndOf(s)][k] == s[k];
  }

  lemma BetweenLater(s: Text, e: nat, a: int, b: int)
    requires e < |s| && s[e] == 0x2F && Between(s[e + 1..], a, b)
    ensures Between(s, a + e + 1, b + e + 1) && s[a + e + 1..b + e + 1] == s[e + 1..][a..b]
  {
    var rest := s[e + 1..];
    SliceOfRest(s, e + 1, a, b);
    assert a > 0 ==> rest[a - 1] == s[a + e];
    assert b < |rest| ==> rest[b] == s[b + e + 1];
  }

  ghost predicate AllSafe(s: Text) {
    forall a, b :: Between(s, a, b) ==> SafeComponent(s[a..b])
  }

  lemma FirstBetween(s: Text)
    ensures Between(s, 0, EndOf(s)) && s[0..EndOf(s)] == s[..EndOf(s)]
  {
  }

  lemma AllSafeLater(s: Text)
    ensures EndOf(s) == |s| ==> (AllSafe(s) <==> SafeComponent(s))
    ensures EndOf(s) < |s| ==> (AllSafe(s) <==> SafeComponent(s[..EndOf(s)]) && AllSafe(s[EndOf(s) + 1..]))
  {
    hide SafeComponent, Between, EndOf;
    var e := EndOf(s);
    FirstBetween(s);
    if e < |s| {
      var rest := s[e + 1..];
      if AllSafe(s) {
        forall a, b | Between(rest, a, b) ensures SafeComponent(rest[a..b]) {
          BetweenLater(s, e, a, b);
        }
      }
      if SafeComponent(s[..e]) && AllSafe(rest) {
        forall a, b | Between(s, a, b) ensures SafeComponent(s[a..b]) {
          BetweenFirst(s, a, b);
          if a == 0 && b == e {
            assert s[a..b] == s[..e];
          }
        }
      }
    } else {
      assert s[..e] == s;
      forall a, b | Between(s, a, b) ensures s[a..b] == s {
        BetweenFirst(s, a, b);
      }
    }
  }

  lemma {:induction false} SafeSegments(s: Text)
    ensures SafeName(s) <==> AllSafe(s)
    decreases |s|
  {
    hide SafeComponent, SafeName, AllSafe;
    SafeTail(s);
    AllSafeLater(s);
    if EndOf(s) < |s| {
      SafeSegments(s[EndOf(s) + 1..]);
    }
  }

  /** A safe name: between any two slashes something stands, neither one dot nor two,
      without a colon and without a backslash. */
  lemma SafeNames(s: Text)
    ensures SafeName(s) <==>
              forall a, b :: Between(s, a, b) ==>
                var c := s[a..b]; |c| > 0 && c != [0x2E] && c != [0x2E, 0x2E] && 0x3A !in c && 0x5C !in c
  {
    hide SafeName;
    SafeSegments(s);
  }

  lemma SafeTail(s: Text)
    ensures EndOf(s) == |s| ==> (SafeName(s) <==> SafeComponent(s))
    ensures EndOf(s) < |s| ==> (SafeName(s) <==> SafeComponent(s[..EndOf(s)]) && SafeName(s[EndOf(s) + 1..]))
  {
    hide SafeComponent;
    FirstComponent(s);
    if EndOf(s) == |s| {
      return;
    }
    var cs, rest := Components(s), Components(s[EndOf(s) + 1..]);
    assert cs[1..] == rest;
    assert forall k :: 0 <= k < |rest| ==> cs[k + 1] == rest[k];
    assert forall k :: 0 < k < |cs| ==> cs[k] == rest[k - 1];
  }
}
