/**
  Device IDs character by character: the alphabet and the bits each character carries
  (section 6 of RFC 4648), the check characters, and which texts are IDs.
*/
module DeviceIdText {
  import opened Bytes
  import opened DeviceId

  // ------------------------------------------------------------ characters

  lemma AlphabetIs(v: nat)
    requires v < 32
    ensures Symbol(v) == "ABCDEFGHIJKLMNOPQRSTUVWXYZ234567"[v] as int
  {
    if v < 26 {
      assert "ABCDEFGHIJKLMNOPQRSTUVWXYZ234567"[v] as int == 0x41 + v by {
        Letters(v);
      }
    } else {
      assert v in {26, 27, 28, 29, 30, 31};
    }
  }

  lemma Letters(v: nat)
    requires v < 26
    ensures "ABCDEFGHIJKLMNOPQRSTUVWXYZ234567"[v] as int == 0x41 + v
  {
    assert v in {0, 1, 2, 3, 4, 5, 6, 7, 8, 9, 10, 11, 12, 13, 14, 15, 16, 17, 18, 19, 20, 21, 22, 23, 24, 25};
  }

  /** Spaces and dashes anywhere, and small letters for large ones, make no difference. */
  lemma SeparatorsIgnored(a: Text, c: byte, b: Text)
    ensures c in {0x2D, 0x20, 0x09, 0x0A, 0x0B, 0x0C, 0x0D} ==> Normalized(a + [c] + b) == Normalized(a + b)
    ensures 0x61 <= c <= 0x7A ==> Normalized(a + [c] + b) == Normalized(a + [c - 0x20] + b)
  {
    WritingIsFree(a, c, b);
  }

  /** Any other character but the 32 of the alphabet and they alone makes a text no ID. */
  lemma ForeignRefused(a: Text, c: byte, b: Text)
    requires c !in {0x2D, 0x20, 0x09, 0x0A, 0x0B, 0x0C, 0x0D}
    requires !(0x41 <= c <= 0x5A) && !(0x61 <= c <= 0x7A) && !(0x32 <= c <= 0x37)
    ensures Normalized(a + [c] + b) == None
  {
    KeptConcat(a + [c], b);
    KeptConcat(a, [c]);
    assert Kept([c]) == [c] + Kept([c][1..]) == [c];
    assert Kept(a + [c] + b)[|Kept(a)|] == c;
  }

  // ----------------------------------------------------------- the checks

  lemma TwoMore(vs: seq<nat>)
    requires |vs| >= 2 && vs[0] < 32 && vs[1] < 32
    ensures LuhnSum(vs, 1) == vs[0] + (if vs[1] < 16 then 2 * vs[1] else 2 * vs[1] - 31) + LuhnSum(vs[2..], 1)
  {
    FoldTwo(vs[0]);
    FoldTwo(vs[1]);
    assert vs[1..][1..] == vs[2..];
  }

  /** The check of thirteen symbols brings their weighted sum to a multiple of 32: every
      second symbol counts twice, less 31 where that exceeds 31. */
  lemma CheckBalances(vs: seq<nat>)
    requires |vs| == 13 && AllDigits(vs)
    ensures var d := (v: nat) => if v < 16 then 2 * v else 2 * v - 31;
            (Check(vs) + vs[0] + d(vs[1]) + vs[2] + d(vs[3]) + vs[4] + d(vs[5]) + vs[6] + d(vs[7]) + vs[8] + d(vs[9])
             + vs[10] + d(vs[11]) + vs[12]) % 32 == 0
  {
    hide LuhnSum;
    var d := (v: nat) => if v < 16 then 2 * v else 2 * v - 31;
    assert LuhnSum(vs, 1) == vs[0] + d(vs[1]) + vs[2] + d(vs[3]) + vs[4] + d(vs[5]) + LuhnSum(vs[6..], 1) by {
      TwoMore(vs);
      TwoMore(vs[2..]);
      TwoMore(vs[4..]);
      assert vs[2..][2..] == vs[4..] && vs[4..][2..] == vs[6..];
    }
    assert LuhnSum(vs[6..], 1) == vs[6] + d(vs[7]) + vs[8] + d(vs[9]) + vs[10] + d(vs[11]) + vs[12] by {
      TwoMore(vs[6..]);
      TwoMore(vs[8..]);
      TwoMore(vs[10..]);
      assert vs[6..][2..] == vs[8..] && vs[8..][2..] == vs[10..] && vs[10..][2..] == vs[12..];
      LastOne(vs[12..]);
    }
    Completes(LuhnSum(vs, 1));
  }

  lemma LastOne(vs: seq<nat>)
    requires |vs| == 1 && vs[0] < 32
    ensures LuhnSum(vs, 1) == vs[0]
  {
    FoldTwo(vs[0]);
  }

  lemma Completes(n: nat)
    ensures ((32 - n % 32) % 32 + n) % 32 == 0
  {
  }

  /** And it is the only symbol that does. */
  lemma CheckIsOnly(sum: nat, a: nat, b: nat)
    requires a < 32 && b < 32 && (a + sum) % 32 == 0 && (b + sum) % 32 == 0
    ensures a == b
  {
  }

  // --------------------------------------------------------- the whole text

  /** An ID is 56 characters of the alphabet, four times thirteen and their check. */
  lemma CanonicalText(c: Text)
    ensures IsCanonical(c) <==>
              && |c| == 56 && (forall k :: 0 <= k < 56 ==> 0x41 <= c[k] <= 0x5A || 0x32 <= c[k] <= 0x37)
              && forall i :: 0 <= i < 4 ==> CheckAt(c, i)
    ensures |c| == 56 && AllInAlphabet(c) ==>
              forall i :: 0 <= i < 4 ==>
                (CheckAt(c, i) <==> Index(c[14 * i + 13]) == Check(Values(c[14 * i..14 * i + 13])))
  {
    if |c| == 56 && AllInAlphabet(c) {
      forall i | 0 <= i < 4
        ensures CheckAt(c, i) <==> Index(c[14 * i + 13]) == Check(Values(c[14 * i..14 * i + 13]))
      {
        IndexOfSymbol(Check(Values(c[14 * i..14 * i + 13])));
      }
    }
  }

  lemma {:induction false} GroupAt(c: Text, n: nat, k: nat)
    requires |c| == 7 * n && k < n
    ensures |Grouped(c)| == 8 * n - 1
    ensures Grouped(c)[8 * k..8 * k + 7] == c[7 * k..7 * k + 7]
    ensures k + 1 < n ==> Grouped(c)[8 * k + 7] == 0x2D
    decreases n
  {
    if n > 1 {
      var rest := c[7..];
      if k > 0 {
        GroupAt(rest, n - 1, k - 1);
        assert Grouped(c)[8 * k..8 * k + 7] == Grouped(rest)[8 * (k - 1)..8 * (k - 1) + 7];
        assert rest[7 * (k - 1)..7 * (k - 1) + 7] == c[7 * k..7 * k + 7];
      } else {
        GroupAt(rest, n - 1, 0);
      }
    }
  }

  /** It is shown as eight groups of seven with dashes between them. */
  lemma ShownInGroups(c: Text, k: nat)
    requires |c| == 56 && k < 8
    ensures |Grouped(c)| == 63 && Grouped(c)[8 * k..8 * k + 7] == c[7 * k..7 * k + 7]
    ensures k < 7 ==> Grouped(c)[8 * k + 7] == 0x2D
  {
    GroupAt(c, 8, k);
  }

  // ------------------------------------------------------------- the bits

  /** The eight symbols of five bytes. */
  function Eight(a: byte, b: byte, c: byte, d: byte, e: byte): (vs: seq<nat>)
    ensures |vs| == 8 && AllDigits(vs)
  {
    [a / 8, a % 8 * 4 + b / 64, b / 2 % 32, b % 2 * 16 + c / 16, c % 16 * 2 + d / 128, d / 4 % 32, d % 4 * 8 + e / 32, e % 32]
  }

  lemma Halves(b: byte)
    ensures b / 64 * 32 + b / 2 % 32 == b / 2 && b / 4 == b / 128 * 32 + b / 4 % 32 && b == b / 32 * 32 + b % 32
  {
  }

  lemma FiveBytes(a: byte, b: byte, c: byte, d: byte, e: byte)
    ensures ((((a / 8 * 32 + (a % 8 * 4 + b / 64)) * 32 + b / 2 % 32) * 32 + (b % 2 * 16 + c / 16)) * 32
             + (c % 16 * 2 + d / 128)) * 0x8000 + (d / 4 % 32 * 0x400 + (d % 4 * 8 + e / 32) * 32 + e % 32)
            == (((a as int * 256 + b) * 256 + c) * 256 + d) * 256 + e
  {
    assert a == a / 8 * 8 + a % 8;
    Halves(b);
    Halves(d);
    Halves(e);
    assert (a / 8 * 32 + (a % 8 * 4 + b / 64)) * 32 + b / 2 % 32 == a as int * 128 + b / 2;
    assert b == b / 2 * 2 + b % 2 && c == c / 16 * 16 + c % 16 && d == d / 4 * 4 + d % 4;
  }

  /** Five bytes and their eight symbols, behind the same number. */
  lemma EightStand(b: seq<byte>, vs: seq<nat>, g: seq<byte>)
    requires BytesVal(b) == DigitsVal(vs) && |g| == 5
    ensures BytesVal(b + g) == DigitsVal(vs + Eight(g[0], g[1], g[2], g[3], g[4]))
  {
    var w := Eight(g[0], g[1], g[2], g[3], g[4]);
    hide BytesVal, DigitsVal;
    ByteSnoc(b, g[0]);
    ByteSnoc(b + [g[0]], g[1]);
    ByteSnoc(b + [g[0]] + [g[1]], g[2]);
    ByteSnoc(b + [g[0]] + [g[1]] + [g[2]], g[3]);
    ByteSnoc(b + [g[0]] + [g[1]] + [g[2]] + [g[3]], g[4]);
    assert b + g == b + [g[0]] + [g[1]] + [g[2]] + [g[3]] + [g[4]];
    EightDigits(vs, w);
    FiveBytes(g[0], g[1], g[2], g[3], g[4]);
  }

  lemma EightDigits(vs: seq<nat>, w: seq<nat>)
    requires |w| == 8
    ensures DigitsVal(vs + w) == 0x100_0000_0000 * DigitsVal(vs)
            + ((((w[0] * 32 + w[1]) * 32 + w[2]) * 32 + w[3]) * 32 + w[4]) * 0x8000 + (w[5] * 0x400 + w[6] * 32 + w[7])
  {
    hide DigitsVal;
    DigitSnoc(vs, w[0]);
    DigitSnoc(vs + [w[0]], w[1]);
    DigitSnoc(vs + [w[0]] + [w[1]], w[2]);
    DigitSnoc(vs + [w[0]] + [w[1]] + [w[2]], w[3]);
    var u := vs + [w[0]] + [w[1]] + [w[2]] + [w[3]];
    DigitSnoc(u, w[4]);
    DigitSnoc(u + [w[4]], w[5]);
    DigitSnoc(u + [w[4]] + [w[5]], w[6]);
    DigitSnoc(u + [w[4]] + [w[5]] + [w[6]], w[7]);
    assert vs + w == u + [w[4]] + [w[5]] + [w[6]] + [w[7]];
  }

  /** The symbols of n groups of five bytes. */
  function Groups(b: seq<byte>, n: nat): (vs: seq<nat>)
    requires |b| >= 5 * n
    ensures |vs| == 8 * n && AllDigits(vs)
  {
    if n == 0 then []
    else Groups(b, n - 1) + Eight(b[5 * n - 5], b[5 * n - 4], b[5 * n - 3], b[5 * n - 2], b[5 * n - 1])
  }

  lemma {:induction false} GroupsStand(b: seq<byte>, n: nat)
    requires |b| >= 5 * n
    ensures BytesVal(b[..5 * n]) == DigitsVal(Groups(b, n))
  {
    if n == 0 {
      EmptyVals();
      assert b[..0] == [];
    } else {
      GroupsStand(b, n - 1);
      var g := b[5 * n - 5..5 * n];
      EightStand(b[..5 * n - 5], Groups(b, n - 1), g);
      assert b[..5 * n - 5] + g == b[..5 * n];
    }
  }

  lemma {:induction false} GroupsAt(b: seq<byte>, n: nat, g: nat)
    requires |b| >= 5 * n && g < n
    ensures Groups(b, n)[8 * g..8 * g + 8] == Eight(b[5 * g], b[5 * g + 1], b[5 * g + 2], b[5 * g + 3], b[5 * g + 4])
  {
    hide Eight;
    if g < n - 1 {
      GroupsAt(b, n - 1, g);
      assert Groups(b, n)[8 * g..8 * g + 8] == Groups(b, n - 1)[8 * g..8 * g + 8];
    }
  }

  /** The two bytes left over, in three symbols and one bit. */
  lemma TwoStand(b: seq<byte>, vs: seq<nat>, x: byte, y: byte)
    requires BytesVal(b) == DigitsVal(vs)
    ensures 16 * BytesVal(b + [x] + [y]) == DigitsVal(vs + [x / 8, x % 8 * 4 + y / 64, y / 2 % 32, y % 2 * 16])
  {
    var w: seq<nat> := [x / 8, x % 8 * 4 + y / 64, y / 2 % 32, y % 2 * 16];
    hide BytesVal, DigitsVal;
    ByteSnoc(b, x);
    ByteSnoc(b + [x], y);
    DigitSnoc(vs, w[0]);
    DigitSnoc(vs + [w[0]], w[1]);
    DigitSnoc(vs + [w[0]] + [w[1]], w[2]);
    DigitSnoc(vs + [w[0]] + [w[1]] + [w[2]], w[3]);
    assert vs + w == vs + [w[0]] + [w[1]] + [w[2]] + [w[3]];
    TwoBytes(BytesVal(b), x, y);
  }

  lemma TwoBytes(n: nat, x: byte, y: byte)
    ensures 16 * (256 * (256 * n + x) + y) == 32 * (32 * (32 * (32 * n + x / 8) + (x % 8 * 4 + y / 64)) + y / 2 % 32) + y % 2 * 16
  {
  }

  /** Which bits of the hash each of the 52 symbols carries: five at a time, from the top
      of the first byte on, four zero bits at the end. */
  lemma SymbolBits(hash: seq<byte>, vs: seq<nat>, g: nat)
    requires |hash| == 32 && |vs| == 52 && AllDigits(vs) && DigitsVal(vs) == 16 * BytesVal(hash) && g < 6
    ensures var a, b, c, d, e := hash[5 * g], hash[5 * g + 1], hash[5 * g + 2], hash[5 * g + 3], hash[5 * g + 4];
            vs[8 * g..8 * g + 8] == [a / 8, a % 8 * 4 + b / 64, b / 2 % 32, b % 2 * 16 + c / 16, c % 16 * 2 + d / 128,
                                     d / 4 % 32, d % 4 * 8 + e / 32, e % 32]
    ensures vs[48..] == [hash[30] / 8, hash[30] % 8 * 4 + hash[31] / 64, hash[31] / 2 % 32, hash[31] % 2 * 16]
  {
    var ws: seq<nat> := Groups(hash, 6) +
                        [hash[30] / 8, hash[30] % 8 * 4 + hash[31] / 64, hash[31] / 2 % 32, hash[31] % 2 * 16];
    hide Groups, Eight, BytesVal, DigitsVal;
    GroupsStand(hash, 6);
    TwoStand(hash[..30], Groups(hash, 6), hash[30], hash[31]);
    assert hash[..30] + [hash[30]] + [hash[31]] == hash;
    DigitsInjective(vs, ws);
    GroupsAt(hash, 6, g);
    SliceOfFront(Groups(hash, 6), ws[48..], 8 * g, 8 * g + 8);
    EightIs(hash[5 * g], hash[5 * g + 1], hash[5 * g + 2], hash[5 * g + 3], hash[5 * g + 4]);
  }

  lemma SliceOfFront(a: seq<nat>, b: seq<nat>, lo: nat, hi: nat)
    requires lo <= hi <= |a|
    ensures (a + b)[lo..hi] == a[lo..hi] && (a + b)[|a|..] == b
  {
  }

  lemma EightIs(a: byte, b: byte, c: byte, d: byte, e: byte)
    ensures Eight(a, b, c, d, e) == [a / 8, a % 8 * 4 + b / 64, b / 2 % 32, b % 2 * 16 + c / 16, c % 16 * 2 + d / 128,
                                     d / 4 % 32, d % 4 * 8 + e / 32, e % 32]
  {
  }
}
