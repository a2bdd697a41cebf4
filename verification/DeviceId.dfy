/**
  Device IDs (src/device_id.c): 32 bytes as base32 (section 6 of RFC 4648) in four
  chunks of thirteen characters, each with a Luhn check character over 32 symbols.
*/
module DeviceId {
  import opened Bytes
  import opened Division

  type Text = seq<byte>

  const DASH: byte := 0x2D

  // ------------------------------------------------------------ characters

  /** B32_ALPHA */
  function Symbol(v: nat): (c: byte)
    requires v < 32
  {
    if v < 26 then 0x41 + v else 0x32 + (v - 26)
  }

  predicate InAlphabet(c: byte) {
    0x41 <= c <= 0x5A || 0x32 <= c <= 0x37
  }

  /** b32_index of a character of the alphabet. */
  function Index(c: byte): (v: nat)
    requires InAlphabet(c)
    ensures v < 32 && Symbol(v) == c
  {
    if c >= 0x41 then c - 0x41 else 26 + (c - 0x32)
  }

  lemma IndexOfSymbol(v: nat)
    requires v < 32
    ensures InAlphabet(Symbol(v)) && Index(Symbol(v)) == v
  {
  }

  function Upper(c: byte): byte {
    if 0x61 <= c <= 0x7A then c - 0x20 else c
  }

  predicate Skipped(c: byte) {
    c == DASH || c == 0x20 || 0x09 <= c <= 0x0D
  }

  predicate AllInAlphabet(s: Text) {
    forall k :: 0 <= k < |s| ==> InAlphabet(s[k])
  }

  function Values(s: Text): (vs: seq<nat>)
    requires AllInAlphabet(s)
    ensures |vs| == |s| && AllDigits(vs)
  {
    seq(|s|, k requires 0 <= k < |s| => Index(s[k]))
  }

  predicate AllDigits(vs: seq<nat>) {
    forall k :: 0 <= k < |vs| ==> vs[k] < 32
  }

  function Symbols(vs: seq<nat>): (s: Text)
    requires AllDigits(vs)
    ensures |s| == |vs| && AllInAlphabet(s)
  {
    seq(|vs|, k requires 0 <= k < |vs| => Symbol(vs[k]))
  }

  // ------------------------------------------------------- the Luhn check

  function Fold(product: nat): nat {
    product / 32 + product % 32
  }

  function LuhnSum(vs: seq<nat>, factor: nat): nat
    requires factor == 1 || factor == 2
  {
    if vs == [] then 0 else Fold(factor * vs[0]) + LuhnSum(vs[1..], 3 - factor)
  }

  function Check(vs: seq<nat>): (v: nat)
    ensures v < 32
  {
    (32 - LuhnSum(vs, 1) % 32) % 32
  }

  /** luhn32 */
  method Luhn32(s: Text) returns (c: byte)
    requires AllInAlphabet(s)
    ensures c == Symbol(Check(Values(s)))
  {
    ghost var vs := Values(s);
    var factor, sum := 1, 0;
    for i := 0 to |s|
      invariant factor == 1 || factor == 2
      invariant sum + LuhnSum(vs[i..], factor) == LuhnSum(vs, 1)
    {
      var addend := factor * Index(s[i]);
      assert vs[i..][1..] == vs[i + 1..];
      factor := if factor == 2 then 1 else 2;
      addend := addend / 32 + addend % 32;
      sum := sum + addend;
    }
    c := Symbol((32 - sum % 32) % 32);
  }

  lemma Congruent(x: int, y: int)
    requires -64 < x - y < 64
    ensures x % 32 == y % 32 <==> x - y == -32 || x == y || x - y == 32
  {
  }

  lemma FoldTwo(v: nat)
    requires v < 32
    ensures Fold(1 * v) == v && Fold(2 * v) == if v < 16 then 2 * v else 2 * v - 31
  {
  }

  lemma SameCheck(a: seq<nat>, b: seq<nat>)
    ensures Check(a) == Check(b) <==> LuhnSum(a, 1) % 32 == LuhnSum(b, 1) % 32
  {
    hide LuhnSum;
    Complement(LuhnSum(a, 1) % 32);
    Complement(LuhnSum(b, 1) % 32);
  }

  lemma Complement(m: nat)
    requires m < 32
    ensures (32 - m) % 32 == if m == 0 then 0 else 32 - m
  {
  }

  /** Both weights are bijections of the 32 symbols. */
  lemma FoldInjective(factor: nat, a: nat, b: nat)
    requires (factor == 1 || factor == 2) && a < 32 && b < 32
    ensures Fold(factor * a) < 32 && (Fold(factor * a) == Fold(factor * b) <==> a == b)
  {
    hide Fold;
    FoldTwo(a);
    FoldTwo(b);
  }

  function FactorAt(factor: nat, i: nat): nat
    requires factor == 1 || factor == 2
  {
    if i % 2 == 0 then factor else 3 - factor
  }

  lemma {:induction false} SumChanged(vs: seq<nat>, factor: nat, i: nat, x: nat)
    requires (factor == 1 || factor == 2) && i < |vs|
    ensures LuhnSum(vs[i := x], factor) - LuhnSum(vs, factor) ==
            Fold(FactorAt(factor, i) * x) - Fold(FactorAt(factor, i) * vs[i])
  {
    hide Fold;
    var vs' := vs[i := x];
    if i == 0 {
      assert vs'[1..] == vs[1..];
    } else {
      assert vs'[1..] == vs[1..][i - 1 := x];
      SumChanged(vs[1..], 3 - factor, i - 1, x);
    }
  }

  /** One symbol changed changes the check. */
  lemma ChangeSeen(vs: seq<nat>, i: nat, x: nat)
    requires AllDigits(vs) && i < |vs| && x < 32
    ensures Check(vs[i := x]) == Check(vs) <==> x == vs[i]
  {
    hide Fold, LuhnSum, Check;
    SumChanged(vs, 1, i, x);
    FoldInjective(FactorAt(1, i), x, vs[i]);
    FoldInjective(FactorAt(1, i), vs[i], x);
    Congruent(LuhnSum(vs[i := x], 1), LuhnSum(vs, 1));
    SameCheck(vs[i := x], vs);
  }

  function Swapped<T>(s: seq<T>, i: nat): (r: seq<T>)
    requires i + 1 < |s|
    ensures |r| == |s|
  {
    s[i := s[i + 1]][i + 1 := s[i]]
  }

  /** The values of A and 7. */
  predicate TheBlindPair(a: nat, b: nat) {
    (a == 0 && b == 31) || (a == 31 && b == 0)
  }

  lemma PairSums(a: nat, b: nat, f: nat)
    requires a < 32 && b < 32 && (f == 1 || f == 2)
    ensures var x, y := Fold(f * a) + Fold((3 - f) * b), Fold(f * b) + Fold((3 - f) * a);
            -64 < x - y < 64 && (x - y == -32 || x == y || x - y == 32 <==> a == b || TheBlindPair(a, b))
  {
    hide Fold;
    FoldTwo(a);
    FoldTwo(b);
  }

  lemma {:induction false} SumSwapped(vs: seq<nat>, factor: nat, i: nat)
    requires (factor == 1 || factor == 2) && i + 1 < |vs|
    ensures var f := FactorAt(factor, i);
            LuhnSum(Swapped(vs, i), factor) - LuhnSum(vs, factor) ==
            Fold(f * vs[i + 1]) + Fold((3 - f) * vs[i]) - Fold(f * vs[i]) - Fold((3 - f) * vs[i + 1])
  {
    hide Fold;
    SumChanged(vs, factor, i, vs[i + 1]);
    SumChanged(vs[i := vs[i + 1]], factor, i + 1, vs[i]);
  }

  /** Two neighbours swapped change the check unless they are the same, or A and 7. */
  lemma SwapSeen(vs: seq<nat>, i: nat)
    requires AllDigits(vs) && i + 1 < |vs|
    ensures Check(Swapped(vs, i)) == Check(vs) <==> vs[i] == vs[i + 1] || TheBlindPair(vs[i], vs[i + 1])
  {
    hide Fold, Swapped, LuhnSum;
    SumSwapped(vs, 1, i);
    PairSums(vs[i], vs[i + 1], FactorAt(1, i));
    Congruent(LuhnSum(Swapped(vs, i), 1), LuhnSum(vs, 1));
    SameCheck(Swapped(vs, i), vs);
  }

  // ------------------------------------------------------ the written form

  /** The four chunks of a 52-symbol text, each with its check. */
  function Chunk(b32: Text, i: nat): (c: Text)
    requires |b32| == 52 && AllInAlphabet(b32) && i < 4
    ensures |c| == 14 && AllInAlphabet(c)
  {
    b32[13 * i..13 * i + 13] + [Symbol(Check(Values(b32[13 * i..13 * i + 13])))]
  }

  function Canonical(b32: Text): (c: Text)
    requires |b32| == 52 && AllInAlphabet(b32)
    ensures |c| == 56 && AllInAlphabet(c)
  {
    Chunk(b32, 0) + Chunk(b32, 1) + Chunk(b32, 2) + Chunk(b32, 3)
  }

  function Grouped(c: Text): Text
    decreases |c|
  {
    if |c| <= 7 then c else c[..7] + [DASH] + Grouped(c[7..])
  }

  /** What is left of an entered text: the characters that count, in upper case. */
  function Kept(s: Text): Text {
    if s == [] then [] else (if Skipped(s[0]) then [] else [Upper(s[0])]) + Kept(s[1..])
  }

  predicate ChecksOut(c: Text)
    requires |c| == 56 && AllInAlphabet(c)
  {
    forall i :: 0 <= i < 4 ==> CheckAt(c, i)
  }

  predicate CheckAt(c: Text, i: nat)
    requires |c| == 56 && AllInAlphabet(c) && i < 4
  {
    c[14 * i + 13] == Symbol(Check(Values(c[14 * i..14 * i + 13])))
  }

  predicate IsCanonical(c: Text) {
    |c| == 56 && AllInAlphabet(c) && ChecksOut(c)
  }

  /** device_id_normalize */
  function Normalized(s: Text): Option<Text> {
    if IsCanonical(Kept(s)) then Some(Kept(s)) else None
  }

  /** The symbols without the checks. */
  function Data(c: Text): (b32: Text)
    requires |c| == 56
    ensures |b32| == 52
  {
    c[0..13] + c[14..27] + c[28..41] + c[42..55]
  }

  lemma CanonicalIs(b32: Text)
    requires |b32| == 52 && AllInAlphabet(b32)
    ensures IsCanonical(Canonical(b32)) && Data(Canonical(b32)) == b32
  {
    hide Check, Values;
    var c := Canonical(b32);
    assert c[0..13] == b32[0..13] && c[14..27] == b32[13..26] && c[28..41] == b32[26..39] && c[42..55] == b32[39..52];
    assert c[13] == Chunk(b32, 0)[13] && c[27] == Chunk(b32, 1)[13] && c[41] == Chunk(b32, 2)[13] && c[55] == Chunk(b32, 3)[13];
  }

  lemma DataAlphabet(c: Text)
    requires |c| == 56 && AllInAlphabet(c)
    ensures AllInAlphabet(Data(c))
    ensures var b32 := Data(c);
            b32[0..13] == c[0..13] && b32[13..26] == c[14..27] && b32[26..39] == c[28..41] && b32[39..52] == c[42..55]
  {
    hide InAlphabet;
    forall k | 0 <= k < 52 ensures Data(c)[k] == c[k + k / 13] {
    }
  }

  lemma CanonicalOfData(c: Text)
    requires IsCanonical(c)
    ensures AllInAlphabet(Data(c)) && Canonical(Data(c)) == c
  {
    hide Check, Values, Data, InAlphabet;
    var b32 := Data(c);
    DataAlphabet(c);
    assert CheckAt(c, 0) && CheckAt(c, 1) && CheckAt(c, 2) && CheckAt(c, 3);
    assert Chunk(b32, 0) == c[0..14];
    assert Chunk(b32, 1) == c[14..28];
    assert Chunk(b32, 2) == c[28..42];
    assert Chunk(b32, 3) == c[42..56];
  }

  lemma {:induction false} KeptConcat(a: Text, b: Text)
    ensures Kept(a + b) == Kept(a) + Kept(b)
  {
    if a == [] {
      assert a + b == b;
    } else {
      assert (a + b)[1..] == a[1..] + b;
      KeptConcat(a[1..], b);
    }
  }

  lemma {:induction false} KeptAlphabet(s: Text)
    requires AllInAlphabet(s)
    ensures Kept(s) == s
  {
    if s != [] {
      KeptAlphabet(s[1..]);
      assert s == [s[0]] + s[1..];
    }
  }

  lemma {:induction false} KeptGrouped(c: Text)
    requires AllInAlphabet(c)
    ensures Kept(Grouped(c)) == c
    decreases |c|
  {
    if |c| <= 7 {
      KeptAlphabet(c);
    } else {
      KeptAlphabet(c[..7]);
      KeptGrouped(c[7..]);
      KeptConcat(c[..7] + [DASH], Grouped(c[7..]));
      KeptConcat(c[..7], [DASH]);
      assert Kept([DASH]) == [] && c == c[..7] + c[7..];
    }
  }

  /** Dashes, spaces and lower case make no difference, wherever they stand. */
  lemma WritingIsFree(a: Text, c: byte, b: Text)
    ensures Skipped(c) ==> Normalized(a + [c] + b) == Normalized(a + b)
    ensures Normalized(a + [c] + b) == Normalized(a + [Upper(c)] + b)
  {
    hide IsCanonical;
    KeptConcat(a + [c], b);
    KeptConcat(a, [c]);
    KeptConcat(a + [Upper(c)], b);
    KeptConcat(a, [Upper(c)]);
    KeptConcat(a, b);
    assert Kept([c]) == if Skipped(c) then [] else [Upper(c)];
    assert Kept(a) + [] == Kept(a);
    assert Kept([Upper(c)]) == if Skipped(Upper(c)) then [] else [Upper(Upper(c))];
  }

  lemma KeptReplaced(c: Text, i: nat, x: byte)
    requires AllInAlphabet(c) && i < |c|
    ensures Kept(c[i := x]) == if Skipped(x) then c[..i] + c[i + 1..] else c[i := Upper(x)]
  {
    hide InAlphabet;
    assert c[i := x] == c[..i] + [x] + c[i + 1..] && c[i := Upper(x)] == c[..i] + [Upper(x)] + c[i + 1..];
    KeptConcat(c[..i] + [x], c[i + 1..]);
    KeptConcat(c[..i], [x]);
    KeptAlphabet(c[..i]);
    KeptAlphabet(c[i + 1..]);
    assert Kept([x]) == if Skipped(x) then [] else [Upper(x)];
  }

  lemma ValuesSlice(c: Text, lo: nat, i: nat, x: byte)
    requires AllInAlphabet(c) && InAlphabet(x) && lo + 13 <= |c| && lo <= i < lo + 13
    ensures AllInAlphabet(c[i := x][lo..lo + 13])
    ensures Values(c[i := x][lo..lo + 13]) == Values(c[lo..lo + 13])[i - lo := Index(x)]
  {
  }

  lemma SymbolInjective(a: nat, b: nat)
    requires a < 32 && b < 32
    ensures Symbol(a) == Symbol(b) <==> a == b
  {
  }

  lemma ChangeInChunk(c: Text, i: nat, u: byte)
    requires IsCanonical(c) && i < 56 && InAlphabet(u) && u != c[i]
    ensures AllInAlphabet(c[i := u]) && !CheckAt(c[i := u], i / 14)
  {
    hide Check;
    var t, k := c[i := u], i / 14;
    var vs := Values(c[14 * k..14 * k + 13]);
    assert CheckAt(c, k);
    if i % 14 == 13 {
      assert t[14 * k..14 * k + 13] == c[14 * k..14 * k + 13];
    } else {
      ValuesSlice(c, 14 * k, i, u);
      ChangeSeen(vs, i - 14 * k, Index(u));
      SymbolInjective(Check(vs), Check(vs[i - 14 * k := Index(u)]));
      SymbolInjective(Index(u), Index(c[i]));
    }
  }

  /** Any one character of a canonical ID changed to another is refused. */
  lemma OneChangeRefused(c: Text, i: nat, x: byte)
    requires IsCanonical(c) && i < 56
    ensures Normalized(c[i := x]) == None <==> Upper(x) != c[i]
  {
    hide CheckAt, Kept;
    KeptReplaced(c, i, x);
    var u := Upper(x);
    if u == c[i] {
      assert c[i := u] == c;
    } else if !Skipped(x) {
      if InAlphabet(u) {
        ChangeInChunk(c, i, u);
      } else {
        assert !InAlphabet(c[i := u][i]);
      }
    }
  }

  lemma {:induction false} GroupedChars(c: Text, i: nat)
    requires AllInAlphabet(c) && i < |Grouped(c)|
    ensures Grouped(c)[i] == DASH || InAlphabet(Grouped(c)[i])
    decreases |c|
  {
    if |c| > 7 && i >= 8 {
      GroupedChars(c[7..], i - 8);
    }
  }

  /** The same for the text as it is shown: a dash may become another separator and a
      letter its small form; with any other change the ID is refused. */
  lemma ShownChangeRefused(c: Text, i: nat, x: byte)
    requires IsCanonical(c) && i < |Grouped(c)|
    ensures var id := Grouped(c);
            Normalized(id[i := x]) == None <==> if id[i] == DASH then !Skipped(x) else Upper(x) != id[i]
  {
    hide CheckAt, Kept, Grouped;
    var id := Grouped(c);
    var a, b := Kept(id[..i]), Kept(id[i + 1..]);
    GroupedChars(c, i);
    KeptGrouped(c);
    KeptAround(id, i, id[i]);
    KeptAround(id, i, x);
    assert id[i := id[i]] == id;
    if id[i] == DASH {
      assert c == a + b;
      assert Skipped(x) ==> Kept(id[i := x]) == c;
    } else {
      var u := Upper(x);
      assert c == a + [id[i]] + b && c[|a|] == id[i];
      if u == id[i] {
        assert Kept(id[i := x]) == c;
      } else if !Skipped(x) {
        assert a + [u] + b == c[|a| := u];
        if InAlphabet(u) {
          ChangeInChunk(c, |a|, u);
        } else {
          assert !InAlphabet(c[|a| := u][|a|]);
        }
      }
    }
  }

  lemma KeptAround(s: Text, i: nat, x: byte)
    requires i < |s|
    ensures Kept(s[i := x]) == Kept(s[..i]) + (if Skipped(x) then [] else [Upper(x)]) + Kept(s[i + 1..])
  {
    assert s[i := x] == s[..i] + [x] + s[i + 1..];
    KeptConcat(s[..i] + [x], s[i + 1..]);
    KeptConcat(s[..i], [x]);
    assert Kept([x]) == if Skipped(x) then [] else [Upper(x)];
  }

  lemma ValuesSwapped(c: Text, lo: nat, i: nat)
    requires AllInAlphabet(c) && lo + 13 <= |c| && lo <= i && i + 1 < lo + 13
    ensures AllInAlphabet(Swapped(c, i)) && Values(Swapped(c, i)[lo..lo + 13]) == Swapped(Values(c[lo..lo + 13]), i - lo)
  {
  }

  /** Two neighbouring data characters of one chunk swapped are refused, unless they are
      the same or one is A and the other 7. */
  lemma SwapRefused(c: Text, i: nat)
    requires IsCanonical(c) && i + 1 < 56 && i % 14 < 12
    ensures Normalized(Swapped(c, i)) == None <==>
            c[i] != c[i + 1] && !TheBlindPair(Index(c[i]), Index(c[i + 1]))
  {
    hide Check, CheckAt, TheBlindPair;
    var t, k := Swapped(c, i), i / 14;
    SwapInChunk(c, i, k);
    KeptAlphabet(t);
    forall n | 0 <= n < 4 && n != k ensures CheckAt(t, n) {
      OtherChunk(c, i, n);
    }
  }

  lemma OtherChunk(c: Text, i: nat, n: nat)
    requires IsCanonical(c) && i + 1 < 56 && i % 14 < 12 && n < 4 && n != i / 14
    ensures AllInAlphabet(Swapped(c, i)) && CheckAt(Swapped(c, i), n)
  {
    hide Check;
    var t := Swapped(c, i);
    assert CheckAt(c, n);
    assert t[14 * n..14 * n + 13] == c[14 * n..14 * n + 13] && t[14 * n + 13] == c[14 * n + 13];
  }

  lemma SwapInChunk(c: Text, i: nat, k: nat)
    requires IsCanonical(c) && i + 1 < 56 && i % 14 < 12 && k == i / 14
    ensures AllInAlphabet(Swapped(c, i))
    ensures CheckAt(Swapped(c, i), k) <==> c[i] == c[i + 1] || TheBlindPair(Index(c[i]), Index(c[i + 1]))
  {
    hide Check, TheBlindPair;
    var t, lo := Swapped(c, i), 14 * k;
    var vs := Values(c[lo..lo + 13]);
    ValuesSwapped(c, lo, i);
    SwapSeen(vs, i - lo);
    SymbolInjective(Check(vs), Check(Swapped(vs, i - lo)));
    SymbolInjective(Index(c[i]), Index(c[i + 1]));
    assert CheckAt(c, k);
  }

  // ------------------------------------------------------- bytes and digits

  function BytesVal(b: seq<byte>): nat {
    if b == [] then 0 else 256 * BytesVal(b[..|b| - 1]) + b[|b| - 1]
  }

  function DigitsVal(vs: seq<nat>): nat {
    if vs == [] then 0 else 32 * DigitsVal(vs[..|vs| - 1]) + vs[|vs| - 1]
  }

  lemma {:induction false} BytesInjective(a: seq<byte>, b: seq<byte>)
    requires |a| == |b| && BytesVal(a) == BytesVal(b)
    ensures a == b
  {
    if a != [] {
      BytesInjective(a[..|a| - 1], b[..|b| - 1]);
      assert a == a[..|a| - 1] + [a[|a| - 1]] && b == b[..|b| - 1] + [b[|b| - 1]];
    }
  }

  lemma {:induction false} DigitsInjective(a: seq<nat>, b: seq<nat>)
    requires |a| == |b| && AllDigits(a) && AllDigits(b) && DigitsVal(a) == DigitsVal(b)
    ensures a == b
  {
    if a != [] {
      DigitsInjective(a[..|a| - 1], b[..|b| - 1]);
      assert a == a[..|a| - 1] + [a[|a| - 1]] && b == b[..|b| - 1] + [b[|b| - 1]];
    }
  }

  lemma ValuesInjective(a: Text, b: Text)
    requires AllInAlphabet(a) && AllInAlphabet(b) && Values(a) == Values(b)
    ensures a == b
  {
    forall k | 0 <= k < |a| ensures a[k] == b[k] {
      assert Symbol(Values(a)[k]) == a[k] && Symbol(Values(b)[k]) == b[k];
    }
  }

  function Pow2(k: nat): (p: nat)
    ensures p > 0
  {
    if k == 0 then 1 else 2 * Pow2(k - 1)
  }

  /** The digits of vs stand in out. */
  ghost predicate Stand(out: array<byte>, vs: seq<nat>)
    reads out
  {
    |vs| <= out.Length && AllDigits(vs) && forall k :: 0 <= k < |vs| ==> out[k] == Symbol(vs[k])
  }

  /** The inner loop: as many whole digits as the buffer holds. */
  method EmitDigits(out: array<byte>, idx0: nat, bits0: nat, buffer: nat, ghost vs0: seq<nat>)
    returns (idx: nat, bits: nat, ghost vs: seq<nat>)
    requires out.Length == 52 && bits0 <= 12 && 5 * idx0 + bits0 <= 256 && Stand(out, vs0) && |vs0| == idx0
    modifies out
    ensures bits < 5 && 5 * idx + bits == 5 * idx0 + bits0 && Stand(out, vs) && |vs| == idx
    ensures DigitsVal(vs) * Pow2(bits) + buffer % Pow2(bits) == DigitsVal(vs0) * Pow2(bits0) + buffer % Pow2(bits0)
  {
    hide DigitsVal, Pow2;
    idx, bits, vs := idx0, bits0, vs0;
    while bits >= 5
      invariant 5 * idx + bits == 5 * idx0 + bits0 && bits <= 12 && Stand(out, vs) && |vs| == idx
      invariant DigitsVal(vs) * Pow2(bits) + buffer % Pow2(bits) == DigitsVal(vs0) * Pow2(bits0) + buffer % Pow2(bits0)
      decreases bits
    {
      var d := buffer / Pow2(bits - 5) % 32;
      DigitOut(vs, buffer, bits, d);
      out[idx] := Symbol(d);
      vs := vs + [d];
      idx, bits := idx + 1, bits - 5;
    }
  }

  /** b32_encode_256 */
  method Encode256(data: seq<byte>, out: array<byte>)
    requires |data| == 32 && out.Length == 52
    modifies out
    ensures AllInAlphabet(out[..]) && DigitsVal(Values(out[..])) == 16 * BytesVal(data)
  {
    hide Values, DigitsVal, BytesVal, Pow2;
    var buffer: nat, bits: nat, idx: nat := 0, 0, 0;
    ghost var vs: seq<nat> := [];
    EmptyVals();
    for i := 0 to 32
      invariant bits < 5 && 5 * idx + bits == 8 * i && buffer < Pow2(bits) && Stand(out, vs) && |vs| == idx
      invariant DigitsVal(vs) * Pow2(bits) + buffer == BytesVal(data[..i])
    {
      ByteIn(data, i, DigitsVal(vs), Pow2(bits), buffer);
      PowAdd(bits);
      buffer := buffer * 256 + data[i];
      idx, bits, vs := EmitDigits(out, idx, bits + 8, buffer, vs);
      buffer := buffer % Pow2(bits);
    }
    PowOne();
    assert data[..32] == data;
    LastDigit(out, buffer, vs);
  }

  /** The one bit left over, left-aligned in a last digit. */
  method LastDigit(out: array<byte>, buffer: nat, ghost vs: seq<nat>)
    requires out.Length == 52 && |vs| == 51 && Stand(out, vs) && buffer < 2
    modifies out
    ensures AllInAlphabet(out[..]) && DigitsVal(Values(out[..])) == 16 * (2 * DigitsVal(vs) + buffer)
  {
    hide Values, DigitsVal;
    var d := buffer * 16 % 32;
    out[51] := Symbol(d);
    DigitSnoc(vs, d);
    assert out[..] == Symbols(vs + [d]);
    ValuesOf(vs + [d]);
  }

  lemma PowOne()
    ensures Pow2(1) == 2
  {
  }

  lemma EmptyVals()
    ensures DigitsVal([]) == 0 && BytesVal([]) == 0 && Pow2(0) == 1
  {
  }

  lemma DigitSnoc(vs: seq<nat>, d: nat)
    ensures DigitsVal(vs + [d]) == 32 * DigitsVal(vs) + d
  {
    assert (vs + [d])[..|vs|] == vs;
  }

  lemma ByteSnoc(b: seq<byte>, x: byte)
    ensures BytesVal(b + [x]) == 256 * BytesVal(b) + x
  {
    assert (b + [x])[..|b|] == b;
  }

  lemma ValuesOf(vs: seq<nat>)
    requires AllDigits(vs)
    ensures Values(Symbols(vs)) == vs
  {
    forall k | 0 <= k < |vs| ensures Values(Symbols(vs))[k] == vs[k] {
      IndexOfSymbol(vs[k]);
    }
  }

  lemma ByteIn(data: seq<byte>, i: nat, high: nat, p: nat, buffer: nat)
    requires i < |data| && high * p + buffer == BytesVal(data[..i]) && buffer < p
    ensures high * (256 * p) + (buffer * 256 + data[i]) == BytesVal(data[..i + 1])
    ensures buffer * 256 + data[i] < 256 * p && (buffer * 256 + data[i]) % (256 * p) == buffer * 256 + data[i]
  {
    ByteSnoc(data[..i], data[i]);
    assert data[..i + 1] == data[..i] + [data[i]];
    assert high * (256 * p) == 256 * (high * p);
    DivIs(buffer * 256 + data[i], 0, buffer * 256 + data[i], 256 * p);
  }

  lemma PowAdd(bits: nat)
    ensures Pow2(bits + 8) == 256 * Pow2(bits)
  {
    assert Pow2(bits + 4) == 16 * Pow2(bits) by {
      assert Pow2(bits + 2) == 4 * Pow2(bits);
    }
    assert Pow2(bits + 6) == 4 * Pow2(bits + 4);
  }

  lemma PowFive(bits: nat)
    ensures Pow2(bits + 5) == 32 * Pow2(bits)
  {
    assert Pow2(bits + 2) == 4 * Pow2(bits);
    assert Pow2(bits + 4) == 4 * Pow2(bits + 2);
  }

  lemma DigitOut(vs: seq<nat>, buffer: nat, bits: nat, d: nat)
    requires bits >= 5 && d == buffer / Pow2(bits - 5) % 32
    ensures d < 32
    ensures DigitsVal(vs + [d]) * Pow2(bits - 5) + buffer % Pow2(bits - 5) == DigitsVal(vs) * Pow2(bits) + buffer % Pow2(bits)
  {
    hide Pow2, DigitsVal;
    PowFive(bits - 5);
    TopDigit(DigitsVal(vs), buffer, 32, Pow2(bits - 5), d);
    DigitSnoc(vs, d);
  }

  lemma TopDigit(v: nat, buffer: nat, n: nat, q: nat, d: nat)
    requires n > 0 && q > 0 && d == buffer / q % n
    ensures n * q > 0 && (n * v + d) * q + buffer % q == v * (n * q) + buffer % (n * q)
  {
    ModSplit(buffer, n, q);
    Distribute(v, n, d, q);
    assert n * v == v * n;
  }

  /** device_id_from_raw */
  method FromRaw(hash: seq<byte>) returns (id: Text)
    requires |hash| == 32
    ensures exists b32 :: |b32| == 52 && AllInAlphabet(b32) && DigitsVal(Values(b32)) == 16 * BytesVal(hash)
                          && id == Grouped(Canonical(b32))
  {
    hide Values, DigitsVal, BytesVal, Grouped;
    var b32 := new byte[52];
    Encode256(hash, b32);
    ghost var s := b32[..];
    var luhned: Text := [];
    for i := 0 to 4
      invariant AllInAlphabet(s) && b32[..] == s && |luhned| == 14 * i
      invariant forall k :: 0 <= k < i ==> luhned[14 * k..14 * k + 14] == Chunk(s, k)
    {
      assert b32[13 * i..13 * i + 13] == s[13 * i..13 * i + 13];
      var c := Luhn32(b32[13 * i..13 * i + 13]);
      ghost var was := luhned;
      luhned := luhned + b32[13 * i..13 * i + 13] + [c];
      forall k | 0 <= k < i + 1 ensures luhned[14 * k..14 * k + 14] == Chunk(s, k) {
        if k < i {
          assert luhned[14 * k..14 * k + 14] == was[14 * k..14 * k + 14];
        }
      }
    }
    FourChunks(luhned, s);
    id := GroupUp(luhned);
  }

  lemma FourChunks(c: Text, b32: Text)
    requires |b32| == 52 && AllInAlphabet(b32) && |c| == 56
    requires forall k :: 0 <= k < 4 ==> c[14 * k..14 * k + 14] == Chunk(b32, k)
    ensures c == Canonical(b32)
  {
    hide Chunk;
    assert c[14 * 0..14 * 0 + 14] == Chunk(b32, 0) && c[14 * 1..14 * 1 + 14] == Chunk(b32, 1);
    assert c[14 * 2..14 * 2 + 14] == Chunk(b32, 2) && c[14 * 3..14 * 3 + 14] == Chunk(b32, 3);
    assert c == c[0..14] + c[14..28] + c[28..42] + c[42..56];
  }

  /** Eight groups of seven. */
  method GroupUp(c: Text) returns (o: Text)
    requires |c| == 56
    ensures o == Grouped(c)
  {
    o := [];
    assert c[0..] == c;
    for g := 0 to 8
      invariant g > 0 ==> Grouped(c) == o + if g < 8 then [DASH] + Grouped(c[7 * g..]) else []
      invariant g == 0 ==> o == []
    {
      if g > 0 {
        o := o + [DASH];
      }
      var rest := c[7 * g..];
      assert rest[..7] == c[7 * g..7 * g + 7] && (g < 7 ==> rest[7..] == c[7 * (g + 1)..]);
      o := o + c[7 * g..7 * g + 7];
    }
  }

  /** The characters that count; nothing when one is foreign or there are too many. */
  method Collect(s: Text) returns (ok: bool, canon: Text)
    ensures ok ==> canon == Kept(s) && |canon| == 56 && AllInAlphabet(canon)
    ensures !ok ==> !IsCanonical(Kept(s))
  {
    hide ChecksOut, Kept;
    canon := [];
    assert s[0..] == s;
    for i := 0 to |s|
      invariant Kept(s) == canon + Kept(s[i..]) && AllInAlphabet(canon) && |canon| <= 56
    {
      KeptStep(s, i);
      var c := s[i];
      if Skipped(c) {
        assert [] + Kept(s[i + 1..]) == Kept(s[i + 1..]);
        continue;
      }
      assert canon + ([Upper(c)] + Kept(s[i + 1..])) == canon + [Upper(c)] + Kept(s[i + 1..]);
      c := Upper(c);
      if !InAlphabet(c) {
        BadKept(canon, c, Kept(s[i + 1..]));
        return false, canon;
      }
      if |canon| >= 56 {
        return false, canon;
      }
      canon := canon + [c];
    }
    KeptNone(s[|s|..]);
    assert canon + [] == canon;
    ok := |canon| == 56;
  }

  lemma KeptStep(s: Text, i: nat)
    requires i < |s|
    ensures Kept(s[i..]) == (if Skipped(s[i]) then [] else [Upper(s[i])]) + Kept(s[i + 1..])
  {
    assert s[i..][1..] == s[i + 1..];
  }

  lemma KeptNone(s: Text)
    requires s == []
    ensures Kept(s) == []
  {
  }

  /** Every chunk's check derived again. */
  method VerifyChecks(canon: Text) returns (ok: bool)
    requires |canon| == 56 && AllInAlphabet(canon)
    ensures ok == ChecksOut(canon)
  {
    hide Check, Values;
    for i := 0 to 4
      invariant forall k :: 0 <= k < i ==> CheckAt(canon, k)
    {
      var l := Luhn32(canon[14 * i..14 * i + 13]);
      if l != canon[14 * i + 13] {
        assert !CheckAt(canon, i);
        return false;
      }
    }
    ok := true;
  }

  /** device_id_normalize */
  method Normalize(s: Text) returns (out: Option<Text>)
    ensures out == Normalized(s)
  {
    hide ChecksOut, Kept;
    var ok, canon := Collect(s);
    if ok {
      ok := VerifyChecks(canon);
    }
    out := if ok then Some(canon) else None;
  }

  lemma BadKept(canon: Text, c: byte, rest: Text)
    requires !InAlphabet(c)
    ensures !IsCanonical(canon + ([c] + rest))
  {
    assert (canon + ([c] + rest))[|canon|] == c;
  }

  /** device_id_to_raw. The shift register has 32 bits; what falls off is never used. */
  method ToRaw(s: Text, out: array<byte>) returns (ok: bool)
    requires out.Length == 32
    modifies out
    ensures ok <==> Normalized(s).Some?
    ensures ok ==> BytesVal(out[..]) == DigitsVal(Values(Data(Normalized(s).value))) / 16
  {
    hide Values, DigitsVal, BytesVal, Normalized, Kept;
    var canon := Normalize(s);
    if canon.None? {
      return false;
    }
    CanonicalParts(s);
    var b32 := PickData(canon.value);
    Decode260(b32, out);
    ok := true;
  }

  lemma CanonicalParts(s: Text)
    requires Normalized(s).Some?
    ensures IsCanonical(Normalized(s).value)
  {
  }

  /** The check characters dropped. */
  method PickData(canon: Text) returns (b32: Text)
    requires |canon| == 56 && AllInAlphabet(canon)
    ensures b32 == Data(canon) && AllInAlphabet(b32)
  {
    b32 := [];
    for i := 0 to 56
      invariant AllInAlphabet(b32) && |b32| == i - i / 14
      invariant forall k :: 0 <= k < i && k % 14 != 13 ==> b32[k - k / 14] == canon[k]
    {
      if i % 14 != 13 {
        b32 := b32 + [canon[i]];
      }
    }
    forall m | 0 <= m < 52 ensures b32[m] == Data(canon)[m] {
      var k := m + m / 13;
      assert k % 14 != 13 && k - k / 14 == m;
      assert b32[k - k / 14] == canon[k];
    }
  }

  /** The loop over the 52 symbols. */
  method Decode260(b32: Text, out: array<byte>)
    requires |b32| == 52 && AllInAlphabet(b32) && out.Length == 32
    modifies out
    ensures BytesVal(out[..]) == DigitsVal(Values(b32)) / 16
  {
    hide DigitsVal, BytesVal;
    ghost var vs, b: seq<byte> := Values(b32), [];
    var buffer: nat, bits: nat, oi: nat := 0, 0, 0;
    EmptyVals();
    for i := 0 to 52
      invariant bits < 8 && 8 * oi + bits == 5 * i && |b| == oi
      invariant forall k :: 0 <= k < oi ==> out[k] == b[k]
      invariant BytesVal(b) * Pow2(bits) + buffer % Pow2(bits) == DigitsVal(vs[..i])
    {
      SymbolIn(vs, i, BytesVal(b), bits, buffer);
      buffer := (buffer * 32 + Index(b32[i])) % 0x1_0000_0000;
      bits := bits + 5;
      if bits >= 8 {
        var x: byte := buffer / Pow2(bits - 8) % 256;
        ByteOut(b, buffer, bits, x);
        out[oi] := x;
        b := b + [x];
        oi, bits := oi + 1, bits - 8;
      }
    }
    assert bits == 4 && oi == 32 && vs[..52] == vs && Pow2(4) == 16;
    assert out[..] == b;
    DivIs(DigitsVal(vs), BytesVal(b), buffer % 16, 16);
  }

  lemma {:induction false} PowDivides(bits: nat, n: nat)
    requires bits <= n
    ensures Pow2(n) == Pow2(n - bits) * Pow2(bits)
  {
    if bits < n {
      PowDivides(bits, n - 1);
      assert 2 * (Pow2(n - 1 - bits) * Pow2(bits)) == (2 * Pow2(n - 1 - bits)) * Pow2(bits);
    }
  }

  lemma ModOfMod(x: nat, a: nat, p: nat)
    requires a > 0 && p > 0
    ensures x % (a * p) % p == x % p
  {
    ModSplit(x, a, p);
    DivIs(x % (a * p), x / p % a, x % p, p);
  }

  lemma Register(x: nat, bits: nat)
    requires bits <= 32
    ensures x % 0x1_0000_0000 % Pow2(bits) == x % Pow2(bits)
  {
    PowDivides(bits, 32);
    Pow32();
    ModOfMod(x, Pow2(32 - bits), Pow2(bits));
  }

  lemma Pow32()
    ensures Pow2(32) == 0x1_0000_0000
  {
    assert Pow2(8) == 256;
    PowAdd(8);
    PowAdd(16);
    PowAdd(24);
  }

  lemma ModTimes(buffer: nat, n: nat, v: nat, p: nat)
    requires p > 0 && v < n
    ensures n * p > 0 && (buffer * n + v) % (n * p) == (buffer % p) * n + v
  {
    var q, r := buffer / p, buffer % p;
    MulMono(1, n, p);
    assert buffer == p * q + r;
    Distribute(q, p, r, n);
    assert q * (p * n) == q * (n * p);
    MulMono(r, p - 1, n);
    assert (p - 1) * n + n == n * p;
    DivIs(buffer * n + v, q, r * n + v, n * p);
  }

  lemma SymbolIn(vs: seq<nat>, i: nat, high: nat, bits: nat, buffer: nat)
    requires i < |vs| && vs[i] < 32 && bits < 8 && high * Pow2(bits) + buffer % Pow2(bits) == DigitsVal(vs[..i])
    ensures var next := (buffer * 32 + vs[i]) % 0x1_0000_0000;
            high * Pow2(bits + 5) + next % Pow2(bits + 5) == DigitsVal(vs[..i + 1])
  {
    hide Pow2, DigitsVal;
    var p := Pow2(bits);
    DigitSnoc(vs[..i], vs[i]);
    assert vs[..i + 1] == vs[..i] + [vs[i]];
    PowFive(bits);
    Register(buffer * 32 + vs[i], bits + 5);
    ModTimes(buffer, 32, vs[i], p);
    assert high * (32 * p) == 32 * (high * p);
  }

  lemma ByteOut(b: seq<byte>, buffer: nat, bits: nat, x: byte)
    requires bits >= 8 && x == buffer / Pow2(bits - 8) % 256
    ensures BytesVal(b + [x]) * Pow2(bits - 8) + buffer % Pow2(bits - 8) == BytesVal(b) * Pow2(bits) + buffer % Pow2(bits)
  {
    hide Pow2, BytesVal;
    PowAdd(bits - 8);
    TopDigit(BytesVal(b), buffer, 256, Pow2(bits - 8), x);
    ByteSnoc(b, x);
  }

  /** An ID made from 32 bytes reads back as those bytes. */
  method RoundTrip(hash: seq<byte>, out: array<byte>) returns (ok: bool)
    requires |hash| == 32 && out.Length == 32
    modifies out
    ensures ok && out[..] == hash
  {
    hide Values, DigitsVal, BytesVal, Grouped, Canonical, Data, IsCanonical;
    var id := FromRaw(hash);
    ghost var b32 :| |b32| == 52 && AllInAlphabet(b32) && DigitsVal(Values(b32)) == 16 * BytesVal(hash) && id == Grouped(Canonical(b32));
    CanonicalIs(b32);
    KeptGrouped(Canonical(b32));
    ok := ToRaw(id, out);
    DivIs(16 * BytesVal(hash), BytesVal(hash), 0, 16);
    BytesInjective(out[..], hash);
  }

  /** 52 symbols carry 260 bits, the 32 bytes 256 of them: symbols that agree but for the
      last four bits stand for the same bytes. */
  lemma SpareBits(c: Text, b32: Text)
    requires IsCanonical(c) && |b32| == 52 && AllInAlphabet(b32)
    requires AllInAlphabet(Data(c)) && DigitsVal(Values(b32)) == 16 * (DigitsVal(Values(Data(c))) / 16)
    ensures Grouped(Canonical(b32)) == Grouped(c) <==> Index(c[54]) % 16 == 0
  {
    hide Check, Chunk, IsCanonical, Grouped, Canonical, AllInAlphabet, InAlphabet, Values, DigitsVal, Index, Kept, Data, AllDigits;
    WholeAlphabet(c);
    var data := Data(c);
    var v := DigitsVal(Values(data));
    CanonicalOfData(c);
    CanonicalIs(b32);
    KeptGrouped(c);
    KeptGrouped(Canonical(b32));
    LastValue(c);
    assert v % 16 == Index(c[54]) % 16;
    if Grouped(Canonical(b32)) == Grouped(c) {
      assert b32 == data;
    }
    if v % 16 == 0 {
      DigitsInjective(Values(b32), Values(data));
      ValuesInjective(b32, data);
    }
  }

  /** An accepted ID turned into bytes and written again is the same ID exactly when the
      four bits to spare in its last data character are zero. */
  method WrittenAgain(s: Text) returns (ok: bool, id: Text)
    ensures ok <==> Normalized(s).Some?
    ensures ok ==> var c := Normalized(s).value;
                   |c| == 56 && InAlphabet(c[54]) && (id == Grouped(c) <==> Index(c[54]) % 16 == 0)
  {
    hide Values, DigitsVal, BytesVal, Grouped, Canonical, Data, IsCanonical;
    var out := new byte[32];
    id := [];
    ok := ToRaw(s, out);
    if ok {
      id := FromRaw(out[..]);
      ghost var c := Normalized(s).value;
      CanonicalParts(s);
      CanonicalOfData(c);
      WholeAlphabet(c);
      ghost var b32 :| |b32| == 52 && AllInAlphabet(b32) && DigitsVal(Values(b32)) == 16 * BytesVal(out[..])
                       && id == Grouped(Canonical(b32));
      SpareBits(c, b32);
    }
  }

  lemma WholeAlphabet(c: Text)
    requires IsCanonical(c)
    ensures |c| == 56 && AllInAlphabet(c) && InAlphabet(c[54])
  {
  }

  lemma LastValue(c: Text)
    requires |c| == 56 && AllInAlphabet(c) && AllInAlphabet(Data(c))
    ensures DigitsVal(Values(Data(c))) % 16 == Index(c[54]) % 16
  {
    var vs := Values(Data(c));
    assert Data(c)[51] == c[54] && vs[51] == Index(c[54]);
  }
}
