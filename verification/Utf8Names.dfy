/**
  The mapping of file names between BEP and the disk (src/pathsafe.c) as functions: a
  name is UTF-8 on the wire and ISO-8859-1 on disk, component by component. UTF-8 is
  that of section 4 of RFC 3629.
*/
module Utf8Names {
  import opened Bytes

  type Text = seq<byte>

  const SLASH: byte := 0x2F

  // ---------------------------------------------- the encoding (RFC 3629)

  predicate Scalar(cp: nat) {
    cp < 0x11_0000 && !(0xD800 <= cp < 0xE000)
  }

  function Utf8(cp: nat): (w: Text)
    requires Scalar(cp)
    ensures 1 <= |w| <= 4
  {
    if cp < 0x80 then [cp]
    else if cp < 0x800 then [0xC0 + cp / 0x40, 0x80 + cp % 0x40]
    else if cp < 0x1_0000 then [0xE0 + cp / 0x1000, 0x80 + cp / 0x40 % 0x40, 0x80 + cp % 0x40]
    else [0xF0 + cp / 0x4_0000, 0x80 + cp / 0x1000 % 0x40, 0x80 + cp / 0x40 % 0x40, 0x80 + cp % 0x40]
  }

  predicate AllScalar(cps: seq<nat>) {
    forall k :: 0 <= k < |cps| ==> Scalar(cps[k])
  }

  function Utf8All(cps: seq<nat>): Text
    requires AllScalar(cps)
  {
    if cps == [] then [] else Utf8(cps[0]) + Utf8All(cps[1..])
  }

  // ------------------------------------------------- what the code reads

  /** A continuation byte at i, within the limits. */
  predicate Tail(s: Text, i: nat, lo: nat, hi: nat) {
    i < |s| && lo <= s[i] <= hi
  }

  /** utf8_seq at i: the length of the sequence and its code point, or length 0. What
      follows a component is a slash or the terminator, which no sequence contains. */
  function SeqAt(s: Text, i: nat): (r: (nat, nat))
    requires i < |s|
    ensures r.0 <= 4 && i + r.0 <= |s|
  {
    var b := s[i] as int;
    if b < 0x80 then (1, b)
    else if b < 0xC2 then (0, 0)
    else if b < 0xE0 then
      if Tail(s, i + 1, 0x80, 0xBF) then (2, (b - 0xC0) * 0x40 + (s[i + 1] - 0x80)) else (0, 0)
    else if b < 0xF0 then
      if Tail(s, i + 1, if b == 0xE0 then 0xA0 else 0x80, if b == 0xED then 0x9F else 0xBF) && Tail(s, i + 2, 0x80, 0xBF) then
        (3, ((b - 0xE0) * 0x40 + (s[i + 1] - 0x80)) * 0x40 + (s[i + 2] - 0x80))
      else (0, 0)
    else if b < 0xF5 then
      if Tail(s, i + 1, if b == 0xF0 then 0x90 else 0x80, if b == 0xF4 then 0x8F else 0xBF)
         && Tail(s, i + 2, 0x80, 0xBF) && Tail(s, i + 3, 0x80, 0xBF) then
        (4, (((b - 0xF0) * 0x40 + (s[i + 1] - 0x80)) * 0x40 + (s[i + 2] - 0x80)) * 0x40 + (s[i + 3] - 0x80))
      else (0, 0)
    else (0, 0)
  }

  /** The code points from i on, if all of it is UTF-8. */
  function DecodeFrom(s: Text, i: nat): (r: Option<seq<nat>>)
    requires i <= |s|
    decreases |s| - i
  {
    if i == |s| then Some([])
    else
      var (n, cp) := SeqAt(s, i);
      if n == 0 then None
      else match DecodeFrom(s, i + n)
        case None => None
        case Some(rest) => Some([cp] + rest)
  }

  predicate Narrow(cps: seq<nat>) {
    forall k :: 0 <= k < |cps| ==> cps[k] <= 0xFF
  }

  /** utf8_class: 0 not valid UTF-8, 1 valid and all in Latin-1, 2 valid with a code point
      beyond it. */
  function Class(c: Text): nat {
    match DecodeFrom(c, 0)
    case None => 0
    case Some(cps) => if Narrow(cps) then 1 else 2
  }

  function Latin1(cps: seq<nat>): (d: Text)
    requires Narrow(cps)
    ensures |d| == |cps|
  {
    seq(|cps|, k requires 0 <= k < |cps| => cps[k])
  }

  function Points(d: Text): (cps: seq<nat>)
    ensures |cps| == |d| && Narrow(cps) && AllScalar(cps)
  {
    seq(|d|, k requires 0 <= k < |d| => d[k])
  }

  /** name_to_local on one component. */
  function ToLocal(c: Text): Text {
    if Class(c) == 1 then Latin1(DecodeFrom(c, 0).value) else c
  }

  /** name_from_local on one component. */
  function FromLocal(d: Text): Text {
    if Class(d) == 2 then d else Utf8All(Points(d))
  }

  /** The components for which the way to the disk and back loses nothing. */
  predicate Faithful(c: Text) {
    Class(c) != 0 && !(Class(c) == 1 && Class(ToLocal(c)) == 2)
  }

  // --------------------------------------- the reader is the encoding's

  lemma Digits(hi: nat, lo: nat)
    requires lo < 0x40
    ensures (hi * 0x40 + lo) / 0x40 == hi && (hi * 0x40 + lo) % 0x40 == lo
  {
  }

  lemma HighDigits(cp: nat)
    ensures cp / 0x1000 == cp / 0x40 / 0x40 && cp / 0x4_0000 == cp / 0x40 / 0x40 / 0x40
    ensures cp == cp / 0x40 * 0x40 + cp % 0x40
  {
  }

  lemma SeqSound2(s: Text, i: nat)
    requires i < |s| && SeqAt(s, i).0 == 2
    ensures var cp := SeqAt(s, i).1; Scalar(cp) && Utf8(cp) == s[i..i + 2]
  {
    var b := s[i] as int;
    Digits(b - 0xC0, s[i + 1] - 0x80);
  }

  lemma SeqSound3(s: Text, i: nat)
    requires i < |s| && SeqAt(s, i).0 == 3
    ensures var cp := SeqAt(s, i).1; Scalar(cp) && Utf8(cp) == s[i..i + 3]
  {
    var b, c := s[i] as int - 0xE0, s[i + 1] - 0x80;
    HighDigits(SeqAt(s, i).1);
    Digits(b, c);
    Digits(b * 0x40 + c, s[i + 2] - 0x80);
  }

  lemma SeqSound4(s: Text, i: nat)
    requires i < |s| && SeqAt(s, i).0 == 4
    ensures var cp := SeqAt(s, i).1; Scalar(cp) && Utf8(cp) == s[i..i + 4]
  {
    var b, c, d := s[i] as int - 0xF0, s[i + 1] - 0x80, s[i + 2] - 0x80;
    HighDigits(SeqAt(s, i).1);
    Digits(b, c);
    Digits(b * 0x40 + c, d);
    Digits((b * 0x40 + c) * 0x40 + d, s[i + 3] - 0x80);
  }

  lemma SeqLengths(s: Text, i: nat)
    requires i < |s|
    ensures SeqAt(s, i).0 in {0, 1, 2, 3, 4}
    ensures SeqAt(s, i).0 == 1 ==> var cp := SeqAt(s, i).1; Scalar(cp) && Utf8(cp) == s[i..i + 1]
  {
  }

  lemma SeqSound(s: Text, i: nat)
    requires i < |s| && SeqAt(s, i).0 > 0
    ensures var (n, cp) := SeqAt(s, i); Scalar(cp) && |Utf8(cp)| == n && At(s, i, Utf8(cp))
  {
    hide SeqAt, Utf8, Scalar;
    var n := SeqAt(s, i).0;
    SeqLengths(s, i);
    if n == 2 {
      SeqSound2(s, i);
    } else if n == 3 {
      SeqSound3(s, i);
    } else if n == 4 {
      SeqSound4(s, i);
    }
    AtSlice(s, i, s[i..i + n]);
  }

  lemma SeqComplete(s: Text, i: nat, cp: nat)
    requires Scalar(cp) && At(s, i, Utf8(cp))
    ensures i < |s| && SeqAt(s, i) == (|Utf8(cp)|, cp)
  {
    var w := Utf8(cp);
    AtSlice(s, i, w);
    assert s[i] == w[0];
    if |w| >= 2 {
      assert s[i + 1] == w[1];
      HighDigits(cp);
      if |w| >= 3 {
        assert s[i + 2] == w[2];
        HighDigits(cp / 0x40);
        if |w| >= 4 {
          assert s[i + 3] == w[3];
          HighDigits(cp / 0x40 / 0x40);
        }
      }
    }
  }

  lemma {:induction false} DecodeSound(s: Text, i: nat)
    requires i <= |s| && DecodeFrom(s, i).Some?
    ensures var cps := DecodeFrom(s, i).value; AllScalar(cps) && At(s, i, Utf8All(cps)) && i + |Utf8All(cps)| == |s|
    decreases |s| - i
  {
    hide SeqAt, Utf8, At, Scalar;
    var cps := DecodeFrom(s, i).value;
    if i < |s| {
      var (n, cp) := SeqAt(s, i);
      SeqSound(s, i);
      DecodeSound(s, i + n);
      assert cps[1..] == DecodeFrom(s, i + n).value;
      AtConcat(s, i, Utf8(cp), Utf8All(cps[1..]));
    } else {
      AtEmpty(s, i);
    }
  }

  lemma AtEmpty(s: Text, i: nat)
    requires i <= |s|
    ensures At(s, i, [])
  {
  }

  lemma {:induction false} DecodeComplete(s: Text, i: nat, cps: seq<nat>)
    requires AllScalar(cps) && At(s, i, Utf8All(cps)) && i + |Utf8All(cps)| == |s|
    ensures DecodeFrom(s, i) == Some(cps)
    decreases |cps|
  {
    hide SeqAt, Utf8, At, Scalar;
    if cps != [] {
      AtConcat(s, i, Utf8(cps[0]), Utf8All(cps[1..]));
      SeqComplete(s, i, cps[0]);
      DecodeComplete(s, i + |Utf8(cps[0])|, cps[1..]);
      assert cps == [cps[0]] + cps[1..];
    }
  }

  /** Reading a component as UTF-8 succeeds on exactly the encodings of code points, each
      in its shortest form, and gives those code points. */
  lemma DecodesExactly(s: Text, cps: seq<nat>)
    ensures DecodeFrom(s, 0) == Some(cps) <==> AllScalar(cps) && s == Utf8All(cps)
  {
    hide SeqAt, Utf8, DecodeFrom, At, Scalar;
    if AllScalar(cps) && s == Utf8All(cps) {
      AllAt(s);
      DecodeComplete(s, 0, cps);
    }
    if DecodeFrom(s, 0) == Some(cps) {
      DecodeSound(s, 0);
      AtSlice(s, 0, Utf8All(cps));
      assert s[0..|s|] == s;
    }
  }

  lemma AllAt(s: Text)
    ensures At(s, 0, s)
  {
  }

  // ------------------------------------------------- laws of a component

  lemma FromLocalClass(d: Text)
    ensures Class(d) != 2 ==> DecodeFrom(Utf8All(Points(d)), 0) == Some(Points(d))
  {
    hide DecodeFrom, SeqAt, Utf8;
    DecodesExactly(Utf8All(Points(d)), Points(d));
  }

  /** What comes from the disk goes back to it unchanged, whatever it is; and it is
      always valid UTF-8. */
  lemma DiskRoundTrip(d: Text)
    ensures ToLocal(FromLocal(d)) == d && Class(FromLocal(d)) != 0
  {
    hide DecodeFrom, SeqAt, Utf8, Utf8All;
    FromLocalClass(d);
    assert Latin1(Points(d)) == d;
  }

  /** What comes from a peer comes back from the disk unchanged exactly when it is UTF-8
      and its Latin-1 form, if it has one, does not read as wider UTF-8. */
  lemma WireRoundTrip(c: Text)
    ensures FromLocal(ToLocal(c)) == c <==> Faithful(c)
  {
    hide SeqAt, Utf8, Scalar;
    if Class(c) == 0 {
      FromLocalClass(c);
    } else if Class(c) == 1 {
      var cps := DecodeFrom(c, 0).value;
      DecodesExactly(c, cps);
      assert Points(Latin1(cps)) == cps;
    }
  }

  lemma {:induction false} DecodeShorter(s: Text, i: nat)
    requires i <= |s| && DecodeFrom(s, i).Some?
    ensures |DecodeFrom(s, i).value| <= |s| - i
    decreases |s| - i
  {
    hide SeqAt;
    if i < |s| {
      DecodeShorter(s, i + SeqAt(s, i).0);
    }
  }

  lemma NeverLonger(c: Text)
    ensures |ToLocal(c)| <= |c|
  {
    hide DecodeFrom, SeqAt;
    if Class(c) == 1 {
      DecodeShorter(c, 0);
    }
  }

  lemma {:induction false} AsciiIn(cps: seq<nat>, b: byte)
    requires AllScalar(cps) && b < 0x80
    ensures b in Utf8All(cps) <==> b as nat in cps
    decreases |cps|
  {
    if cps != [] {
      AsciiIn(cps[1..], b);
      AsciiOne(cps[0], b);
      hide Utf8, Scalar;
      assert cps == [cps[0]] + cps[1..];
    }
  }

  lemma AsciiOne(cp: nat, b: byte)
    requires Scalar(cp) && b < 0x80
    ensures b in Utf8(cp) <==> cp == b
  {
    var w := Utf8(cp);
    if cp == b {
      assert w[0] == b;
    }
  }

  /** A byte below 0x80 is in the one form exactly when it is in the other: no separator
      appears or goes. */
  lemma AsciiKept(c: Text, b: byte)
    requires b < 0x80
    ensures b in ToLocal(c) <==> b in c
    ensures b in FromLocal(c) <==> b in c
  {
    hide SeqAt, Utf8, Scalar, Utf8All, DecodeFrom;
    if Class(c) == 1 {
      var cps := DecodeFrom(c, 0).value;
      DecodesExactly(c, cps);
      AsciiIn(cps, b);
      assert b in Latin1(cps) <==> b as nat in cps by {
        InLatin1(cps, b);
      }
    }
    AsciiIn(Points(c), b);
    InPoints(c, b);
  }

  lemma InLatin1(cps: seq<nat>, b: byte)
    requires Narrow(cps)
    ensures b in Latin1(cps) <==> b as nat in cps
  {
    var d := Latin1(cps);
    if b in d {
      var k :| 0 <= k < |d| && d[k] == b;
      assert cps[k] == b;
    }
    if b as nat in cps {
      var k :| 0 <= k < |cps| && cps[k] == b;
      assert d[k] == b;
    }
  }

  lemma InPoints(d: Text, b: byte)
    ensures b as nat in Points(d) <==> b in d
  {
    var cps := Points(d);
    if b in d {
      var k :| 0 <= k < |d| && d[k] == b;
      assert cps[k] == b;
    }
    if b as nat in cps {
      var k :| 0 <= k < |cps| && cps[k] == b;
      assert d[k] == b;
    }
  }

  // ---------------------------------------------------------- whole names

  /** Where the first component ends. */
  function EndOf(s: Text): (e: nat)
    ensures e <= |s| && (e < |s| ==> s[e] == SLASH) && SLASH !in s[..e]
  {
    if s == [] || s[0] == SLASH then 0
    else
      var e := EndOf(s[1..]) + 1;
      assert s[..e] == [s[0]] + s[1..][..e - 1];
      e
  }

  function Components(s: Text): (cs: seq<Text>)
    ensures |cs| > 0
    decreases |s|
  {
    var e := EndOf(s);
    if e == |s| then [s] else [s[..e]] + Components(s[e + 1..])
  }

  function MapPath(f: Text -> Text, s: Text): Text
    decreases |s|
  {
    var e := EndOf(s);
    if e == |s| then f(s) else f(s[..e]) + [SLASH] + MapPath(f, s[e + 1..])
  }

  function NameToLocal(s: Text): Text {
    MapPath(ToLocal, s)
  }

  function NameFromLocal(s: Text): Text {
    MapPath(FromLocal, s)
  }

  function MapAll(f: Text -> Text, cs: seq<Text>): (r: seq<Text>)
    ensures |r| == |cs|
  {
    seq(|cs|, k requires 0 <= k < |cs| => f(cs[k]))
  }

  lemma {:induction false} EndIs(s: Text, e: nat)
    requires e <= |s| && SLASH !in s[..e] && (e < |s| ==> s[e] == SLASH)
    ensures EndOf(s) == e
  {
    if e > 0 {
      assert s[0] == s[..e][0] && s[1..][..e - 1] == s[..e][1..];
      EndIs(s[1..], e - 1);
    }
  }

  lemma {:induction false} EndBeyond(s: Text, k: nat)
    requires k < |s| && SLASH !in s[..k] && s[k] != SLASH
    ensures EndOf(s) > k
  {
    if k > 0 {
      assert s[0] == s[..k][0] && s[1..][..k - 1] == s[..k][1..];
      EndBeyond(s[1..], k - 1);
    }
  }

  lemma EndOfMapped(a: Text, rest: Text)
    requires SLASH !in a
    ensures EndOf(a + [SLASH] + rest) == |a| && EndOf(a) == |a|
    ensures (a + [SLASH] + rest)[..|a|] == a && (a + [SLASH] + rest)[|a| + 1..] == rest
  {
    var s := a + [SLASH] + rest;
    assert s[..|a|] == a && a[..|a|] == a;
    EndIs(s, |a|);
    EndIs(a, |a|);
  }

  ghost predicate KeepsSlashes(f: Text -> Text) {
    forall c :: SLASH !in c ==> SLASH !in f(c)
  }

  lemma ComponentsJoin(a: Text, rest: Text)
    requires SLASH !in a
    ensures Components(a + [SLASH] + rest) == [a] + Components(rest) && Components(a) == [a]
  {
    hide EndOf;
    EndOfMapped(a, rest);
  }

  /** A mapped name has the mapped components, no more and no fewer. */
  lemma {:induction false} ComponentsMapped(f: Text -> Text, s: Text)
    requires KeepsSlashes(f)
    ensures Components(MapPath(f, s)) == MapAll(f, Components(s))
    decreases |s|
  {
    hide EndOf;
    var e := EndOf(s);
    assert s[..|s|] == s;
    if e == |s| {
      ComponentsJoin(f(s), []);
      assert MapAll(f, [s]) == [f(s)];
    } else {
      var rest := s[e + 1..];
      ComponentsMapped(f, rest);
      ComponentsJoin(f(s[..e]), MapPath(f, rest));
      assert MapAll(f, [s[..e]] + Components(rest)) == [f(s[..e])] + MapAll(f, Components(rest));
    }
  }

  lemma ToLocalKeepsSlashes()
    ensures KeepsSlashes(ToLocal) && KeepsSlashes(FromLocal)
  {
    hide ToLocal, FromLocal;
    forall c | SLASH !in c ensures SLASH !in ToLocal(c) && SLASH !in FromLocal(c) {
      AsciiKept(c, SLASH);
    }
  }

  lemma {:induction false} MapTwice(f: Text -> Text, g: Text -> Text, h: Text -> Text, s: Text)
    requires KeepsSlashes(f) && forall c :: h(c) == g(f(c))
    ensures MapPath(g, MapPath(f, s)) == MapPath(h, s)
    decreases |s|
  {
    hide EndOf;
    var e := EndOf(s);
    assert s[..|s|] == s;
    if e == |s| {
      EndOfMapped(f(s), []);
    } else {
      MapTwice(f, g, h, s[e + 1..]);
      EndOfMapped(f(s[..e]), MapPath(f, s[e + 1..]));
    }
  }

  lemma SplitAt(s: Text, e: nat)
    requires e < |s| && s[e] == SLASH
    ensures s == s[..e] + [SLASH] + s[e + 1..]
  {
  }

  lemma FirstComponent(s: Text)
    ensures var e := EndOf(s); Components(s)[0] == s[..e] && (e == |s| ==> Components(s) == [s] && s[..e] == s)
    ensures var e := EndOf(s); e < |s| ==> s == s[..e] + [SLASH] + s[e + 1..] && Components(s)[1..] == Components(s[e + 1..])
  {
    hide EndOf;
    var e, cs := EndOf(s), Components(s);
    if e < |s| {
      SplitAt(s, e);
      var rest := Components(s[e + 1..]);
      assert cs == [s[..e]] + rest && ([s[..e]] + rest)[1..] == rest;
    } else {
      assert s[..e] == s;
    }
  }

  lemma {:induction false} MapIdentity(f: Text -> Text, s: Text)
    requires forall k :: 0 <= k < |Components(s)| ==> f(Components(s)[k]) == Components(s)[k]
    ensures MapPath(f, s) == s
    decreases |s|
  {
    hide EndOf, Components;
    var e, cs := EndOf(s), Components(s);
    FirstComponent(s);
    assert f(cs[0]) == cs[0];
    if e < |s| {
      forall k | 0 <= k < |cs[1..]| ensures f(cs[1..][k]) == cs[1..][k] {
        assert cs[1..][k] == cs[k + 1];
      }
      MapIdentity(f, s[e + 1..]);
    }
  }

  lemma FixedName(f: Text -> Text, s: Text)
    requires KeepsSlashes(f)
    ensures MapPath(f, s) == s <==> forall k :: 0 <= k < |Components(s)| ==> f(Components(s)[k]) == Components(s)[k]
  {
    hide MapPath, Components, KeepsSlashes;
    var cs := Components(s);
    if forall k :: 0 <= k < |cs| ==> f(cs[k]) == cs[k] {
      MapIdentity(f, s);
    }
    ComponentsMapped(f, s);
    assert forall k :: 0 <= k < |cs| ==> MapAll(f, cs)[k] == f(cs[k]);
  }

  /** A disk name goes up and comes down unchanged. */
  lemma DiskNameRoundTrip(d: Text)
    ensures NameToLocal(NameFromLocal(d)) == d
  {
    hide ToLocal, FromLocal, MapPath, Components;
    var h := (c: Text) => c;
    ToLocalKeepsSlashes();
    forall c ensures ToLocal(FromLocal(c)) == c {
      DiskRoundTrip(c);
    }
    MapTwice(FromLocal, ToLocal, h, d);
    MapIdentity(h, d);
  }

  function ThereAndBack(c: Text): Text {
    FromLocal(ToLocal(c))
  }

  lemma NameThereAndBack(s: Text)
    ensures NameFromLocal(NameToLocal(s)) == MapPath(ThereAndBack, s)
  {
    hide ToLocal, FromLocal, MapPath, KeepsSlashes;
    ToLocalKeepsSlashes();
    MapTwice(ToLocal, FromLocal, ThereAndBack, s);
  }

  lemma ThereAndBackKeeps()
    ensures KeepsSlashes(ThereAndBack)
  {
    hide ToLocal, FromLocal;
    forall c | SLASH !in c ensures SLASH !in ThereAndBack(c) {
      AsciiKept(c, SLASH);
      AsciiKept(ToLocal(c), SLASH);
    }
  }

  /** A name from a peer survives the disk exactly when each of its components does. */
  lemma WireNameRoundTrip(s: Text)
    ensures NameFromLocal(NameToLocal(s)) == s <==> forall k :: 0 <= k < |Components(s)| ==> Faithful(Components(s)[k])
  {
    hide NameToLocal, NameFromLocal, ToLocal, FromLocal, MapPath, Components, Faithful, KeepsSlashes;
    var cs := Components(s);
    NameThereAndBack(s);
    ThereAndBackKeeps();
    FixedName(ThereAndBack, s);
    forall k | 0 <= k < |cs| ensures ThereAndBack(cs[k]) == cs[k] <==> Faithful(cs[k]) {
      WireRoundTrip(cs[k]);
    }
  }

  lemma {:induction false} NameNeverLonger(s: Text)
    ensures |NameToLocal(s)| <= |s|
    decreases |s|
  {
    hide ToLocal;
    var e := EndOf(s);
    if e == |s| {
      NeverLonger(s);
    } else {
      NeverLonger(s[..e]);
      NameNeverLonger(s[e + 1..]);
    }
  }

  // ---------------------------------------------------------- safe names

  const COLON: byte := 0x3A
  const BACKSLASH: byte := 0x5C
  const DOT: byte := 0x2E

  predicate SafeComponent(c: Text) {
    c != [] && c != [DOT] && c != [DOT, DOT] && COLON !in c && BACKSLASH !in c
  }

  /** path_name_safe: every component is. */
  predicate SafeName(s: Text) {
    forall k :: 0 <= k < |Components(s)| ==> SafeComponent(Components(s)[k])
  }

  lemma AsciiDots(c: Text, n: nat)
    requires |c| == n && forall k :: 0 <= k < n ==> c[k] < 0x80
    ensures ToLocal(c) == c && FromLocal(c) == c
  {
    AsciiDecodes(c, 0);
    assert Latin1(DecodeFrom(c, 0).value) == c;
    DecodesExactly(c, Points(c));
  }

  lemma {:induction false} AsciiDecodes(c: Text, i: nat)
    requires i <= |c| && forall k :: 0 <= k < |c| ==> c[k] < 0x80
    ensures DecodeFrom(c, i) == Some(Points(c)[i..]) && Narrow(Points(c)[i..])
    decreases |c| - i
  {
    if i < |c| {
      AsciiDecodes(c, i + 1);
      assert SeqAt(c, i) == (1, c[i]);
      assert Points(c)[i..] == [c[i] as nat] + Points(c)[i + 1..];
    } else {
      assert Points(c)[i..] == [];
    }
  }

  lemma SafeKept(c: Text)
    ensures SafeComponent(ToLocal(c)) <==> SafeComponent(c)
    ensures SafeComponent(FromLocal(c)) <==> SafeComponent(c)
  {
    hide ToLocal, FromLocal;
    AsciiKept(c, COLON);
    AsciiKept(c, BACKSLASH);
    DotsKept(c, []);
    DotsKept(c, [DOT]);
    DotsKept(c, [DOT, DOT]);
  }

  /** Only a name that is one of the dots maps to it. */
  lemma DotsKept(c: Text, dots: Text)
    requires forall k :: 0 <= k < |dots| ==> dots[k] < 0x80
    ensures ToLocal(c) == dots <==> c == dots
    ensures FromLocal(c) == dots <==> c == dots
  {
    hide FromLocal, DecodeFrom, SeqAt, Utf8All, Utf8;
    AsciiDots(dots, |dots|);
    if FromLocal(c) == dots {
      DiskRoundTrip(c);
    }
    if ToLocal(c) == dots && Class(c) == 1 {
      var cps := DecodeFrom(c, 0).value;
      DecodesExactly(c, cps);
      assert cps == Points(dots);
      DecodesExactly(dots, Points(dots));
      AsciiDecodes(dots, 0);
      assert Points(dots)[0..] == Points(dots);
    }
  }

  /** Neither direction of the mapping makes an unsafe name safe or a safe one unsafe. */
  lemma SafetyKept(s: Text)
    ensures SafeName(NameToLocal(s)) <==> SafeName(s)
    ensures SafeName(NameFromLocal(s)) <==> SafeName(s)
  {
    hide SafeComponent, ToLocal, FromLocal, MapPath, Components;
    ToLocalKeepsSlashes();
    ComponentsMapped(ToLocal, s);
    ComponentsMapped(FromLocal, s);
    forall c ensures SafeComponent(ToLocal(c)) <==> SafeComponent(c) {
      SafeKept(c);
    }
    forall c ensures SafeComponent(FromLocal(c)) <==> SafeComponent(c) {
      SafeKept(c);
    }
    var cs := Components(s);
    assert forall k :: 0 <= k < |cs| ==> MapAll(ToLocal, cs)[k] == ToLocal(cs[k]);
    assert forall k :: 0 <= k < |cs| ==> MapAll(FromLocal, cs)[k] == FromLocal(cs[k]);
  }
}
