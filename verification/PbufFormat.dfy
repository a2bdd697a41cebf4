/**
  The protobuf wire format as src/pbuf.c reads and writes it: base-128 varints of
  at most ten bytes, tags, and the values they announce. Class Pbuf.PbufReader and
  Pbuf.PbufWriter are proved against these functions.
*/
module PbufFormat {
  import opened Bytes
  import Division

  const TWO32: nat := 0x1_0000_0000
  const TWO64: nat := 0x1_0000_0000_0000_0000

  const TWO31: nat := 0x8000_0000
  const TWO63: nat := 0x8000_0000_0000_0000

  predicate IsInt64(x: int) {
    -0x8000_0000_0000_0000 <= x < TWO63
  }

  predicate IsInt32(x: int) {
    -0x8000_0000 <= x < TWO31
  }

  /** The casts (int64_t)v and (int32_t)v. */
  function AsInt64(v: int): (x: int)
    ensures IsInt64(x) && (IsInt64(v) ==> x == v) && (v - x) % 0x1_0000_0000_0000_0000 == 0
  {
    var u := v % TWO64;
    if u < TWO63 then u else u - TWO64
  }

  function AsInt32(v: int): (x: int)
    ensures IsInt32(x) && (IsInt32(v) ==> x == v) && (v - x) % 0x1_0000_0000 == 0
  {
    var u := v % TWO32;
    if u < TWO31 then u else u - TWO32
  }

  /** A signed number survives the trip through its unsigned 64-bit image. */
  lemma SignedRoundTrip(x: int)
    ensures -0x8000_0000_0000_0000 <= x < 0x8000_0000_0000_0000 ==> AsInt64(x % TWO64) == x
    ensures -0x8000_0000 <= x < 0x8000_0000 ==> AsInt32(x % TWO64) == x
  {
  }

  const PBUF_WT_VARINT := 0
  const PBUF_WT_I64 := 1
  const PBUF_WT_LEN := 2
  const PBUF_WT_I32 := 5

  datatype Value = Number(n: nat) | Blob(bytes: seq<byte>) | Fixed(bytes: seq<byte>)

  datatype Field = Field(num: nat, value: Value)

  // ------------------------------------------------------------- varints

  function VarintBytes(v: nat): (w: seq<byte>)
    ensures |w| > 0
  {
    if v < 128 then [v] else [v % 128 + 128] + VarintBytes(v / 128)
  }

  lemma ShortNumber(n: byte)
    requires n < 128
    ensures VarintBytes(n) == [n]
  {
  }

  function VarintLen(v: nat): nat {
    |VarintBytes(v)|
  }

  /** The varint at i, k of whose bytes are already read: the number the rest stands
      for and where it ends. Ten bytes is the most there can be. */
  function Scan(s: seq<byte>, i: nat, k: nat): (r: Option<(nat, nat)>)
    ensures r.Some? ==> i < r.value.1 <= |s|
    decreases 10 - k
  {
    if k >= 10 || i >= |s| then None
    else if s[i] < 128 then Some((s[i], i + 1))
    else match Scan(s, i + 1, k + 1)
      case None => None
      case Some((v, j)) => Some((s[i] % 128 + 128 * v, j))
  }

  /** The value is what is left of that number in 64 bits. */
  function VarintAt(s: seq<byte>, i: nat): (r: Option<(nat, nat)>)
    ensures r.Some? ==> r.value.0 < TWO64 && i < r.value.1 <= |s|
  {
    match Scan(s, i, 0)
    case None => None
    case Some((v, j)) => Some((v % TWO64, j))
  }

  function Pow128(k: nat): (p: nat)
    ensures p > 0
  {
    if k == 0 then 1 else 128 * Pow128(k - 1)
  }

  lemma {:induction false} VarintFits(v: nat, k: nat)
    requires v < Pow128(k) && k > 0
    ensures VarintLen(v) <= k
  {
    if v >= 128 {
      VarintFits(v / 128, k - 1);
    }
  }

  lemma VarintLen64(v: nat)
    requires v < TWO64
    ensures VarintLen(v) <= 10
  {
    assert Pow128(10) == 0x4000_0000_0000_0000 * 256 by {
      assert Pow128(2) == 0x4000 && Pow128(4) == 0x1000_0000;
      assert Pow128(6) == 0x400_0000_0000 && Pow128(8) == 0x100_0000_0000_0000;
    }
    VarintFits(v, 10);
  }

  lemma {:induction false} ScanVarint(s: seq<byte>, i: nat, k: nat, v: nat)
    requires At(s, i, VarintBytes(v)) && k + VarintLen(v) <= 10
    ensures Scan(s, i, k) == Some((v, i + VarintLen(v)))
    decreases v
  {
    AtFirst(s, i, VarintBytes(v));
    if v >= 128 {
      AtConcat(s, i, [v % 128 + 128], VarintBytes(v / 128));
      ScanVarint(s, i + 1, k + 1, v / 128);
    }
  }

  /** The digits of v to base 128, least first, all but the last marked by 128. */
  lemma {:induction false} VarintInBytes(v: nat)
    ensures var w := VarintBytes(v);
            && (forall k :: 0 <= k < |w| ==> w[k] == v / Pow128(k) % 128 + if k < |w| - 1 then 128 else 0)
            && v < Pow128(|w|) && (|w| > 1 ==> v >= Pow128(|w| - 1))
    decreases v
  {
    if v >= 128 {
      VarintInBytes(v / 128);
      var rest := VarintBytes(v / 128);
      forall k | 0 < k <= |rest| ensures v / Pow128(k) == v / 128 / Pow128(k - 1) {
        Division.DivDiv(v, 128, Pow128(k - 1));
      }
    }
  }

  /** A 64-bit number is read back as itself. */
  lemma VarintRoundTrip(s: seq<byte>, i: nat, v: nat)
    requires At(s, i, VarintBytes(v)) && v < 0x1_0000_0000_0000_0000
    ensures VarintAt(s, i) == Some((v, i + VarintLen(v)))
  {
    VarintLen64(v);
    ScanVarint(s, i, 0, v);
  }

  /** The bytes from i to the end of s are a strict prefix of w. */
  predicate Cut(s: seq<byte>, i: nat, w: seq<byte>) {
    i <= |s| < i + |w| && forall k {:trigger w[k]} :: 0 <= k < |s| - i ==> s[i + k] == w[k]
  }

  /** A cut through a + b goes through a, or leaves a whole and goes through b. */
  lemma CutConcat(s: seq<byte>, i: nat, a: seq<byte>, b: seq<byte>)
    requires Cut(s, i, a + b)
    ensures Cut(s, i, a) || (At(s, i, a) && Cut(s, i + |a|, b))
  {
    var w := a + b;
    forall k | 0 <= k < |a| && k < |s| - i ensures s[i + k] == a[k] {
      assert w[k] == a[k];
    }
    if |s| >= i + |a| {
      forall k | 0 <= k < |s| - i - |a| ensures s[i + |a| + k] == b[k] {
        assert w[|a| + k] == b[k];
      }
    }
  }

  lemma {:induction false} ScanCut(s: seq<byte>, i: nat, k: nat, v: nat)
    requires Cut(s, i, VarintBytes(v))
    ensures Scan(s, i, k) == None
    decreases v
  {
    if i < |s| && v >= 128 {
      assert s[i] == VarintBytes(v)[0];
      CutConcat(s, i, [v % 128 + 128], VarintBytes(v / 128));
      ScanCut(s, i + 1, k + 1, v / 128);
    }
  }

  // -------------------------------------------------------------- fields

  function WireType(v: Value): nat {
    match v
    case Number(_) => PBUF_WT_VARINT
    case Blob(_) => PBUF_WT_LEN
    case Fixed(b) => if |b| == 8 then PBUF_WT_I64 else PBUF_WT_I32
  }

  function EncValue(v: Value): seq<byte> {
    match v
    case Number(n) => VarintBytes(n)
    case Blob(b) => VarintBytes(|b|) + b
    case Fixed(b) => b
  }

  function EncField(f: Field): (w: seq<byte>)
    ensures |w| > 0
  {
    VarintBytes(8 * f.num + WireType(f.value)) + EncValue(f.value)
  }

  /** The fields C can write: 32-bit numbers, 64-bit values. */
  predicate Writable(f: Field) {
    && f.num < TWO32
    && match f.value
       case Number(n) => n < TWO64
       case Blob(b) => |b| < TWO64
       case Fixed(b) => |b| == 4 || |b| == 8
  }

  function ReadValue(s: seq<byte>, i: nat, wt: nat): (r: Option<(Value, nat)>)
    requires i <= |s|
    ensures r.Some? ==> i <= r.value.1 <= |s|
    ensures r.Some? ==> WireType(r.value.0) == wt
  {
    if wt == PBUF_WT_VARINT then
      match VarintAt(s, i)
      case None => None
      case Some((v, j)) => Some((Number(v), j))
    else if wt == PBUF_WT_LEN then
      match VarintAt(s, i)
      case None => None
      case Some((n, j)) => if n > |s| - j then None else Some((Blob(s[j..j + n]), j + n))
    else if wt == PBUF_WT_I64 then
      if |s| - i < 8 then None else Some((Fixed(s[i..i + 8]), i + 8))
    else if wt == PBUF_WT_I32 then
      if |s| - i < 4 then None else Some((Fixed(s[i..i + 4]), i + 4))
    else None
  }

  function TagNumber(tag: nat): nat {
    tag / 8 % TWO32
  }

  function ReadField(s: seq<byte>, i: nat): (r: Option<(Field, nat)>)
    ensures r.Some? ==> i < r.value.1 <= |s|
  {
    match VarintAt(s, i)
    case None => None
    case Some((tag, j)) =>
      match ReadValue(s, j, tag % 8)
      case None => None
      case Some((v, k)) => Some((Field(TagNumber(tag), v), k))
  }

  /** The fields from i on, and whether they end exactly where s ends. */
  datatype Parsed = Parsed(fields: seq<Field>, clean: bool)

  function Parse(s: seq<byte>, i: nat): Parsed
    decreases |s| - i
  {
    if i >= |s| then Parsed([], true)
    else match ReadField(s, i)
      case None => Parsed([], false)
      case Some((f, j)) =>
        var rest := Parse(s, j);
        Parsed([f] + rest.fields, rest.clean)
  }

  /** One field off the front of what there is to parse. */
  lemma ParseNext(s: seq<byte>, p: nat)
    requires p < |s|
    ensures VarintAt(s, p) == None ==> Parse(s, p) == Parsed([], false)
    ensures VarintAt(s, p).Some? ==>
              var (tag, j) := VarintAt(s, p).value; var r := ReadValue(s, j, tag % 8);
              Parse(s, p) == if r.None? then Parsed([], false)
              else Parsed([Field(TagNumber(tag), r.value.0)] + Parse(s, r.value.1).fields, Parse(s, r.value.1).clean)
  {
    hide VarintAt, ReadValue, TagNumber;
  }

  function EncFields(fs: seq<Field>): seq<byte> {
    if fs == [] then [] else EncField(fs[0]) + EncFields(fs[1..])
  }

  predicate AllWritable(fs: seq<Field>) {
    forall i :: 0 <= i < |fs| ==> Writable(fs[i])
  }

  /** Why there is no field any more: the end, a tag that cannot be read, a value that
      cannot. */
  datatype Ending = Ended | BadTag(at: nat) | BadValue(at: nat)

  function EndingAt(s: seq<byte>, p: nat): Ending
    decreases |s| - p
  {
    if p >= |s| then Ended
    else match VarintAt(s, p)
      case None => BadTag(p)
      case Some((tag, j)) =>
        match ReadValue(s, j, tag % 8)
        case None => BadValue(p)
        case Some((_, k)) => EndingAt(s, k)
  }

  lemma EndingNext(s: seq<byte>, p: nat)
    ensures p >= |s| ==> EndingAt(s, p) == Ended
    ensures p < |s| && VarintAt(s, p) == None ==> EndingAt(s, p) == BadTag(p)
    ensures p < |s| && VarintAt(s, p).Some? ==>
              var (tag, j) := VarintAt(s, p).value; var r := ReadValue(s, j, tag % 8);
              EndingAt(s, p) == if r.None? then BadValue(p) else EndingAt(s, r.value.1)
  {
    hide VarintAt, ReadValue;
  }

  lemma {:induction false} CleanIsEnded(s: seq<byte>, p: nat)
    ensures Parse(s, p).clean <==> EndingAt(s, p).Ended?
    decreases |s| - p
  {
    hide VarintAt, ReadValue, Parse, EndingAt, TagNumber;
    EndingNext(s, p);
    if p >= |s| {
      ParseEnd(s, p);
    } else {
      ParseNext(s, p);
      if VarintAt(s, p).Some? {
        var (tag, j) := VarintAt(s, p).value;
        if ReadValue(s, j, tag % 8).Some? {
          CleanIsEnded(s, ReadValue(s, j, tag % 8).value.1);
        }
      }
    }
  }

  lemma {:induction false} ScanFails(s: seq<byte>, i: nat, k: nat)
    requires k <= 10
    ensures Scan(s, i, k) == None <==> forall j :: i <= j < Min(i + 10 - k, |s|) ==> s[j] >= 128
    decreases 10 - k
  {
    if k < 10 && i < |s| && s[i] >= 128 {
      ScanFails(s, i + 1, k + 1);
    }
  }

  /** A number cannot be read exactly when every byte up to the tenth, or up to the end,
      says that another follows. */
  lemma VarintFails(s: seq<byte>, i: nat)
    ensures VarintAt(s, i) == None <==> forall j :: i <= j < Min(i + 10, |s|) ==> s[j] >= 128
  {
    ScanFails(s, i, 0);
  }

  lemma {:induction false} BadTagAt(s: seq<byte>, p: nat)
    requires EndingAt(s, p).BadTag?
    ensures var at := EndingAt(s, p).at; p <= at < |s| && forall j :: at <= j < Min(at + 10, |s|) ==> s[j] >= 128
    decreases |s| - p
  {
    hide VarintAt, ReadValue, EndingAt;
    EndingNext(s, p);
    if VarintAt(s, p) == None {
      VarintFails(s, p);
    } else {
      var (tag, j) := VarintAt(s, p).value;
      BadTagAt(s, ReadValue(s, j, tag % 8).value.1);
    }
  }

  lemma ParseEnd(s: seq<byte>, p: nat)
    requires p >= |s|
    ensures Parse(s, p) == Parsed([], true)
  {
  }

  lemma {:induction false} EncFieldsConcat(a: seq<Field>, b: seq<Field>)
    ensures EncFields(a + b) == EncFields(a) + EncFields(b)
  {
    hide EncField;
    if a == [] {
      assert a + b == b;
    } else {
      EncFieldsConcat(a[1..], b);
      assert (a + b)[1..] == a[1..] + b;
    }
  }

  lemma EncFieldsOne(f: Field)
    ensures EncFields([f]) == EncField(f)
  {
    assert EncFields([f][1..]) == [];
  }

  lemma EncTwo(a: Field, b: Field)
    ensures EncFields([a, b]) == EncField(a) + EncField(b)
  {
    hide EncField;
    EncFieldsConcat([a], [b]);
    EncFieldsOne(a);
    EncFieldsOne(b);
    assert [a] + [b] == [a, b];
  }

  lemma EncThree(a: Field, b: Field, c: Field)
    ensures EncFields([a, b, c]) == EncField(a) + EncField(b) + EncField(c)
  {
    hide EncField;
    EncTwo(a, b);
    EncFieldsConcat([a, b], [c]);
    EncFieldsOne(c);
    assert [a, b] + [c] == [a, b, c];
  }

  lemma TagSplits(num: nat, wt: nat)
    requires num < TWO32 && wt < 8
    ensures 8 * num + wt < TWO64 && TagNumber(8 * num + wt) == num && (8 * num + wt) % 8 == wt
  {
  }

  lemma ValueRoundTrip(s: seq<byte>, i: nat, f: Field)
    requires At(s, i, EncValue(f.value)) && Writable(f)
    ensures ReadValue(s, i, WireType(f.value)) == Some((f.value, i + |EncValue(f.value)|))
  {
    match f.value
    case Number(n) => VarintRoundTrip(s, i, n);
    case Blob(b) =>
      AtConcat(s, i, VarintBytes(|b|), b);
      VarintRoundTrip(s, i, |b|);
      AtSlice(s, i + VarintLen(|b|), b);
    case Fixed(b) => AtSlice(s, i, b);
  }

  /** A tag is the field's number and, in its low three bits, 0 for a number, 2 for a
      length and so many bytes, 1 and 5 for eight and four bytes. */
  lemma FieldInBytes(num: nat, v: Value)
    requires v.Fixed? ==> |v.bytes| == 4 || |v.bytes| == 8
    ensures EncField(Field(num, v)) ==
            match v
            case Number(n) => VarintBytes(num * 8) + VarintBytes(n)
            case Blob(b) => VarintBytes(num * 8 + 2) + VarintBytes(|b|) + b
            case Fixed(b) => VarintBytes(num * 8 + if |b| == 8 then 1 else 5) + b
  {
  }

  /** Of a field number only 32 bits are kept. */
  lemma LongNumberWraps(s: seq<byte>, num: nat, n: nat)
    requires num < 0x1000_0000_0000_0000 && n < 0x1_0000_0000_0000_0000
    requires s == VarintBytes(num * 8) + VarintBytes(n)
    ensures ReadField(s, 0) == Some((Field(num % 0x1_0000_0000, Number(n)), |s|))
  {
    hide At, VarintAt, VarintBytes;
    AtWhole(s);
    AtConcat(s, 0, VarintBytes(num * 8), VarintBytes(n));
    VarintRoundTrip(s, 0, num * 8);
    VarintRoundTrip(s, VarintLen(num * 8), n);
  }

  /** A field is read back as itself, wherever it stands. */
  lemma FieldRoundTrip(s: seq<byte>, i: nat, f: Field)
    requires At(s, i, EncField(f)) && Writable(f)
    ensures ReadField(s, i) == Some((f, i + |EncField(f)|))
  {
    hide At, VarintAt, EncValue, ReadValue, VarintBytes;
    var tag := 8 * f.num + WireType(f.value);
    AtConcat(s, i, VarintBytes(tag), EncValue(f.value));
    TagSplits(f.num, WireType(f.value));
    VarintRoundTrip(s, i, tag);
    ValueRoundTrip(s, i + VarintLen(tag), f);
  }

  lemma ValueCut(s: seq<byte>, i: nat, f: Field)
    requires Cut(s, i, EncValue(f.value)) && Writable(f)
    ensures ReadValue(s, i, WireType(f.value)) == None
  {
    match f.value
    case Number(n) => ScanCut(s, i, 0, n);
    case Blob(b) =>
      CutConcat(s, i, VarintBytes(|b|), b);
      if Cut(s, i, VarintBytes(|b|)) {
        ScanCut(s, i, 0, |b|);
      } else {
        VarintRoundTrip(s, i, |b|);
      }
    case Fixed(b) =>
  }

  /** A field cut short anywhere after its start is refused. */
  lemma FieldCut(s: seq<byte>, i: nat, f: Field)
    requires Cut(s, i, EncField(f)) && Writable(f)
    ensures ReadField(s, i) == None
  {
    hide At, Cut, EncValue, ReadValue, VarintBytes;
    var tag := 8 * f.num + WireType(f.value);
    CutConcat(s, i, VarintBytes(tag), EncValue(f.value));
    if Cut(s, i, VarintBytes(tag)) {
      ScanCut(s, i, 0, tag);
    } else {
      TagSplits(f.num, WireType(f.value));
      VarintRoundTrip(s, i, tag);
      ValueCut(s, i + VarintLen(tag), f);
    }
  }

  /** What was written as fields is read as those fields, then whatever follows. */
  lemma {:induction false} ParseEncoded(s: seq<byte>, i: nat, fs: seq<Field>)
    requires At(s, i, EncFields(fs)) && AllWritable(fs)
    ensures var rest := Parse(s, i + |EncFields(fs)|);
            Parse(s, i) == Parsed(fs + rest.fields, rest.clean)
    decreases |fs|
  {
    hide ReadField, EncField, At, Writable;
    AtBound(s, i, EncFields(fs));
    if fs != [] {
      AtConcat(s, i, EncField(fs[0]), EncFields(fs[1..]));
      FieldRoundTrip(s, i, fs[0]);
      ParseEncoded(s, i + |EncField(fs[0])|, fs[1..]);
      assert fs == [fs[0]] + fs[1..];
      ghost var rest := Parse(s, i + |EncFields(fs)|).fields;
      assert [fs[0]] + (fs[1..] + rest) == fs + rest;
    } else {
      ghost var rest := Parse(s, i).fields;
      assert [] + rest == rest;
    }
  }

  /** Behind whole fields the reading ends as what follows ends. */
  lemma {:induction false} EndingBehind(s: seq<byte>, i: nat, fs: seq<Field>)
    requires At(s, i, EncFields(fs)) && AllWritable(fs)
    ensures EndingAt(s, i) == EndingAt(s, i + |EncFields(fs)|)
    decreases |fs|
  {
    hide VarintAt, ReadValue, At, EndingAt, TagNumber, EncField;
    if fs != [] {
      AtConcat(s, i, EncField(fs[0]), EncFields(fs[1..]));
      FieldRoundTrip(s, i, fs[0]);
      AtBound(s, i, EncField(fs[0]));
      EndingNext(s, i);
      EndingBehind(s, i + |EncField(fs[0])|, fs[1..]);
    }
  }

  lemma AtBound(s: seq<byte>, i: nat, w: seq<byte>)
    requires At(s, i, w)
    ensures i + |w| <= |s|
  {
  }

  lemma AtWhole(s: seq<byte>)
    ensures At(s, 0, s)
  {
  }

  lemma ParseExactly(fs: seq<Field>)
    requires AllWritable(fs)
    ensures Parse(EncFields(fs), 0) == Parsed(fs, true)
  {
    hide EncField, ReadField, Writable, At, EncFields;
    var s := EncFields(fs);
    AtWhole(s);
    ParseEncoded(s, 0, fs);
    assert Parse(s, |s|) == Parsed([], true) && fs + [] == fs;
  }

  /** Of fields cut short, only whole fields before the cut are read. */
  lemma {:induction false} ParseCut(s: seq<byte>, i: nat, fs: seq<Field>) returns (k: nat)
    requires Cut(s, i, EncFields(fs)) && AllWritable(fs)
    ensures k < |fs| && Parse(s, i).fields == fs[..k]
    decreases |fs|
  {
    hide ReadField, EncField, At, Writable, Cut;
    CutBound(s, i, EncFields(fs));
    CutConcat(s, i, EncField(fs[0]), EncFields(fs[1..]));
    if i == |s| {
      k := 0;
    } else if Cut(s, i, EncField(fs[0])) {
      FieldCut(s, i, fs[0]);
      k := 0;
    } else {
      FieldRoundTrip(s, i, fs[0]);
      k := ParseCut(s, i + |EncField(fs[0])|, fs[1..]);
      k := k + 1;
      assert fs[..k] == [fs[0]] + fs[1..][..k - 1];
    }
  }

  lemma CutBound(s: seq<byte>, i: nat, w: seq<byte>)
    requires Cut(s, i, w)
    ensures i <= |s| < i + |w|
  {
  }

  lemma ParseStrictPrefix(fs: seq<Field>, n: nat) returns (k: nat)
    requires AllWritable(fs) && n < |EncFields(fs)|
    ensures k < |fs| && Parse(EncFields(fs)[..n], 0).fields == fs[..k]
  {
    k := ParseCut(EncFields(fs)[..n], 0, fs);
  }
}
