/**
  The framing of src/bep.c as bytes: what a message may look like on the wire and
  what reading a byte stream yields. Class BepConn.BepConn is proved against it.
*/
module BepFormat {
  import opened Bytes
  import opened PbufFormat
  import Lz4Format
  import Lz4Compress

  const BEP_CLUSTER_CONFIG := 0
  const BEP_RESPONSE := 4
  const BEP_COMPRESS_NONE := 0
  const BEP_COMPRESS_LZ4 := 1
  const BEP_MSG_MAX: nat := (1024 + 64) * 1024
  const BEP_COMPRESS_MIN: nat := 1024

  // ------------------------------------------------------ numbers, header

  function Be16(v: nat): (w: seq<byte>)
    requires v < 0x1_0000
    ensures |w| == 2
  {
    [v / 0x100, v % 0x100]
  }

  function Be32(v: nat): (w: seq<byte>)
    requires v < TWO32
    ensures |w| == 4
  {
    [v / 0x100_0000, v / 0x1_0000 % 0x100, v / 0x100 % 0x100, v % 0x100]
  }

  function GetBe16(s: seq<byte>, i: nat): (v: nat)
    requires i + 2 <= |s|
    ensures v < 0x1_0000
  {
    (s[i] as int) * 0x100 + s[i + 1]
  }

  function GetBe32(s: seq<byte>, i: nat): (v: nat)
    requires i + 4 <= |s|
    ensures v < TWO32
  {
    (s[i] as int) * 0x100_0000 + (s[i + 1] as int) * 0x1_0000 + (s[i + 2] as int) * 0x100 + s[i + 3]
  }

  lemma Be16RoundTrip(s: seq<byte>, i: nat, v: nat)
    requires v < 0x1_0000 && At(s, i, Be16(v))
    ensures GetBe16(s, i) == v
  {
    var w := Be16(v);
    assert s[i + 0] == w[0] && s[i + 1] == w[1];
  }

  lemma Be32RoundTrip(s: seq<byte>, i: nat, v: nat)
    requires v < TWO32 && At(s, i, Be32(v))
    ensures GetBe32(s, i) == v
  {
    hide Be32;
    var w := Be32(v);
    assert s[i + 0] == w[0] && s[i + 1] == w[1] && s[i + 2] == w[2] && s[i + 3] == w[3];
    Be32Value(v);
  }

  lemma Be32Value(v: nat)
    requires v < TWO32
    ensures var w := Be32(v);
            (w[0] as int) * 0x100_0000 + (w[1] as int) * 0x1_0000 + (w[2] as int) * 0x100 + w[3] == v
  {
    var a := v / 0x100;
    var b := a / 0x100;
    assert v / 0x1_0000 == b;
    assert v / 0x100_0000 == b / 0x100;
  }

  datatype Header = Header(kind: int, compression: int)

  function HeaderFields(h: Header): seq<Field> {
    [Field(1, Number(h.kind % TWO32))] + if h.compression != BEP_COMPRESS_NONE then [Field(2, Number(h.compression % TWO32))] else []
  }

  function HeaderStep(h: Header, f: Field): Header {
    if f.num == 1 && f.value.Number? then h.(kind := AsInt32(f.value.n))
    else if f.num == 2 && f.value.Number? then h.(compression := AsInt32(f.value.n))
    else h
  }

  function RunHeader(h: Header, fs: seq<Field>): Header
    decreases |fs|
  {
    if fs == [] then h else RunHeader(HeaderStep(h, fs[0]), fs[1..])
  }

  /** bep_decode_header; a field left out keeps its default. */
  function DecodeHeader(b: seq<byte>): Option<Header> {
    var parsed := Parse(b, 0);
    if parsed.clean then Some(RunHeader(Header(BEP_CLUSTER_CONFIG, BEP_COMPRESS_NONE), parsed.fields)) else None
  }

  function EncHeader(h: Header): seq<byte> {
    EncFields(HeaderFields(h))
  }

  lemma HeaderRoundTrip(h: Header)
    requires IsInt32(h.kind) && IsInt32(h.compression)
    ensures DecodeHeader(EncHeader(h)) == Some(h)
  {
    hide EncFields, Parse;
    var fs := HeaderFields(h);
    ParseExactly(fs);
    var h0 := Header(BEP_CLUSTER_CONFIG, BEP_COMPRESS_NONE);
    var h1 := h0.(kind := h.kind);
    assert RunHeader(h0, fs) == RunHeader(h1, fs[1..]);
    if h.compression != BEP_COMPRESS_NONE {
      assert RunHeader(h1, fs[1..]) == RunHeader(h, fs[1..][1..]);
    }
  }

  lemma HeaderShort(h: Header)
    requires 0 <= h.compression < 128
    ensures 0 < |EncHeader(h)| <= 8
  {
    var fs := HeaderFields(h);
    VarintShort(h.kind % TWO32);
    if h.compression != BEP_COMPRESS_NONE {
      EncFieldsConcat([fs[0]], [fs[1]]);
      EncFieldsOne(fs[1]);
      assert fs == [fs[0]] + [fs[1]];
    }
    EncFieldsOne(fs[0]);
  }

  lemma VarintShort(v: nat)
    requires v < TWO32
    ensures VarintLen(v) <= 5
  {
    assert Pow128(3) == 0x20_0000;
    assert Pow128(5) == 0x8_0000_0000;
    VarintFits(v, 5);
  }

  // ------------------------------------------------------ what is written

  datatype Message = Message(kind: int, body: seq<byte>)

  /** A header, and a body as it stands on the wire. */
  function FrameBytes(h: Header, wire: seq<byte>): seq<byte>
    requires |EncHeader(h)| < 0x1_0000 && |wire| < TWO32
  {
    Be16(|EncHeader(h)|) + EncHeader(h) + Be32(|wire|) + wire
  }

  predicate PlainFrame(w: seq<byte>, m: Message) {
    var h := Header(m.kind, BEP_COMPRESS_NONE);
    |EncHeader(h)| < 0x1_0000 && |m.body| < TWO32 && w == FrameBytes(h, m.body)
  }

  function LzBody(m: Message, block: seq<byte>): seq<byte>
    requires |m.body| < TWO32
  {
    Be32(|m.body|) + block
  }

  /** A compressed body is shorter than the body, and a Response never has one. */
  ghost predicate LzFrame(w: seq<byte>, m: Message, block: seq<byte>) {
    var h := Header(m.kind, BEP_COMPRESS_LZ4);
    && Lz4Compress.EncodingOf(block, m.body) && 4 + |block| < |m.body| && |m.body| + 4 <= BEP_MSG_MAX
    && m.kind != BEP_RESPONSE && |m.body| >= BEP_COMPRESS_MIN
    && |EncHeader(h)| < 0x1_0000 && w == FrameBytes(h, LzBody(m, block))
  }

  ghost predicate IsFrame(w: seq<byte>, m: Message) {
    PlainFrame(w, m) || exists block :: LzFrame(w, m, block)
  }

  // --------------------------------------------------------- what is read

  datatype Outcome =
    | Closed
    | Broken
    | Got(m: Message, next: nat, inPlain: bool)

  /** One frame at i. A stream that ends within the length of the header counts as
      closed, anywhere else as broken. */
  function ReadFrame(s: seq<byte>, i: nat): (r: Outcome)
    requires i <= |s|
    ensures r.Got? ==> i < r.next <= |s|
  {
    if |s| - i < 2 then Closed
    else
      var hlen := GetBe16(s, i);
      if |s| - i - 2 < hlen then Broken
      else match DecodeHeader(s[i + 2..i + 2 + hlen])
        case None => Broken
        case Some(h) => ReadBody(s, i + 2 + hlen, h)
  }

  function ReadBody(s: seq<byte>, i: nat, h: Header): (r: Outcome)
    requires i <= |s|
    ensures r.Got? ==> i < r.next <= |s|
    ensures r != Closed
  {
    if |s| - i < 4 then Broken
    else
      var mlen := GetBe32(s, i);
      if mlen > BEP_MSG_MAX || |s| - i - 4 < mlen then Broken
      else Unpack(s[i + 4..i + 4 + mlen], h, i + 4 + mlen)
  }

  function Unpack(wire: seq<byte>, h: Header, next: nat): (r: Outcome)
    ensures r.Got? ==> r.next == next
    ensures r != Closed
  {
    if h.compression != BEP_COMPRESS_LZ4 then Got(Message(h.kind, wire), next, false)
    else if |wire| < 4 then Broken
    else
      var usize := GetBe32(wire, 0);
      if usize > BEP_MSG_MAX then Broken
      else match Lz4Format.Decode(wire[4..], usize)
        case Corrupt(_) => Broken
        case Block(b) => if |b| == usize then Got(Message(h.kind, b), next, true) else Broken
  }

  // ------------------------------------------------------------ round trip

  predicate Accepted(m: Message) {
    |m.body| <= BEP_MSG_MAX
  }

  lemma FrameHeader(s: seq<byte>, i: nat, h: Header, wire: seq<byte>)
    requires IsInt32(h.kind) && 0 <= h.compression < 128 && |EncHeader(h)| < 0x1_0000 && |wire| < TWO32
    requires At(s, i, FrameBytes(h, wire))
    ensures var j := i + 2 + |EncHeader(h)|;
            j + 4 + |wire| <= |s| && ReadFrame(s, i) == ReadBody(s, j, h) && GetBe32(s, j) == |wire| && s[j + 4..j + 4 + |wire|] == wire
  {
    hide EncHeader, DecodeHeader, ReadBody;
    var head := EncHeader(h);
    HeaderShort(h);
    AtConcat(s, i, Be16(|head|) + head + Be32(|wire|), wire);
    AtConcat3(s, i, Be16(|head|), head, Be32(|wire|));
    Be16RoundTrip(s, i, |head|);
    AtSlice(s, i + 2, head);
    HeaderRoundTrip(h);
    Be32RoundTrip(s, i + 2 + |head|, |wire|);
    AtSlice(s, i + 2 + |head| + 4, wire);
  }

  lemma UnpackLz(m: Message, block: seq<byte>, next: nat)
    requires Lz4Compress.EncodingOf(block, m.body) && |m.body| <= BEP_MSG_MAX
    ensures Unpack(LzBody(m, block), Header(m.kind, BEP_COMPRESS_LZ4), next) == Got(m, next, true)
  {
    hide Lz4Compress.EncodingOf, Lz4Format.Decode;
    var wire := LzBody(m, block);
    AtSlice(wire, 0, Be32(|m.body|));
    Be32RoundTrip(wire, 0, |m.body|);
    assert wire[4..] == block;
    Lz4Compress.EncodingDecodes(block, m.body, |m.body|);
  }

  /** A frame is read back as its message exactly when the message is not too long. */
  lemma FrameRoundTrip(s: seq<byte>, i: nat, w: seq<byte>, m: Message)
    requires IsFrame(w, m) && IsInt32(m.kind) && At(s, i, w)
    ensures i + |w| <= |s|
    ensures |m.body| <= 1114112 ==> ReadFrame(s, i).Got? && ReadFrame(s, i).m == m && ReadFrame(s, i).next == i + |w|
    ensures |m.body| > 1114112 ==> ReadFrame(s, i) == Broken
  {
    hide EncHeader, ReadFrame, Lz4Compress.EncodingOf, Unpack, At;
    if PlainFrame(w, m) {
      var h := Header(m.kind, BEP_COMPRESS_NONE);
      FrameHeader(s, i, h, m.body);
      UnpackPlain(m, i + |w|);
    } else {
      var block :| LzFrame(w, m, block);
      var h := Header(m.kind, BEP_COMPRESS_LZ4);
      FrameHeader(s, i, h, LzBody(m, block));
      UnpackLz(m, block, i + |w|);
    }
  }

  lemma UnpackPlain(m: Message, next: nat)
    ensures Unpack(m.body, Header(m.kind, BEP_COMPRESS_NONE), next) == Got(m, next, false)
  {
  }

  lemma PartsCut(s: seq<byte>, i: nat, h: Header, wire: seq<byte>)
    requires IsInt32(h.kind) && 0 <= h.compression < 128 && |EncHeader(h)| < 0x1_0000 && |wire| < TWO32
    requires Cut(s, i, FrameBytes(h, wire))
    ensures i <= |s| && !ReadFrame(s, i).Got?
  {
    hide DecodeHeader, Unpack, EncHeader;
    var head := EncHeader(h);
    var a := Be16(|head|) + head;
    CutConcat(s, i, a + Be32(|wire|), wire);
    if Cut(s, i, a + Be32(|wire|)) {
      CutConcat(s, i, a, Be32(|wire|));
      if Cut(s, i, a) {
        CutConcat(s, i, Be16(|head|), head);
        if At(s, i, Be16(|head|)) {
          Be16RoundTrip(s, i, |head|);
        }
      } else {
        HeadRead(s, i, h);
      }
    } else {
      AtConcat(s, i, a, Be32(|wire|));
      HeadRead(s, i, h);
      Be32RoundTrip(s, i + |a|, |wire|);
    }
  }

  lemma HeadRead(s: seq<byte>, i: nat, h: Header)
    requires IsInt32(h.kind) && 0 <= h.compression < 128 && |EncHeader(h)| < 0x1_0000
    requires At(s, i, Be16(|EncHeader(h)|) + EncHeader(h))
    ensures var j := i + 2 + |EncHeader(h)|; j <= |s| && ReadFrame(s, i) == ReadBody(s, j, h)
  {
    hide EncHeader, DecodeHeader, ReadBody;
    var head := EncHeader(h);
    AtConcat(s, i, Be16(|head|), head);
    Be16RoundTrip(s, i, |head|);
    AtSlice(s, i + 2, head);
    HeaderRoundTrip(h);
  }

  /** A frame cut short anywhere never yields a message. */
  lemma FrameCut(s: seq<byte>, i: nat, w: seq<byte>, m: Message)
    requires IsFrame(w, m) && IsInt32(m.kind) && Cut(s, i, w)
    ensures i <= |s| && !ReadFrame(s, i).Got?
  {
    hide EncHeader, ReadFrame, Lz4Compress.EncodingOf, Cut;
    if PlainFrame(w, m) {
      PartsCut(s, i, Header(m.kind, BEP_COMPRESS_NONE), m.body);
    } else {
      var block :| LzFrame(w, m, block);
      PartsCut(s, i, Header(m.kind, BEP_COMPRESS_LZ4), LzBody(m, block));
    }
  }

  /** All the messages of a stream from i on, and whether it ended in a clean close. */
  datatype Received = Received(messages: seq<Message>, closed: bool)

  function ReadAll(s: seq<byte>, i: nat): Received
    requires i <= |s|
    decreases |s| - i
  {
    match ReadFrame(s, i)
    case Closed => Received([], true)
    case Broken => Received([], false)
    case Got(m, next, _) =>
      var rest := ReadAll(s, next);
      Received([m] + rest.messages, rest.closed)
  }

  function Concat(ws: seq<seq<byte>>): seq<byte> {
    if ws == [] then [] else ws[0] + Concat(ws[1..])
  }

  ghost predicate AreFrames(ws: seq<seq<byte>>, ms: seq<Message>) {
    |ws| == |ms| && forall k :: 0 <= k < |ws| ==> IsFrame(ws[k], ms[k]) && IsInt32(ms[k].kind)
  }

  /** The messages up to the first one that is too long. */
  function UpToLong(ms: seq<Message>): seq<Message> {
    if ms == [] || !Accepted(ms[0]) then [] else [ms[0]] + UpToLong(ms[1..])
  }

  lemma {:induction false} StreamFrom(s: seq<byte>, i: nat, ws: seq<seq<byte>>, ms: seq<Message>)
    requires AreFrames(ws, ms) && At(s, i, Concat(ws)) && i + |Concat(ws)| == |s|
    ensures ReadAll(s, i) == Received(UpToLong(ms), |UpToLong(ms)| == |ms|)
    decreases |ws|
  {
    hide IsFrame, ReadFrame, At;
    if ws == [] {
      NothingLeft(s, i);
    } else {
      AtConcat(s, i, ws[0], Concat(ws[1..]));
      FrameRoundTrip(s, i, ws[0], ms[0]);
      if Accepted(ms[0]) {
        StreamFrom(s, i + |ws[0]|, ws[1..], ms[1..]);
      }
    }
  }

  lemma NothingLeft(s: seq<byte>, i: nat)
    requires i == |s|
    ensures ReadFrame(s, i) == Closed
  {
  }

  /** Any run of messages, each sent compressed or not, is read back as the same
      messages up to the first that exceeds the limit; all of them, closed cleanly,
      exactly when none does. */
  lemma StreamRoundTrip(ws: seq<seq<byte>>, ms: seq<Message>)
    requires AreFrames(ws, ms)
    ensures ReadAll(Concat(ws), 0) == Received(UpToLong(ms), |UpToLong(ms)| == |ms|)
    ensures (forall k :: 0 <= k < |ms| ==> |ms[k].body| <= 1114112) <==> ReadAll(Concat(ws), 0) == Received(ms, true)
  {
    hide AreFrames, ReadAll;
    AtWhole(Concat(ws));
    StreamFrom(Concat(ws), 0, ws, ms);
    AllUpToLong(ms);
  }

  /** How many of the frames lie wholly within the first n bytes. */
  function WholeBefore(ws: seq<seq<byte>>, n: nat): (k: nat)
    ensures k <= |ws|
  {
    if ws == [] || |ws[0]| > n then 0 else 1 + WholeBefore(ws[1..], n - |ws[0]|)
  }

  lemma {:induction false} WholeBeforeIs(ws: seq<seq<byte>>, n: nat)
    ensures var k := WholeBefore(ws, n);
            |Concat(ws[..k])| <= n && (k < |ws| ==> n < |Concat(ws[..k + 1])|)
    decreases |ws|
  {
    if ws != [] && |ws[0]| <= n {
      var k := WholeBefore(ws[1..], n - |ws[0]|);
      WholeBeforeIs(ws[1..], n - |ws[0]|);
      ConcatFirst(ws, k + 1);
      if k < |ws[1..]| {
        ConcatFirst(ws, k + 2);
      }
    } else if ws != [] {
      ConcatFirst(ws, 1);
    }
  }

  lemma ConcatFirst(ws: seq<seq<byte>>, k: nat)
    requires 0 < k <= |ws|
    ensures Concat(ws[..k]) == ws[0] + Concat(ws[1..][..k - 1])
  {
    assert ws[..k][1..] == ws[1..][..k - 1];
  }

  lemma ClosedIff(s: seq<byte>, i: nat)
    requires i <= |s|
    ensures ReadFrame(s, i) == Closed <==> |s| - i <= 1
  {
    hide ReadBody, DecodeHeader;
  }

  lemma FrameLong(w: seq<byte>, m: Message)
    requires IsFrame(w, m)
    ensures |w| >= 6
  {
    hide EncHeader, Lz4Compress.EncodingOf;
  }

  lemma {:induction false} CutFrom(s: seq<byte>, i: nat, ws: seq<seq<byte>>, ms: seq<Message>)
    requires AreFrames(ws, ms) && Cut(s, i, Concat(ws)) && i <= |s|
    ensures var n := |s| - i;
            var k := WholeBefore(ws, n);
            && ReadAll(s, i).messages == UpToLong(ms[..k])
            && (ReadAll(s, i).closed <==> |UpToLong(ms[..k])| == k && n - |Concat(ws[..k])| <= 1)
    decreases |ws|
  {
    hide IsFrame, ReadFrame, At, Cut;
    CutBound(s, i, Concat(ws));
    CutConcat(s, i, ws[0], Concat(ws[1..]));
    var n := |s| - i;
    if Cut(s, i, ws[0]) {
      CutBound(s, i, ws[0]);
      FrameCut(s, i, ws[0], ms[0]);
      ClosedIff(s, i);
      assert ws[..0] == [] && Concat([]) == [];
    } else {
      FrameRoundTrip(s, i, ws[0], ms[0]);
      var k := WholeBefore(ws, n);
      ConcatFirst(ws, k);
      assert ms[..k][1..] == ms[1..][..k - 1];
      if Accepted(ms[0]) {
        CutFrom(s, i + |ws[0]|, ws[1..], ms[1..]);
      }
    }
  }

  /** A connection lost after n bytes delivers the messages whose frames had arrived
      whole, up to the first too long one. It counts as closed exactly when none of
      these was too long and no more than one byte of the next frame had come. */
  lemma StreamCut(ws: seq<seq<byte>>, ms: seq<Message>, n: nat)
    requires AreFrames(ws, ms) && n < |Concat(ws)|
    ensures var k, r := WholeBefore(ws, n), ReadAll(Concat(ws)[..n], 0);
            && k < |ws| && |Concat(ws[..k])| <= n < |Concat(ws[..k + 1])|
            && r.messages == UpToLong(ms[..k])
            && (r.closed <==> UpToLong(ms[..k]) == ms[..k] && n - |Concat(ws[..k])| <= 1)
  {
    hide AreFrames, ReadAll;
    var k := WholeBefore(ws, n);
    WholeBeforeIs(ws, n);
    assert ws[..|ws|] == ws;
    CutFrom(Concat(ws)[..n], 0, ws, ms);
    FrameCount(ws, ms);
    AllUpToLong(ms[..k]);
  }

  lemma FrameCount(ws: seq<seq<byte>>, ms: seq<Message>)
    requires AreFrames(ws, ms)
    ensures |ws| == |ms|
  {
  }

  /** Frames being at least six bytes long, only one place can be within a byte of n. */
  lemma {:induction false} OnlyPlace(ws: seq<seq<byte>>, ms: seq<Message>, n: nat, k: nat)
    requires AreFrames(ws, ms) && k <= |ws| && 0 <= n - |Concat(ws[..k])| <= 1
    ensures WholeBefore(ws, n) == k
    decreases k
  {
    hide IsFrame;
    if ws != [] {
      FrameLong(ws[0], ms[0]);
    }
    if k == 0 {
      assert ws[..0] == [];
    } else {
      ConcatFirst(ws, k);
      OnlyPlace(ws[1..], ms[1..], n - |ws[0]|, k - 1);
    }
  }

  /** Acceptable messages cut at n: as many as arrived whole are delivered, and the loss
      reads as a clean close if and only if it fell between two frames or one byte after. */
  lemma AcceptedCut(ws: seq<seq<byte>>, ms: seq<Message>, n: nat)
    requires AreFrames(ws, ms) && n < |Concat(ws)| && forall j :: 0 <= j < |ms| ==> Accepted(ms[j])
    ensures ReadAll(Concat(ws)[..n], 0).messages == ms[..WholeBefore(ws, n)]
    ensures ReadAll(Concat(ws)[..n], 0).closed <==> exists k :: 0 <= k <= |ws| && 0 <= n - |Concat(ws[..k])| <= 1
  {
    hide AreFrames, ReadAll;
    var k := WholeBefore(ws, n);
    StreamCut(ws, ms, n);
    FrameCount(ws, ms);
    AllUpToLong(ms[..k]);
    if j :| 0 <= j <= |ws| && 0 <= n - |Concat(ws[..j])| <= 1 {
      OnlyPlace(ws, ms, n, j);
    }
  }

  /** Lost after the first byte of a frame, a connection looks as if it had been closed
      before that frame. */
  lemma OneByteReadsAsClosed(ws: seq<seq<byte>>, ms: seq<Message>, w: seq<byte>, m: Message)
    requires AreFrames(ws, ms) && forall j :: 0 <= j < |ms| ==> Accepted(ms[j])
    requires IsFrame(w, m) && IsInt32(m.kind)
    ensures w != [] && ReadAll(Concat(ws) + w[..1], 0) == Received(ms, true)
  {
    hide IsFrame, ReadAll;
    FrameLong(w, m);
    var all, n := ws + [w], |Concat(ws)| + 1;
    ConcatLast(ws, w);
    assert Concat(all)[..n] == Concat(ws) + w[..1];
    assert AreFrames(all, ms + [m]);
    assert all[..|ws|] == ws && (ms + [m])[..|ws|] == ms;
    OnlyPlace(all, ms + [m], n, |ws|);
    StreamCut(all, ms + [m], n);
    AllUpToLong(ms);
  }

  lemma {:induction false} ConcatLast(ws: seq<seq<byte>>, w: seq<byte>)
    ensures Concat(ws + [w]) == Concat(ws) + w
    decreases |ws|
  {
    if ws == [] {
      assert [] + [w] == [w] && [w][1..] == [];
    } else {
      assert (ws + [w])[1..] == ws[1..] + [w];
      ConcatLast(ws[1..], w);
    }
  }

  lemma {:induction false} AllUpToLong(ms: seq<Message>)
    ensures UpToLong(ms) == ms <==> forall k :: 0 <= k < |ms| ==> Accepted(ms[k])
    ensures |UpToLong(ms)| == |ms| ==> UpToLong(ms) == ms
    decreases |ms|
  {
    hide Accepted;
    if ms != [] {
      AllUpToLong(ms[1..]);
      assert forall k :: 0 < k < |ms| ==> ms[k] == ms[1..][k - 1];
      assert ms == [ms[0]] + ms[1..];
    }
  }
}
