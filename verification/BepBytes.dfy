/**
  The frames of BepFormat byte by byte: what a message with a kind below 128 looks
  like on the wire, plain and compressed, and which bytes are read as which message.
*/
module BepBytes {
  import opened Bytes
  import opened PbufFormat
  import opened BepFormat
  import Lz4Format
  import Lz4Compress

  lemma HeaderInBytes(kind: byte, compression: byte)
    requires kind < 128 && compression < 128
    ensures EncHeader(Header(kind, compression)) ==
            if compression == 0 then [0x08, kind] else [0x08, kind, 0x10, compression]
  {
    var a, b := Field(1, Number(kind)), Field(2, Number(compression));
    var h := Header(kind, compression);
    FieldInBytes(1, a.value);
    FieldInBytes(2, b.value);
    ShortNumber(kind);
    ShortNumber(compression);
    ShortNumber(8);
    ShortNumber(16);
    hide EncFields, EncField, VarintBytes;
    EncFieldsOne(a);
    EncTwo(a, b);
    assert HeaderFields(h) == if compression == 0 then [a] else [a, b];
  }

  /** Four bytes, most significant first. */
  lemma Be32InBytes(v: nat, w: seq<byte>)
    requires v < 0x1_0000_0000
    ensures w == Be32(v) <==>
            |w| == 4 && v == (w[0] as int) * 0x100_0000 + (w[1] as int) * 0x1_0000 + (w[2] as int) * 0x100 + w[3] as int
  {
    Be32Value(v);
    if |w| == 4 && v == (w[0] as int) * 0x100_0000 + (w[1] as int) * 0x1_0000 + (w[2] as int) * 0x100 + w[3] as int {
      Be32Digits(v, w[0], w[1], w[2], w[3]);
    }
  }

  lemma Be32Digits(v: nat, a: byte, b: byte, c: byte, d: byte)
    requires v == (a as int) * 0x100_0000 + (b as int) * 0x1_0000 + (c as int) * 0x100 + d as int
    ensures Be32(v) == [a, b, c, d]
  {
    assert v / 0x100 == (a as int) * 0x1_0000 + (b as int) * 0x100 + c as int;
    assert v / 0x1_0000 == (a as int) * 0x100 + b as int;
  }

  /** A message as it is sent: header length and header, body length and body. */
  lemma FramesInBytes(w: seq<byte>, m: Message)
    requires 0 <= m.kind < 128 && |m.body| < 0x8000_0000
    ensures PlainFrame(w, m) <==> w == [0, 2, 0x08, m.kind] + Be32(|m.body|) + m.body
  {
    hide EncHeader, Be32;
    HeaderInBytes(m.kind, 0);
    var front: seq<byte> := [0, 2, 0x08, m.kind];
    assert Be16(2) + [0x08, m.kind] == front;
  }

  /** And compressed: the same with the compression in the header, and the length of
      the original before the block. Responses, messages under 1024 bytes and blocks
      that save nothing are not sent this way. */
  lemma LzFramesInBytes(w: seq<byte>, m: Message, block: seq<byte>)
    requires 0 <= m.kind < 128 && |m.body| < 0x8000_0000
    ensures LzFrame(w, m, block) <==>
            && Lz4Compress.EncodingOf(block, m.body) && m.kind != 4
            && 1024 <= |m.body| <= 1114108 && 4 + |block| < |m.body|
            && w == [0, 4, 0x08, m.kind, 0x10, 1] + Be32(4 + |block|) + Be32(|m.body|) + block
  {
    hide EncHeader, Be32, Lz4Compress.EncodingOf;
    HeaderInBytes(m.kind, 1);
    var front: seq<byte> := [0, 4, 0x08, m.kind, 0x10, 1];
    assert Be16(4) + [0x08, m.kind, 0x10, 1] == front;
    if 4 + |block| < |m.body| {
      assert front + Be32(4 + |block|) + (Be32(|m.body|) + block) == front + Be32(4 + |block|) + Be32(|m.body|) + block;
    }
  }

  /** A frame with a plain header is its body, if that is no longer than the limit. */
  lemma PlainRead(s: seq<byte>, kind: byte, compression: byte, body: seq<byte>)
    requires kind < 128 && 1 < compression < 128 && |body| < 0x8000_0000
    ensures [0, 2, 0x08, kind] + Be32(|body|) + body <= s ==>
              ReadFrame(s, 0) == if |body| > 1114112 then Broken else Got(Message(kind, body), 8 + |body|, false)
    ensures [0, 4, 0x08, kind, 0x10, compression] + Be32(|body|) + body <= s ==>
              ReadFrame(s, 0) == if |body| > 1114112 then Broken else Got(Message(kind, body), 10 + |body|, false)
  {
    var h, h' := Header(kind, 0), Header(kind, compression);
    HeaderInBytes(kind, 0);
    HeaderInBytes(kind, compression);
    hide EncHeader, Be32, ReadFrame, ReadBody, At;
    if [0, 2, 0x08, kind] + Be32(|body|) + body <= s {
      assert Be16(2) + [0x08, kind] == [0, 2, 0x08, kind];
      FrameRead(s, h, body);
    }
    if [0, 4, 0x08, kind, 0x10, compression] + Be32(|body|) + body <= s {
      assert Be16(4) + [0x08, kind, 0x10, compression] == [0, 4, 0x08, kind, 0x10, compression];
      FrameRead(s, h', body);
    }
  }

  /** A frame that says LZ4 is what its block decodes to, which must be as long as the
      four bytes before the block say and no longer than the limit. */
  lemma LzRead(s: seq<byte>, kind: byte, usize: nat, block: seq<byte>)
    requires kind < 128 && usize < 0x1_0000_0000 && 4 + |block| <= 1114112
    requires [0, 4, 0x08, kind, 0x10, 1] + Be32(4 + |block|) + (Be32(usize) + block) <= s
    ensures ReadFrame(s, 0) ==
            if usize <= 1114112 && Lz4Format.Decode(block, usize).Block? && |Lz4Format.Decode(block, usize).bytes| == usize
            then Got(Message(kind, Lz4Format.Decode(block, usize).bytes), 14 + |block|, true)
            else Broken
  {
    HeaderInBytes(kind, 1);
    hide EncHeader, Be32, ReadFrame, ReadBody, At, Lz4Format.Decode;
    var wire := Be32(usize) + block;
    assert Be16(4) + [0x08, kind, 0x10, 1] == [0, 4, 0x08, kind, 0x10, 1];
    FrameRead(s, Header(kind, 1), wire);
    assert wire[4..] == block;
    assert At(wire, 0, Be32(usize)) by {
      AtSlice(wire, 0, Be32(usize));
    }
    Be32RoundTrip(wire, 0, usize);
  }

  lemma FrameRead(s: seq<byte>, h: Header, wire: seq<byte>)
    requires IsInt32(h.kind) && 0 <= h.compression < 128 && |EncHeader(h)| < 0x1_0000 && |wire| < TWO32
    requires Be16(|EncHeader(h)|) + EncHeader(h) + Be32(|wire|) + wire <= s
    ensures var n := 6 + |EncHeader(h)| + |wire|;
            ReadFrame(s, 0) == if |wire| > 1114112 then Broken else Unpack(wire, h, n)
  {
    hide EncHeader, ReadFrame, Unpack;
    var w := FrameBytes(h, wire);
    AtSlice(s, 0, w);
    FrameHeader(s, 0, h, wire);
  }

  /** A frame whose header is empty, as another implementation writes it, is a plain
      message of kind 0. */
  lemma EmptyHeaderRead(s: seq<byte>, body: seq<byte>)
    requires |body| <= 1114112 && [0, 0] + Be32(|body|) + body <= s
    ensures ReadFrame(s, 0) == Got(Message(0, body), 6 + |body|, false)
  {
    hide Be32, At;
    var w := Be32(|body|) + body;
    assert s[2..6] == Be32(|body|) && s[6..6 + |body|] == body;
    assert At(s, 2, Be32(|body|)) by {
      AtSlice(s, 2, Be32(|body|));
    }
    Be32RoundTrip(s, 2, |body|);
    assert s[2..2] == [];
    assert DecodeHeader([]) == Some(Header(0, 0));
  }
}
