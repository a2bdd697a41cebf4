/**
  bep_send_message and bep_read_message of src/bep.c, with their growing buffers,
  over a transport that reads and writes as few bytes at a time as it likes.
*/
module BepConn {
  import opened Bytes
  import opened PbufFormat
  import opened Pbuf
  import opened BepFormat
  import Lz4Format
  import Lz4Compress
  import Lz4Decompress

  const BEP_COALESCE_MAX: nat := 2048
  const BEP_FRAME_MAX: nat := 22
  const GROW_STEP: nat := 128 * 1024

  /** The bytes the peer sends, and the bytes it has been sent. A reliable transport
      does not fail before the end of the stream. */
  class Transport {
    const input: seq<byte>
    const reliable: bool
    var pos: nat
    var sent: seq<byte>

    ghost predicate Valid()
      reads this
    {
      pos <= |input|
    }

    constructor (input: seq<byte>, reliable: bool)
      ensures Valid() && this.input == input && this.reliable == reliable && pos == 0 && sent == []
    {
      this.input, this.reliable, pos, sent := input, reliable, 0, [];
    }

    /** At least one byte unless the stream is at its end, or a failure at any time. */
    method Read(len: nat) returns (n: int, data: seq<byte>)
      requires Valid() && len > 0
      modifies `pos
      ensures Valid() && n <= len && (reliable ==> n >= 0)
      ensures n > 0 ==> pos == old(pos) + n && data == input[old(pos)..pos]
      ensures n == 0 ==> pos == old(pos) == |input|
      ensures n < 0 ==> pos == old(pos)
    {
      data := [];
      n := *;
      if n < 0 && !reliable {
        return;
      }
      n := if pos == |input| then 0 else Max(1, Min(n, Min(len, |input| - pos)));
      data := input[pos..pos + n];
      pos := pos + n;
    }

    method Write(data: seq<byte>) returns (n: int)
      requires data != []
      modifies `sent
      ensures n <= |data| && (reliable ==> n > 0)
      ensures sent == if n > 0 then old(sent) + data[..n] else old(sent)
    {
      n := *;
      n := if reliable then Max(1, Min(n, |data|)) else Min(n, |data|);
      if n > 0 {
        sent := sent + data[..n];
      }
    }
  }

  /** read_full: all len bytes into the front of buf (1), or the stream ended (0), or
      the transport failed (negative). */
  method ReadFull(t: Transport, buf: array<byte>, len: nat) returns (rc: int)
    requires t.Valid() && len <= buf.Length
    modifies t`pos, buf
    ensures t.Valid() && rc <= 1
    ensures rc == 1 ==> t.pos == old(t.pos) + len && buf[..len] == t.input[old(t.pos)..t.pos]
    ensures rc == 0 ==> |t.input| - old(t.pos) < len
    ensures t.reliable ==> rc >= 0
    ensures buf[len..] == old(buf[len..])
  {
    var got: nat := 0;
    while got < len
      invariant got <= len && t.Valid() && t.pos == old(t.pos) + got
      invariant forall k :: 0 <= k < got ==> buf[k] == t.input[old(t.pos) + k]
      invariant forall k :: len <= k < buf.Length ==> buf[k] == old(buf[k])
    {
      var n, data := t.Read(len - got);
      if n > 0 {
        forall k | got <= k < got + n {
          buf[k] := data[k - got];
        }
        got := got + n;
      } else if n == 0 {
        return 0;
      } else {
        return n;
      }
    }
    rc := 1;
  }

  /** write_full: all the bytes, or the first of them and a failure. */
  method WriteFull(t: Transport, data: seq<byte>) returns (ok: bool)
    modifies t`sent
    ensures old(t.sent) <= t.sent <= old(t.sent) + data
    ensures ok ==> t.sent == old(t.sent) + data
    ensures t.reliable ==> ok
  {
    var done: nat := 0;
    while done < |data|
      invariant done <= |data| && t.sent == old(t.sent) + data[..done]
    {
      var n := t.Write(data[done..]);
      if n > 0 {
        assert data[..done] + data[done..][..n] == data[..done + n];
        done := done + n;
      } else {
        return false;
      }
    }
    assert data[..done] == data;
    ok := true;
  }

  /** grow_buf: the same buffer or a larger one with the same bytes in front. */
  method GrowBuf(buf: array<byte>, need: nat, ample: bool) returns (ok: bool, nb: array<byte>)
    requires buf.Length <= BEP_MSG_MAX
    ensures need <= buf.Length || (need <= BEP_MSG_MAX && ample) ==> ok
    ensures ok ==> need <= nb.Length
    ensures nb.Length <= BEP_MSG_MAX && (nb == buf || fresh(nb))
    ensures buf.Length <= nb.Length && nb[..buf.Length] == buf[..]
    ensures !ok || need <= buf.Length ==> nb == buf
  {
    nb := buf;
    assert buf[..buf.Length] == buf[..];
    if need <= buf.Length {
      return true, buf;
    }
    if need > BEP_MSG_MAX {
      return false, buf;
    }
    var newcap := buf.Length;
    while newcap < need
      invariant buf.Length <= newcap
    {
      newcap := newcap + GROW_STEP;
    }
    if newcap > BEP_MSG_MAX {
      newcap := BEP_MSG_MAX;
    }
    var got: bool := *;
    if !got && !ample {
      return false, buf;
    }
    nb := new byte[newcap];
    forall k | 0 <= k < buf.Length {
      nb[k] := buf[k];
    }
    ok := true;
  }

  /** bep_decode_header */
  method ReadHeader(b: seq<byte>) returns (h: Option<Header>)
    ensures h == DecodeHeader(b)
  {
    hide VarintAt, TagNumber, Parse;
    var hdr := Header(BEP_CLUSTER_CONFIG, BEP_COMPRESS_NONE);
    var r := new PbufReader(b);
    while true
      invariant r.Valid() && !r.error && r.data == b
      invariant DecodeHeader(b) == if Parse(b, r.p).clean then Some(RunHeader(hdr, Parse(b, r.p).fields)) else None
      decreases |b| - r.p
    {
      if r.p < |b| {
        ParseNext(b, r.p);
      } else {
        ParseEnd(b, r.p);
      }
      var ok, field, wt := r.ReadTag();
      if !ok {
        return if !r.error then Some(hdr) else None;
      }
      ghost var val := ReadValue(b, r.p, wt);
      if val.Some? {
        HeaderOn(hdr, Field(field, val.value.0), Parse(b, val.value.1).fields);
      }
      var v;
      if field == 1 && wt == PBUF_WT_VARINT {
        ok, v := r.ReadVarint();
        if !ok {
          return None;
        }
        hdr := hdr.(kind := AsInt32(v));
      } else if field == 2 && wt == PBUF_WT_VARINT {
        ok, v := r.ReadVarint();
        if !ok {
          return None;
        }
        hdr := hdr.(compression := AsInt32(v));
      } else {
        ok := r.Skip(wt);
        if !ok {
          return None;
        }
      }
    }
  }

  lemma HeaderOn(h: Header, f: Field, rest: seq<Field>)
    ensures RunHeader(h, [f] + rest) == RunHeader(HeaderStep(h, f), rest)
  {
    assert ([f] + rest)[1..] == rest;
  }

  /** bep_encode_header into its 16-byte buffer, which is always enough. */
  method WriteHeader(h: Header) returns (hbuf: array<byte>, hlen: nat)
    requires 0 <= h.compression < 128
    ensures fresh(hbuf) && hlen <= 8 && hlen <= hbuf.Length && hbuf[..hlen] == EncHeader(h)
  {
    hide EncField;
    hbuf := new byte[16];
    var w := new PbufWriter(hbuf, 0, 16);
    var _ := w.WriteEnum(1, h.kind);
    EncFieldsOne(HeaderFields(h)[0]);
    if h.compression != BEP_COMPRESS_NONE {
      var _ := w.WriteEnum(2, h.compression);
      EncFieldsConcat([HeaderFields(h)[0]], [HeaderFields(h)[1]]);
      EncFieldsOne(HeaderFields(h)[1]);
    }
    HeaderShort(h);
    AtSlice(hbuf[..], 0, w.out);
    hlen := w.len;
  }

  method Put(buf: array<byte>, i: nat, w: seq<byte>)
    requires i + |w| <= buf.Length
    modifies buf
    ensures buf[..i] == old(buf[..i]) && buf[i..i + |w|] == w && buf[i + |w|..] == old(buf[i + |w|..])
    ensures buf[..i + |w|] == old(buf[..i]) + w
  {
    forall k | 0 <= k < |w| {
      buf[i + k] := w[k];
    }
    assert buf[i..i + |w|] == w;
    assert buf[..i + |w|] == buf[..i] + buf[i..i + |w|];
  }

  /** A frame of the message, compressed only where that is allowed. */
  ghost predicate Sends(w: seq<byte>, m: Message, squeeze: bool) {
    IsFrame(w, m) && (!squeeze ==> PlainFrame(w, m))
  }

  class BepConn {
    const ample: bool
    var wire: array<byte>
    var plain: array<byte>
    const frame: array<byte>
    var compress: bool
    var bodyInPlain: bool
    var inHandler: bool
    var plainSkips: nat
    ghost var bodyLen: nat

    ghost predicate Valid()
      reads this
    {
      && wire.Length <= BEP_MSG_MAX && plain.Length <= BEP_MSG_MAX && frame.Length == BEP_FRAME_MAX + BEP_COALESCE_MAX
      && wire != plain && frame != wire && frame != plain
      && bodyLen <= (if bodyInPlain then plain else wire).Length
    }

    /** The message body a handler is looking at. */
    ghost function Body(): seq<byte>
      requires Valid()
      reads this, wire, plain
    {
      (if bodyInPlain then plain else wire)[..bodyLen]
    }

    constructor (ample: bool)
      ensures Valid() && fresh(wire) && fresh(plain) && fresh(frame) && compress && !inHandler && bodyLen == 0
      ensures this.ample == ample
    {
      this.ample := ample;
      wire, plain, frame := new byte[16 * 1024], new byte[64 * 1024], new byte[BEP_FRAME_MAX + BEP_COALESCE_MAX];
      compress, bodyInPlain, inHandler, plainSkips, bodyLen := true, false, false, 0, 0;
    }

    // ------------------------------------------------------------- reading

    method EnsureWire(need: nat) returns (ok: bool)
      requires Valid() && need <= BEP_MSG_MAX
      modifies `wire
      ensures Valid() && (wire == old(wire) || fresh(wire)) && (ok ==> need <= wire.Length) && (ample ==> ok)
    {
      ok, wire := GrowBuf(wire, need, ample);
    }

    method EnsurePlain(need: nat) returns (ok: bool)
      requires Valid()
      modifies `plain
      ensures Valid() && (plain == old(plain) || fresh(plain)) && (ok ==> need <= plain.Length)
      ensures ample && need <= BEP_MSG_MAX ==> ok
      ensures old(plain).Length <= plain.Length && plain[..old(plain).Length] == old(plain[..])
    {
      ok, plain := GrowBuf(plain, need, ample);
    }

    /** The LZ4 body in wire[..mlen] expanded into plain, or refused. */
    method Expand(mlen: nat, ghost h: Header) returns (ok: bool, len: nat)
      requires Valid() && mlen <= wire.Length && h.compression == BEP_COMPRESS_LZ4 && bodyLen == 0
      modifies `plain, plain, `bodyInPlain, `bodyLen
      ensures Valid() && (plain == old(plain) || fresh(plain))
      ensures var r := Unpack(wire[..mlen], h, 0);
              if ok then r == Got(Message(h.kind, Body()), 0, true) && len == bodyLen && bodyInPlain
              else ample ==> r == Broken
    {
      hide Lz4Format.Decode;
      ok, len := false, 0;
      if mlen < 4 {
        return;
      }
      var usize := GetBe32(wire[..mlen], 0);
      if usize > BEP_MSG_MAX {
        return;
      }
      ok := EnsurePlain(usize);
      if !ok {
        return;
      }
      ghost var w := wire[..mlen];
      assert wire[4..mlen] == w[4..];
      var dec := Lz4Decompress.DecompressSafe(wire[4..mlen], plain, usize);
      if dec != usize {
        ok := false;
        return;
      }
      len, bodyLen, bodyInPlain := usize, usize, true;
    }

    /** The body stays in wire, or is expanded into plain. */
    method Deliver(mlen: nat, h: Header) returns (rc: int, len: nat)
      requires Valid() && mlen <= wire.Length && bodyLen == 0
      modifies `plain, plain, `bodyInPlain, `bodyLen
      ensures Valid() && (plain == old(plain) || fresh(plain)) && (rc == 1 || rc == -1)
      ensures var r := Unpack(wire[..mlen], h, 0);
              if rc == 1 then r == Got(Message(h.kind, Body()), 0, bodyInPlain) && len == bodyLen
              else ample ==> r == Broken
    {
      hide Lz4Format.Decode;
      if h.compression == BEP_COMPRESS_LZ4 {
        var ok;
        ok, len := Expand(mlen, h);
        rc := if ok then 1 else -1;
      } else {
        len, bodyLen, bodyInPlain := mlen, mlen, false;
        rc := 1;
      }
    }

    /** A read from position i went as far as r says; without a reliable transport and
        ample memory it may instead have failed. */
    ghost predicate Served(t: Transport, r: Outcome, rc: int, kind: int, len: nat)
      requires Valid()
      reads this, wire, plain, t
    {
      && t.Valid() && (rc == 1 || rc == 0 || rc == -1)
      && (rc == 1 ==> r == Got(Message(kind, Body()), t.pos, bodyInPlain) && len == bodyLen)
      && (rc == 0 ==> r == Closed)
      && (rc == -1 && t.reliable && ample ==> r == Broken)
    }

    /** From the body length on. */
    method ReadRest(t: Transport, h: Header) returns (rc: int, len: nat)
      requires Valid() && t.Valid() && bodyLen == 0
      modifies t`pos, `wire, `plain, `bodyInPlain, `bodyLen, wire, plain
      ensures Valid() && (wire == old(wire) || fresh(wire)) && (plain == old(plain) || fresh(plain))
      ensures Served(t, ReadBody(t.input, old(t.pos), h), rc, h.kind, len)
    {
      hide Lz4Format.Decode, Unpack;
      rc, len := -1, 0;
      ghost var s, i := t.input, t.pos;
      var lenbuf := new byte[4];
      var got := ReadFull(t, lenbuf, 4);
      if got != 1 {
        return;
      }
      assert GetBe32(lenbuf[..4], 0) == GetBe32(s, i) by {
        assert lenbuf[..4] == s[i..i + 4];
      }
      var mlen := GetBe32(lenbuf[..4], 0);
      if mlen > BEP_MSG_MAX {
        return;
      }
      var ok := EnsureWire(mlen);
      if !ok {
        return;
      }
      if mlen > 0 {
        got := ReadFull(t, wire, mlen);
        if got != 1 {
          return;
        }
      }
      assert wire[..mlen] == s[i + 4..i + 4 + mlen];
      NextOnly(wire[..mlen], h, t.pos);
      rc, len := Deliver(mlen, h);
    }

    /** bep_read_message: however the bytes come in, the outcome is that of ReadFrame. */
    method ReadMessage(t: Transport) returns (rc: int, kind: int, len: nat)
      requires Valid() && t.Valid()
      modifies t`pos, `wire, `plain, `bodyInPlain, `bodyLen, wire, plain
      ensures Valid() && (wire == old(wire) || fresh(wire)) && (plain == old(plain) || fresh(plain))
      ensures Served(t, ReadFrame(t.input, old(t.pos)), rc, kind, len)
    {
      hide Lz4Format.Decode, Unpack, ReadBody, DecodeHeader;
      rc, kind, len := -1, 0, 0;
      ghost var s, i := t.input, t.pos;
      bodyLen := 0;
      var lenbuf := new byte[4];
      var got := ReadFull(t, lenbuf, 2);
      if got != 1 {
        rc := if got == 0 then 0 else -1;
        return;
      }
      assert GetBe16(lenbuf[..2], 0) == GetBe16(s, i) by {
        assert lenbuf[..2] == s[i..i + 2];
      }
      var hlen := GetBe16(lenbuf[..2], 0);
      var ok := EnsureWire(hlen);
      if !ok {
        return;
      }
      if hlen > 0 {
        got := ReadFull(t, wire, hlen);
        if got != 1 {
          return;
        }
      }
      assert wire[..hlen] == s[i + 2..i + 2 + hlen];
      var h := ReadHeader(wire[..hlen]);
      if h.None? {
        return;
      }
      rc, len := ReadRest(t, h.value);
      kind := h.value.kind;
    }

    // ------------------------------------------------------------- sending

    /** Whether a send may use plain as its scratch. */
    predicate Spared()
      reads this
    {
      inHandler && bodyInPlain
    }

    /** The LZ4 attempt of a send: the block with its size in front, in plain[..len], or
        len 0. */
    method Squeeze(msg: seq<byte>, base: nat) returns (len: nat)
      requires Valid() && BEP_COMPRESS_MIN <= |msg| < TWO31
      modifies `plain, plain
      ensures Valid() && (plain == old(plain) || fresh(plain)) && len <= plain.Length
      ensures len > 0 ==> 4 <= len < |msg| && |msg| + 4 <= BEP_MSG_MAX && plain[..4] == Be32(|msg|)
      ensures len > 0 ==> Lz4Compress.EncodingOf(plain[4..len], msg)
    {
      hide Lz4Compress.EncodingOf;
      var ok := EnsurePlain(|msg| + 4);
      if !ok {
        return 0;
      }
      var clen := Lz4Compress.CompressDefault(msg, base, plain, 4, plain.Length - 4);
      if clen > 0 && clen + 4 < |msg| {
        ghost var block := plain[4..4 + clen];
        Put(plain, 0, Be32(|msg|));
        assert plain[4..4 + clen] == block by {
          SliceKept(plain[..], block, 4);
        }
        return clen + 4;
      }
      len := 0;
    }

    /** put_be16, the header, put_be32: the front of the frame. */
    method FrameFront(h: Header, bodylen: nat) returns (flen: nat)
      requires Valid() && 0 <= h.compression < 128 && bodylen < TWO32
      modifies frame
      ensures flen <= BEP_FRAME_MAX && |EncHeader(h)| < 0x1_0000
      ensures frame[..flen] == Be16(|EncHeader(h)|) + EncHeader(h) + Be32(bodylen)
    {
      hide EncHeader;
      var hbuf, hlen := WriteHeader(h);
      Put(frame, 0, Be16(hlen));
      Put(frame, 2, hbuf[..hlen]);
      Put(frame, 2 + hlen, Be32(bodylen));
      flen := 2 + hlen + 4;
    }

    /** One write for a short frame, two for a long one. */
    method SendFrame(t: Transport, h: Header, body: seq<byte>) returns (ok: bool)
      requires Valid() && 0 <= h.compression < 128 && |body| < TWO32
      modifies frame, t`sent
      ensures |EncHeader(h)| < 0x1_0000 && old(t.sent) <= t.sent <= old(t.sent) + FrameBytes(h, body)
      ensures ok ==> t.sent == old(t.sent) + FrameBytes(h, body)
      ensures t.reliable ==> ok
    {
      hide EncHeader;
      var flen := FrameFront(h, |body|);
      ghost var front := frame[..flen];
      if body == [] {
        ok := WriteFull(t, frame[..flen]);
        assert FrameBytes(h, body) == front;
        return;
      }
      if |body| <= BEP_COALESCE_MAX {
        Put(frame, flen, body);
        ok := WriteFull(t, frame[..flen + |body|]);
        assert FrameBytes(h, body) == front + body;
        return;
      }
      ok := WriteFull(t, frame[..flen]);
      assert old(t.sent) + front <= old(t.sent) + FrameBytes(h, body) by {
        assert (old(t.sent) + front) + body == old(t.sent) + FrameBytes(h, body);
      }
      PrefixOn(t.sent, old(t.sent) + front, old(t.sent) + FrameBytes(h, body));
      if ok {
        ok := WriteFull(t, body);
        assert old(t.sent) + front + body == old(t.sent) + FrameBytes(h, body);
      }
    }

    /** bep_send_message. What goes out is a frame of the message. A body that a handler
        is still reading is left alone, wherever it is. */
    method SendMessage(t: Transport, kind: int, msg: seq<byte>, base: nat) returns (ok: bool)
      requires Valid() && |msg| < TWO31
      modifies `plain, `plainSkips, plain, frame, t`sent
      ensures Valid() && (plain == old(plain) || fresh(plain))
      ensures exists w :: Sends(w, Message(kind, msg), compress && !old(Spared())) &&
                          old(t.sent) <= t.sent <= old(t.sent) + w && (ok ==> t.sent == old(t.sent) + w)
      ensures t.reliable ==> ok
      ensures old(Spared()) ==> plain == old(plain) && plain[..] == old(plain[..])
      ensures old(inHandler) ==> Body() == old(Body())
      ensures plainSkips == old(plainSkips) +
                            if old(Spared()) && compress && |msg| >= 1024 && kind != 4 then 1 else 0
    {
      hide EncHeader, FrameBytes, Lz4Compress.EncodingOf;
      var wanted := compress && |msg| >= BEP_COMPRESS_MIN && kind != BEP_RESPONSE;
      var clen: nat := 0;
      if inHandler && bodyInPlain && wanted {
        plainSkips := plainSkips + 1;
      } else if wanted {
        clen := Squeeze(msg, base);
      }
      ghost var m := Message(kind, msg);
      if clen > 0 {
        var h := Header(kind, BEP_COMPRESS_LZ4);
        ghost var block := plain[4..clen];
        assert plain[..clen] == LzBody(m, block);
        ok := SendFrame(t, h, plain[..clen]);
        assert LzFrame(FrameBytes(h, LzBody(m, block)), m, block);
        assert Sends(FrameBytes(h, LzBody(m, block)), m, true);
      } else {
        var h := Header(kind, BEP_COMPRESS_NONE);
        ok := SendFrame(t, h, msg);
        assert Sends(FrameBytes(h, msg), m, false);
      }
    }
  }

  lemma {:induction false} ConcatSplit(a: seq<seq<byte>>, b: seq<seq<byte>>)
    ensures Concat(a + b) == Concat(a) + Concat(b)
    decreases |b|
  {
    if b == [] {
      assert a + b == a;
    } else {
      ConcatLast(a, b[0]);
      ConcatSplit(a + [b[0]], b[1..]);
      assert a + b == a + [b[0]] + b[1..] && Concat(b) == b[0] + Concat(b[1..]);
      assert Concat(a) + b[0] + Concat(b[1..]) == Concat(a) + (b[0] + Concat(b[1..]));
    }
  }

  lemma FrameStands(ws: seq<seq<byte>>, k: nat)
    requires k < |ws|
    ensures At(Concat(ws), |Concat(ws[..k])|, ws[k])
    ensures |Concat(ws[..k + 1])| == |Concat(ws[..k])| + |ws[k]|
  {
    hide At;
    var s, i := Concat(ws), |Concat(ws[..k])|;
    ConcatSplit(ws[..k], ws[k..]);
    assert ws == ws[..k] + ws[k..] && Concat(ws[k..]) == ws[k] + Concat(ws[k..][1..]);
    AtWhole(s);
    AtConcat(s, 0, Concat(ws[..k]), Concat(ws[k..]));
    AtConcat(s, i, ws[k], Concat(ws[k..][1..]));
    ConcatLast(ws[..k], ws[k]);
    assert ws[..k + 1] == ws[..k] + [ws[k]];
  }

  lemma ConcatNone()
    ensures Concat([]) == []
  {
  }

  /** Sends the messages one after the other. */
  method SendAll(a: BepConn, t: Transport, ms: seq<Message>, base: nat) returns (ghost ws: seq<seq<byte>>)
    requires a.Valid() && t.reliable && t.sent == []
    requires forall k :: 0 <= k < |ms| ==> IsInt32(ms[k].kind) && |ms[k].body| <= 1114112
    modifies a, a.plain, a.frame, t
    ensures t.sent == Concat(ws) && AreFrames(ws, ms)
  {
    hide PlainFrame, LzFrame;
    ws := [];
    ConcatNone();
    for k := 0 to |ms|
      invariant a.Valid() && (a.plain == old(a.plain) || fresh(a.plain))
      invariant |ws| == k && t.sent == Concat(ws) && forall j :: 0 <= j < k ==> IsFrame(ws[j], ms[j])
    {
      ghost var before := t.sent;
      var ok := a.SendMessage(t, ms[k].kind, ms[k].body, base);
      ghost var w :| Sends(w, ms[k], a.compress && !a.Spared()) && t.sent == before + w;
      assert Sends(w, ms[k], a.compress && !a.Spared());
      assert Message(ms[k].kind, ms[k].body) == ms[k] && IsFrame(w, ms[k]);
      ConcatLast(ws, w);
      ws := ws + [w];
    }
  }

  /** Everything sent over one connection arrives at the other end, message by message,
      whatever was compressed and however the bytes were cut up on the way. */
  method Relay(a: BepConn, b: BepConn, ms: seq<Message>, base: nat) returns (got: seq<Message>)
    requires a != b && a.Valid() && b.Valid() && b.ample
    requires forall k :: 0 <= k < |ms| ==> IsInt32(ms[k].kind) && |ms[k].body| <= 1114112
    requires {a.wire, a.plain, a.frame} !! {b.wire, b.plain, b.frame}
    modifies a, a.plain, a.frame, b, b.wire, b.plain
    ensures got == ms
  {
    hide IsFrame, ReadFrame, Accepted;
    var out := new Transport([], true);
    ghost var ws := SendAll(a, out, ms, base);
    var t := new Transport(out.sent, true);
    got := [];
    ConcatNone();
    while |got| < |ms|
      invariant b.Valid() && t.Valid() && (b.wire == old(b.wire) || fresh(b.wire)) && (b.plain == old(b.plain) || fresh(b.plain))
      invariant |got| <= |ms| && got == ms[..|got|] && t.pos == |Concat(ws[..|got|])|
    {
      ghost var k := |got|;
      FrameStands(ws, k);
      FrameRoundTrip(t.input, t.pos, ws[k], ms[k]);
      var rc, kind, len := b.ReadMessage(t);
      var body := if b.bodyInPlain then b.plain[..len] else b.wire[..len];
      got := got + [Message(kind, body)];
    }
  }

  lemma PrefixOn(a: seq<byte>, b: seq<byte>, c: seq<byte>)
    requires a <= b <= c
    ensures a <= c
  {
    assert c[..|b|] == b;
  }

  lemma SliceKept(buf: seq<byte>, block: seq<byte>, i: nat)
    requires i + |block| <= |buf| && At(buf, i, block)
    ensures buf[i..i + |block|] == block
  {
    AtSlice(buf, i, block);
  }

  lemma NextOnly(wire: seq<byte>, h: Header, next: nat)
    ensures match Unpack(wire, h, 0)
            case Got(m, _, inPlain) => Unpack(wire, h, next) == Got(m, next, inPlain)
            case r => Unpack(wire, h, next) == r
  {
  }
}
