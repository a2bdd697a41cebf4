/**
  The reader and the writer of src/pbuf.c. Both carry a sticky error flag: after a
  short read or an overflow every further call does nothing and says so.
*/
module Pbuf {
  import opened Bytes
  import opened PbufFormat

  /** What a varint comes to when k of its bytes, worth acc, are read. */
  function Rest(s: seq<byte>, p: nat, k: nat, acc: nat): Option<(nat, nat)> {
    match Scan(s, p, k)
    case None => None
    case Some((v, j)) => Some((acc + Pow128(k) * v, j))
  }

  lemma RestStep(s: seq<byte>, p: nat, k: nat, acc: nat)
    requires p < |s| && k < 10
    ensures s[p] < 128 ==> Rest(s, p, k, acc) == Some((acc + Pow128(k) * (s[p] % 128), p + 1))
    ensures s[p] >= 128 ==> Rest(s, p, k, acc) == Rest(s, p + 1, k + 1, acc + Pow128(k) * (s[p] % 128))
  {
    var w, b := Pow128(k), s[p] % 128;
    if s[p] >= 128 && Scan(s, p + 1, k + 1).Some? {
      var v := Scan(s, p + 1, k + 1).value.0;
      assert Pow128(k + 1) == 128 * w;
      Regroup(acc, w, b, v);
    }
  }

  lemma Regroup(acc: nat, w: nat, b: nat, v: nat)
    ensures acc + w * (b + 128 * v) == (acc + w * b) + (128 * w) * v
  {
    var x := 128 * v;
    assert w * (b + x) == w * b + w * x && w * x == (128 * w) * v;
  }

  lemma FromStart(s: seq<byte>, p: nat)
    ensures Rest(s, p, 0, 0) == Scan(s, p, 0)
  {
  }

  lemma AtEnd(s: seq<byte>, p: nat, k: nat, acc: nat)
    requires p >= |s| || k >= 10
    ensures Rest(s, p, k, acc) == None
  {
  }

  /** Adding in 64 bits, one step at a time, is adding and reducing once. */
  lemma WrapSum(acc: nat, w: nat, b: nat) returns (sum: nat)
    ensures sum == acc + w * b && sum % TWO64 == (acc % TWO64 + w * b) % TWO64
  {
    var x := w * b;
    sum := acc + x;
    var q, m := acc / TWO64, acc % TWO64;
    assert sum == q * TWO64 + (m + x);
    assert (q * TWO64 + (m + x)) % TWO64 == (m + x) % TWO64;
  }

  class PbufReader {
    const data: seq<byte>
    var p: nat
    var error: bool

    ghost predicate Valid()
      reads this
    {
      p <= |data|
    }

    constructor (data: seq<byte>)
      ensures Valid() && this.data == data && p == 0 && !error
    {
      this.data, p, error := data, 0, false;
    }

    method Eof() returns (r: bool)
      requires Valid()
      ensures r <==> !error && p == |data|
    {
      r := !error && p >= |data|;
    }

    /** A read of a value of wire type wt at the cursor went as the format says. */
    twostate predicate DidRead(ok: bool, wt: nat)
      requires old(Valid())
      reads this
    {
      && Valid()
      && (ok <==> !old(error) && ReadValue(data, old(p), wt).Some?)
      && (ok ==> !error && p == ReadValue(data, old(p), wt).value.1)
      && (!ok ==> error)
      && (old(error) ==> p == old(p))
    }

    method ReadVarint() returns (ok: bool, out: nat)
      requires Valid()
      modifies this`p, this`error
      ensures DidRead(ok, PBUF_WT_VARINT)
      ensures ok ==> VarintAt(data, old(p)) == Some((out, p))
    {
      ok, out := false, 0;
      if error {
        return;
      }
      hide Rest, Pow128, Scan;
      var value, shift := 0, 0;
      ghost var acc: nat, k: nat, all := 0, 0, Rest(data, p, 0, 0);
      FromStart(data, p);
      while shift < 64
        invariant shift == 7 * k && k <= 10 && p <= |data| && !error
        invariant value == acc % TWO64 && all == Rest(data, p, k, acc)
      {
        if p >= |data| {
          AtEnd(data, p, k, acc);
          error := true;
          return;
        }
        var b := data[p];
        RestStep(data, p, k, acc);
        acc := WrapSum(acc, Pow128(k), b % 128);
        value := (value + Pow128(shift / 7) * (b % 128)) % TWO64;
        p, k := p + 1, k + 1;
        if b < 128 {
          return true, value;
        }
        shift := shift + 7;
      }
      AtEnd(data, p, k, acc);
      error := true;
    }

    /** A tag, or a clean end; the error flag tells a failure from the end. */
    method ReadTag() returns (ok: bool, field: nat, wt: nat)
      requires Valid()
      modifies this`p, this`error
      ensures Valid()
      ensures ok <==> !old(error) && old(p) < |data| && VarintAt(data, old(p)).Some?
      ensures ok ==> var (tag, j) := VarintAt(data, old(p)).value;
                     field == TagNumber(tag) && wt == tag % 8 && p == j && !error
      ensures !ok ==> error == (old(error) || old(p) < |data|)
    {
      ok, field, wt := false, 0, 0;
      if error || p >= |data| {
        return;
      }
      var tag;
      ok, tag := ReadVarint();
      if ok {
        field, wt := TagNumber(tag), tag % 8;
      }
    }

    method ReadBytes() returns (ok: bool, bytes: seq<byte>)
      requires Valid()
      modifies this`p, this`error
      ensures DidRead(ok, PBUF_WT_LEN)
      ensures ok ==> ReadValue(data, old(p), PBUF_WT_LEN).value.0 == Blob(bytes)
    {
      bytes := [];
      var n;
      ok, n := ReadVarint();
      if !ok {
        return;
      }
      if n > |data| - p {
        error := true;
        return false, [];
      }
      bytes := data[p..p + n];
      p := p + n;
    }

    /** pbuf_read_fixed32 and pbuf_read_fixed64, whose values nobody looks at. */
    method ReadFixed(n: nat) returns (ok: bool)
      requires Valid() && (n == 4 || n == 8)
      modifies this`p, this`error
      ensures DidRead(ok, if n == 8 then PBUF_WT_I64 else PBUF_WT_I32)
    {
      if error {
        return false;
      }
      if |data| - p < n {
        error := true;
        return false;
      }
      p := p + n;
      ok := true;
    }

    method Skip(wt: nat) returns (ok: bool)
      requires Valid() && wt < 8
      modifies this`p, this`error
      ensures DidRead(ok, wt)
    {
      var n, bytes;
      if wt == PBUF_WT_VARINT {
        ok, n := ReadVarint();
      } else if wt == PBUF_WT_I64 {
        ok := ReadFixed(8);
      } else if wt == PBUF_WT_LEN {
        ok, bytes := ReadBytes();
      } else if wt == PBUF_WT_I32 {
        ok := ReadFixed(4);
      } else {
        error := true;
        ok := false;
      }
    }
  }

  /** Outside buf[base..base + cap] nothing differs from was. */
  predicate OnlyWindow(buf: seq<byte>, was: seq<byte>, base: nat, cap: nat) {
    |buf| == |was| && forall k :: 0 <= k < |buf| && !(base <= k < base + cap) ==> buf[k] == was[k]
  }

  /**
    A writer over the window buf[base..base + cap]. Its ghost field out is everything
    it was asked to write; the flag says whether that did not fit, or a message whose
    own writer had failed was to be embedded.
  */
  class PbufWriter {
    const buf: array<byte>
    const base: nat
    const cap: nat
    var len: nat
    var error: bool
    ghost var out: seq<byte>
    ghost var poisoned: bool
    ghost const was: seq<byte>

    ghost predicate Valid()
      reads this, buf
    {
      && base + cap <= buf.Length && len <= cap
      && OnlyWindow(buf[..], was, base, cap)
      && (error <==> poisoned || |out| > cap)
      && (!error ==> len == |out| && At(buf[..], base, out))
    }

    constructor (buf: array<byte>, base: nat, cap: nat)
      requires base + cap <= buf.Length
      ensures Valid() && this.buf == buf && this.base == base && this.cap == cap
      ensures len == 0 && out == [] && !poisoned && was == buf[..]
    {
      this.buf, this.base, this.cap := buf, base, cap;
      len, error, out, poisoned, was := 0, false, [], false, buf[..];
    }

    /** put_byte */
    method PutByte(b: byte) returns (ok: bool)
      requires Valid()
      modifies this`len, this`error, this`out, buf
      ensures Valid() && out == old(out) + [b] && ok == !error
    {
      out := out + [b];
      if error {
        return false;
      }
      if len >= cap {
        error := true;
        return false;
      }
      ghost var had := buf[..];
      buf[base + len] := b;
      len := len + 1;
      AtPut(buf[..], had, base, len - 1, [b], old(out));
      ok := true;
    }

    /** put_raw */
    method PutRaw(data: seq<byte>) returns (ok: bool)
      requires Valid()
      modifies this`len, this`error, this`out, buf
      ensures Valid() && out == old(out) + data && ok == !error
    {
      out := out + data;
      if error {
        return false;
      }
      if |data| > cap - len {
        error := true;
        return false;
      }
      ghost var had := buf[..];
      forall k | 0 <= k < |data| {
        buf[base + len + k] := data[k];
      }
      AtPut(buf[..], had, base, len, data, old(out));
      len := len + |data|;
      ok := true;
    }

    method WriteVarint(v: nat) returns (ok: bool)
      requires Valid()
      modifies this`len, this`error, this`out, buf
      ensures Valid() && out == old(out) + VarintBytes(v) && ok == !error
    {
      var rest := v;
      while true
        invariant Valid() && out + VarintBytes(rest) == old(out) + VarintBytes(v)
        decreases rest
      {
        var b: byte := rest % 128;
        rest := rest / 128;
        if rest != 0 {
          b := b + 128;
        }
        ghost var before := out;
        ok := PutByte(b);
        assert rest != 0 ==> out + VarintBytes(rest) == before + ([b] + VarintBytes(rest));
        if !ok {
          out := old(out) + VarintBytes(v);
          return;
        }
        if rest == 0 {
          return;
        }
      }
    }

    method WriteTag(field: nat, wt: nat) returns (ok: bool)
      requires Valid() && field < TWO32 && wt < 8
      modifies this`len, this`error, this`out, buf
      ensures Valid() && out == old(out) + VarintBytes(8 * field + wt) && ok == !error
    {
      ok := WriteVarint(8 * field + wt);
    }

    method WriteUint64(field: nat, v: nat) returns (ok: bool)
      requires Valid() && field < TWO32 && v < TWO64
      modifies this`len, this`error, this`out, buf
      ensures Valid() && out == old(out) + EncField(Field(field, Number(v))) && ok == !error
    {
      ok := WriteTag(field, PBUF_WT_VARINT);
      if ok {
        ok := WriteVarint(v);
      }
      OutThen(old(out), VarintBytes(8 * field), VarintBytes(v));
      out := old(out) + EncField(Field(field, Number(v)));
    }

    /** A negative number is written sign-extended, as ten bytes. */
    method WriteInt64(field: nat, v: int) returns (ok: bool)
      requires Valid() && field < TWO32 && IsInt64(v)
      modifies this`len, this`error, this`out, buf
      ensures Valid() && out == old(out) + EncField(Field(field, Number(v % TWO64))) && ok == !error
    {
      ok := WriteUint64(field, v % TWO64);
    }

    method WriteBool(field: nat, v: bool) returns (ok: bool)
      requires Valid() && field < TWO32
      modifies this`len, this`error, this`out, buf
      ensures Valid() && out == old(out) + EncField(Field(field, Number(if v then 1 else 0))) && ok == !error
    {
      ok := WriteUint64(field, if v then 1 else 0);
    }

    /** An enum is cut to 32 bits, not sign-extended. */
    method WriteEnum(field: nat, v: int) returns (ok: bool)
      requires Valid() && field < TWO32
      modifies this`len, this`error, this`out, buf
      ensures Valid() && out == old(out) + EncField(Field(field, Number(v % TWO32))) && ok == !error
    {
      ok := WriteUint64(field, v % TWO32);
    }

    method WriteBytes(field: nat, data: seq<byte>) returns (ok: bool)
      requires Valid() && field < TWO32 && |data| < TWO64
      modifies this`len, this`error, this`out, buf
      ensures Valid() && out == old(out) + EncField(Field(field, Blob(data))) && ok == !error
    {
      ok := WriteTag(field, PBUF_WT_LEN);
      if ok {
        ok := WriteVarint(|data|);
      }
      if ok {
        ok := PutRaw(data);
      }
      OutThen(old(out), VarintBytes(8 * field + 2), VarintBytes(|data|) + data);
      OutThen(old(out) + VarintBytes(8 * field + 2), VarintBytes(|data|), data);
      out := old(out) + EncField(Field(field, Blob(data)));
    }

    /** A finished message, or the failure of its writer. */
    method WriteMessage(field: nat, msg: PbufWriter) returns (ok: bool)
      requires Valid() && msg.Valid() && msg != this && msg.buf != buf && field < TWO32 && msg.cap < TWO64
      modifies this`len, this`error, this`out, this`poisoned, buf
      ensures Valid() && ok == !error && poisoned == (old(poisoned) || msg.error)
      ensures !msg.error ==> out == old(out) + EncField(Field(field, Blob(msg.out)))
    {
      if msg.error {
        error, poisoned := true, true;
        return false;
      }
      AtSlice(msg.buf[..], msg.base, msg.out);
      assert msg.buf[..][msg.base..msg.base + msg.len] == msg.buf[msg.base..msg.base + msg.len];
      ok := WriteBytes(field, msg.buf[msg.base..msg.base + msg.len]);
    }
  }

  lemma OutThen(out: seq<byte>, a: seq<byte>, b: seq<byte>)
    ensures out + (a + b) == (out + a) + b
  {
  }

  lemma AtKept(buf: seq<byte>, had: seq<byte>, base: nat, out: seq<byte>)
    requires At(had, base, out) && |buf| >= base + |out|
    requires forall k :: 0 <= k < base + |out| ==> buf[k] == had[k]
    ensures At(buf, base, out)
  {
    forall k | 0 <= k < |out| ensures buf[base + k] == out[k] {
      assert buf[base + k] == had[base + k];
    }
  }

  lemma AtPut(buf: seq<byte>, had: seq<byte>, base: nat, len: nat, data: seq<byte>, out: seq<byte>)
    requires |buf| == |had| && At(had, base, out) && len == |out| && base + len + |data| <= |buf|
    requires forall k :: 0 <= k < |data| ==> buf[base + len + k] == data[k]
    requires forall k :: 0 <= k < base + len ==> buf[k] == had[k]
    ensures At(buf, base, out + data)
  {
    AtConcat(buf, base, out, data);
    AtKept(buf, had, base, out);
  }
}
