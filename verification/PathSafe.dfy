/**
  The loops of src/pathsafe.c over NUL-terminated strings in arrays, proved to compute
  the functions of Utf8Names. name_to_local may write over its own input.
*/
module PathSafe {
  import opened Bytes
  import opened Utf8Names

  /** A C string of length n in an array. */
  ghost predicate Terminated(a: array<byte>, n: nat)
    reads a
  {
    n < a.Length && a[n] == 0 && forall k :: 0 <= k < n ==> a[k] != 0
  }

  /** The continuation bytes after p, the first of them within the limits lo and hi. */
  method ReadTail(a: array<byte>, p: nat, ghost end: nat, n: nat, cp0: nat, lo: nat, hi: nat) returns (ok: bool, cp: nat)
    requires p < end < a.Length && a[end] < 0x80 && 2 <= n <= 4 && 0x80 <= lo && hi <= 0xBF
    ensures var c := a[p..end];
            ok <==> Tail(c, 1, lo, hi) && (n >= 3 ==> Tail(c, 2, 0x80, 0xBF)) && (n >= 4 ==> Tail(c, 3, 0x80, 0xBF))
    ensures ok ==> n <= end - p && cp == Folded(a[p..end], cp0, n)
  {
    ghost var c := a[p..end];
    assert forall k :: 0 <= k < |c| ==> c[k] == a[p + k];
    var i: nat := 1;
    cp := cp0;
    while i < n
      invariant 1 <= i <= n && p + i <= end
      invariant i >= 2 ==> Tail(c, 1, lo, hi)
      invariant i >= 3 ==> Tail(c, 2, 0x80, 0xBF)
      invariant i >= 4 ==> Tail(c, 3, 0x80, 0xBF)
      invariant cp == Folded(c, cp0, i)
    {
      var limLo := if i == 1 then lo else 0x80;
      var limHi := if i == 1 then hi else 0xBF;
      if a[p + i] < limLo || a[p + i] > limHi {
        assert !Tail(c, i, limLo, limHi);
        return false, 0;
      }
      assert Tail(c, i, limLo, limHi);
      cp := cp * 0x40 + a[p + i] % 0x40;
      i := i + 1;
    }
    ok := true;
  }

  /** utf8_seq at p, in a component that a byte below 0x80 ends. */
  method Utf8Seq(a: array<byte>, p: nat, ghost end: nat) returns (n: nat, cp: nat)
    requires p < end < a.Length && a[end] < 0x80
    ensures (n, cp) == SeqAt(a[p..end], 0)
  {
    hide Folded;
    ghost var c := a[p..end];
    var b := a[p] as int;
    assert c[0] == b;
    var lo, hi := 0x80, 0xBF;
    if b < 0x80 {
      return 1, b;
    }
    if b < 0xC2 || b >= 0xF5 {
      return 0, 0;
    }
    if b < 0xE0 {
      n, cp := 2, b % 0x20;
    } else if b < 0xF0 {
      n, cp := 3, b % 0x10;
      lo := if b == 0xE0 then 0xA0 else lo;
      hi := if b == 0xED then 0x9F else hi;
    } else {
      n, cp := 4, b % 8;
      lo := if b == 0xF0 then 0x90 else lo;
      hi := if b == 0xF4 then 0x8F else hi;
    }
    ghost var cp0 := cp;
    var ok;
    ok, cp := ReadTail(a, p, end, n, cp, lo, hi);
    if !ok {
      return 0, 0;
    }
    FoldedIs(c, cp0, n);
  }

  /** The code point after i bytes. */
  function Folded(c: Text, cp0: nat, i: nat): nat
    requires 1 <= i <= |c|
  {
    if i == 1 then cp0 else Folded(c, cp0, i - 1) * 0x40 + c[i - 1] % 0x40
  }

  lemma FoldedIs(c: Text, cp0: nat, n: nat)
    requires 2 <= n <= 4 && n <= |c| && forall k :: 1 <= k < n ==> 0x80 <= c[k] <= 0xBF
    ensures n == 2 ==> Folded(c, cp0, 2) == cp0 * 0x40 + (c[1] - 0x80)
    ensures n == 3 ==> Folded(c, cp0, 3) == (cp0 * 0x40 + (c[1] - 0x80)) * 0x40 + (c[2] - 0x80)
    ensures n == 4 ==> Folded(c, cp0, 4) == ((cp0 * 0x40 + (c[1] - 0x80)) * 0x40 + (c[2] - 0x80)) * 0x40 + (c[3] - 0x80)
  {
    assert Folded(c, cp0, 1) == cp0;
    assert Folded(c, cp0, 2) == cp0 * 0x40 + (c[1] - 0x80);
    if n >= 3 {
      assert Folded(c, cp0, 3) == (cp0 * 0x40 + (c[1] - 0x80)) * 0x40 + (c[2] - 0x80);
    }
  }

  /** What a byte starts does not depend on what stands before it. */
  lemma SeqShift(c: Text, q: nat)
    requires q < |c|
    ensures SeqAt(c[q..], 0) == SeqAt(c, q)
  {
    var t := c[q..];
    assert forall k :: 0 <= k < |t| ==> t[k] == c[q + k];
    assert forall k, lo, hi :: Tail(t, k, lo, hi) == Tail(c, q + k, lo, hi);
  }

  /** What is read of a component up to q, and what is left. */
  ghost predicate ReadUpTo(c: Text, q: nat, done: seq<nat>)
    requires q <= |c|
  {
    DecodeFrom(c, 0) == match DecodeFrom(c, q) case None => None case Some(rest) => Some(done + rest)
  }

  lemma DecodeStep(c: Text, q: nat)
    requires q < |c|
    ensures var (n, cp) := SeqAt(c, q);
            DecodeFrom(c, q) == if n == 0 then None
            else match DecodeFrom(c, q + n) case None => None case Some(rest) => Some([cp] + rest)
  {
    hide SeqAt;
  }

  lemma ReadOn(c: Text, q: nat, done: seq<nat>)
    requires q < |c| && ReadUpTo(c, q, done)
    ensures SeqAt(c, q).0 == 0 ==> DecodeFrom(c, 0) == None
    ensures SeqAt(c, q).0 > 0 ==> ReadUpTo(c, q + SeqAt(c, q).0, done + [SeqAt(c, q).1])
  {
    hide SeqAt, DecodeFrom;
    var (n, cp) := SeqAt(c, q);
    DecodeStep(c, q);
    if n > 0 && DecodeFrom(c, q + n).Some? {
      var rest := DecodeFrom(c, q + n).value;
      assert done + ([cp] + rest) == done + [cp] + rest;
    }
  }

  lemma ReadStart(c: Text)
    ensures ReadUpTo(c, 0, [])
  {
    if DecodeFrom(c, 0).Some? {
      assert [] + DecodeFrom(c, 0).value == DecodeFrom(c, 0).value;
    }
  }

  lemma ReadEnd(c: Text, done: seq<nat>)
    requires ReadUpTo(c, |c|, done)
    ensures DecodeFrom(c, 0) == Some(done)
  {
    assert done + [] == done;
  }

  lemma NarrowSnoc(done: seq<nat>, cp: nat)
    ensures Narrow(done + [cp]) <==> Narrow(done) && cp <= 0xFF
  {
    if Narrow(done + [cp]) {
      assert forall k :: 0 <= k < |done| ==> (done + [cp])[k] == done[k];
      assert (done + [cp])[|done|] == cp;
    }
  }

  /** utf8_class */
  method Utf8Class(a: array<byte>, start: nat, end: nat) returns (k: nat)
    requires start <= end < a.Length && a[end] < 0x80
    ensures k == Class(a[start..end])
  {
    hide SeqAt, DecodeFrom, ReadUpTo;
    ghost var c := a[start..end];
    var wide, p := false, start;
    ghost var done: seq<nat> := [];
    ReadStart(c);
    while p < end
      invariant start <= p <= end && ReadUpTo(c, p - start, done) && wide == !Narrow(done)
    {
      ReadOn(c, p - start, done);
      SeqShift(c, p - start);
      assert a[p..end] == c[p - start..];
      var n, cp := Utf8Seq(a, p, end);
      if n == 0 || p + n > end {
        return 0;
      }
      if cp > 0xFF {
        wide := true;
      }
      NarrowSnoc(done, cp);
      done := done + [cp];
      p := p + n;
    }
    ReadEnd(c, done);
    k := if wide then 2 else 1;
  }

  /** The end of the component that starts at p. */
  method FindEnd(a: array<byte>, p: nat, ghost n: nat) returns (end: nat)
    requires p <= n < a.Length && a[n] == 0 && forall k :: p <= k < n ==> a[k] != 0
    ensures p <= end <= n && SLASH !in a[p..end] && (end < n ==> a[end] == SLASH) && a[end] < 0x80
  {
    end := p;
    while a[end] != 0 && a[end] != SLASH
      invariant p <= end <= n && SLASH !in a[p..end]
      decreases n - end
    {
      assert a[p..end + 1] == a[p..end] + [a[end]];
      end := end + 1;
    }
  }

  /** A step in a component all of whose code points are in Latin-1. */
  lemma NarrowStep(c: Text, q: nat, done: seq<nat>)
    requires q < |c| && Class(c) == 1 && ReadUpTo(c, q, done)
    ensures SeqAt(c, q).0 > 0 && SeqAt(c, q).1 <= 0xFF && |done| < |ToLocal(c)|
    ensures ReadUpTo(c, q + SeqAt(c, q).0, done + [SeqAt(c, q).1])
  {
    hide SeqAt, DecodeFrom;
    ReadOn(c, q, done);
    DecodeStep(c, q);
    var cps, rest := DecodeFrom(c, 0).value, DecodeFrom(c, q).value;
    assert cps == done + rest && rest[0] == SeqAt(c, q).1;
    assert cps[|done|] == rest[0];
  }

  lemma NarrowEnd(c: Text, done: seq<nat>)
    requires Class(c) == 1 && ReadUpTo(c, |c|, done)
    ensures |done| == |ToLocal(c)| && forall k :: 0 <= k < |done| ==> ToLocal(c)[k] == done[k]
  {
    ReadEnd(c, done);
  }

  /** How much of a component is written once it is read up to q. */
  ghost predicate WrittenUpTo(w: Text, c: Text, q: nat, done: seq<nat>)
    requires q <= |c|
  {
    if Class(c) == 1 then ReadUpTo(c, q, done) && |w| == |done| && forall k :: 0 <= k < |done| ==> w[k] == done[k]
    else w == c[..q]
  }

  lemma WrittenAll(w: Text, c: Text, done: seq<nat>)
    requires WrittenUpTo(w, c, |c|, done)
    ensures w == ToLocal(c)
  {
    hide DecodeFrom, ReadUpTo;
    if Class(c) == 1 {
      NarrowEnd(c, done);
    } else {
      assert c[..|c|] == c;
    }
  }

  lemma WrittenStart(c: Text)
    ensures WrittenUpTo([], c, 0, [])
  {
    ReadStart(c);
  }

  /** What one turn of the inner loop writes, and that it was still missing. */
  lemma WrittenMore(w: Text, c: Text, q: nat, done: seq<nat>)
    requires q < |c| && WrittenUpTo(w, c, q, done)
    ensures |w| < |ToLocal(c)|
    ensures Class(c) == 1 ==> var (n, cp) := SeqAt(c, q); n > 0 && cp <= 0xFF && WrittenUpTo(w + [cp], c, q + n, done + [cp])
    ensures Class(c) != 1 ==> WrittenUpTo(w + [c[q]], c, q + 1, done + [c[q] as nat])
  {
    hide DecodeFrom, ReadUpTo, SeqAt;
    if Class(c) == 1 {
      NarrowStep(c, q, done);
    }
  }

  /** One component of name_to_local. Written over its own input, the output never runs
      ahead of what is still to be read. */
  method PutLocal(out: array<byte>, cap: nat, name: array<byte>, start: nat, end: nat, at: nat) returns (ok: bool, o: nat)
    requires start <= end < name.Length && name[end] < 0x80 && at < cap <= out.Length
    requires out == name ==> at <= start
    modifies out
    ensures ok <==> at + |ToLocal(old(name[start..end]))| < cap
    ensures ok ==> at <= o < cap && o == at + |ToLocal(old(name[start..end]))|
    ensures ok ==> out[..o] == old(out[..at]) + ToLocal(old(name[start..end]))
    ensures ok && out == name ==> o <= end
    ensures forall k :: end <= k < name.Length ==> name[k] == old(name[k])
  {
    hide SeqAt, DecodeFrom, ReadUpTo, Class, WrittenUpTo, ToLocal;
    ghost var c, front := name[start..end], out[..at];
    var kind := Utf8Class(name, start, end);
    var conv := kind == 1;
    ghost var done: seq<nat>, w: Text := [], [];
    var p := start;
    o := at;
    WrittenStart(c);
    assert front + [] == front;
    while p < end
      invariant start <= p <= end && at <= o < cap && (out == name ==> o <= p)
      invariant forall k :: p <= k < name.Length ==> name[k] == old(name[k])
      invariant WrittenUpTo(w, c, p - start, done) && o == at + |w| && out[..o] == front + w
      decreases end - p
    {
      WrittenMore(w, c, p - start, done);
      assert name[p..end] == c[p - start..] && name[p] == c[p - start];
      var cp, n: nat := name[p] as nat, 1;
      if conv {
        SeqShift(c, p - start);
        n, cp := Utf8Seq(name, p, end);
      }
      if o + 1 >= cap {
        Fits(c, w, at, cap);
        return false, o;
      }
      out[o] := if conv then cp else name[p];
      assert out[..o + 1] == out[..o] + [out[o]];
      w, done := w + [out[o]], done + [cp];
      assert front + w == out[..o + 1];
      p, o := p + n, o + 1;
    }
    WrittenAll(w, c, done);
    ok := true;
  }

  lemma Fits(c: Text, w: Text, at: nat, cap: nat)
    requires |w| < |ToLocal(c)| && at + |w| + 1 >= cap
    ensures at + |ToLocal(c)| >= cap
  {
  }

  lemma NameStep(f: Text -> Text, s: Text, e: nat)
    requires e <= |s| && SLASH !in s[..e] && (e < |s| ==> s[e] == SLASH)
    ensures MapPath(f, s) == if e == |s| then f(s) else f(s[..e]) + [SLASH] + MapPath(f, s[e + 1..])
  {
    EndIs(s, e);
  }

  /** What follows a component of t that ends at e. */
  function After(f: Text -> Text, t: Text, e: nat): Text
    requires e <= |t|
  {
    if e == |t| then [] else [SLASH] + MapPath(f, t[e + 1..])
  }

  lemma NameAfter(f: Text -> Text, t: Text, e: nat, front: Text)
    requires e <= |t| && SLASH !in t[..e] && (e < |t| ==> t[e] == SLASH)
    ensures front + MapPath(f, t) == front + f(t[..e]) + After(f, t, e)
    ensures |front| + |f(t[..e])| <= |front + MapPath(f, t)|
  {
    hide MapPath;
    NameStep(f, t, e);
    if e == |t| {
      assert t[..e] == t;
    } else {
      assert f(t[..e]) + [SLASH] + MapPath(f, t[e + 1..]) == f(t[..e]) + ([SLASH] + MapPath(f, t[e + 1..]));
    }
  }

  /** One turn of the outer loop: the component at p, whose name goes on as t. */
  method LocalComponent(out: array<byte>, cap: nat, name: array<byte>, p: nat, at: nat, ghost n: nat, ghost t: Text)
    returns (ok: bool, end: nat, o: nat)
    requires p <= n < name.Length && name[n] == 0 && at < cap <= out.Length && (out == name ==> at <= p)
    requires t == name[p..n] && forall k :: p <= k < n ==> name[k] != 0
    modifies out
    ensures !ok ==> |old(out[..at]) + MapPath(ToLocal, t)| >= cap
    ensures ok ==> p <= end <= n && at <= o < cap && (out == name ==> o <= end)
    ensures ok ==> out[..o] + After(ToLocal, t, end - p) == old(out[..at]) + MapPath(ToLocal, t)
    ensures ok ==> forall k :: end <= k < name.Length ==> name[k] == old(name[k])
    ensures ok && end < n ==> name[end] == SLASH
  {
    hide ToLocal, MapPath, After;
    end := FindEnd(name, p, n);
    assert t[..end - p] == name[p..end] && (end < n ==> t[end - p] == SLASH);
    NameAfter(ToLocal, t, end - p, out[..at]);
    ok, o := PutLocal(out, cap, name, p, end, at);
  }

  /** name_to_local: it succeeds exactly when the mapped name fits, also in place. */
  method PutNameToLocal(out: array<byte>, cap: nat, name: array<byte>, ghost n: nat) returns (ok: bool)
    requires Terminated(name, n) && 1 <= cap <= out.Length
    modifies out
    ensures ok <==> |NameToLocal(old(name[..n]))| < cap
    ensures ok ==> var m := NameToLocal(old(name[..n])); out[..|m|] == m && out[|m|] == 0
  {
    hide ToLocal, MapPath;
    ghost var s := name[..n];
    var p, o: nat := 0, 0;
    assert s[0..] == s;
    while true
      invariant p <= n && o < cap && (out == name ==> o <= p)
      invariant forall k :: p <= k < name.Length ==> name[k] == old(name[k])
      invariant out[..o] + MapPath(ToLocal, s[p..]) == NameToLocal(s)
      decreases n - p
    {
      ghost var t := s[p..];
      assert t == name[p..n];
      var end;
      ok, end, o := LocalComponent(out, cap, name, p, o, n, t);
      if !ok {
        return;
      }
      if name[end] == 0 {
        break;
      }
      assert t[end - p + 1..] == s[end + 1..];
      if o + 1 >= cap {
        return false;
      }
      ghost var was := out[..o];
      out[o] := name[end];
      assert out[..o + 1] == was + [SLASH];
      o, p := o + 1, end + 1;
    }
    ghost var m := out[..o];
    assert m + [] == m;
    out[o] := 0;
    assert out[..o] == m;
    ok := true;
  }

  /** One component of name_from_local. */
  method PutFrom(out: array<byte>, cap: nat, name: array<byte>, start: nat, end: nat, at: nat) returns (ok: bool, o: nat)
    requires start <= end < name.Length && name[end] < 0x80 && at < cap <= out.Length && out != name
    modifies out
    ensures ok <==> at + |FromLocal(name[start..end])| < cap
    ensures ok ==> at <= o < cap && o == at + |FromLocal(name[start..end])|
    ensures ok ==> out[..o] == old(out[..at]) + FromLocal(name[start..end])
  {
    hide Class, Utf8All, DecodeFrom;
    ghost var c, front := name[start..end], out[..at];
    var kind := Utf8Class(name, start, end);
    var raw := kind == 2;
    ghost var w: Text := [];
    o := at;
    FromStart(c);
    assert front + [] == front;
    var p := start;
    while p < end
      invariant start <= p <= end && at <= o < cap && o == at + |w| && out[..o] == front + w
      invariant FromLocal(c) == w + FromRest(c, p - start)
    {
      FromMore(c, p - start);
      assert c[p - start] == name[p];
      ghost var was := out[..o];
      if raw || name[p] < 0x80 {
        if o + 1 >= cap {
          return false, o;
        }
        out[o] := name[p];
        assert out[..o + 1] == was + [name[p]];
        o := o + 1;
        w := w + [name[p]];
      } else {
        if o + 2 >= cap {
          return false, o;
        }
        out[o], out[o + 1] := 0xC0 + name[p] / 0x40, 0x80 + name[p] % 0x40;
        assert out[..o + 2] == was + [0xC0 + name[p] / 0x40, 0x80 + name[p] % 0x40];
        o := o + 2;
        w := w + [0xC0 + name[p] / 0x40, 0x80 + name[p] % 0x40];
      }
      assert front + w == out[..o];
      p := p + 1;
    }
    FromEnd(c);
    assert w + [] == w;
    ok := true;
  }

  /** What is written for a disk component from q on. */
  function FromRest(c: Text, q: nat): Text
    requires q <= |c|
  {
    if Class(c) == 2 then c[q..] else Utf8All(Points(c[q..]))
  }

  lemma FromStart(c: Text)
    ensures FromLocal(c) == [] + FromRest(c, 0)
  {
    assert c[0..] == c;
  }

  lemma FromEnd(c: Text)
    ensures FromRest(c, |c|) == []
  {
    assert Points([]) == [];
  }

  lemma FromMore(c: Text, q: nat)
    requires q < |c|
    ensures var w := if Class(c) == 2 || c[q] < 0x80 then [c[q]] else [0xC0 + c[q] / 0x40, 0x80 + c[q] % 0x40];
            FromRest(c, q) == w + FromRest(c, q + 1)
  {
    hide DecodeFrom;
    if Class(c) == 2 {
      assert c[q..] == [c[q]] + c[q + 1..];
    } else {
      var cps := Points(c[q..]);
      assert cps[1..] == Points(c[q + 1..]) && cps[0] == c[q];
      assert Utf8(cps[0]) == if c[q] < 0x80 then [c[q]] else [0xC0 + c[q] / 0x40, 0x80 + c[q] % 0x40];
    }
  }

  /** name_from_local: it succeeds exactly when the mapped name fits. */
  method PutNameFromLocal(out: array<byte>, cap: nat, name: array<byte>, ghost n: nat) returns (ok: bool)
    requires Terminated(name, n) && 1 <= cap <= out.Length && out != name
    modifies out
    ensures ok <==> |NameFromLocal(name[..n])| < cap
    ensures ok ==> var m := NameFromLocal(name[..n]); out[..|m|] == m && out[|m|] == 0
  {
    hide FromLocal, MapPath;
    ghost var s := name[..n];
    var p, o: nat := 0, 0;
    assert s[0..] == s;
    while true
      invariant p <= n && o < cap
      invariant out[..o] + MapPath(FromLocal, s[p..]) == NameFromLocal(s)
      decreases n - p
    {
      ghost var front := out[..o];
      var end := FindEnd(name, p, n);
      assert s[p..][..end - p] == s[p..end] == name[p..end];
      NameStep(FromLocal, s[p..], end - p);
      ok, o := PutFrom(out, cap, name, p, end, o);
      if !ok {
        return;
      }
      p := end;
      if name[p] == 0 {
        break;
      }
      assert s[p..][1..] == s[p + 1..];
      if o + 1 >= cap {
        return false;
      }
      out[o] := name[p];
      assert out[..o + 1] == out[..o] + [SLASH];
      o, p := o + 1, p + 1;
    }
    out[o] := 0;
    ok := true;
  }

  /** A name is safe when its first component is and the rest, if any, is. */
  lemma SafeStep(t: Text, e: nat)
    requires e <= |t| && SLASH !in t[..e] && (e < |t| ==> t[e] == SLASH)
    ensures SafeName(t) <==> SafeComponent(t[..e]) && (e < |t| ==> SafeName(t[e + 1..]))
  {
    hide SafeComponent, Components;
    EndIs(t, e);
    FirstComponent(t);
    var cs := Components(t);
    if e < |t| {
      var rest := cs[1..];
      if SafeName(t) {
        forall k | 0 <= k < |rest| ensures SafeComponent(rest[k]) {
          assert rest[k] == cs[k + 1];
        }
      }
      if SafeComponent(cs[0]) && SafeName(t[e + 1..]) {
        forall k | 0 <= k < |cs| ensures SafeComponent(cs[k]) {
          assert k > 0 ==> cs[k] == rest[k - 1];
        }
      }
      assert SafeName(t) ==> SafeComponent(cs[0]);
    } else {
      assert SafeName(t) <==> SafeComponent(cs[0]);
    }
  }

  lemma EmptyFirst(s: Text)
    requires s == [] || s[0] == SLASH
    ensures !SafeName(s)
  {
    SafeStep(s, 0);
  }

  /** A colon or a backslash in the first component. */
  lemma BadByte(t: Text, k: nat)
    requires k < |t| && SLASH !in t[..k] && t[k] in {COLON, BACKSLASH}
    ensures !SafeName(t)
  {
    var e := EndOf(t);
    EndBeyond(t, k);
    assert t[..e][k] == t[k];
    SafeStep(t, e);
  }

  lemma SafeBytes(c: Text)
    requires COLON !in c && BACKSLASH !in c
    ensures SafeComponent(c) <==> !(|c| == 0 || (|c| == 1 && c[0] == DOT) || (|c| == 2 && c[0] == DOT && c[1] == DOT))
  {
  }

  /** path_name_safe */
  method PathNameSafe(name: array<byte>, ghost n: nat) returns (safe: bool)
    requires Terminated(name, n)
    ensures safe == SafeName(name[..n])
  {
    hide SafeName, SafeComponent;
    ghost var s := name[..n];
    if name[0] == 0 || name[0] == SLASH {
      EmptyFirst(s);
      return false;
    }
    var seg: nat := 0;
    assert s[0..] == s;
    while true
      invariant seg <= n && SafeName(s) == SafeName(s[seg..])
      decreases n - seg
    {
      var p := seg;
      ghost var t := s[seg..];
      while name[p] != 0 && name[p] != SLASH
        invariant seg <= p <= n && SLASH !in t[..p - seg]
        invariant COLON !in t[..p - seg] && BACKSLASH !in t[..p - seg]
        decreases n - p
      {
        assert t[p - seg] == name[p];
        if name[p] == COLON || name[p] == BACKSLASH {
          BadByte(t, p - seg);
          return false;
        }
        assert t[..p - seg + 1] == t[..p - seg] + [name[p]];
        p := p + 1;
      }
      ghost var c := t[..p - seg];
      assert forall k :: 0 <= k < |c| ==> c[k] == name[seg + k];
      SafeStep(t, p - seg);
      SafeBytes(c);
      var len := p - seg;
      if len == 0 || (len == 1 && name[seg] == DOT) || (len == 2 && name[seg] == DOT && name[seg + 1] == DOT) {
        return false;
      }
      if name[p] == 0 {
        return true;
      }
      assert t[p - seg + 1..] == s[p + 1..];
      seg := p + 1;
    }
  }
}
