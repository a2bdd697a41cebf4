/** The byte type and the small generic types the other modules share. */
module Bytes {
  type byte = b: int | 0 <= b < 256

  datatype Option<+T> = None | Some(value: T)

  function Min(a: int, b: int): int {
    if a <= b then a else b
  }

  function Max(a: int, b: int): int {
    if a <= b then b else a
  }

  /** The bytes w stand in s at position i. */
  predicate At(s: seq<byte>, i: nat, w: seq<byte>) {
    i + |w| <= |s| && forall k {:trigger w[k]} :: 0 <= k < |w| ==> s[i + k] == w[k]
  }

  lemma AtConcat(s: seq<byte>, i: nat, a: seq<byte>, b: seq<byte>)
    ensures At(s, i, a + b) <==> At(s, i, a) && At(s, i + |a|, b)
  {
    var w := a + b;
    if At(s, i, w) {
      forall k | 0 <= k < |b| ensures s[i + |a| + k] == b[k] {
        assert w[|a| + k] == b[k];
      }
      forall k | 0 <= k < |a| ensures s[i + k] == a[k] {
        assert w[k] == a[k];
      }
    }
    if At(s, i, a) && At(s, i + |a|, b) {
      forall k | 0 <= k < |w| ensures s[i + k] == w[k] {
        if k >= |a| {
          assert w[k] == b[k - |a|];
        }
      }
    }
  }

  lemma AtConcat3(s: seq<byte>, i: nat, a: seq<byte>, b: seq<byte>, c: seq<byte>)
    ensures At(s, i, a + b + c) <==> At(s, i, a) && At(s, i + |a|, b) && At(s, i + |a| + |b|, c)
  {
    AtConcat(s, i, a + b, c);
    AtConcat(s, i, a, b);
  }

  lemma AtFirst(s: seq<byte>, i: nat, w: seq<byte>)
    requires At(s, i, w) && |w| > 0
    ensures i + |w| <= |s| && s[i] == w[0]
  {
    assert s[i + 0] == w[0];
  }

  lemma AtOne(s: seq<byte>, i: nat)
    requires i < |s|
    ensures At(s, i, [s[i]])
  {
  }

  lemma AtSlice(s: seq<byte>, i: nat, w: seq<byte>)
    ensures At(s, i, w) <==> i + |w| <= |s| && s[i..i + |w|] == w
  {
    if i + |w| <= |s| {
      var t := s[i..i + |w|];
      assert forall k :: 0 <= k < |w| ==> t[k] == s[i + k];
    }
  }
}
