/**
  What a glob means, construct by construct and character by character, and that the
  budget never cuts short a pattern with at most one star.
*/
module GlobRules {
  import opened Bytes
  import opened Glob

  /** Two bytes that differ at most in the case of a letter. */
  lemma SameLetter(a: byte, b: byte)
    ensures Lc(a) == if 0x41 <= a <= 0x5A then a + 0x20 else a
    ensures Lc(a) == Lc(b) <==>
              || a == b
              || (0x41 <= a <= 0x5A && b == a as int + 0x20)
              || (0x41 <= b <= 0x5A && a == b as int + 0x20)
  {
  }

  /** What a pattern matches, by its first character: nothing, a question mark, a letter
      or other byte that stands for itself. */
  lemma PlainRules(p: Text, s: Text, c: byte, d: byte)
    ensures Match([], s) <==> |s| == 0
    ensures !Match([0x3F] + p, []) && (Match([0x3F] + p, [d] + s) <==> d != 0x2F && Match(p, s))
    ensures c !in {0x2A, 0x3F, 0x5B} ==>
              && !Match([c] + p, [])
              && (Match([c] + p, [d] + s) <==>
                    && (|| c == d
                        || (0x41 <= c <= 0x5A && d == c as int + 0x20)
                        || (0x41 <= d <= 0x5A && c == d as int + 0x20))
                    && Match(p, s))
  {
    SameLetter(c, d);
    var q, t := [0x3F] + p, [d] + s;
    assert q[1..] == p && t[1..] == s && ([c] + p)[1..] == p;
  }

  lemma StarUnfolds(p: Text, s: Text)
    requires p == [] || p[0] != 0x2A
    ensures Match([0x2A] + p, s) <==> ShallowMatch(p, s)
  {
    var q := [0x2A] + p;
    assert q[1..] == p;
  }

  /** A star takes any bytes but slashes. */
  lemma StarRule(p: Text, s: Text)
    requires p == [] || p[0] != 0x2A
    ensures Match([0x2A] + p, s) <==> exists a, b :: s == a + b && 0x2F !in a && Match(p, b)
  {
    hide Match;
    StarUnfolds(p, s);
    if ShallowMatch(p, s) {
      var k :| 0 <= k <= |s| && SLASH !in s[..k] && Match(p, s[k..]);
      assert s == s[..k] + s[k..];
    }
    if a, b :| s == a + b && 0x2F !in a && Match(p, b) {
      assert s[..|a|] == a && s[|a|..] == b;
    }
  }

  lemma DoubleUnfolds(p: Text, s: Text)
    requires p == [] || p[0] != 0x2F
    ensures AfterDouble([0x2A, 0x2A] + p) == p && AfterDouble([0x2A, 0x2A, 0x2F] + p) == p
    ensures Match([0x2A, 0x2A] + p, s) <==> p == [] || DeepMatch(p, s)
    ensures Match([0x2A, 0x2A, 0x2F] + p, s) <==> p == [] || DeepMatch(p, s)
  {
    var q, q' := [0x2A, 0x2A] + p, [0x2A, 0x2A, 0x2F] + p;
    assert q[2..] == p && q'[3..] == p;
  }

  /** A double star takes anything, and so does one with the slash behind it. */
  lemma DoubleStarRule(p: Text, s: Text)
    requires p == [] || p[0] != 0x2F
    ensures Match([0x2A, 0x2A] + p, s) <==> p == [] || exists a, b :: s == a + b && Match(p, b)
    ensures Match([0x2A, 0x2A, 0x2F] + p, s) <==> p == [] || exists a, b :: s == a + b && Match(p, b)
  {
    hide Match;
    DoubleUnfolds(p, s);
    if DeepMatch(p, s) {
      var k :| 0 <= k <= |s| && Match(p, s[k..]);
      assert s == s[..k] + s[k..];
    }
    if a, b :| s == a + b && Match(p, b) {
      assert s[|a|..] == b;
    }
  }

  // ---------------------------------------------------- character classes

  /** What a class lists: single bytes and ranges. */
  datatype Item = One(c: byte) | Range(lo: byte, hi: byte)

  function Written(items: seq<Item>): Text {
    if items == [] then []
    else (match items[0] case One(c) => [c] case Range(lo, hi) => [lo, 0x2D, hi]) + Written(items[1..])
  }

  /** Items that can be written without being taken for something else: no item starts
      with a bracket or a dash, no range ends in a bracket. */
  predicate Clear(items: seq<Item>) {
    forall i :: 0 <= i < |items| ==>
      match items[i]
      case One(c) => c != 0x5D && c != 0x2D
      case Range(lo, hi) => lo != 0x5D && lo != 0x2D && hi != 0x5D
  }

  lemma {:induction false} ScanWritten(p: Text, q: nat, items: seq<Item>, rest: Text, c: byte)
    requires Clear(items) && q <= |p| && p[q..] == Written(items) + [0x5D] + rest
    ensures Scan(p, q, c) == Listing(q + |Written(items)|,
                                     exists i :: 0 <= i < |items| &&
                                                 match items[i]
                                                 case One(d) => c == Lc(d)
                                                 case Range(lo, hi) => Lc(lo) <= c <= Lc(hi))
    decreases |items|
  {
    assert p[q] == p[q..][0];
    if items == [] {
      assert p[q..] == [0x5D] + rest;
    } else {
      var w := Written(items[1..]) + [0x5D] + rest;
      var n := if items[0].One? then 1 else 3;
      assert p[q..] == (match items[0] case One(d) => [d] case Range(lo, hi) => [lo, 0x2D, hi]) + w;
      assert p[q + n..] == p[q..][n..] == w;
      NextClear(items[1..], rest);
      assert p[q + 1] == p[q..][1];
      if items[0].Range? {
        assert p[q + 2] == p[q..][2];
      }
      ScanWritten(p, q + n, items[1..], rest, c);
      Among(items, c);
    }
  }

  /** Behind an item no dash follows. */
  lemma NextClear(items: seq<Item>, rest: Text)
    requires Clear(items)
    ensures (Written(items) + [0x5D] + rest)[0] != 0x2D
  {
  }

  lemma Among(items: seq<Item>, c: byte)
    requires items != []
    ensures (exists i :: 0 <= i < |items| &&
                         match items[i] case One(d) => c == Lc(d) case Range(lo, hi) => Lc(lo) <= c <= Lc(hi)) <==>
            (match items[0] case One(d) => c == Lc(d) case Range(lo, hi) => Lc(lo) <= c <= Lc(hi))
            || exists i :: 0 <= i < |items[1..]| &&
                           match items[1..][i] case One(d) => c == Lc(d) case Range(lo, hi) => Lc(lo) <= c <= Lc(hi)
  {
    if i :| 0 <= i < |items| && (match items[i] case One(d) => c == Lc(d) case Range(lo, hi) => Lc(lo) <= c <= Lc(hi)) && i > 0 {
      assert items[1..][i - 1] == items[i];
    }
    if i :| 0 <= i < |items[1..]| && match items[1..][i] case One(d) => c == Lc(d) case Range(lo, hi) => Lc(lo) <= c <= Lc(hi) {
      assert items[i + 1] == items[1..][i];
    }
  }

  lemma ClassUnfolds(q: Text, c: byte, s: Text)
    requires q != [] && q[0] == 0x5B
    ensures !Match(q, [])
    ensures Match(q, [c] + s) <==> c != 0x2F && AfterClass(q, c).Some? && Match(AfterClass(q, c).value, s)
  {
    assert ([c] + s)[1..] == s;
  }

  /** A class stands for one byte, no slash, that is listed by itself or within a range;
      with a bang or a caret in front, for one that is not. */
  lemma ClassRule(mark: Text, items: seq<Item>, p: Text, d: byte, s: Text)
    requires mark in {[], [0x21], [0x5E]} && Clear(items)
    requires mark == [] && items != [] ==> items[0] !in {One(0x21), One(0x5E)} && (items[0].Range? ==> items[0].lo !in {0x21, 0x5E})
    ensures var q := [0x5B] + mark + Written(items) + [0x5D] + p;
            && !Match(q, [])
            && (Match(q, [d] + s) <==>
                  && d != 0x2F && Match(p, s)
                  && (mark == [] <==> exists i :: 0 <= i < |items| &&
                                                  match items[i]
                                                  case One(c) => Lc(d) == Lc(c)
                                                  case Range(lo, hi) => Lc(lo) <= Lc(d) <= Lc(hi)))
  {
    hide Match;
    var q := [0x5B] + mark + Written(items) + [0x5D] + p;
    ClassUnfolds(q, d, s);
    var at := 1 + |mark|;
    assert q[at..] == Written(items) + [0x5D] + p;
    assert mark != [] ==> q[1] == mark[0];
    assert mark == [] ==> q[1] == (Written(items) + [0x5D] + p)[0];
    FirstByte(items, p);
    ScanWritten(q, at, items, p, Lc(d));
    assert q[at + |Written(items)| + 1..] == p;
  }

  lemma FirstByte(items: seq<Item>, p: Text)
    ensures (Written(items) + [0x5D] + p)[0] == if items == [] then 0x5D else match items[0] case One(c) => c case Range(lo, _) => lo
  {
  }

  /** A range, and one that is negated. */
  lemma RangeRule(lo: byte, hi: byte, p: Text, d: byte, s: Text)
    requires lo !in {0x5D, 0x2D, 0x21, 0x5E} && hi != 0x5D
    ensures Match([0x5B, lo, 0x2D, hi, 0x5D] + p, [d] + s) <==> d != 0x2F && Lc(lo) <= Lc(d) <= Lc(hi) && Match(p, s)
    ensures Match([0x5B, 0x21, lo, 0x2D, hi, 0x5D] + p, [d] + s) <==>
              d != 0x2F && !(Lc(lo) <= Lc(d) <= Lc(hi)) && Match(p, s)
  {
    hide Match;
    var items := [Range(lo, hi)];
    assert Written(items) == [lo, 0x2D, hi] + Written(items[1..]) == [lo, 0x2D, hi];
    assert items[0] == Range(lo, hi);
    ClassRule([], items, p, d, s);
    ClassRule([0x21], items, p, d, s);
    assert [0x5B] + [] + [lo, 0x2D, hi] + [0x5D] + p == [0x5B, lo, 0x2D, hi, 0x5D] + p;
    assert [0x5B] + [0x21] + [lo, 0x2D, hi] + [0x5D] + p == [0x5B, 0x21, lo, 0x2D, hi, 0x5D] + p;
  }

  lemma {:induction false} ScanOpen(p: Text, q: nat, c: byte)
    requires forall k :: q <= k < |p| ==> p[k] != 0x5D
    ensures Scan(p, q, c) == Unclosed
    decreases |p| - q
  {
    if q < |p| {
      ScanOpen(p, q + 1, c);
      ScanOpen(p, q + 3, c);
    }
  }

  /** A class that is not closed matches nothing. */
  lemma UnclosedRule(p: Text, s: Text)
    requires 0x5D !in p
    ensures !Match([0x5B] + p, s)
  {
    var q := [0x5B] + p;
    if s != [] {
      ScanOpen(q, 1, Lc(s[0]));
      ScanOpen(q, 2, Lc(s[0]));
    }
  }

  // ------------------------------------------------------------ the budget

  /** Without a star the budget is not touched. */
  lemma {:induction false} WalkPlain(p: Text, s: Text, b: int)
    requires Stars(p) == 0
    ensures Walk(p, s, b).1 == b
    decreases |p|
  {
    if p != [] {
      StarsAfter(p);
      if s != [] && p[0] == OPEN && AfterClass(p, s[0]).Some? {
        WalkPlain(AfterClass(p, s[0]).value, s[1..], b);
      } else if s != [] {
        WalkPlain(p[1..], s[1..], b);
      }
    }
  }

  lemma {:induction false} ShallowPlain(q: Text, s: Text, b: int)
    requires Stars(q) == 0 && b > |s| + 1
    ensures Shallow(q, s, b).1 >= b - |s| - 1
    decreases |s|
  {
    WalkPlain(q, s, b - 1);
    if s != [] {
      ShallowPlain(q, s[1..], b - 1);
    }
  }

  lemma {:induction false} WalkOneStar(p: Text, s: Text, b: int)
    requires Stars(p) <= 1 && b > |s| + 1
    ensures Walk(p, s, b).1 >= b - |s| - 1
    decreases |p|
  {
    if p != [] {
      StarsAfter(p);
      if p[0] == STAR {
        assert !IsDouble(p);
        ShallowPlain(p[1..], s, b);
      } else if s != [] && p[0] == OPEN && AfterClass(p, s[0]).Some? {
        WalkOneStar(AfterClass(p, s[0]).value, s[1..], b);
      } else if s != [] {
        WalkOneStar(p[1..], s[1..], b);
      }
    }
  }

  /** A pattern with at most one star is matched exactly, on any name the daemon handles
      and far longer ones. */
  lemma OneStarIsExact(p: Text, s: Text)
    requires Stars(p) <= 1 && |s| < 199997
    ensures GlobMatch(p, s) <==> Match(p, s)
  {
    WalkOneStar(p, s, 199999);
    GlobIsRight(p, s);
  }
}
