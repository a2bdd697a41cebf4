/**
  Ignore patterns (src/ignore.c): the glob matcher with its budget of steps, against
  what the patterns mean, and what a hit on a path says about everything beneath it.
*/
module Glob {
  import opened Bytes

  type Text = seq<byte>

  const STAR: byte := 0x2A
  const SLASH: byte := 0x2F
  const QUESTION: byte := 0x3F
  const OPEN: byte := 0x5B
  const CLOSE: byte := 0x5D
  const BANG: byte := 0x21
  const CARET: byte := 0x5E
  const DASH: byte := 0x2D

  const GLOB_BUDGET := 200000
  const IGNORE_PATH_MAX := 384

  function Lc(c: byte): byte {
    if 0x41 <= c <= 0x5A then c + 0x20 else c
  }

  // ---------------------------------------------------- character classes

  /** A class from q on: whether c is listed, and where the class ends. */
  datatype Listing = Unclosed | Listing(close: nat, listed: bool)

  function Scan(p: Text, q: nat, c: byte): (r: Listing)
    ensures r.Listing? ==> q <= r.close < |p|
    decreases |p| - q
  {
    if q >= |p| then Unclosed
    else if p[q] == CLOSE then Listing(q, false)
    else if q + 2 < |p| && p[q + 1] == DASH && p[q + 2] != CLOSE then
      match Scan(p, q + 3, c)
      case Unclosed => Unclosed
      case Listing(k, m) => Listing(k, m || Lc(p[q]) <= c <= Lc(p[q + 2]))
    else
      match Scan(p, q + 1, c)
      case Unclosed => Unclosed
      case Listing(k, m) => Listing(k, m || c == Lc(p[q]))
  }

  predicate Negated(p: Text) {
    |p| > 1 && (p[1] == BANG || p[1] == CARET)
  }

  /** The class at the front of p: what is left of p after it, if c belongs to it. */
  function AfterClass(p: Text, c: byte): (r: Option<Text>)
    requires p != []
    ensures r.Some? ==> |r.value| < |p|
  {
    match Scan(p, if Negated(p) then 2 else 1, Lc(c))
    case Unclosed => None
    case Listing(k, m) => if m == Negated(p) then None else Some(p[k + 1..])
  }

  // ------------------------------------------------ what patterns mean

  /** What is left of p after a double star: the slash that may follow it goes too. */
  function AfterDouble(p: Text): (q: Text)
    requires |p| >= 2
    ensures |q| <= |p| - 2
  {
    if |p| > 2 && p[2] == SLASH then p[3..] else p[2..]
  }

  predicate IsDouble(p: Text) {
    |p| >= 2 && p[0] == STAR && p[1] == STAR
  }

  /** The language of a pattern: a double star stands for anything, a star for anything
      without a slash, a question mark or a class for one byte that is no slash. */
  ghost predicate Match(p: Text, s: Text)
    decreases |p|
  {
    if p == [] then s == []
    else if IsDouble(p) then
      AfterDouble(p) == [] || exists k :: 0 <= k <= |s| && Match(AfterDouble(p), s[k..])
    else if p[0] == STAR then exists k :: 0 <= k <= |s| && SLASH !in s[..k] && Match(p[1..], s[k..])
    else if s == [] then false
    else if p[0] == QUESTION then s[0] != SLASH && Match(p[1..], s[1..])
    else if p[0] == OPEN then
      s[0] != SLASH && AfterClass(p, s[0]).Some? && Match(AfterClass(p, s[0]).value, s[1..])
    else Lc(p[0]) == Lc(s[0]) && Match(p[1..], s[1..])
  }

  // ----------------------------------------------------- what is computed

  /** glob_rec with what it leaves of the budget. */
  function Rec(p: Text, s: Text, budget: int): (bool, int)
    decreases |p|, 1, 0
  {
    if budget - 1 <= 0 then (false, budget - 1) else Walk(p, s, budget - 1)
  }

  function Walk(p: Text, s: Text, b: int): (bool, int)
    decreases |p|, 0, 0
  {
    if p == [] then (s == [], b)
    else if IsDouble(p) then if AfterDouble(p) == [] then (true, b) else Deep(AfterDouble(p), s, b)
    else if p[0] == STAR then Shallow(p[1..], s, b)
    else if s == [] then (false, b)
    else if p[0] == QUESTION then if s[0] == SLASH then (false, b) else Walk(p[1..], s[1..], b)
    else if p[0] == OPEN then
      if s[0] == SLASH || AfterClass(p, s[0]).None? then (false, b) else Walk(AfterClass(p, s[0]).value, s[1..], b)
    else if Lc(p[0]) != Lc(s[0]) then (false, b)
    else Walk(p[1..], s[1..], b)
  }

  /** The loop of a double star. */
  function Deep(q: Text, s: Text, b: int): (bool, int)
    decreases |q|, 2, |s|
  {
    var (r, left) := Rec(q, s, b);
    if r then (true, left) else if s == [] then (false, left) else Deep(q, s[1..], left)
  }

  /** The loop of a star. */
  function Shallow(q: Text, s: Text, b: int): (bool, int)
    decreases |q|, 2, |s|
  {
    var (r, left) := Rec(q, s, b);
    if r then (true, left) else if s == [] || s[0] == SLASH then (false, left) else Shallow(q, s[1..], left)
  }

  // ------------------------------------------------------------- the laws

  function Stars(p: Text): nat {
    if p == [] then 0 else (if p[0] == STAR then 1 else 0) + Stars(p[1..])
  }

  lemma {:induction false} StarsSuffix(p: Text, k: nat)
    requires k <= |p|
    ensures Stars(p[k..]) <= Stars(p)
  {
    if k > 0 {
      StarsSuffix(p[1..], k - 1);
      assert p[1..][k - 1..] == p[k..];
    } else {
      assert p[0..] == p;
    }
  }

  lemma StarsAfter(p: Text)
    requires p != []
    ensures IsDouble(p) ==> Stars(AfterDouble(p)) + 1 <= Stars(p)
    ensures p[0] == STAR ==> Stars(p[1..]) + 1 == Stars(p)
    ensures Stars(p[1..]) <= Stars(p)
    ensures forall c :: AfterClass(p, c).Some? ==> Stars(AfterClass(p, c).value) <= Stars(p)
  {
    hide Scan;
    if IsDouble(p) {
      var q := AfterDouble(p);
      StarsSuffix(p[1..], |p| - |q| - 1);
      assert q == p[1..][|p| - |q| - 1..];
    }
    forall c | AfterClass(p, c).Some? ensures Stars(AfterClass(p, c).value) <= Stars(p) {
      var q := AfterClass(p, c).value;
      StarsSuffix(p, |p| - |q|);
      assert q == p[|p| - |q|..];
    }
  }

  ghost predicate DeepMatch(q: Text, s: Text) {
    exists k :: 0 <= k <= |s| && Match(q, s[k..])
  }

  ghost predicate ShallowMatch(q: Text, s: Text) {
    exists k :: 0 <= k <= |s| && SLASH !in s[..k] && Match(q, s[k..])
  }

  lemma DeepUnfolds(q: Text, s: Text)
    ensures DeepMatch(q, s) <==> Match(q, s) || (s != [] && DeepMatch(q, s[1..]))
  {
    hide Match;
    assert s[0..] == s;
    if s != [] {
      var t := s[1..];
      assert forall k :: 0 <= k <= |t| ==> t[k..] == s[k + 1..];
      if k :| 0 <= k <= |s| && Match(q, s[k..]) && k > 0 {
        assert t[k - 1..] == s[k..];
      }
    }
  }

  lemma ShallowAt(q: Text, s: Text, k: nat)
    requires k <= |s| && SLASH !in s[..k] && Match(q, s[k..])
    ensures Match(q, s) || (s != [] && s[0] != SLASH && ShallowMatch(q, s[1..]))
  {
    hide Match;
    if k == 0 {
      assert s[0..] == s;
    } else {
      var t := s[1..];
      assert s[..k] == [s[0]] + t[..k - 1] && t[k - 1..] == s[k..];
      assert s[0] in s[..k];
    }
  }

  lemma ShallowFurther(q: Text, s: Text, k: nat)
    requires s != [] && s[0] != SLASH && k < |s| && SLASH !in s[1..][..k] && Match(q, s[1..][k..])
    ensures ShallowMatch(q, s)
  {
    hide Match;
    var t := s[1..];
    assert s[..k + 1] == [s[0]] + t[..k] && s[k + 1..] == t[k..];
  }

  lemma ShallowUnfolds(q: Text, s: Text)
    ensures ShallowMatch(q, s) <==> Match(q, s) || (s != [] && s[0] != SLASH && ShallowMatch(q, s[1..]))
  {
    hide Match;
    if ShallowMatch(q, s) {
      var k :| 0 <= k <= |s| && SLASH !in s[..k] && Match(q, s[k..]);
      ShallowAt(q, s, k);
    }
    if Match(q, s) {
      assert s[0..] == s && s[..0] == [];
    }
    if s != [] && s[0] != SLASH && ShallowMatch(q, s[1..]) {
      var k :| 0 <= k <= |s[1..]| && SLASH !in s[1..][..k] && Match(q, s[1..][k..]);
      ShallowFurther(q, s, k);
    }
  }

  /** A result is right: yes only for a match, and no only for none unless the budget ran
      out. */
  predicate Right(r: (bool, int), match_: bool) {
    (r.0 ==> match_) && (r.1 > 0 ==> r.0 == match_)
  }

  function Floor(stars: nat, n: nat): int {
    -(stars * (n + 1))
  }

  lemma FloorMono(a: nat, b: nat, n: nat, m: nat)
    requires a <= b && n <= m
    ensures Floor(b, m) <= Floor(a, n)
  {
    assert a * (n + 1) <= b * (n + 1) && b * (n + 1) <= b * (m + 1);
  }

  lemma FloorStep(a: nat, n: nat)
    ensures Floor(a + 1, n) == Floor(a, n) - (n + 1)
  {
  }

  lemma {:induction false} RecRight(p: Text, s: Text, b: int)
    ensures Right(Rec(p, s, b), Match(p, s)) && Rec(p, s, b).1 < b
    ensures b <= 0 ==> Rec(p, s, b) == (false, b - 1)
    ensures b > 0 ==> Rec(p, s, b).1 >= Floor(Stars(p), |s|)
    decreases |p|, 1, 0
  {
    hide Match, Floor;
    if b > 1 {
      WalkRight(p, s, b - 1);
    } else {
      FloorMono(0, Stars(p), 0, |s|);
      assert Floor(0, 0) == 0 by {
        FloorZero();
      }
    }
  }

  lemma FloorZero()
    ensures Floor(0, 0) == 0
  {
  }

  lemma {:induction false} WalkRight(p: Text, s: Text, b: int)
    requires b > 0
    ensures Right(Walk(p, s, b), Match(p, s)) && Walk(p, s, b).1 <= b
    ensures Walk(p, s, b).1 >= Floor(Stars(p), |s|)
    decreases |p|, 0, 0
  {
    hide Floor, AfterClass, AfterDouble, Stars;
    FloorMono(0, Stars(p), 0, |s|);
    FloorZero();
    if p == [] {
    } else {
      StarsAfter(p);
      if IsDouble(p) {
        var q := AfterDouble(p);
        if q != [] {
          DeepRight(q, s, b);
          FloorMono(Stars(q) + 1, Stars(p), |s|, |s|);
        }
      } else if p[0] == STAR {
        ShallowRight(p[1..], s, b);
      } else if s != [] {
        if p[0] == OPEN {
          if AfterClass(p, s[0]).Some? {
            WalkRight(AfterClass(p, s[0]).value, s[1..], b);
            FloorMono(Stars(AfterClass(p, s[0]).value), Stars(p), |s| - 1, |s|);
          }
        } else {
          WalkRight(p[1..], s[1..], b);
          FloorMono(Stars(p[1..]), Stars(p), |s| - 1, |s|);
        }
      }
    }
  }

  lemma {:induction false} DeepRight(q: Text, s: Text, b: int)
    ensures Right(Deep(q, s, b), DeepMatch(q, s)) && Deep(q, s, b).1 <= b
    ensures b > 0 ==> Deep(q, s, b).1 >= Floor(Stars(q) + 1, |s|)
    ensures b <= 0 ==> Deep(q, s, b).1 >= b - (|s| + 1)
    decreases |q|, 2, |s|
  {
    hide Match, Floor, Rec, DeepMatch, Stars;
    RecRight(q, s, b);
    DeepUnfolds(q, s);
    FloorStep(Stars(q), |s|);
    if s != [] {
      DeepRight(q, s[1..], Rec(q, s, b).1);
      FloorMono(Stars(q) + 1, Stars(q) + 1, |s| - 1, |s|);
    }
  }

  lemma {:induction false} ShallowRight(q: Text, s: Text, b: int)
    ensures Right(Shallow(q, s, b), ShallowMatch(q, s)) && Shallow(q, s, b).1 <= b
    ensures b > 0 ==> Shallow(q, s, b).1 >= Floor(Stars(q) + 1, |s|)
    ensures b <= 0 ==> Shallow(q, s, b).1 >= b - (|s| + 1)
    decreases |q|, 2, |s|
  {
    hide Match, Floor, Rec, ShallowMatch, Stars;
    RecRight(q, s, b);
    ShallowUnfolds(q, s);
    FloorStep(Stars(q), |s|);
    if s != [] {
      ShallowRight(q, s[1..], Rec(q, s, b).1);
      FloorMono(Stars(q) + 1, Stars(q) + 1, |s| - 1, |s|);
    }
  }

  predicate GlobMatch(p: Text, s: Text) {
    Rec(p, s, GLOB_BUDGET).0
  }

  /** A yes means a match; the answer is exact while the budget lasts; and the number of
      calls, which is what is taken from the budget, is bounded whatever the pattern. */
  lemma GlobIsRight(p: Text, s: Text)
    ensures GlobMatch(p, s) ==> Match(p, s)
    ensures Rec(p, s, 200000).1 > 0 ==> (GlobMatch(p, s) <==> Match(p, s))
    ensures 200000 - Rec(p, s, 200000).1 <= 200000 + Stars(p) * (|s| + 1)
  {
    hide Rec, Match;
    RecRight(p, s, GLOB_BUDGET);
  }

  // ------------------------------------------------------------- the code

  /** The loop over a character class: the index of its end, or past the pattern. */
  method ReadClass(p: Text, q0: nat, c: byte) returns (q: nat, listed: bool)
    requires q0 <= |p|
    ensures q == |p| <==> Scan(p, q0, c).Unclosed?
    ensures q < |p| ==> Scan(p, q0, c) == Listing(q, listed)
    ensures q <= |p|
  {
    q, listed := q0, false;
    while q < |p| && p[q] != CLOSE
      invariant q0 <= q <= |p|
      invariant Scan(p, q0, c) == match Scan(p, q, c) case Unclosed => Unclosed case Listing(k, m) => Listing(k, m || listed)
      decreases |p| - q
    {
      if q + 2 < |p| && p[q + 1] == DASH && p[q + 2] != CLOSE {
        if c >= Lc(p[q]) && c <= Lc(p[q + 2]) {
          listed := true;
        }
        q := q + 3;
      } else {
        if c == Lc(p[q]) {
          listed := true;
        }
        q := q + 1;
      }
    }
  }

  /** The character class at p[i], for the byte c: whether c belongs to it, and where the
      pattern goes on. */
  method ClassStep(p: Text, i: nat, c: byte) returns (ok: bool, next: nat)
    requires i < |p| && p[i] == OPEN
    ensures i < next <= |p|
    ensures ok <==> AfterClass(p[i..], c).Some?
    ensures ok ==> AfterClass(p[i..], c).value == p[next..]
  {
    hide Scan;
    ghost var pat := p[i..];
    var q: nat := i + 1;
    var neg := q < |p| && (p[q] == BANG || p[q] == CARET);
    if neg {
      q := q + 1;
    }
    var close, listed := ReadClass(p, q, Lc(c));
    ScanShift(p, i, q - i, Lc(c));
    if close == |p| || listed == neg {
      return false, |p|;
    }
    assert pat[close - i + 1..] == p[close + 1..];
    ok, next := true, close + 1;
  }

  /** The branches that take one byte of each: whether they go on, and where. */
  method OneByte(p: Text, s: Text, i: nat, j: nat, ghost b: int) returns (ok: bool, next: nat)
    requires i < |p| && j <= |s| && p[i] != STAR
    ensures i < next <= |p| && (ok ==> j < |s|)
    ensures Walk(p[i..], s[j..], b) == if ok then Walk(p[next..], s[j + 1..], b) else (false, b)
  {
    hide AfterClass;
    ghost var pat, rest := p[i..], s[j..];
    next := i + 1;
    assert pat[1..] == p[next..] && (j < |s| ==> rest[1..] == s[j + 1..]);
    if p[i] == QUESTION {
      ok := !(j == |s| || s[j] == SLASH);
    } else if p[i] == OPEN {
      ok := !(j == |s| || s[j] == SLASH);
      if ok {
        ok, next := ClassStep(p, i, s[j]);
      }
    } else {
      ok := !(j == |s| || Lc(p[i]) != Lc(s[j]));
    }
  }

  lemma WalkStars(p: Text, s: Text, b: int)
    requires p != [] && p[0] == STAR
    ensures IsDouble(p) && AfterDouble(p) == [] ==> Walk(p, s, b) == (true, b)
    ensures IsDouble(p) && AfterDouble(p) != [] ==> Walk(p, s, b) == Deep(AfterDouble(p), s, b)
    ensures !IsDouble(p) ==> Walk(p, s, b) == Shallow(p[1..], s, b)
  {
    hide Deep, Shallow;
  }

  /** glob_rec */
  method GlobRec(p: Text, s: Text, budget: int) returns (r: bool, left: int)
    ensures (r, left) == Rec(p, s, budget)
    decreases |p|, 0
  {
    hide Walk, Deep, Shallow;
    left := budget - 1;
    if left <= 0 {
      return false, left;
    }
    var i: nat, j: nat := 0, 0;
    assert p[0..] == p && s[0..] == s;
    while i < |p|
      invariant i <= |p| && j <= |s| && Walk(p, s, left) == Walk(p[i..], s[j..], left) && left == budget - 1
      decreases |p| - i
    {
      ghost var pat := p[i..];
      if p[i] == STAR {
        WalkStars(pat, s[j..], left);
        if i + 1 < |p| && p[i + 1] == STAR {
          i := i + 2;
          if i < |p| && p[i] == SLASH {
            i := i + 1;
          }
          assert AfterDouble(pat) == p[i..];
          if i == |p| {
            return true, left;
          }
          r, left := DeepLoop(p[i..], s[j..], left);
        } else {
          assert pat[1..] == p[i + 1..];
          r, left := ShallowLoop(p[i + 1..], s[j..], left);
        }
        return;
      }
      var ok, next := OneByte(p, s, i, j, left);
      if !ok {
        return false, left;
      }
      i, j := next, j + 1;
    }
    WalkOver(p[i..], s[j..], left);
    r := j == |s|;
  }

  lemma WalkOver(p: Text, s: Text, b: int)
    requires p == []
    ensures Walk(p, s, b) == (s == [], b)
  {
  }

  lemma {:induction false} ScanShift(p: Text, i: nat, q: nat, c: byte)
    requires i <= |p|
    ensures Scan(p[i..], q, c) == match Scan(p, i + q, c) case Unclosed => Unclosed case Listing(k, m) => Listing(k - i, m)
    decreases |p| - q
  {
    if q < |p| - i && p[i + q] != CLOSE {
      ScanShift(p, i, q + 3, c);
      ScanShift(p, i, q + 1, c);
    }
  }

  method DeepLoop(q: Text, s: Text, b: int) returns (r: bool, left: int)
    ensures (r, left) == Deep(q, s, b)
    decreases |q|, 1
  {
    hide Rec;
    var j := 0;
    left := b;
    assert s[0..] == s;
    while true
      invariant j <= |s| && Deep(q, s, b) == Deep(q, s[j..], left)
      decreases |s| - j
    {
      r, left := GlobRec(q, s[j..], left);
      if r || j == |s| {
        return;
      }
      assert s[j..][1..] == s[j + 1..];
      j := j + 1;
    }
  }

  method ShallowLoop(q: Text, s: Text, b: int) returns (r: bool, left: int)
    ensures (r, left) == Shallow(q, s, b)
    decreases |q|, 1
  {
    hide Rec;
    var j := 0;
    left := b;
    assert s[0..] == s;
    while true
      invariant j <= |s| && Shallow(q, s, b) == Shallow(q, s[j..], left)
      decreases |s| - j
    {
      r, left := GlobRec(q, s[j..], left);
      if r || j == |s| || s[j] == SLASH {
        return;
      }
      assert s[j..][1..] == s[j + 1..];
      j := j + 1;
    }
  }

  // ------------------------------------------------------ paths and rules

  /** glob_match_prefix: a prefix over the buffer counts as no match. */
  predicate PrefixHit(glob: Text, s: Text) {
    |s| < IGNORE_PATH_MAX && GlobMatch(glob, s)
  }

  ghost predicate HitsPath(glob: Text, path: Text) {
    GlobMatch(glob, path) || exists i :: 0 <= i < |path| && path[i] == SLASH && PrefixHit(glob, path[..i])
  }

  predicate Segment(path: Text, a: nat, b: nat) {
    a <= b <= |path| && (a == 0 || path[a - 1] == SLASH) && (b == |path| || path[b] == SLASH)
    && forall k :: a <= k < b ==> path[k] != SLASH
  }

  ghost predicate HitsSegment(glob: Text, path: Text) {
    exists a: nat, b: nat :: Segment(path, a, b) && PrefixHit(glob, path[a..b])
  }

  datatype Pattern = Pattern(glob: Text, negate: bool, hasSlash: bool)

  ghost predicate Hits(pat: Pattern, path: Text) {
    if pat.hasSlash then HitsPath(pat.glob, path) else HitsSegment(pat.glob, path)
  }

  /** What stands beneath a path. */
  function Beneath(path: Text, rest: Text): Text {
    path + [SLASH] + rest
  }

  lemma HitsBeneath(pat: Pattern, path: Text, rest: Text)
    requires Hits(pat, path) && |path| < 384
    ensures Hits(pat, Beneath(path, rest))
  {
    hide GlobMatch;
    var below := Beneath(path, rest);
    assert below[|path|] == SLASH && below[..|path|] == path;
    if pat.hasSlash {
      if !GlobMatch(pat.glob, path) {
        var i :| 0 <= i < |path| && path[i] == SLASH && PrefixHit(pat.glob, path[..i]);
        assert below[i] == SLASH && below[..i] == path[..i];
      } else {
        assert PrefixHit(pat.glob, below[..|path|]);
      }
    } else {
      var a: nat, b: nat :| Segment(path, a, b) && PrefixHit(pat.glob, path[a..b]);
      assert below[a..b] == path[a..b];
      assert a > 0 ==> below[a - 1] == path[a - 1];
      assert b < |path| ==> below[b] == path[b];
      assert Segment(below, a, b);
    }
  }

  function As(n: nat): (s: Text)
    ensures |s| == n
  {
    seq(n, _ => 0x61)
  }

  /** A star at the end of a pattern takes n bytes without a slash, and then needs the end. */
  lemma {:induction false} LastStar(n: nat, t: Text, b: int)
    requires b > n + 1 && (t == [] || t[0] == SLASH)
    ensures Shallow([], As(n) + t, b).0 == (t == [])
  {
    if n > 0 {
      assert (As(n) + t)[1..] == As(n - 1) + t;
      LastStar(n - 1, t, b - 1);
    } else {
      assert As(0) + t == t;
    }
  }

  lemma StarTakes(n: nat, t: Text)
    requires 0 < n < GLOB_BUDGET - 2 && (t == [] || t[0] == SLASH)
    ensures GlobMatch([0x61, STAR], As(n) + t) == (t == [])
  {
    var p, s := [0x61, STAR], As(n) + t;
    assert p[1..] == [STAR] && [STAR][1..] == [] && s[1..] == As(n - 1) + t;
    LastStar(n - 1, t, GLOB_BUDGET - 1);
    assert s[0] == 0x61 && Walk(p, s, GLOB_BUDGET - 1) == Walk(p[1..], s[1..], GLOB_BUDGET - 1);
    assert Walk([STAR], s[1..], GLOB_BUDGET - 1) == Shallow([STAR][1..], s[1..], GLOB_BUDGET - 1);
  }

  /** The bound is the matcher's: from 384 bytes on, more than any name the daemon handles,
      a rule can hit a path and not what is beneath. */
  lemma LongPathEndsThere(n: nat)
    requires 384 <= n < 199998
    ensures var pat := Pattern([0x61, STAR], false, true);
            Hits(pat, As(n)) && !Hits(pat, Beneath(As(n), [0x62]))
  {
    hide GlobMatch;
    var below := Beneath(As(n), [0x62]);
    StarTakes(n, []);
    StarTakes(n, [SLASH, 0x62]);
    assert As(n) + [] == As(n) && below == As(n) + [SLASH, 0x62];
    assert forall i :: 0 <= i < |below| && below[i] == SLASH ==> i == n;
  }

  /** The first rule that hits decides. */
  ghost predicate Ignored(set_: seq<Pattern>, path: Text) {
    if set_ == [] then false
    else if Hits(set_[0], path) then !set_[0].negate
    else Ignored(set_[1..], path)
  }

  /** What is ignored takes everything beneath it along, but for what an earlier rule with
      a bang brings back. */
  lemma {:induction false} IgnoredBeneath(set_: seq<Pattern>, path: Text, rest: Text)
    requires Ignored(set_, path) && |path| < 384
    ensures Ignored(set_, Beneath(path, rest)) ||
            exists k :: 0 <= k < |set_| && set_[k].negate && Hits(set_[k], Beneath(path, rest)) && !Hits(set_[k], path)
  {
    hide Hits;
    if Hits(set_[0], path) {
      HitsBeneath(set_[0], path, rest);
    } else if Hits(set_[0], Beneath(path, rest)) {
    } else {
      IgnoredBeneath(set_[1..], path, rest);
      if k :| 0 <= k < |set_[1..]| && set_[1..][k].negate && Hits(set_[1..][k], Beneath(path, rest)) && !Hits(set_[1..][k], path) {
        assert set_[k + 1] == set_[1..][k];
      }
    }
  }

  method MatchPath(glob: Text, path: Text) returns (hit: bool)
    ensures hit <==> HitsPath(glob, path)
    ensures hit <==> GlobMatch(glob, path)
                     || exists i :: 0 <= i < |path| && i < 384 && path[i] == 0x2F && GlobMatch(glob, path[..i])
  {
    hide Rec;
    var left;
    hit, left := GlobRec(glob, path, GLOB_BUDGET);
    if hit {
      return;
    }
    for i := 0 to |path|
      invariant forall k :: 0 <= k < i && path[k] == SLASH ==> !PrefixHit(glob, path[..k])
    {
      if path[i] == SLASH && i < IGNORE_PATH_MAX {
        hit, left := GlobRec(glob, path[..i], GLOB_BUDGET);
        if hit {
          assert PrefixHit(glob, path[..i]);
          return;
        }
      }
    }
    hit := false;
  }

  lemma SegmentHit(glob: Text, path: Text)
    ensures HitsSegment(glob, path) <==>
              exists a, b :: 0 <= a <= b <= |path| && (a == 0 || path[a - 1] == 0x2F) && (b == |path| || path[b] == 0x2F)
                             && 0x2F !in path[a..b] && b - a < 384 && GlobMatch(glob, path[a..b])
  {
    hide GlobMatch;
    if HitsSegment(glob, path) {
      var a: nat, b: nat :| Segment(path, a, b) && PrefixHit(glob, path[a..b]);
      assert 0 <= a <= b <= |path| && 0x2F !in path[a..b] && GlobMatch(glob, path[a..b]);
    }
    if a, b :| 0 <= a <= b <= |path| && (a == 0 || path[a - 1] == 0x2F) && (b == |path| || path[b] == 0x2F)
               && 0x2F !in path[a..b] && b - a < 384 && GlobMatch(glob, path[a..b]) {
      assert forall k :: a <= k < b ==> path[k] == path[a..b][k - a];
      assert Segment(path, a, b) && PrefixHit(glob, path[a..b]);
    }
  }

  method MatchSegment(glob: Text, path: Text) returns (hit: bool)
    ensures hit <==> HitsSegment(glob, path)
    ensures hit <==> exists a, b :: 0 <= a <= b <= |path| && (a == 0 || path[a - 1] == 0x2F) && (b == |path| || path[b] == 0x2F)
                                    && 0x2F !in path[a..b] && b - a < 384 && GlobMatch(glob, path[a..b])
  {
    hide Rec;
    SegmentHit(glob, path);
    var seg: nat, p: nat := 0, 0;
    while true
      invariant seg <= p <= |path| && (forall k :: seg <= k < p ==> path[k] != SLASH) && (seg == 0 || path[seg - 1] == SLASH)
      invariant forall a: nat, b: nat :: a < seg && Segment(path, a, b) ==> !PrefixHit(glob, path[a..b])
      decreases |path| - p
    {
      if p == |path| || path[p] == SLASH {
        assert Segment(path, seg, p);
        if p - seg < IGNORE_PATH_MAX {
          var left;
          hit, left := GlobRec(glob, path[seg..p], GLOB_BUDGET);
          if hit {
            return;
          }
        }
        OneSegment(path, seg, p);
        if p == |path| {
          return false;
        }
        seg := p + 1;
      }
      p := p + 1;
    }
  }

  /** The segments that start up to p are those before seg, and the one from seg to p. */
  lemma OneSegment(path: Text, seg: nat, p: nat)
    requires Segment(path, seg, p)
    ensures forall a: nat, b: nat :: seg <= a <= p && Segment(path, a, b) ==> a == seg && b == p
  {
  }

  /** ignore_match */
  method IgnoreMatch(set_: seq<Pattern>, path: Text) returns (ignored: bool)
    ensures ignored <==> Ignored(set_, path)
    ensures ignored <==> exists k :: 0 <= k < |set_| && !set_[k].negate && Hits(set_[k], path)
                                     && forall j :: 0 <= j < k ==> !Hits(set_[j], path)
  {
    hide Hits;
    assert set_[0..] == set_;
    for i := 0 to |set_|
      invariant Ignored(set_, path) == Ignored(set_[i..], path) && forall j :: 0 <= j < i ==> !Hits(set_[j], path)
    {
      var hit;
      if set_[i].hasSlash {
        hit := MatchPath(set_[i].glob, path);
      } else {
        hit := MatchSegment(set_[i].glob, path);
      }
      HitsIs(set_[i], path);
      if hit {
        return !set_[i].negate;
      }
      assert set_[i..][1..] == set_[i + 1..];
    }
    ignored := false;
  }

  lemma HitsIs(pat: Pattern, path: Text)
    ensures Hits(pat, path) <==> if pat.hasSlash then HitsPath(pat.glob, path) else HitsSegment(pat.glob, path)
  {
  }
}
