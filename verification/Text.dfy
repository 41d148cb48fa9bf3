/** Strings as src/StrUtil.cc handles them: `split` and `trim`, each as a loop
    over the library searches it calls, against a specification function. */
module Text {

  const NUL := '\0'  // what ends a C string

  function Max(a: nat, b: nat): nat { if a > b then a else b }

  // ---------------------------------------------------------------- searching

  /** The least index holding `c`, or `|s|`. */
  function IndexOf(s: string, c: char): (i: nat)
    ensures i <= |s| && c !in s[..i]
    ensures i < |s| ==> s[i] == c
  {
    if s == "" || s[0] == c then 0
    else
      var j := IndexOf(s[1..], c);
      assert s[..1 + j] == [s[0]] + s[1..][..j];
      1 + j
  }

  lemma IndexOfIs(s: string, c: char, i: nat)
    requires i <= |s| && c !in s[..i] && (i < |s| ==> s[i] == c)
    ensures IndexOf(s, c) == i
  {
    var k := IndexOf(s, c);
    assert forall j | 0 <= j < i :: s[..i][j] == s[j];
    assert forall j | 0 <= j < k :: s[..k][j] == s[j];
  }

  // ----------------------------------------------------------- split and join

  /** Every piece between delimiters, empty ones included. */
  function Split(s: string, det: char): (ps: seq<string>)
    ensures ps != []
    decreases |s|
  {
    var i := IndexOf(s, det);
    if i == |s| then [s] else [s[..i]] + Split(s[i + 1..], det)
  }

  function Join(ps: seq<string>, det: char): string
    requires ps != []
  {
    if |ps| == 1 then ps[0] else ps[0] + [det] + Join(ps[1..], det)
  }

  ghost predicate Free(ps: seq<string>, det: char) {
    forall p <- ps :: det !in p
  }

  lemma SplitLast(p: string, det: char)
    requires det !in p
    ensures Split(p, det) == [p]
  {
    assert p[..|p|] == p;
    IndexOfIs(p, det, |p|);
  }

  lemma SplitFirst(p: string, det: char, s: string)
    requires det !in p
    ensures Split(p + [det] + s, det) == [p] + Split(s, det)
  {
    var t := p + [det] + s;
    assert t[..|p|] == p && t[|p| + 1..] == s;
    IndexOfIs(t, det, |p|);
  }

  lemma {:induction false} SplitFree(s: string, det: char)
    ensures Free(Split(s, det), det)
    decreases |s|
  {
    var i := IndexOf(s, det);
    if i < |s| {
      SplitFree(s[i + 1..], det);
    } else {
      assert s[..i] == s;
    }
  }

  lemma {:induction false} SplitAvoids(s: string, det: char, x: char)
    requires x !in s
    ensures Free(Split(s, det), x)
    decreases |s|
  {
    var i := IndexOf(s, det);
    if i < |s| {
      SplitAvoids(s[i + 1..], det, x);
    }
  }

  lemma JoinCons(p: string, qs: seq<string>, det: char)
    requires qs != []
    ensures Join([p] + qs, det) == p + [det] + Join(qs, det)
  {
    assert ([p] + qs)[1..] == qs;
  }

  /** The first piece and the text after its delimiter. */
  lemma SplitCons(s: string, det: char) returns (p: string, r: string)
    requires det in s
    ensures det !in p && s == p + [det] + r && Split(s, det) == [p] + Split(r, det)
  {
    var i := IndexOf(s, det);
    assert s[..|s|] == s;
    p, r := s[..i], s[i + 1..];
  }

  lemma {:induction false} JoinOfSplit(s: string, det: char)
    ensures Join(Split(s, det), det) == s
    decreases |s|
  {
    if det in s {
      var p, r := SplitCons(s, det);
      JoinOfSplit(r, det);
      JoinCons(p, Split(r, det), det);
    } else {
      SplitLast(s, det);
    }
  }

  lemma {:induction false} SplitOfJoin(ps: seq<string>, det: char)
    requires ps != [] && Free(ps, det)
    ensures Split(Join(ps, det), det) == ps
  {
    if |ps| == 1 {
      SplitLast(ps[0], det);
    } else {
      SplitOfJoin(ps[1..], det);
      SplitFirst(ps[0], det, Join(ps[1..], det));
    }
  }

  lemma Regroup(p: string, det: char, q: string, b: string)
    ensures p + [det] + q + [det] + b == p + [det] + (q + [det] + b)
  {
  }

  lemma SplitPrepend(p: string, det: char, q: string, b: string)
    requires det !in p
    ensures Split(p + [det] + q + [det] + b, det) == [p] + Split(q + [det] + b, det)
  {
    Regroup(p, det, q, b);
    SplitFirst(p, det, q + [det] + b);
  }

  lemma Uncons(ps: seq<string>, bs: seq<string>)
    requires ps != []
    ensures ps + bs == [ps[0]] + (ps[1..] + bs)
  {
  }

  lemma {:induction false} SplitJoined(ps: seq<string>, det: char, b: string)
    requires ps != [] && Free(ps, det)
    ensures Split(Join(ps, det) + [det] + b, det) == ps + Split(b, det)
  {
    if |ps| == 1 {
      SplitFirst(ps[0], det, b);
    } else {
      var p, qs, bs := ps[0], ps[1..], Split(b, det);
      SplitJoined(qs, det, b);
      SplitPrepend(p, det, Join(qs, det), b);
      Uncons(ps, bs);
    }
  }

  lemma SplitConcat(a: string, det: char, b: string)
    ensures Split(a + [det] + b, det) == Split(a, det) + Split(b, det)
  {
    JoinOfSplit(a, det);
    SplitFree(a, det);
    SplitJoined(Split(a, det), det, b);
  }

  lemma {:induction false} SplitLength(s: string, det: char)
    ensures |Split(s, det)| == multiset(s)[det] + 1
    decreases |s|
  {
    if det in s {
      var p, r := SplitCons(s, det);
      SplitLength(r, det);
      assert multiset(s) == multiset(p) + multiset{det} + multiset(r);
    } else {
      SplitLast(s, det);
    }
  }

  function Take(ps: seq<string>, count: nat): seq<string> {
    if |ps| > count then ps[..count] else ps
  }

  /** A bounded split is the head of the full one, of the length the delimiters give. */
  lemma SplitCount(s: string, det: char, count: nat)
    ensures Take(Split(s, det), count) <= Split(s, det)
    ensures |Take(Split(s, det), count)| == if count < multiset(s)[det] + 1 then count else multiset(s)[det] + 1
  {
    SplitLength(s, det);
  }

  /** `string::find(char, from)`: `|s|` stands for `npos`. */
  method FindChar(s: string, c: char, from: nat) returns (i: nat)
    requires from <= |s|
    ensures i == from + IndexOf(s[from..], c)
  {
    i := from;
    while i < |s| && s[i] != c
      invariant from <= i <= |s| && c !in s[from..i]
    {
      i := i + 1;
    }
    assert s[from..][..i - from] == s[from..i];
    IndexOfIs(s[from..], c, i - from);
  }

  lemma SplitStep(s: string, det: char, pos: nat, use: nat)
    requires pos <= use < |s| && use == pos + IndexOf(s[pos..], det)
    ensures Split(s[pos..], det) == [s[pos..use]] + Split(s[use + 1..], det)
  {
    var t := s[pos..];
    assert t[..use - pos] == s[pos..use] && t[use - pos + 1..] == s[use + 1..];
  }

  lemma PushPiece(done: seq<string>, p: string, todo: seq<string>)
    ensures done + ([p] + todo) == done + [p] + todo
  {
  }

  method SplitBy(src: string, det: char, count: nat) returns (ret: seq<string>)
    ensures ret == Take(Split(src, det), count)
  {
    ret := [];
    var pos := 0;
    var use := FindChar(src, det, 0);
    assert src[0..] == src;
    ghost var goal := Split(src, det);
    while use < |src|
      invariant pos <= use <= |src| && use == pos + IndexOf(src[pos..], det)
      invariant ret + Split(src[pos..], det) == goal
      decreases |src| - pos
    {
      SplitStep(src, det, pos, use);
      PushPiece(ret, src[pos..use], Split(src[use + 1..], det));
      ret := ret + [src[pos..use]];
      pos := use + 1;
      use := FindChar(src, det, pos);
    }
    assert src[pos..][..|src| - pos] == src[pos..];
    if pos >= |src| {
      ret := ret + [""];
    } else {
      ret := ret + [src[pos..]];
    }
    if |ret| > count {
      ret := ret[..count];
    }
  }

  // --------------------------------------------------------------------- trim

  ghost predicate Within(s: string, drop: string) {
    forall c <- s :: c in drop
  }

  /** Neither end character of `m` is one to drop. */
  ghost predicate Clean(m: string, drop: string) {
    m != "" ==> m[0] !in drop && m[|m| - 1] !in drop
  }

  function Trim(s: string, drop: string): string {
    if s == "" then ""
    else if s[0] in drop then Trim(s[1..], drop)
    else if s[|s| - 1] in drop then Trim(s[..|s| - 1], drop)
    else s
  }

  lemma {:induction false} TrimPeels(x: string, m: string, y: string, drop: string)
    requires Within(x, drop) && Within(y, drop) && Clean(m, drop)
    ensures Trim(x + m + y, drop) == m
    decreases |x| + |y|
  {
    var s := x + m + y;
    if x != "" {
      assert s[1..] == x[1..] + m + y;
      TrimPeels(x[1..], m, y, drop);
    } else if m == "" && y != "" {
      assert s[1..] == x + m + y[1..];
      TrimPeels(x, m, y[1..], drop);
    } else if y != "" {
      assert s[..|s| - 1] == x + m + y[..|y| - 1];
      TrimPeels(x, m, y[..|y| - 1], drop);
    } else {
      assert s == m;
    }
  }

  lemma {:induction false} TrimSplitsOff(s: string, drop: string) returns (x: string, y: string)
    ensures s == x + Trim(s, drop) + y
    ensures Within(x, drop) && Within(y, drop) && Clean(Trim(s, drop), drop)
    decreases |s|
  {
    x, y := "", "";
    if s != "" {
      if s[0] in drop {
        x, y := TrimSplitsOff(s[1..], drop);
        x := [s[0]] + x;
      } else if s[|s| - 1] in drop {
        x, y := TrimSplitsOff(s[..|s| - 1], drop);
        y := y + [s[|s| - 1]];
      }
    }
  }

  /** `m` is what is left of `s` once droppable characters are peeled off both ends. */
  ghost predicate Kernel(s: string, m: string, drop: string) {
    exists x, y :: s == x + m + y && Within(x, drop) && Within(y, drop) && Clean(m, drop)
  }

  /** `trim` returns the one kernel of its argument, and nothing else is one. */
  lemma TrimIsTheKernel(s: string, m: string, drop: string)
    ensures Trim(s, drop) == m <==> Kernel(s, m, drop)
  {
    var x, y := TrimSplitsOff(s, drop);
    if Kernel(s, m, drop) {
      var u, v :| s == u + m + v && Within(u, drop) && Within(v, drop) && Clean(m, drop);
      TrimPeels(u, m, v, drop);
    }
  }

  lemma TrimClean(m: string, drop: string)
    requires Clean(m, drop)
    ensures Trim(m, drop) == m
  {
  }

  lemma TrimIdempotent(s: string, drop: string)
    ensures Clean(Trim(s, drop), drop)
    ensures Trim(Trim(s, drop), drop) == Trim(s, drop)
  {
    var x, y := TrimSplitsOff(s, drop);
    TrimClean(Trim(s, drop), drop);
  }

  /** `trim`: erase up to the first kept character, then after the last one. */
  method TrimRef(s: string, drop: string) returns (str: string)
    ensures str == Trim(s, drop)
  {
    var first := 0;
    while first < |s| && s[first] in drop
      invariant first <= |s| && Within(s[..first], drop)
    {
      first := first + 1;
    }
    str := s[first..];
    var past: nat := |str|;
    while past > 0 && str[past - 1] in drop
      invariant past <= |str| && Within(str[past..], drop)
    {
      past := past - 1;
    }
    assert s == s[..first] + str[..past] + str[past..];
    TrimPeels(s[..first], str[..past], str[past..], drop);
    str := str[..past];
  }
}
