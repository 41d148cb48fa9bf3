/** Lexical pathname resolution: what `_realpath` (src/StrUtil.cc:27-166) computes,
    said without buffers. A path names a stack of directory entries; a name is
    resolved by folding its components over the stack of the starting directory. */
module Paths {
  import opened Text

  const SEP := '/'

  type Stack = seq<string>

  predicate Absolute(s: string) { s != "" && s[0] == SEP }

  /** A component that names an entry, as opposed to "", "." and "..". */
  predicate Ordinary(c: string) { c != "" && c != "." && c != ".." && SEP !in c }

  ghost predicate Normal(d: Stack) { forall c <- d :: Ordinary(c) }

  function Step(d: Stack, c: string): Stack {
    if c == "" || c == "." then d
    else if c == ".." then (if d == [] then [] else d[..|d| - 1])
    else d + [c]
  }

  function Fold(d: Stack, cs: seq<string>): Stack
    decreases |cs|
  {
    if cs == [] then d else Fold(Step(d, cs[0]), cs[1..])
  }

  function Walk(d: Stack, name: string): Stack { Fold(d, Split(name, SEP)) }

  /** Every entry preceded by a separator. */
  function Closed(d: Stack): string {
    if d == [] then "" else Closed(d[..|d| - 1]) + [SEP] + d[|d| - 1]
  }

  function Open(d: Stack): string { Closed(d) + [SEP] }

  function Print(d: Stack): string { if d == [] then [SEP] else Closed(d) }

  /** The entries an absolute directory text stands for: one trailing separator
      is not an entry, but a doubled separator is an (empty) one. */
  function Dirs(base: string): (d: Stack)
    requires Absolute(base)
  {
    var ps := Split(base[1..], SEP);
    if ps[|ps| - 1] == "" then ps[..|ps| - 1] else ps
  }

  /** A text in normal form: the root, or entries that are all ordinary. */
  ghost predicate Canonical(t: string) {
    Absolute(t) && (t == [SEP] || Normal(Split(t[1..], SEP)))
  }

  // ------------------------------------------------------------------ folding

  lemma {:induction false} FoldAppend(d: Stack, a: seq<string>, b: seq<string>)
    ensures Fold(d, a + b) == Fold(Fold(d, a), b)
    decreases |a|
  {
    if a == [] {
      assert a + b == b;
    } else {
      var ab := a + b;
      assert ab[0] == a[0] && ab[1..] == a[1..] + b;
      FoldAppend(Step(d, a[0]), a[1..], b);
    }
  }

  lemma FoldLast(d: Stack, front: seq<string>, c: string)
    ensures Fold(d, front + [c]) == Step(Fold(d, front), c)
  {
    FoldAppend(d, front, [c]);
    assert [c][1..] == [];
  }

  /** Resolving a joined name is resolving its halves one after the other. */
  lemma WalkConcat(d: Stack, a: string, b: string)
    ensures Walk(d, a + [SEP] + b) == Walk(Walk(d, a), b)
  {
    SplitConcat(a, SEP, b);
    FoldAppend(d, Split(a, SEP), Split(b, SEP));
  }

  lemma WalkOne(d: Stack, c: string)
    requires SEP !in c
    ensures Walk(d, c) == Step(d, c)
  {
    SplitLast(c, SEP);
    assert Fold(d, [c]) == Fold(Step(d, c), []);
  }

  lemma WalkSlash(d: Stack, s: string)
    ensures Walk(d, [SEP] + s) == Walk(d, s)
  {
    WalkConcat(d, "", s);
    WalkOne(d, "");
    assert "" + [SEP] + s == [SEP] + s;
  }

  /** The scan's step: one component, then a rest that is empty or starts with a separator. */
  lemma WalkComponent(d: Stack, c: string, rest: string)
    requires SEP !in c && (rest == "" || rest[0] == SEP)
    ensures Walk(d, c + rest) == Walk(Step(d, c), rest)
  {
    WalkOne(d, c);
    if rest == "" {
      assert c + rest == c;
      WalkOne(Step(d, c), "");
    } else {
      assert c + rest == c + [SEP] + rest[1..];
      WalkConcat(d, c, rest[1..]);
      assert rest == [SEP] + rest[1..];
      WalkSlash(Step(d, c), rest[1..]);
    }
  }

  lemma {:induction false} FoldNormal(d: Stack, cs: seq<string>)
    requires Normal(d) && Free(cs, SEP)
    ensures Normal(Fold(d, cs))
    decreases |cs|
  {
    if cs != [] {
      FoldNormal(Step(d, cs[0]), cs[1..]);
    }
  }

  lemma {:induction false} FoldAvoids(d: Stack, cs: seq<string>, x: char)
    requires Free(d, x) && Free(cs, x)
    ensures Free(Fold(d, cs), x)
    decreases |cs|
  {
    if cs != [] {
      FoldAvoids(Step(d, cs[0]), cs[1..], x);
    }
  }

  lemma {:induction false} ClosedAvoids(d: Stack, x: char)
    requires Free(d, x) && x != SEP
    ensures x !in Closed(d)
  {
    if d != [] {
      ClosedAvoids(d[..|d| - 1], x);
    }
  }

  lemma WalkNormal(d: Stack, name: string)
    requires Normal(d)
    ensures Normal(Walk(d, name))
  {
    SplitFree(name, SEP);
    FoldNormal(d, Split(name, SEP));
  }

  // ----------------------------------------------------- printing and reading

  lemma {:induction false} ClosedFront(c: string, d: Stack)
    ensures Closed([c] + d) == [SEP] + c + Closed(d)
  {
    if d != [] {
      ClosedFront(c, d[..|d| - 1]);
      assert ([c] + d)[..|d|] == [c] + d[..|d| - 1];
    } else {
      assert ([c] + d)[..0] == [];
      assert [c] + d == [c];
    }
  }

  lemma {:induction false} ClosedIsJoin(ps: seq<string>)
    requires ps != []
    ensures Closed(ps) == [SEP] + Join(ps, SEP)
  {
    ClosedFront(ps[0], ps[1..]);
    assert [ps[0]] + ps[1..] == ps;
    if |ps| > 1 {
      ClosedIsJoin(ps[1..]);
      assert [SEP] + ps[0] + ([SEP] + Join(ps[1..], SEP)) == [SEP] + (ps[0] + [SEP] + Join(ps[1..], SEP));
    }
  }

  /** The two shapes of a directory text: `/a/b`, and `/a/` (or the root). */
  ghost predicate Shape(t: string, d: Stack) {
    t == Open(d) || (d != [] && d[|d| - 1] != "" && t == Closed(d))
  }

  lemma DirsShape(base: string)
    requires Absolute(base)
    ensures Shape(base, Dirs(base)) && Free(Dirs(base), SEP)
  {
    var ps := Split(base[1..], SEP);
    SplitFree(base[1..], SEP);
    JoinOfSplit(base[1..], SEP);
    ClosedIsJoin(ps);
    assert base == [SEP] + base[1..] == Closed(ps);
    if ps[|ps| - 1] == "" {
      assert Closed(ps) == Open(ps[..|ps| - 1]);
    }
  }

  /** A printed stack is canonical and reads back as the stack. */
  lemma PrintReads(d: Stack)
    requires Normal(d)
    ensures Canonical(Print(d)) && Dirs(Print(d)) == d
  {
    if d == [] {
      SplitLast("", SEP);
      assert Print(d)[1..] == "";
    } else {
      ClosedIsJoin(d);
      assert Print(d)[1..] == Join(d, SEP);
      assert Ordinary(d[|d| - 1]);
      SplitOfJoin(d, SEP) by { assert forall c <- d :: Ordinary(c); }
    }
  }

  /** Conversely a canonical text is the print of the normal stack it reads as. */
  lemma CanonicalReads(t: string)
    requires Canonical(t)
    ensures Normal(Dirs(t)) && Print(Dirs(t)) == t
  {
    if t == [SEP] {
      SplitLast("", SEP);
      assert t[1..] == "";
    } else {
      var ps := Split(t[1..], SEP);
      assert Ordinary(ps[|ps| - 1]);
      DirsShape(t);
      JoinOfSplit(t[1..], SEP);
      ClosedIsJoin(ps);
    }
  }

  lemma {:induction false} FoldOrdinary(d: Stack, cs: seq<string>)
    requires Normal(cs)
    ensures Fold(d, cs) == d + cs
    decreases |cs|
  {
    if cs != [] {
      assert Ordinary(cs[0]);
      FoldOrdinary(d + [cs[0]], cs[1..]);
      assert d + [cs[0]] + cs[1..] == d + cs;
    } else {
      assert d + cs == d;
    }
  }

  /** Walking a printed stack pushes exactly its entries. */
  lemma WalkPrint(d: Stack, s: Stack)
    requires Normal(s)
    ensures Walk(d, Print(s)) == d + s
  {
    if s == [] {
      assert Print(s) == [SEP] + "";
      WalkSlash(d, "");
      WalkOne(d, "");
      assert d + s == d;
    } else {
      ClosedIsJoin(s);
      WalkSlash(d, Join(s, SEP));
      SplitOfJoin(s, SEP) by { assert forall c <- s :: Ordinary(c); }
      FoldOrdinary(d, s);
    }
  }

  lemma PrintInjective(a: Stack, b: Stack)
    requires Normal(a) && Normal(b)
    ensures Print(a) == Print(b) <==> a == b
  {
    PrintReads(a);
    PrintReads(b);
  }
}
