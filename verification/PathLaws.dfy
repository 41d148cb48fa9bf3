/** What the texts `_realpath` answers are good for: normal form, composition,
    neutral detours, identity of files, and the directory tree they are names in. */
module PathLaws {
  import opened Options
  import opened Text
  import opened Paths
  import opened PathBuffer

  /** There is a directory to start resolution from. */
  predicate Ready(env: Env, name: string) { Usable(env, name) && Begin(env, name).Some? }

  /** ... and it is itself in normal form. */
  ghost predicate Settled(env: Env, name: string) {
    Ready(env, name) && Canonical(Begin(env, name).value.base)
  }

  lemma ResolveNormal(env: Env, name: string)
    requires Settled(env, name)
    ensures Resolve(env, name).Some? && Normal(Resolve(env, name).value)
  {
    CanonicalReads(Begin(env, name).value.base);
    WalkNormal(Dirs(Begin(env, name).value.base), Begin(env, name).value.rest);
  }

  lemma AnswerIsCanonical(env: Env, name: string)
    requires Settled(env, name)
    ensures Real(env, name).Some? && Canonical(Real(env, name).value)
  {
    ResolveNormal(env, name);
    PrintReads(Resolve(env, name).value);
  }

  /** The answer can be read back as a C string. */
  lemma AnswerIsCString(env: Env, name: string)
    requires Ready(env, name)
    ensures CString(Real(env, name).value)
  {
    var o := Begin(env, name).value;
    SplitAvoids(o.base[1..], SEP, NUL);
    SplitAvoids(o.rest, SEP, NUL);
    FoldAvoids(Dirs(o.base), Split(o.rest, SEP), NUL);
    ClosedAvoids(Walk(Dirs(o.base), o.rest), NUL);
  }

  lemma RootIsEmpty()
    ensures Dirs([SEP]) == [] && Canonical([SEP])
  {
    PrintReads([]);
  }

  /** An absolute name is its own answer exactly when it is in normal form, whatever
      the working directory and HOME are. */
  lemma FixedPoints(env: Env, t: string)
    requires Usable(env, t) && Absolute(t)
    ensures Real(env, t) == Some(t) <==> Canonical(t)
  {
    RootIsEmpty();
    assert Begin(env, t) == Some(Origin([SEP], t));
    if Canonical(t) {
      CanonicalReads(t);
      WalkPrint([], Dirs(t));
      assert [] + Dirs(t) == Dirs(t);
    } else {
      AnswerIsCanonical(env, t);
    }
  }

  lemma Idempotent(env: Env, later: Env, name: string)
    requires Settled(env, name) && Usable(later, "/")
    ensures Usable(later, Real(env, name).value)
    ensures Real(later, Real(env, name).value) == Real(env, name)
  {
    AnswerIsCanonical(env, name);
    AnswerIsCString(env, name);
    FixedPoints(later, Real(env, name).value);
  }

  /** The starting directory itself is not rewritten, apart from one trailing separator:
      `~` alone answers in normal form exactly when HOME, so cut, is in normal form. */
  lemma BareTilde(env: Env)
    requires Ready(env, "~")
    ensures var home := env.home.value;
      Real(env, "~") == Some(if |home| > 1 && home[|home| - 1] == SEP then home[..|home| - 1] else home)
  {
    var home := env.home.value;
    var d := Dirs(home);
    assert Begin(env, "~").value == Origin(home, "");
    WalkOne(d, "");
    DirsShape(home);
    ShapeEnds(home, d);
    ClosedStart(d);
    if home == Open(d) {
      assert home[..|home| - 1] == Closed(d);
    }
  }

  lemma BeginExtends(env: Env, a: string, s: string)
    requires Ready(env, a) && CString(s)
    ensures Ready(env, a + s)
    ensures Begin(env, a + s).value == Origin(Begin(env, a).value.base, Begin(env, a).value.rest + s)
  {
    assert (a + s)[0] == a[0];
    if Tilde(a) { assert (a + s)[1..] == a[1..] + s; }
  }

  lemma ResolveJoin(env: Env, a: string, b: string)
    requires Ready(env, a) && CString(b)
    ensures Ready(env, a + [SEP] + b)
    ensures Resolve(env, a + [SEP] + b) == Some(Walk(Resolve(env, a).value, b))
  {
    var o := Begin(env, a).value;
    assert a + [SEP] + b == a + ([SEP] + b);
    BeginExtends(env, a, [SEP] + b);
    assert o.rest + ([SEP] + b) == o.rest + [SEP] + b;
    WalkConcat(Dirs(o.base), o.rest, b);
  }

  lemma ResolvePrint(env: Env, d: Stack)
    requires Normal(d) && Usable(env, Print(d))
    ensures Ready(env, Print(d)) && Resolve(env, Print(d)) == Some(d)
  {
    PrintReads(d);
    RootIsEmpty();
    WalkPrint([], d);
    assert [] + d == d;
  }

  /** Composition: resolving a prefix first never changes the answer. */
  lemma Composition(env: Env, a: string, b: string)
    requires Settled(env, a) && CString(b)
    ensures Ready(env, a + [SEP] + b)
    ensures CString(Real(env, a).value) && Ready(env, Real(env, a).value + [SEP] + b)
    ensures Real(env, Real(env, a).value + [SEP] + b) == Real(env, a + [SEP] + b)
  {
    AnswerIsCString(env, a);
    AnswerIsCanonical(env, a);
    ResolveNormal(env, a);
    ResolveJoin(env, a, b);
    ResolvePrint(env, Resolve(env, a).value);
    ResolveJoin(env, Real(env, a).value, b);
  }

  // ------------------------------------------------- where resolution starts

  predicate Relative(name: string) { name != "" && name[0] != SEP && name[0] != '~' }

  /** The directory that a name which is not absolute starts from. */
  function StartOf(env: Env, name: string): Option<string> {
    if Tilde(name) then env.home else env.cwd
  }

  /** There is no answer exactly for the empty name, and for names from a directory that
      is missing or too long for the first block. */
  lemma NoAnswerExactly(env: Env, name: string)
    requires Usable(env, name)
    ensures Real(env, name).None? <==>
      name == "" ||
      (!Absolute(name) && (StartOf(env, name).None? || |StartOf(env, name).value| >= env.pathMax))
  {
  }

  /** A relative name is what follows the working directory. */
  lemma FromCwd(env: Env, name: string)
    requires Relative(name) && Usable(env, name)
    requires env.cwd.Some? && |env.cwd.value| < env.pathMax
    ensures Resolve(env, name) == Some(Walk(Dirs(env.cwd.value), name))
    ensures Usable(env, env.cwd.value + [SEP] + name)
    ensures Canonical(env.cwd.value) ==> Real(env, name) == Real(env, env.cwd.value + [SEP] + name)
  {
    FromDirectory(env, env.cwd.value, name);
  }

  /** `~` stands for HOME, whether or not a separator follows. */
  lemma FromHome(env: Env, rest: string)
    requires Usable(env, "~" + rest) && |env.home.value| < env.pathMax
    ensures Resolve(env, "~" + rest) == Some(Walk(Dirs(env.home.value), rest))
    ensures Usable(env, env.home.value + [SEP] + rest)
    ensures Canonical(env.home.value) ==> Real(env, "~" + rest) == Real(env, env.home.value + [SEP] + rest)
  {
    var name := "~" + rest;
    assert name[1..] == rest;
    assert forall c <- rest :: c in name;
    FromDirectory(env, env.home.value, rest);
  }

  lemma FromDirectory(env: Env, dir: string, rest: string)
    requires Directory(dir) && CString(rest) && Usable(env, [SEP])
    ensures Usable(env, dir + [SEP] + rest)
    ensures Canonical(dir) ==> Resolve(env, dir + [SEP] + rest) == Some(Walk(Dirs(dir), rest))
  {
    assert (dir + [SEP] + rest)[0] == SEP;
    if Canonical(dir) {
      CanonicalReads(dir);
      ResolvePrint(env, Dirs(dir));
      ResolveJoin(env, dir, rest);
    }
  }

  // ---------------------------------------------------------- neutral detours

  /** Walking `mid` leads back to where it started, from everywhere. */
  ghost predicate Neutral(mid: string) {
    forall d: Stack :: Walk(d, mid) == d
  }

  lemma NeutralDots()
    ensures Neutral("") && Neutral(".")
  {
    forall d: Stack ensures Walk(d, "") == d && Walk(d, ".") == d {
      WalkOne(d, "");
      WalkOne(d, ".");
    }
  }

  lemma NeutralJoin(m: string, k: string)
    requires Neutral(m) && Neutral(k)
    ensures Neutral(m + [SEP] + k)
  {
    forall d: Stack ensures Walk(d, m + [SEP] + k) == d {
      WalkConcat(d, m, k);
    }
  }

  /** Entering `x`, going round in circles, and leaving by `..`. */
  lemma NeutralDetour(x: string, m: string)
    requires Ordinary(x) && Neutral(m)
    ensures Neutral(x + [SEP] + m + [SEP] + "..")
  {
    forall d: Stack ensures Walk(d, x + [SEP] + m + [SEP] + "..") == d {
      WalkConcat(d, x + [SEP] + m, "..");
      WalkConcat(d, x, m);
      WalkOne(d, x);
      WalkOne(d + [x], "..");
    }
  }

  /** Where resolution of `a` and a separator has got to; an empty `a` is the root. */
  function Prior(env: Env, a: string): Stack
    requires Usable(env, a) && (a != "" ==> Ready(env, a))
  {
    if a == "" then [] else Resolve(env, a).value
  }

  lemma PriorJoin(env: Env, a: string, b: string)
    requires Ready(env, a + [SEP] + b)
    ensures Usable(env, a) && (a != "" ==> Ready(env, a))
    ensures Resolve(env, a + [SEP] + b) == Some(Walk(Prior(env, a), b))
  {
    var name := a + [SEP] + b;
    assert forall c <- a :: c in name;
    assert forall c <- b :: c in name;
    if a == "" {
      RootIsEmpty();
      assert name == [SEP] + b;
      WalkSlash([], b);
    } else {
      assert name[0] == a[0];
      ResolveJoin(env, a, b);
    }
  }

  lemma ReadyWith(env: Env, a: string, b: string, b': string)
    requires Ready(env, a + [SEP] + b) && CString(b')
    ensures Ready(env, a + [SEP] + b')
  {
    var name, name' := a + [SEP] + b, a + [SEP] + b';
    assert forall c <- a :: c in name;
    assert name[0] == name'[0];
  }

  /** A neutral text at a component boundary, the one after a leading separator included,
      may be inserted or deleted freely: `//`, `/./`, `/x/../`, and everything built from
      them by joining and nesting. */
  lemma InsertNeutral(env: Env, a: string, mid: string, b: string)
    requires Ready(env, a + [SEP] + b) && CString(mid) && Neutral(mid)
    ensures Ready(env, a + [SEP] + (mid + [SEP] + b))
    ensures Real(env, a + [SEP] + (mid + [SEP] + b)) == Real(env, a + [SEP] + b)
  {
    PriorJoin(env, a, b);
    assert forall c <- b :: c in a + [SEP] + b;
    ReadyWith(env, a, b, mid + [SEP] + b);
    PriorJoin(env, a, mid + [SEP] + b);
    WalkConcat(Prior(env, a), mid, b);
  }

  /** The boundary before a relative name: `./b` is `b`, and so is `x/../b`. */
  lemma LeadingNeutral(env: Env, mid: string, b: string)
    requires Ready(env, b) && Relative(b) && CString(mid) && Relative(mid) && Neutral(mid)
    ensures Ready(env, mid + [SEP] + b) && Real(env, mid + [SEP] + b) == Real(env, b)
  {
    var name := mid + [SEP] + b;
    assert name[0] == mid[0];
    WalkConcat(Dirs(env.cwd.value), mid, b);
  }

  lemma NeutralUp(x: string)
    requires Ordinary(x)
    ensures Neutral(x + [SEP] + "..")
  {
    forall d: Stack ensures Walk(d, x + [SEP] + "..") == d {
      WalkConcat(d, x, "..");
      WalkOne(d, x);
      WalkOne(d + [x], "..");
    }
  }

  /** Repeating a separator, inserting a `.`, and going in and out of an entry. */
  lemma Insertions(env: Env, a: string, x: string, b: string)
    requires Ready(env, a + [SEP] + b) && CString(x) && Ordinary(x)
    ensures Ready(env, a + [SEP] + ([SEP] + b)) && Ready(env, a + [SEP] + ("." + [SEP] + b))
    ensures Ready(env, a + [SEP] + (x + [SEP] + ".." + [SEP] + b))
    ensures Real(env, a + [SEP] + ([SEP] + b)) == Real(env, a + [SEP] + b)
    ensures Real(env, a + [SEP] + ("." + [SEP] + b)) == Real(env, a + [SEP] + b)
    ensures Real(env, a + [SEP] + (x + [SEP] + ".." + [SEP] + b)) == Real(env, a + [SEP] + b)
  {
    NeutralDots();
    NeutralUp(x);
    assert "" + [SEP] + b == [SEP] + b;
    InsertNeutral(env, a, "", b);
    InsertNeutral(env, a, ".", b);
    InsertNeutral(env, a, x + [SEP] + "..", b);
  }

  /** Two names get the same text exactly when they walk to the same entry. */
  lemma SameText(env: Env, a: string, b: string)
    requires Settled(env, a) && Settled(env, b)
    ensures Real(env, a) == Real(env, b) <==> Resolve(env, a) == Resolve(env, b)
  {
    ResolveNormal(env, a);
    ResolveNormal(env, b);
    PrintInjective(Resolve(env, a).value, Resolve(env, b).value);
  }

  // ------------------------------------------------------- one-byte allocation

  lemma {:induction false} FoldIdle(cs: seq<string>)
    requires Free(cs, SEP) && !exists c <- cs :: Ordinary(c)
    ensures Fold([], cs) == []
    decreases |cs|
  {
    if cs != [] {
      assert !Ordinary(cs[0]);
      FoldIdle(cs[1..]);
    }
  }

  /** The one demand on PATH_MAX beyond being positive: the root and its terminator
      take two bytes. A scan that pushes nothing keeps the block it was given, and ends
      with the cursor at the end of a block of one (`PathBuffer.Scan`). */
  lemma RootNeedsTwoBytes(env: Env, name: string)
    requires Usable(env, name) && Absolute(name) && !Pushes(name) && env.pathMax == 1
    ensures Real(env, name) == Some([SEP]) && |Real(env, name).value| + 1 > env.pathMax
  {
    RootIsEmpty();
    SplitFree(name, SEP);
    FoldIdle(Split(name, SEP));
  }

  // ------------------------------------------------------------ directory tree

  /** Looking a name up component by component in a tree of nodes; None is ENOENT. */
  ghost function Look<N(!new)>(child: (N, string) -> Option<N>, parent: N -> N, n: N, cs: seq<string>): Option<N>
    decreases |cs|
  {
    if cs == [] then Some(n)
    else if cs[0] == "" || cs[0] == "." then Look(child, parent, n, cs[1..])
    else if cs[0] == ".." then Look(child, parent, parent(n), cs[1..])
    else match child(n, cs[0])
      case None => None
      case Some(m) => Look(child, parent, m, cs[1..])
  }

  /** `..` undoes a lookup, and the root is its own parent: there are no symbolic links. */
  ghost predicate Tree<N(!new)>(child: (N, string) -> Option<N>, parent: N -> N, root: N) {
    parent(root) == root && forall n, c :: child(n, c).Some? ==> parent(child(n, c).value) == n
  }

  lemma {:induction false} LookAppend<N(!new)>(child: (N, string) -> Option<N>, parent: N -> N, n: N,
                                               a: seq<string>, b: seq<string>)
    ensures Look(child, parent, n, a + b) == match Look(child, parent, n, a)
      case None => None
      case Some(m) => Look(child, parent, m, b)
    decreases |a|
  {
    if a == [] {
      assert a + b == b;
    } else {
      assert (a + b)[1..] == a[1..] + b;
      if a[0] == "" || a[0] == "." {
        LookAppend(child, parent, n, a[1..], b);
      } else if a[0] == ".." {
        LookAppend(child, parent, parent(n), a[1..], b);
      } else if child(n, a[0]).Some? {
        LookAppend(child, parent, child(n, a[0]).value, a[1..], b);
      }
    }
  }

  lemma LookPopped<N(!new)>(child: (N, string) -> Option<N>, parent: N -> N, root: N, d: Stack)
    requires Tree(child, parent, root) && Normal(d) && d != [] && Look(child, parent, root, d).Some?
    ensures Look(child, parent, root, d[..|d| - 1]) == Some(parent(Look(child, parent, root, d).value))
  {
    var front, c := d[..|d| - 1], d[|d| - 1];
    assert d == front + [c] && Ordinary(c);
    LookAppend(child, parent, root, front, [c]);
    var p := Look(child, parent, root, front).value;
    assert [c][1..] == [];
    assert child(p, c).Some?;
  }

  lemma {:induction false} LookFold<N(!new)>(child: (N, string) -> Option<N>, parent: N -> N, root: N,
                                             d: Stack, n: N, cs: seq<string>)
    requires Tree(child, parent, root) && Normal(d) && Free(cs, SEP)
    requires Look(child, parent, root, d) == Some(n) && Look(child, parent, n, cs).Some?
    ensures Look(child, parent, root, Fold(d, cs)) == Look(child, parent, n, cs)
    decreases |cs|
  {
    if cs != [] {
      var c := cs[0];
      if c == "" || c == "." {
        LookFold(child, parent, root, d, n, cs[1..]);
      } else if c == ".." {
        if d != [] { LookPopped(child, parent, root, d); }
        LookFold(child, parent, root, Step(d, c), parent(n), cs[1..]);
      } else {
        LookAppend(child, parent, root, d, [c]);
        assert [c][1..] == [];
        LookFold(child, parent, root, d + [c], child(n, c).value, cs[1..]);
      }
    }
  }

  lemma LookPrint<N(!new)>(child: (N, string) -> Option<N>, parent: N -> N, root: N, d: Stack)
    requires Normal(d)
    ensures Look(child, parent, root, Split(Print(d), SEP)) == Look(child, parent, root, d)
  {
    if d == [] {
      SplitFirst("", SEP, "");
      assert [SEP] == "" + [SEP] + "";
      SplitLast("", SEP);
      assert Split([SEP], SEP) == ["", ""];
      assert ["", ""][1..] == [""] && [""][1..] == [];
    } else {
      ClosedIsJoin(d);
      SplitFirst("", SEP, Join(d, SEP));
      assert "" + [SEP] + Join(d, SEP) == Print(d);
      SplitOfJoin(d, SEP) by { assert forall c <- d :: Ordinary(c); }
      assert ([""] + d)[1..] == d;
    }
  }

  /** Canonicalising preserves meaning: if from the starting directory's node `start` the
      name leads to a node of the tree, the answer leads there from the root. */
  lemma MeaningPreserved<N(!new)>(child: (N, string) -> Option<N>, parent: N -> N, root: N,
                                  env: Env, name: string, start: N)
    requires Tree(child, parent, root) && Settled(env, name)
    requires Look(child, parent, root, Dirs(Begin(env, name).value.base)) == Some(start)
    requires Look(child, parent, start, Split(Begin(env, name).value.rest, SEP)).Some?
    ensures Real(env, name).Some?
    ensures Look(child, parent, root, Split(Real(env, name).value, SEP))
         == Look(child, parent, start, Split(Begin(env, name).value.rest, SEP))
  {
    var o := Begin(env, name).value;
    CanonicalReads(o.base);
    SplitFree(o.rest, SEP);
    LookFold(child, parent, root, Dirs(o.base), start, Split(o.rest, SEP));
    ResolveNormal(env, name);
    LookPrint(child, parent, root, Resolve(env, name).value);
  }
}
