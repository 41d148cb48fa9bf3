/** `_realpath` (src/StrUtil.cc:27-166) over a real buffer: an array that is
    reallocated when a component does not fit, a write cursor `dest`, and a scan
    cursor `start`/`end` over the name. Reading a C string past its last character
    yields the terminator, so `*p` is true exactly below the string's length. */
module PathBuffer {
  import opened Options
  import opened Text
  import opened Paths

  /** What the process supplies: `getcwd`, `getenv("HOME")` and PATH_MAX. */
  datatype Env = Env(cwd: Option<string>, home: Option<string>, pathMax: nat)

  predicate CString(s: string) { NUL !in s }

  predicate Directory(s: string) { Absolute(s) && CString(s) }

  /** The kernel reports absolute working directories; HOME is consulted, and must
      then be an absolute directory, only by names that start with `~`. */
  predicate Usable(env: Env, name: string) {
    && CString(name)
    && (env.cwd.Some? ==> Directory(env.cwd.value))
    && (Tilde(name) ==> env.home.Some? && Directory(env.home.value))
  }

  predicate Tilde(name: string) { name != "" && name[0] == '~' }

  /** The directory text first put in the buffer, and the part of the name then scanned. */
  datatype Origin = Origin(base: string, rest: string)

  function Begin(env: Env, name: string): (o: Option<Origin>)
    requires Usable(env, name)
    ensures o.Some? ==> Directory(o.value.base) && CString(o.value.rest)
    ensures o.Some? && !Absolute(name) ==> |o.value.base| < env.pathMax
  {
    if name == "" then None
    else if name[0] == SEP then Some(Origin([SEP], name))
    else
      var from := if Tilde(name) then env.home else env.cwd;
      if from.None? || |from.value| >= env.pathMax then None
      else Some(Origin(from.value, if Tilde(name) then name[1..] else name))
  }

  function Resolve(env: Env, name: string): Option<Stack>
    requires Usable(env, name)
  {
    match Begin(env, name)
    case None => None
    case Some(o) => Some(Walk(Dirs(o.base), o.rest))
  }

  /** The text `_realpath` answers, allocation permitting; None is its NULL. */
  function Real(env: Env, name: string): Option<string>
    requires Usable(env, name)
  {
    match Resolve(env, name)
    case None => None
    case Some(d) => Some(Print(d))
  }

  /** No text the scan of `o` writes, terminator included, is longer than this. */
  function Longest(o: Origin): nat { |o.base| + |o.rest| + 1 }

  /** No allocation made for `o` is larger than this. */
  function Largest(o: Origin, pathMax: nat): nat {
    Max(pathMax, Longest(o) + Max(pathMax, |o.rest| + 1))
  }

  // ------------------------------------------------------------ the C library

  /** The C string held in a buffer. */
  function CText(s: string): string { s[..IndexOf(s, NUL)] }

  lemma CTextIs(s: string, t: string)
    requires CString(t) && |t| < |s| && s[..|t|] == t && s[|t|] == NUL
    ensures CText(s) == t
  {
    IndexOfIs(s, NUL, |t|);
  }

  /** `strcpy` to the start of a buffer with room for the string and its terminator. */
  method StrCpy(buf: array<char>, s: string)
    requires |s| < buf.Length
    modifies buf
    ensures buf[..|s|] == s && buf[|s|] == NUL
  {
    var i := 0;
    while i < |s|
      invariant i <= |s| && buf[..i] == s[..i]
    {
      buf[i] := s[i];
      i := i + 1;
    }
    buf[|s|] := NUL;
    assert s[..|s|] == s;
  }

  /** `rawmemchr(buf, '\0')`: the caller knows there is a terminator. */
  method RawMemChr(buf: array<char>) returns (i: nat)
    requires NUL in buf[..]
    ensures i < buf.Length && buf[i] == NUL && NUL !in buf[..i]
  {
    i := 0;
    while buf[i] != NUL
      invariant i < buf.Length && NUL !in buf[..i]
      decreases buf.Length - i
    {
      assert NUL in buf[i + 1..];
      i := i + 1;
    }
  }

  /** `realloc`: a larger block with the old contents in front. */
  method Realloc(buf: array<char>, size: nat) returns (moved: array<char>)
    requires buf.Length <= size
    ensures fresh(moved) && moved.Length == size
    ensures moved[..buf.Length] == buf[..]
  {
    moved := new char[size];
    forall i | 0 <= i < buf.Length {
      moved[i] := buf[i];
    }
  }

  /** `mempcpy(dest, start, end - start)` followed by the terminator. */
  method MemPCpy(buf: array<char>, dest: nat, c: string) returns (past: nat)
    requires dest + |c| < buf.Length
    modifies buf
    ensures past == dest + |c|
    ensures buf[..past] == old(buf[..dest]) + c
  {
    past := dest;
    while past < dest + |c|
      invariant dest <= past <= dest + |c|
      invariant buf[..past] == old(buf[..dest]) + c[..past - dest]
    {
      buf[past] := c[past - dest];
      past := past + 1;
    }
    assert c[..|c|] == c;
    buf[past] := NUL;
  }

  // ------------------------------------------------- buffer text against stack

  lemma ShapeEnds(t: string, d: Stack)
    requires Shape(t, d) && Free(d, SEP)
    ensures t != "" && t[0] == SEP
    ensures t[|t| - 1] == SEP <==> t == Open(d)
    ensures |t| > 1 ==> d != []
  {
    if t == Closed(d) && d != [] && d[|d| - 1] != "" {
      var p := d[|d| - 1];
      assert p in d;
      assert t[|t| - 1] == p[|p| - 1] && p[|p| - 1] in p;
    }
    ClosedStart(d);
  }

  lemma {:induction false} ClosedStart(d: Stack)
    ensures d != [] ==> Closed(d)[..1] == [SEP]
  {
    if d != [] { ClosedStart(d[..|d| - 1]); }
  }

  /** Where the backward walk stops is just after the last entry's separator. */
  lemma WalkBack(t: string, d: Stack, i: nat)
    requires Shape(t, d) && Free(d, SEP)
    requires 1 <= i < |t| && t[i - 1] == SEP && SEP !in t[i..|t| - 1]
    ensures d != [] && t[..i] == Open(d[..|d| - 1])
  {
    ShapeEnds(t, d);
    var front, p := Open(d[..|d| - 1]), d[|d| - 1];
    assert p in d && SEP !in p;
    assert t == front + p || t == front + p + [SEP];
    assert forall k | |front| <= k < |front| + |p| :: t[k] == p[k - |front|];
    assert t[|front| - 1] == SEP;
    assert forall k | i <= k < |t| - 1 :: t[k] == t[i..|t| - 1][k - i];
  }

  /** Where a component is written is just after a separator. */
  lemma PushShape(t: string, d: Stack, c: string)
    requires Shape(t, d) && Free(d, SEP) && c != ""
    ensures t != "" && Shape((if t[|t| - 1] != SEP then t + [SEP] else t) + c, d + [c])
  {
    ShapeEnds(t, d);
    assert (d + [c])[..|d|] == d;
  }

  ghost predicate Pushes(name: string) { exists c <- Split(name, SEP) :: Ordinary(c) }

  lemma PushesComponent(c: string, rest: string)
    requires SEP !in c && (rest == "" || rest[0] == SEP)
    ensures Pushes(c + rest) <==> Ordinary(c) || Pushes(rest)
  {
    SplitLast(c, SEP);
    SplitLast("", SEP);
    if rest == "" {
      assert c + rest == c;
    } else {
      assert c + rest == c + [SEP] + rest[1..] && rest == "" + [SEP] + rest[1..];
      SplitFirst(c, SEP, rest[1..]);
      SplitFirst("", SEP, rest[1..]);
      var tail := Split(rest[1..], SEP);
      assert forall x :: x in [c] + tail <==> x == c || x in tail;
      assert forall x :: x in [""] + tail <==> x == "" || x in tail;
    }
  }

  /** The bytes before the cursor are a text of the stack `d`. */
  ghost predicate Holds(buf: array<char>, dest: nat, d: Stack)
    reads buf
  {
    && 1 <= dest <= buf.Length
    && Shape(buf[..dest], d) && Free(d, SEP) && CString(buf[..dest])
  }

  /** What a run may allocate: the capacity is bounded, the number of reallocations too,
      and each of them grew the buffer by at least `pathMax` and at most what fits the
      longest component. */
  ghost predicate Afforded(o: Origin, pathMax: nat, capacity: nat, reallocs: nat) {
    && pathMax <= capacity <= Largest(o, pathMax)
    && reallocs * pathMax <= Longest(o)
    && pathMax + reallocs * pathMax <= capacity <= pathMax + reallocs * Max(pathMax, |o.rest| + 1)
  }

  lemma AffordedGrows(o: Origin, pathMax: nat, capacity: nat, reallocs: nat, need: nat)
    requires Afforded(o, pathMax, capacity, reallocs)
    requires need <= |o.rest| + 1 && capacity <= Longest(o)
    ensures Afforded(o, pathMax, capacity + Max(pathMax, need), reallocs + 1)
  {
    var most := Max(pathMax, |o.rest| + 1);
    assert (reallocs + 1) * pathMax == reallocs * pathMax + pathMax;
    assert (reallocs + 1) * most == reallocs * most + most;
  }

  ghost predicate Refuses(grants: nat -> bool, most: nat) {
    exists size: nat | size <= most :: !grants(size)
  }

  lemma RefusedAt(o: Origin, pathMax: nat, capacity: nat, need: nat, grants: nat -> bool)
    requires need <= |o.rest| + 1 && capacity <= Longest(o) && !grants(capacity + Max(pathMax, need))
    ensures Refuses(grants, Largest(o, pathMax))
  {
  }

  /** The block a step leaves is the one it had, or a new and larger one that counts. */
  predicate Grown(had: array<char>, has: array<char>, pathMax: nat, reallocs: nat, reallocs': nat) {
    if has == had then reallocs' == reallocs
    else reallocs' == reallocs + 1 && had.Length + pathMax <= has.Length
  }

  /** Lines 122-147: a larger block, if a component of `size` characters does not fit. */
  method MakeRoom(o: Origin, rpath: array<char>, dest: nat, size: nat, pathMax: nat, grants: nat -> bool,
                  ghost reallocs: nat)
      returns (buf: array?<char>, ghost reallocs': nat)
    requires dest <= rpath.Length && dest + size <= Longest(o) && size <= |o.rest| && pathMax > 0
    requires Afforded(o, pathMax, rpath.Length, reallocs)
    ensures buf != null ==> (buf == rpath || fresh(buf)) && dest + size < buf.Length && buf[..dest] == rpath[..dest]
    ensures buf != null ==>
      Afforded(o, pathMax, buf.Length, reallocs') && Grown(rpath, buf, pathMax, reallocs, reallocs')
    ensures buf == null ==> Refuses(grants, Largest(o, pathMax))
  {
    hide Afforded, Largest, Refuses;
    buf, reallocs' := rpath, reallocs;
    if dest + size >= buf.Length {
      var newSize := buf.Length;
      if size + 1 > pathMax {
        newSize := newSize + size + 1;
      } else {
        newSize := newSize + pathMax;
      }
      if !grants(newSize) {
        RefusedAt(o, pathMax, buf.Length, size + 1, grants);
        return null, reallocs;
      }
      AffordedGrows(o, pathMax, buf.Length, reallocs, size + 1);
      reallocs' := reallocs + 1;
      buf := Realloc(buf, newSize);
    }
  }

  /** Lines 119-150: separator, reallocation if the component does not fit, copy. */
  method Push(o: Origin, rpath: array<char>, at: nat, c: string, pathMax: nat, grants: nat -> bool,
              ghost d: Stack, ghost reallocs: nat)
      returns (buf: array?<char>, dest: nat, ghost reallocs': nat)
    requires Ordinary(c) && CString(c) && pathMax > 0
    requires Holds(rpath, at, d) && (at == rpath.Length ==> at == 1)
    requires at + 1 + |c| <= Longest(o) && |c| <= |o.rest| && Afforded(o, pathMax, rpath.Length, reallocs)
    modifies rpath
    ensures buf != null ==> buf == rpath || fresh(buf)
    ensures buf != null ==> Holds(buf, dest, d + [c]) && dest <= at + 1 + |c| && dest < buf.Length
    ensures buf != null ==>
      Afforded(o, pathMax, buf.Length, reallocs') && Grown(rpath, buf, pathMax, reallocs, reallocs')
    ensures buf == null ==> Refuses(grants, Largest(o, pathMax))
  {
    hide Shape, Afforded, Largest, Refuses;
    buf, dest, reallocs' := rpath, at, reallocs;
    ghost var t := buf[..at];
    ShapeEnds(t, d);
    PushShape(t, d, c);
    if buf[dest - 1] != SEP {
      buf[dest] := SEP;
      dest := dest + 1;
    }
    ghost var open := buf[..dest];
    assert open == if t[|t| - 1] != SEP then t + [SEP] else t;
    buf, reallocs' := MakeRoom(o, buf, dest, |c|, pathMax, grants, reallocs);
    if buf == null { return; }
    dest := MemPCpy(buf, dest, c);
    assert buf[..dest] == open + c;
  }

  /** Lines 112-113: back to just after the previous separator, unless at the root. */
  method BackUp(rpath: array<char>, at: nat, ghost d: Stack) returns (dest: nat)
    requires Holds(rpath, at, d)
    ensures dest <= at && (dest == at ==> at == 1)
    ensures Holds(rpath, dest, Step(d, ".."))
  {
    dest := at;
    ghost var t := rpath[..at];
    ShapeEnds(t, d);
    if dest > 1 {
      dest := dest - 1;
      while rpath[dest - 1] != SEP
        invariant 1 <= dest < at && SEP !in rpath[dest..at - 1]
        decreases dest
      {
        dest := dest - 1;
      }
      assert rpath[dest..at - 1] == t[dest..at - 1];
      WalkBack(t, d, dest);
      assert t[..dest] == rpath[..dest];
    }
  }

  lemma {:induction false} SkipSlashes(d: Stack, n: string, from: nat, to: nat)
    requires from <= to <= |n| && (forall k | from <= k < to :: n[k] == SEP)
    ensures Walk(d, n[from..]) == Walk(d, n[to..])
    ensures Pushes(n[from..]) <==> Pushes(n[to..])
    decreases |n| - from
  {
    if from < to {
      var rest := n[from + 1..];
      assert n[from..] == [SEP] + rest == "" + [SEP] + rest;
      WalkSlash(d, rest);
      SplitFirst("", SEP, rest);
      assert forall x :: x in [""] + Split(rest, SEP) <==> x == "" || x in Split(rest, SEP);
      SkipSlashes(d, n, from + 1, to);
    }
  }

  lemma ComponentAt(d: Stack, n: string, from: nat, start: nat, end: nat)
    requires from <= start <= end <= |n| && (forall k | from <= k < start :: n[k] == SEP)
    requires SEP !in n[start..end] && (end < |n| ==> n[end] == SEP)
    ensures Walk(d, n[from..]) == Walk(Step(d, n[start..end]), n[end..])
    ensures Pushes(n[from..]) <==> Ordinary(n[start..end]) || Pushes(n[end..])
  {
    hide Walk, Pushes, Step, Ordinary;
    SkipSlashes(d, n, from, start);
    assert n[start..] == n[start..end] + n[end..];
    PushesComponent(n[start..end], n[end..]);
    WalkComponent(d, n[start..end], n[end..]);
  }

  /** Lines 59-93: allocate, and put the starting directory in the buffer. */
  method Start(name: string, env: Env, grants: nat -> bool) returns (buf: array?<char>, dest: nat, n: string)
    requires Usable(env, name) && name != "" && env.pathMax > 0
    ensures buf == null ==> Begin(env, name).None? || !grants(env.pathMax)
    ensures buf != null ==> fresh(buf) && buf.Length == env.pathMax
    ensures buf != null ==> Begin(env, name).Some? && n == Begin(env, name).value.rest
    ensures buf != null ==> dest <= buf.Length && buf[..dest] == Begin(env, name).value.base
    ensures buf != null && dest == buf.Length ==> Absolute(name) && dest == 1
  {
    buf, dest, n := null, 0, name;
    if !grants(env.pathMax) { return; }
    var rpath := new char[env.pathMax];
    if name[0] != SEP {
      var base;
      if name[0] == '~' {
        base := env.home.value;
        if |base| >= env.pathMax { return; }
        n := name[1..];
      } else {
        if env.cwd.None? || |env.cwd.value| >= env.pathMax { return; }
        base := env.cwd.value;
      }
      StrCpy(rpath, base);
      assert rpath[..][|base|] == NUL;
      dest := RawMemChr(rpath);
      assert rpath[..|base|] == base;
      assert forall k | 0 <= k < |base| :: rpath[k] == base[k];
    } else {
      rpath[0] := SEP;
      dest := 1;
    }
    buf := rpath;
  }

  /** Lines 97-103: skip separators, then find the end of the component. */
  method NextComponent(n: string, from: nat) returns (start: nat, end: nat)
    requires from <= |n|
    ensures from <= start <= end <= |n|
    ensures forall k | from <= k < start :: n[k] == SEP
    ensures SEP !in n[start..end] && (end < |n| ==> n[end] == SEP)
    ensures start == end ==> start == |n|
  {
    start := from;
    while start < |n| && n[start] == SEP
      invariant from <= start <= |n| && (forall k | from <= k < start :: n[k] == SEP)
    {
      start := start + 1;
    }
    end := start;
    while end < |n| && n[end] != SEP
      invariant start <= end <= |n| && SEP !in n[start..end]
    {
      end := end + 1;
    }
  }

  /** Lines 154-156: drop a trailing separator, terminate. */
  method Finish(buf: array<char>, at: nat, ghost d: Stack)
    requires at < buf.Length && Holds(buf, at, d)
    modifies buf
    ensures CText(buf[..]) == Print(d)
  {
    ghost var t := buf[..at];
    ShapeEnds(t, d);
    var dest := at;
    if dest > 1 && buf[dest - 1] == SEP {
      dest := dest - 1;
    }
    buf[dest] := NUL;
    assert buf[..dest] == t[..dest] == Print(d);
    CTextIs(buf[..], Print(d));
  }

  lemma Kinds(n: string, start: nat, end: nat)
    requires start < end <= |n| && SEP !in n[start..end]
    ensures (end - start == 1 && n[start] == '.') <==> n[start..end] == "."
    ensures (end - start == 2 && n[start] == '.' && n[start + 1] == '.') <==> n[start..end] == ".."
    ensures n[start..end] != "." && n[start..end] != ".." ==> Ordinary(n[start..end])
  {
    var c := n[start..end];
    if end - start == 1 {
      assert c == [n[start]];
    } else if end - start == 2 {
      assert c == [n[start], n[start + 1]];
    }
  }

  /** Lines 107-152: what one non-empty component does to the buffer. */
  method Apply(o: Origin, rpath: array<char>, at: nat, start: nat, end: nat, pathMax: nat, grants: nat -> bool,
               ghost d: Stack, ghost reallocs: nat)
      returns (buf: array?<char>, dest: nat, ghost reallocs': nat)
    requires start < end <= |o.rest| && SEP !in o.rest[start..end] && CString(o.rest) && pathMax > 0
    requires Holds(rpath, at, d) && (at == rpath.Length ==> at == 1)
    requires at + 1 + (end - start) <= Longest(o) && Afforded(o, pathMax, rpath.Length, reallocs)
    modifies rpath
    ensures buf != null ==> buf == rpath || fresh(buf)
    ensures buf != null ==> Holds(buf, dest, Step(d, o.rest[start..end])) && dest <= at + 1 + (end - start)
    ensures buf != null && dest == buf.Length ==> at == dest && at == rpath.Length && !Ordinary(o.rest[start..end])
    ensures buf != null ==>
      Afforded(o, pathMax, buf.Length, reallocs') && Grown(rpath, buf, pathMax, reallocs, reallocs')
    ensures !Ordinary(o.rest[start..end]) ==> buf == rpath && (at == 1 ==> dest == 1)
    ensures buf == null ==> Refuses(grants, Largest(o, pathMax))
  {
    var n := o.rest;
    buf, dest, reallocs' := rpath, at, reallocs;
    Kinds(n, start, end);
    if end - start == 1 && n[start] == '.' {
    } else if end - start == 2 && n[start] == '.' && n[start + 1] == '.' {
      dest := BackUp(rpath, at, d);
    } else {
      buf, dest, reallocs' := Push(o, rpath, at, n[start..end], pathMax, grants, d, reallocs);
    }
  }

  /** The cursor never runs ahead of what has been scanned by more than one separator. */
  predicate Trails(o: Origin, dest: nat, scanned: nat) {
    dest <= |o.base| + (if scanned == 0 then 0 else scanned + 1)
  }

  lemma TrailsOn(o: Origin, dest: nat, head: nat, start: nat, end: nat)
    requires Trails(o, dest, head) && head <= start < end <= |o.rest|
    requires 0 < head < |o.rest| ==> head < start
    ensures dest + 1 + (end - start) <= |o.base| + end + 1 <= Longest(o)
  {
  }

  /** One round of the scan: the next component, if there is one, and what it does. */
  method Round(o: Origin, rpath: array<char>, at: nat, from: nat, pathMax: nat, grants: nat -> bool,
               ghost d: Stack, ghost reallocs: nat)
      returns (buf: array?<char>, dest: nat, end: nat, ghost d': Stack, ghost reallocs': nat)
    requires from <= |o.rest| && CString(o.rest) && pathMax > 0 && (0 < from < |o.rest| ==> o.rest[from] == SEP)
    requires Holds(rpath, at, d) && Trails(o, at, from) && Afforded(o, pathMax, rpath.Length, reallocs)
    requires at == rpath.Length ==> at == 1
    modifies rpath
    ensures from <= end <= |o.rest| && (end < |o.rest| ==> o.rest[end] == SEP) && (from < |o.rest| ==> from < end)
    ensures buf == null ==> Refuses(grants, Largest(o, pathMax))
    ensures buf != null ==> buf == rpath || fresh(buf)
    ensures buf != null ==> Holds(buf, dest, d') && Trails(o, dest, end) && Afforded(o, pathMax, buf.Length, reallocs')
    ensures buf != null ==> Grown(rpath, buf, pathMax, reallocs, reallocs')
    ensures buf != null && dest == buf.Length ==>
      dest == 1 && at == rpath.Length && (Pushes(o.rest[from..]) ==> Pushes(o.rest[end..]))
    ensures !Pushes(o.rest[from..]) ==> !Pushes(o.rest[end..]) && buf == rpath && (at == 1 ==> dest == 1)
    ensures buf != null ==> Walk(d', o.rest[end..]) == Walk(d, o.rest[from..])
  {
    hide Holds, Afforded, Walk, Pushes, Largest, Refuses;
    buf, dest, d', reallocs' := rpath, at, d, reallocs;
    var start;
    start, end := NextComponent(o.rest, from);
    ComponentAt(d, o.rest, from, start, end);
    if end - start == 0 {
      return;
    }
    TrailsOn(o, at, from, start, end);
    buf, dest, reallocs' := Apply(o, rpath, at, start, end, pathMax, grants, d, reallocs);
    d' := Step(d, o.rest[start..end]);
  }

  /** The blocks a run held, one after the other, each larger than the one before. */
  predicate Blocks(blocks: seq<array<char>>, last: array<char>, pathMax: nat) {
    && blocks != [] && blocks[0].Length == pathMax && blocks[|blocks| - 1] == last
    && forall i | 0 < i < |blocks| :: blocks[i - 1].Length + pathMax <= blocks[i].Length
  }

  /** Lines 95-153: scan the name, keeping the buffer's stack in step with the walk. The
      cursor ends strictly inside the block unless the block had a single byte and no
      component was pushed; then it was never reallocated. */
  method Scan(o: Origin, buf: array<char>, at: nat, pathMax: nat, grants: nat -> bool)
      returns (rpath: array?<char>, dest: nat, ghost d: Stack, ghost blocks: seq<array<char>>)
    requires Directory(o.base) && CString(o.rest) && buf.Length == pathMax > 0
    requires at <= buf.Length && buf[..at] == o.base
    requires at == buf.Length ==> at == 1
    modifies buf
    ensures rpath != null ==> rpath == buf || fresh(rpath)
    ensures rpath != null ==> d == Walk(Dirs(o.base), o.rest) && Holds(rpath, dest, d)
    ensures rpath != null ==> (dest == rpath.Length <==> at == buf.Length && !Pushes(o.rest))
    ensures !Pushes(o.rest) ==> rpath == buf
    ensures rpath != null ==> Blocks(blocks, rpath, pathMax) && Afforded(o, pathMax, rpath.Length, |blocks| - 1)
    ensures rpath == null ==> Refuses(grants, Largest(o, pathMax))
  {
    hide Holds, Afforded, Walk, Pushes, Largest, Refuses;
    rpath, dest, d, blocks := buf, at, Dirs(o.base), [buf];
    StartHolds(o, buf, at, pathMax);
    var start: nat := 0;
    assert o.rest[0..] == o.rest;
    while start < |o.rest|
      invariant rpath != null && (rpath == buf || fresh(rpath))
      invariant start <= |o.rest| && (0 < start < |o.rest| ==> o.rest[start] == SEP)
      invariant Holds(rpath, dest, d) && Trails(o, dest, start)
      invariant Blocks(blocks, rpath, pathMax) && Afforded(o, pathMax, rpath.Length, |blocks| - 1)
      invariant Walk(d, o.rest[start..]) == Walk(Dirs(o.base), o.rest)
      invariant dest == rpath.Length ==>
        dest == 1 && at == buf.Length && (Pushes(o.rest) ==> Pushes(o.rest[start..]))
      invariant !Pushes(o.rest) ==> !Pushes(o.rest[start..]) && rpath == buf && (at == 1 ==> dest == 1)
      decreases |o.rest| - start
    {
      ghost var had, reallocs := rpath, 0;
      rpath, dest, start, d, reallocs := Round(o, rpath, dest, start, pathMax, grants, d, |blocks| - 1);
      if rpath == null { return; }
      if rpath != had {
        blocks := blocks + [rpath];
      }
    }
    assert o.rest[start..] == "";
    NothingLeft(d);
  }

  lemma StartHolds(o: Origin, buf: array<char>, at: nat, pathMax: nat)
    requires Directory(o.base) && buf.Length == pathMax && at <= buf.Length && buf[..at] == o.base
    ensures Holds(buf, at, Dirs(o.base)) && Trails(o, at, 0) && Afforded(o, pathMax, pathMax, 0)
  {
    DirsShape(o.base);
  }

  lemma NothingLeft(d: Stack)
    ensures Walk(d, "") == d && !Pushes("")
  {
    WalkOne(d, "");
    SplitLast("", SEP);
  }

  /** The whole of `_realpath`, with a null `resolved`. `blocks` lists what `malloc` and
      then each `realloc` returned. */
  method RealPath(name: string, env: Env, grants: nat -> bool)
      returns (rpath: array?<char>, ghost blocks: seq<array<char>>)
    requires Usable(env, name)
    requires env.pathMax > 1 || (env.pathMax == 1 && (Absolute(name) ==> Pushes(name)))
    ensures rpath != null ==> Real(env, name) == Some(CText(rpath[..]))
    ensures rpath == null && Real(env, name).Some? ==>
      Refuses(grants, Largest(Begin(env, name).value, env.pathMax))
    ensures rpath != null ==> Blocks(blocks, rpath, env.pathMax)
    ensures rpath != null ==> Afforded(Begin(env, name).value, env.pathMax, rpath.Length, |blocks| - 1)
  {
    blocks := [];
    if name == "" { return null, []; }
    var dest: nat;
    var n;
    rpath, dest, n := Start(name, env, grants);
    if rpath == null { return null, []; }
    var o := Begin(env, name).value;
    ghost var d;
    rpath, dest, d, blocks := Scan(o, rpath, dest, env.pathMax, grants);
    if rpath != null {
      Finish(rpath, dest, d);
    }
  }
}
