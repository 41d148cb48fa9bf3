/** `toRealPath` (src/StrUtil.cc:168-206): from the path field of an instance to the
    text that keys its appender. */
module LogPath {
  import opened Options
  import opened Text
  import opened Paths
  import opened PathBuffer
  import opened PathLaws

  const BLANK := " "  // the default drop set of `trim`, include/StrUtil.h:31

  predicate EndsIn(s: string, c: char) { s != "" && s[|s| - 1] == c }

  function PrefixText(prefix: string): string { Trim(if prefix == "" then "./" else prefix, BLANK) }

  function FileText(file: string): (t: string)
    ensures t != ""
  {
    var t := Trim(file, BLANK);
    if t == "" then "default.log" else t
  }

  /** Names that are not put under the prefix. */
  predicate Anchored(t: string) { t != "" && (t[0] == '/' || t[0] == '.' || t[0] == '~') }

  /** The prefix is looked into unless the path is there and anchored. */
  predicate SafePrefix(path: string, prefix: string) {
    PrefixText(prefix) != "" || Anchored(Trim(path, BLANK))
  }

  /** A directory named by its `.`, then any directory, is given the default file. */
  function Completed(t: string, file: string): (r: string)
    ensures t != "" ==> r != "" && r[0] == t[0]
  {
    var u := if EndsIn(t, '.') then t + "/" + file else t;
    if EndsIn(u, '/') then u + file else u
  }

  function Under(prefix: string, t: string): string {
    if Anchored(t) then t
    else if EndsIn(prefix, '/') then prefix + t
    else prefix + "/" + t
  }

  /** The text handed to `_realpath`, from a trimmed prefix, path and default file. */
  function Spell(pre: string, given: string, file: string): string {
    Under(pre, Completed(if given == "" then pre else given, file))
  }

  function Spelled(path: string, prefix: string, file: string): string {
    Spell(PrefixText(prefix), Trim(path, BLANK), FileText(file))
  }

  predicate KeyReady(env: Env, path: string, prefix: string, file: string) {
    SafePrefix(path, prefix) && Usable(env, CText(Spelled(path, prefix, file)))
  }

  /** None is the failed assertion on line 202. */
  function Key(env: Env, path: string, prefix: string, file: string): Option<string>
    requires KeyReady(env, path, prefix, file)
  {
    Real(env, CText(Spelled(path, prefix, file)))
  }

  /** Lines 189-196. */
  method Complete(given: string, file: string) returns (tmp: string)
    requires given != "" && file != ""
    ensures tmp == Completed(given, file)
  {
    tmp := given;
    if tmp[|tmp| - 1] == '.' {
      tmp := tmp + "/";
      tmp := tmp + file;
    }
    if tmp[|tmp| - 1] == '/' {
      tmp := tmp + file;
    }
  }

  /** Lines 198-200. */
  method PutUnder(realPrefix: string, path: string) returns (tmp: string)
    requires path != "" && (realPrefix != "" || Anchored(path))
    ensures tmp == Under(realPrefix, path)
  {
    tmp := path;
    if tmp[0] != '/' && tmp[0] != '.' && tmp[0] != '~' {
      if realPrefix[|realPrefix| - 1] == '/' {
        tmp := realPrefix + tmp;
      } else {
        tmp := realPrefix + "/" + tmp;
      }
    }
  }

  /** Lines 170-187: the defaults, and the path or else the prefix. */
  method Given(oldpath: string, prefix: string, defaultFilename: string)
      returns (tmp: string, realPrefix: string, strDefaultFilename: string)
    ensures realPrefix == PrefixText(prefix) && strDefaultFilename == FileText(defaultFilename)
    ensures tmp == if Trim(oldpath, BLANK) == "" then realPrefix else Trim(oldpath, BLANK)
  {
    realPrefix := prefix;
    if realPrefix == "" {
      realPrefix := "./";
    }
    realPrefix := TrimRef(realPrefix, BLANK);
    strDefaultFilename := TrimRef(defaultFilename, BLANK);
    if strDefaultFilename == "" {
      strDefaultFilename := "default.log";
    }
    tmp := TrimRef(oldpath, BLANK);
    if tmp == "" {
      tmp := tmp + realPrefix;
      assert tmp == realPrefix;
    }
  }

  method ToRealPath(oldpath: string, prefix: string, defaultFilename: string, env: Env, grants: nat -> bool)
      returns (absPath: Option<string>)
    requires KeyReady(env, oldpath, prefix, defaultFilename) && env.pathMax > 1
    ensures absPath.Some? ==> absPath == Key(env, oldpath, prefix, defaultFilename)
    ensures (forall size :: grants(size)) ==> absPath == Key(env, oldpath, prefix, defaultFilename)
  {
    var tmp, realPrefix, strDefaultFilename := Given(oldpath, prefix, defaultFilename);
    tmp := Complete(tmp, strDefaultFilename);
    tmp := PutUnder(realPrefix, tmp);
    ghost var blocks;
    var absPathBuff;
    absPathBuff, blocks := RealPath(CText(tmp), env, grants);
    if absPathBuff == null {
      return None;
    }
    absPath := Some(CText(absPathBuff[..]));
  }

  // ------------------------------------------------------------ keys as paths

  /** The last character is not one that `toRealPath` would act on. */
  predicate EndsWell(s: string) { s != "" && !EndsIn(s, '.') && !EndsIn(s, '/') && !EndsIn(s, ' ') }

  function LastPiece(s: string): string {
    var ps := Split(s, SEP);
    ps[|ps| - 1]
  }

  /** The part of a name that is scanned. */
  function Scanned(s: string): string {
    if Tilde(s) then s[1..] else s
  }

  lemma LastPieceOf(a: string, b: string)
    ensures LastPiece(a + [SEP] + b) == LastPiece(b)
  {
    SplitConcat(a, SEP, b);
  }

  lemma {:induction false} LastPieceEnds(s: string)
    requires EndsWell(s)
    ensures EndsWell(LastPiece(s)) && Ordinary(LastPiece(s))
    ensures LastPiece(s)[|LastPiece(s)| - 1] == s[|s| - 1]
    decreases |s|
  {
    if SEP in s {
      var p, r := SplitCons(s, SEP);
      assert r != "" && r[|r| - 1] == s[|s| - 1];
      LastPieceOf(p, r);
      LastPieceEnds(r);
    } else {
      SplitLast(s, SEP);
    }
  }

  lemma WalkEnds(d: Stack, s: string)
    requires EndsWell(s)
    ensures Walk(d, s) != [] && Walk(d, s)[|Walk(d, s)| - 1] == LastPiece(s)
  {
    LastPieceEnds(s);
    var ps := Split(s, SEP);
    hide Split, Fold;
    assert ps == ps[..|ps| - 1] + [LastPiece(s)];
    FoldLast(d, ps[..|ps| - 1], LastPiece(s));
  }

  /** A path field, its prefix and the default file it would be given. */
  ghost predicate WellFormed(path: string, prefix: string, file: string) {
    && CString(path) && CString(prefix) && CString(file)
    && Trim(path, BLANK) != "" && Trim(path, BLANK) != "~"
    && PrefixText(prefix) != ""
    && EndsWell(FileText(file))
  }

  /** The path's own last component, or the default file's when the path names a directory. */
  function Target(path: string, file: string): string {
    var t := Trim(path, BLANK);
    if !EndsWell(t) then LastPiece(FileText(file))
    else LastPiece(Scanned(t))
  }

  lemma {:induction false} TrimAvoids(s: string, drop: string, x: char)
    requires x !in s
    ensures x !in Trim(s, drop)
    decreases |s|
  {
    if s != "" {
      if s[0] in drop { TrimAvoids(s[1..], drop, x); }
      else if s[|s| - 1] in drop { TrimAvoids(s[..|s| - 1], drop, x); }
    }
  }

  lemma TextsAreCStrings(path: string, prefix: string, file: string)
    requires CString(path) && CString(prefix) && CString(file)
    ensures CString(Trim(path, BLANK)) && CString(PrefixText(prefix)) && CString(FileText(file))
  {
    TrimAvoids(path, BLANK, NUL);
    TrimAvoids(if prefix == "" then "./" else prefix, BLANK, NUL);
    TrimAvoids(file, BLANK, NUL);
  }

  lemma SpellIsCString(pre: string, given: string, file: string)
    requires CString(pre) && CString(given) && CString(file)
    ensures CString(Spell(pre, given, file))
  {
  }

  lemma CTextWhole(t: string)
    requires CString(t)
    ensures CText(t) == t
  {
    assert t[..|t|] == t;
    IndexOfIs(t, NUL, |t|);
  }

  lemma SpelledIsCString(path: string, prefix: string, file: string)
    requires CString(path) && CString(prefix) && CString(file)
    ensures CString(Spelled(path, prefix, file)) && CText(Spelled(path, prefix, file)) == Spelled(path, prefix, file)
  {
    TextsAreCStrings(path, prefix, file);
    SpellIsCString(PrefixText(prefix), Trim(path, BLANK), FileText(file));
    CTextWhole(Spelled(path, prefix, file));
  }

  lemma ScannedJoin(a: string, b: string)
    requires a != ""
    ensures LastPiece(Scanned(a + [SEP] + b)) == LastPiece(b)
  {
    assert (a + [SEP] + b)[0] == a[0];
    LastPieceOf(a, b);
    LastPieceOf(a[1..], b);
    assert (a + [SEP] + b)[1..] == a[1..] + [SEP] + b;
  }

  lemma ScannedJoinEnds(a: string, b: string)
    requires EndsWell(b)
    ensures EndsWell(Scanned(a + [SEP] + b)) && LastPiece(Scanned(a + [SEP] + b)) == LastPiece(b)
  {
    var t := a + [SEP] + b;
    assert t[|t| - 1] == b[|b| - 1];
    if a == "" {
      assert t[0] == SEP;
      LastPieceOf(a, b);
    } else {
      ScannedJoin(a, b);
    }
  }

  /** Appending the default file to what ends in `.` or `/`. */
  lemma CompletedEnds(t: string, file: string)
    requires t != "" && t != "~" && !EndsIn(t, ' ') && EndsWell(file)
    ensures EndsWell(Scanned(Completed(t, file)))
    ensures LastPiece(Scanned(Completed(t, file))) == if !EndsWell(t) then LastPiece(file) else LastPiece(Scanned(t))
  {
    if !EndsWell(t) {
      var a := if EndsIn(t, '.') then t else t[..|t| - 1];
      var c := Completed(t, file);
      assert c == a + [SEP] + file;
      ScannedJoinEnds(a, file);
    }
  }

  lemma UnderEnds(pre: string, t: string)
    requires pre != "" && t != "" && EndsWell(Scanned(t))
    ensures EndsWell(Scanned(Under(pre, t))) && LastPiece(Scanned(Under(pre, t))) == LastPiece(Scanned(t))
  {
    if !Anchored(t) {
      var a := if EndsIn(pre, '/') then pre[..|pre| - 1] else pre;
      var u := Under(pre, t);
      assert u == a + [SEP] + t;
      ScannedJoinEnds(a, t);
    }
  }

  /** The scanned part of the spelled text ends in the target. */
  lemma SpelledEnds(path: string, prefix: string, file: string)
    requires WellFormed(path, prefix, file)
    ensures EndsWell(Scanned(Spelled(path, prefix, file)))
    ensures LastPiece(Scanned(Spelled(path, prefix, file))) == Target(path, file)
  {
    var t, pre := Trim(path, BLANK), PrefixText(prefix);
    TrimIdempotent(path, BLANK);
    CompletedEnds(t, FileText(file));
    UnderEnds(pre, Completed(t, FileText(file)));
  }

  /** A blank path is given the default file only if the prefix ends in `.` or `/`;
      otherwise the prefix's own last component is repeated below it. */
  lemma BlankPath(pre: string, file: string)
    requires pre != "" && pre != "~" && !EndsIn(pre, ' ') && EndsWell(file)
    ensures LastPiece(Scanned(Spell(pre, "", file))) ==
      if !EndsWell(pre) then LastPiece(file) else LastPiece(Scanned(pre))
    ensures EndsWell(pre) && !Anchored(pre) ==> Spell(pre, "", file) == pre + "/" + pre
  {
    CompletedEnds(pre, file);
    UnderEnds(pre, Completed(pre, file));
  }

  lemma PrintEnds(d: Stack)
    requires d != [] && EndsWell(d[|d| - 1])
    ensures EndsWell(Print(d))
  {
  }

  lemma NameEnds(env: Env, s: string)
    requires Ready(env, s) && EndsWell(Scanned(s))
    ensures var d := Resolve(env, s).value; d != [] && d[|d| - 1] == LastPiece(Scanned(s))
    ensures EndsWell(Real(env, s).value)
  {
    var o := Begin(env, s).value;
    WalkEnds(Dirs(o.base), o.rest);
    LastPieceEnds(o.rest);
    PrintEnds(Resolve(env, s).value);
  }

  /** A key's last component is the target, so the key ends well. */
  lemma KeyEnds(env: Env, path: string, prefix: string, file: string)
    requires WellFormed(path, prefix, file) && KeyReady(env, path, prefix, file)
    requires Ready(env, CText(Spelled(path, prefix, file)))
    ensures var d := Resolve(env, CText(Spelled(path, prefix, file))).value;
      d != [] && d[|d| - 1] == Target(path, file)
    ensures EndsWell(Key(env, path, prefix, file).value)
  {
    SpelledIsCString(path, prefix, file);
    SpelledEnds(path, prefix, file);
    NameEnds(env, Spelled(path, prefix, file));
  }

  /** Among texts in normal form the fixed points of `toRealPath` are those that end well. */
  lemma KeyFixedPoints(env: Env, key: string, prefix: string, file: string)
    requires Canonical(key) && WellFormed(key, prefix, file) && Usable(env, "/")
    ensures KeyReady(env, key, prefix, file)
    ensures Key(env, key, prefix, file) == Some(key) <==> EndsWell(key)
  {
    TrimKeepsHead(key);
    SpelledIsCString(key, prefix, file);
    var s := Spelled(key, prefix, file);
    assert s[0] == SEP;
    if EndsWell(key) {
      TrimClean(key, BLANK);
      FixedPoints(env, key);
    } else {
      RootIsEmpty();
      KeyEnds(env, key, prefix, file);
    }
  }

  lemma TrimKeepsHead(s: string)
    requires s != "" && s[0] != ' '
    ensures Trim(s, BLANK) != "" && Trim(s, BLANK)[0] == s[0]
  {
  }

  /** Registry keys are fixed points of `toRealPath` under any later prefix and default. */
  lemma KeyIsFixedPoint(env: Env, path: string, prefix: string, file: string,
                        later: Env, prefix': string, file': string)
    requires WellFormed(path, prefix, file) && KeyReady(env, path, prefix, file)
    requires Settled(env, CText(Spelled(path, prefix, file))) && Usable(later, "/")
    requires CString(prefix') && CString(file') && PrefixText(prefix') != "" && EndsWell(FileText(file'))
    ensures Key(env, path, prefix, file).Some?
    ensures KeyReady(later, Key(env, path, prefix, file).value, prefix', file')
    ensures Key(later, Key(env, path, prefix, file).value, prefix', file') == Key(env, path, prefix, file)
  {
    var s := CText(Spelled(path, prefix, file));
    KeyEnds(env, path, prefix, file);
    AnswerIsCanonical(env, s);
    AnswerIsCString(env, s);
    TrimKeepsHead(Real(env, s).value);
    KeyFixedPoints(later, Real(env, s).value, prefix', file');
  }

  // ------------------------------------------------------- the key, plainly

  /** Trimmed and not empty, as the settings and the fields of an instance are. */
  ghost predicate Tidied(s: string) { s != "" && Clean(s, BLANK) && CString(s) }

  /** One separator between the two. */
  function Joined(a: string, b: string): string { if EndsIn(a, '/') then a + b else a + "/" + b }

  function Put(path: string, file: string): string {
    if EndsIn(path, '.') && EndsIn(file, '/') then file + file else file
  }

  lemma JoinedPlainly(env: Env, a: string, b: string)
    requires a != "" && Usable(env, Joined(a, b))
    ensures Usable(env, a + "/" + b) && Real(env, a + "/" + b) == Real(env, Joined(a, b))
  {
    if EndsIn(a, '/') {
      var front := a[..|a| - 1];
      assert front + [SEP] == a;
      DoubledSeparator(env, front, b);
      assert front + [SEP] + [SEP] + b == a + "/" + b;
    }
  }

  /** The file of a path: below the prefix unless the path starts with `/`, `.` or `~`; and if the path
      ends in `.` or `/`, the default file in the directory it names. (A default file that
      itself ends in `/`, which `init` never passes, is put after a `.` twice.) */
  lemma KeyOfPath(env: Env, path: string, prefix: string, file: string)
    requires Tidied(path) && Tidied(prefix) && Tidied(file) && KeyReady(env, path, prefix, file)
    ensures var anchored := path[0] == '/' || path[0] == '.' || path[0] == '~';
      var place := if anchored then path else prefix + "/" + path;
      var name := if EndsIn(path, '.') || EndsIn(path, '/') then place + "/" + Put(path, file) else place;
      Usable(env, name) && Key(env, path, prefix, file) == Real(env, name)
  {
    SpelledIsCString(path, prefix, file);
    TrimClean(path, BLANK);
    TrimClean(prefix, BLANK);
    TrimClean(file, BLANK);
    var c := Completed(path, file);
    assert Spelled(path, prefix, file) == Under(prefix, c);
    CompletedJoins(path, file);
    hide Spelled, Completed, Real, Usable;
    if Anchored(path) {
      if c != path { JoinedPlainly(env, path, Put(path, file)); }
    } else {
      assert Under(prefix, c) == Joined(prefix, c);
      JoinedPlainly(env, prefix, c);
      if c != path {
        JoinedAfter(prefix + "/", path, Put(path, file));
        JoinedPlainly(env, prefix + "/" + path, Put(path, file));
      }
    }
  }

  lemma JoinedAfter(p: string, a: string, b: string)
    requires a != ""
    ensures Joined(p + a, b) == p + Joined(a, b)
  {
    assert (p + a)[|p + a| - 1] == a[|a| - 1];
    assert p + a + b == p + (a + b);
    assert p + a + "/" + b == p + (a + "/" + b);
  }

  lemma CompletedJoins(t: string, file: string)
    requires t != "" && Tidied(file)
    ensures Completed(t, file) == if EndsIn(t, '.') || EndsIn(t, '/') then Joined(t, Put(t, file)) else t
  {
    if EndsIn(t, '.') {
      assert t + "/" + file + file == t + "/" + (file + file);
    }
  }

  /** Spaces around path, prefix and default file do not matter. */
  lemma KeyTrims(env: Env, path: string, prefix: string, file: string, x: string, y: string)
    requires Tidied(path) && Tidied(prefix) && Tidied(file) && Within(x, BLANK) && Within(y, BLANK)
    ensures KeyReady(env, x + path + y, x + prefix + y, x + file + y) <==> KeyReady(env, path, prefix, file)
    ensures KeyReady(env, path, prefix, file) ==>
      Key(env, x + path + y, x + prefix + y, x + file + y) == Key(env, path, prefix, file)
  {
    TrimPeels(x, path, y, BLANK);
    TrimPeels(x, prefix, y, BLANK);
    TrimPeels(x, file, y, BLANK);
    TrimClean(path, BLANK);
    TrimClean(prefix, BLANK);
    TrimClean(file, BLANK);
  }

  /** A blank path is the prefix, no prefix is `./`, and no default file is `default.log`. */
  lemma KeyDefaults(env: Env, path: string, prefix: string, file: string, blank: string)
    requires Tidied(path) && Tidied(prefix) && Tidied(file) && Within(blank, BLANK)
    ensures KeyReady(env, blank, prefix, file) <==> KeyReady(env, prefix, prefix, file)
    ensures KeyReady(env, prefix, prefix, file) ==> Key(env, blank, prefix, file) == Key(env, prefix, prefix, file)
    ensures KeyReady(env, path, "", file) <==> KeyReady(env, path, "./", file)
    ensures KeyReady(env, path, "./", file) ==> Key(env, path, "", file) == Key(env, path, "./", file)
    ensures KeyReady(env, path, prefix, blank) <==> KeyReady(env, path, prefix, "default.log")
    ensures KeyReady(env, path, prefix, "default.log") ==>
      Key(env, path, prefix, blank) == Key(env, path, prefix, "default.log")
  {
    TrimPeels(blank, "", "", BLANK);
    assert blank + "" + "" == blank;
    TrimClean(prefix, BLANK);
    TrimClean("default.log", BLANK);
  }

  /** So in a directory in normal form the default file lands in that directory. */
  lemma FileIn(env: Env, dir: string, prefix: string, file: string)
    requires Canonical(dir) && dir != "/" && CString(dir) && Tidied(prefix) && Tidied(file) && Ordinary(file)
    requires Usable(env, "/")
    ensures KeyReady(env, dir + "/", prefix, file) && Key(env, dir + "/", prefix, file) == Some(dir + "/" + file)
  {
    var path := dir + "/";
    assert path[0] == '/' && path[|path| - 1] == '/';
    SpelledIsCString(path, prefix, file);
    TrimClean(path, BLANK);
    KeyOfPath(env, path, prefix, file);
    assert CString(dir + [SEP] + file) && (dir + [SEP] + file)[0] == '/';
    DoubledSeparator(env, dir, file);
    assert dir + [SEP] + [SEP] + file == path + "/" + file;
    CanonicalBelow(dir, file);
    FixedPoints(env, dir + "/" + file);
  }

  lemma CanonicalBelow(dir: string, file: string)
    requires Canonical(dir) && dir != "/" && Ordinary(file)
    ensures Canonical(dir + "/" + file)
  {
    var t := dir + "/" + file;
    assert t[1..] == dir[1..] + [SEP] + file;
    SplitConcat(dir[1..], SEP, file);
    SplitLast(file, SEP);
  }

  // ------------------------------------------- the prefix of a relative path

  /** Spelling an anchored prefix out in the path leaves the text as it is, but for a
      separator doubled where the prefix ends in one. */
  lemma SpelledUnder(pre: string, t: string, file: string)
    requires Anchored(pre) && t != "" && !Anchored(t)
    ensures Spell(pre, t, file) == pre + (if EndsIn(pre, '/') then "" else "/") + Completed(t, file)
  {
    var c := Completed(t, file);
    hide Completed;
    assert !Anchored(c);
    assert pre + "" == pre;
  }

  lemma CompletedAfter(p: string, t: string, file: string)
    requires t != ""
    ensures Completed(p + t, file) == p + Completed(t, file)
  {
    var u := p + t;
    assert u[|u| - 1] == t[|t| - 1];
    if EndsIn(t, '.') {
      assert u + "/" + file == p + (t + "/" + file);
      assert u + "/" + file + file == p + (t + "/" + file + file);
    } else if EndsIn(t, '/') {
      assert u + file == p + (t + file);
    }
  }

  lemma SpelledOut(pre: string, t: string, file: string, pre': string, file': string)
    requires Anchored(pre) && t != ""
    requires file == file' || EndsWell(t)
    ensures Spell(pre', pre + "/" + t, file') == pre + "/" + Completed(t, file)
  {
    var p := pre + "/";
    CompletedAfter(p, t, file');
    assert Completed(t, file') == Completed(t, file);
    hide Completed;
    assert (p + t)[0] == pre[0] && (p + Completed(t, file))[0] == pre[0];
  }

  /** Whether there is a directory to start from is a matter of a name's first character. */
  lemma NoStart(env: Env, name: string, name': string)
    requires Usable(env, name) && Usable(env, name') && name != "" && name' != "" && name[0] == name'[0]
    requires Begin(env, name).None?
    ensures Real(env, name) == Real(env, name') == None
  {
  }

  lemma DoubledSeparator(env: Env, a: string, b: string)
    requires Usable(env, a + [SEP] + b)
    ensures Usable(env, a + [SEP] + [SEP] + b)
    ensures Real(env, a + [SEP] + [SEP] + b) == Real(env, a + [SEP] + b)
  {
    hide Real, Begin;
    var name, name' := a + [SEP] + b, a + [SEP] + [SEP] + b;
    assert name[0] == name'[0];
    assert forall c <- name' :: c in name;
    if Begin(env, name).Some? {
      NeutralDots();
      InsertNeutral(env, a, "", b);
      assert a + [SEP] + ("" + [SEP] + b) == name';
    } else {
      NoStart(env, name, name');
    }
  }

  lemma SpelledOutSame(env: Env, pre: string, t: string, file: string, pre': string, file': string)
    requires Anchored(pre) && t != "" && !Anchored(t)
    requires file == file' || EndsWell(t)
    requires Usable(env, Spell(pre, t, file))
    ensures Usable(env, Spell(pre', pre + "/" + t, file'))
    ensures Real(env, Spell(pre', pre + "/" + t, file')) == Real(env, Spell(pre, t, file))
  {
    SpelledUnder(pre, t, file);
    SpelledOut(pre, t, file, pre', file');
    hide Spell, Completed, Real, Usable;
    var c := Completed(t, file);
    if EndsIn(pre, '/') {
      var a := pre[..|pre| - 1];
      assert pre + "" + c == a + [SEP] + c && pre + "/" + c == a + [SEP] + [SEP] + c;
      DoubledSeparator(env, a, c);
    }
  }

  /** A relative path under an anchored prefix, the default `./` included, is the same file
      as the path that spells the prefix out, under whatever prefix that one is read; the
      default file is the same too, or does not matter. */
  lemma PrefixSpelledOut(env: Env, path: string, prefix: string, file: string, prefix': string, file': string)
    requires CString(path) && CString(prefix) && CString(file) && CString(prefix') && CString(file')
    requires Anchored(PrefixText(prefix)) && Trim(path, BLANK) != "" && !Anchored(Trim(path, BLANK))
    requires FileText(file) == FileText(file') || EndsWell(Trim(path, BLANK))
    requires KeyReady(env, path, prefix, file)
    ensures KeyReady(env, PrefixText(prefix) + "/" + Trim(path, BLANK), prefix', file')
    ensures Key(env, PrefixText(prefix) + "/" + Trim(path, BLANK), prefix', file') == Key(env, path, prefix, file)
  {
    var pre, t := PrefixText(prefix), Trim(path, BLANK);
    OutTrims(pre, path);
    TextsAreCStrings(path, prefix, file);
    SpelledIsCString(path, prefix, file);
    SpelledIsCString(pre + "/" + t, prefix', file');
    hide Trim, PrefixText, FileText, Spell, Usable, Real, CText;
    SpelledOutSame(env, pre, t, FileText(file), PrefixText(prefix'), FileText(file'));
    assert Anchored(pre + "/" + t);
  }

  lemma OutTrims(pre: string, path: string)
    requires Anchored(pre) && Trim(path, BLANK) != ""
    ensures Trim(pre + "/" + Trim(path, BLANK), BLANK) == pre + "/" + Trim(path, BLANK)
  {
    var t := Trim(path, BLANK);
    var u := pre + "/" + t;
    TrimIdempotent(path, BLANK);
    assert u[0] == pre[0] && u[|u| - 1] == t[|t| - 1];
    TrimClean(u, BLANK);
  }
}
