/** Whole runs of the registry: any calls of `init`, `GetInstance` and `destroy` in any
    order, up to the `exit(1)` or the `abort()` inside an `init`, then the handlers
    registered with `atexit`, which an abort leaves out. A fold over the calls says on
    plain values what must come of them; the objects are proved to follow it. */
module Runs {
  import opened Options
  import opened Text
  import opened PathBuffer
  import opened LogPath
  import opened Instances
  import opened Conf
  import opened Plan
  import opened Registry

  datatype Call =
    | InitCall(file: Option<string>, env: Env, able: string -> bool)
    | GetCall(name: string)
    | DestroyCall

  /** An `init` ends the process in two ways: the assertion on line 202 of src/StrUtil.cc
      aborts it, the other failures exit. */
  datatype Fate = Running | Exited | Aborted

  function FateOf(r: Result): Fate {
    if !r.Ended? then Running else if r.why.NoPath? then Aborted else Exited
  }

  /** Where a run stands: whether the dummy exists, whether the process goes on, the plan
      now carried out, the handlers registered, and how many loggers and appenders the
      plans carried out so far have filed. */
  datatype World = World(inited: bool, fate: Fate, setup: Setup, book: Book,
                         atexits: nat, loggersFiled: nat, appendersFiled: nat)

  const NOTHING := Book(map[], map[])

  const NEWBORN := World(false, Running, Setup("", false, "", Env(None, None, 0)), NOTHING, 0, 0, 0)

  /** What the source asks of a caller: no `GetInstance` before the first `init`, and an
      environment fit for the configuration, if that will be read. */
  predicate Allowed(w: World, c: Call) {
    match c
    case InitCall(file, env, able) =>
      w.fate.Running? && w.book.loggers == map[] && file.Some? ==> ConfReady(file.value, env)
    case GetCall(name) => w.fate.Running? ==> w.inited
    case DestroyCall => true
  }

  function InitResult(w: World, file: Option<string>, env: Env): Result
    requires w.book.loggers == map[] && file.Some? ==> ConfReady(file.value, env)
  {
    if w.book.loggers != map[] then AlreadyInited
    else if file.None? then NoFile
    else
      var plan := PlanOf(file.value, env);
      if plan.Loaded? then Success else Ended(plan)
  }

  function After(w: World, c: Call): World
    requires Allowed(w, c)
  {
    if !w.fate.Running? then w
    else match c
      case GetCall(name) => w
      case DestroyCall => w.(book := NOTHING)
      case InitCall(file, env, able) =>
        if w.book.loggers != map[] || file.None? then w.(inited := true)
        else
          var b := Reached(RequestsOf(file.value, env));
          var r := InitResult(w, file, env);
          World(true, FateOf(r), SetupOf(Entries(file.value, ":", "#"), env), b,
                w.atexits + (if r.Success? then 1 else 0),
                w.loggersFiled + |b.loggers|, w.appendersFiled + |b.sizes|)
  }

  predicate AllAllowed(calls: seq<Call>)
    decreases |calls|, 0
  {
    calls == [] ||
    (AllAllowed(calls[..|calls| - 1]) && Allowed(WorldOf(calls[..|calls| - 1]), calls[|calls| - 1]))
  }

  function WorldOf(calls: seq<Call>): World
    requires AllAllowed(calls)
    decreases |calls|, 1
  {
    if calls == [] then NEWBORN else After(WorldOf(calls[..|calls| - 1]), calls[|calls| - 1])
  }

  /** The handlers run, when the process returns from `main` or exits: destroy, as often as
      it was registered. */
  predicate HandlersRun(w: World) { w.atexits > 0 && !w.fate.Aborted? }

  function AtExit(w: World): World { if HandlersRun(w) then w.(book := NOTHING) else w }

  // --------------------------------------------------------------- the objects

  /** What a call answers; of a logger what it was like when it was handed out. */
  datatype Reply = Returned(r: Result) | Handed(l: Logger, alive: bool, name: string, level: int) | Destroyed | NotRun

  /** The reply that the fold prescribes in the state `w`. */
  ghost predicate Expected(w: World, c: Call, reply: Reply)
    requires Allowed(w, c)
  {
    if !w.fate.Running? then reply == NotRun
    else match c
      case InitCall(file, env, able) => reply == Returned(InitResult(w, file, env))
      case DestroyCall => reply == Destroyed
      case GetCall(name) =>
        && reply.Handed? && reply.alive
        && (name !in w.book.loggers ==> reply.l.appender == null && reply.name == "" && reply.level == NONE)
        && (name in w.book.loggers ==>
             && reply.name == CText(name) && reply.level == w.book.loggers[name].level
             && reply.l.appender != null && reply.l.appender.path == w.book.loggers[name].key
             && reply.l.format == w.book.loggers[name].format)
  }

  /** The registry stands where the fold stands: same names, same files, same handlers, a
      dummy once there was an `init`; and everything ever filed is filed or deleted. */
  ghost predicate Tracks(reg: CLogger, w: World)
    reads reg, reg.logMap.Values, reg.appenderMap.Values, reg.deletedLoggers, reg.deletedAppenders, reg.dummyLogger
  {
    && reg.Valid() && reg.Shows(w.book, w.setup)
    && (reg.dummyLogger != null <==> w.inited) && reg.atexits == w.atexits
    && |reg.deletedLoggers| + |reg.logMap| == w.loggersFiled
    && |reg.deletedAppenders| + |reg.appenderMap| == w.appendersFiled
  }

  lemma {:induction false} DistinctValues<K, V>(m: map<K, V>)
    requires forall j, k | j in m && k in m && m[j] == m[k] :: j == k
    ensures |m.Values| == |m|
    decreases |m|
  {
    if m != map[] {
      var k :| k in m;
      var rest := m - {k};
      assert m.Keys == rest.Keys + {k};
      DistinctValues(rest);
      assert m.Values == rest.Values + {m[k]} by {
        assert forall j <- rest :: m[j] == rest[j];
      }
    } else {
      assert m.Values == {};
    }
  }

  /** Destroying moves every filed object to the deleted ones, each counted once. */
  lemma DeletedCount(reg: CLogger)
    requires reg.Valid()
    ensures |reg.deletedLoggers + reg.logMap.Values| == |reg.deletedLoggers| + |reg.logMap|
    ensures |reg.deletedAppenders + reg.appenderMap.Values| == |reg.deletedAppenders| + |reg.appenderMap|
  {
    OneFiling(reg.logMap, reg.appenderMap);
    DistinctValues(reg.logMap);
    DistinctValues(reg.appenderMap);
    assert reg.deletedLoggers !! reg.logMap.Values;
    assert reg.deletedAppenders !! reg.appenderMap.Values;
  }

  /** Every logger ever filed, deleted since or not. */
  ghost function EverFiled(reg: CLogger): set<Logger>
    reads reg
  {
    reg.deletedLoggers + reg.logMap.Values
  }

  lemma BuiltCounts(reg: CLogger, b: Book, s: Setup)
    requires reg.Shows(b, s)
    ensures reg.logMap.Keys == b.loggers.Keys && reg.appenderMap.Keys == b.sizes.Keys
    ensures |reg.logMap| == |b.loggers| && |reg.appenderMap| == |b.sizes|
    ensures reg.logMap == map[] <==> b.loggers == map[]
    ensures forall n <- reg.logMap ::
      && reg.logMap[n].appender != null && reg.logMap[n].appender.path == b.loggers[n].key
      && reg.logMap[n].format == b.loggers[n].format
      && reg.logMap[n].name == CText(n) && reg.logMap[n].level == b.loggers[n].level
  {
    assert |reg.logMap.Keys| == |reg.logMap| && |b.loggers.Keys| == |b.loggers|;
    assert |reg.appenderMap.Keys| == |reg.appenderMap| && |b.sizes.Keys| == |b.sizes|;
    assert reg.logMap == map[] <==> reg.logMap.Keys == {};
    assert b.loggers == map[] <==> b.loggers.Keys == {};
  }

  lemma EmptyShows(reg: CLogger, s: Setup)
    requires reg.logMap == map[] && reg.appenderMap == map[]
    ensures reg.Shows(NOTHING, s)
  {
  }

  method DoInit(reg: CLogger, file: Option<string>, env: Env, able: string -> bool, ghost w: World)
      returns (r: Result)
    requires Tracks(reg, w) && Allowed(w, InitCall(file, env, able)) && w.fate.Running?
    modifies reg
    ensures Tracks(reg, After(w, InitCall(file, env, able))) && r == InitResult(w, file, env)
    ensures reg.OnlyNew() && old(EverFiled(reg)) <= EverFiled(reg)
  {
    hide Wired, Built, ConfReady, PlanOf, RequestsOf, Reached, SetupOf, Entries;
    BuiltCounts(reg, w.book, w.setup);
    if reg.logMap == map[] {
      NoneUnused(reg.logMap, reg.appenderMap);
    }
    r := reg.Init(file, env, able);
    if w.book.loggers == map[] && file.Some? {
      BuiltCounts(reg, Reached(RequestsOf(file.value, env)), SetupOf(Entries(file.value, ":", "#"), env));
    }
  }

  method DoGet(reg: CLogger, name: string, ghost w: World) returns (l: Logger)
    requires Tracks(reg, w) && w.fate.Running? && w.inited
    ensures l.alive && Expected(w, GetCall(name), Handed(l, true, l.name, l.level))
    ensures l == if name in reg.logMap then reg.logMap[name] else reg.dummyLogger
    ensures l.appender != null ==> l in EverFiled(reg)
  {
    hide Wired, Built;
    BuiltCounts(reg, w.book, w.setup);
    l := reg.GetInstance(name);
  }

  method CountedDestroy(reg: CLogger)
    requires reg.Valid()
    modifies reg`logMap, reg`appenderMap, reg`deletedLoggers, reg`deletedAppenders
    modifies reg.logMap.Values, reg.appenderMap.Values
    ensures reg.Valid() && reg.logMap == map[] && reg.appenderMap == map[]
    ensures reg.deletedLoggers == old(EverFiled(reg))
    ensures |reg.deletedLoggers| == old(|reg.deletedLoggers| + |reg.logMap|)
    ensures |reg.deletedAppenders| == old(|reg.deletedAppenders| + |reg.appenderMap|)
  {
    hide CLogger.Valid, StoppedBy, Users;
    DeletedCount(reg);
    reg.Destroy();
  }

  method DoDestroy(reg: CLogger, ghost w: World)
    requires Tracks(reg, w)
    modifies reg`logMap, reg`appenderMap, reg`deletedLoggers, reg`deletedAppenders
    modifies reg.logMap.Values, reg.appenderMap.Values
    ensures Tracks(reg, w.(book := NOTHING)) && reg.logMap == map[] && reg.appenderMap == map[]
    ensures reg.deletedLoggers == old(EverFiled(reg))
  {
    hide CLogger.Valid, CLogger.Shows;
    CountedDestroy(reg);
    EmptyShows(reg, w.setup);
  }

  /** One call takes registry and fold the same step. */
  method Do(reg: CLogger, c: Call, ghost w: World) returns (ghost reply: Reply, fate: Fate)
    requires Tracks(reg, w) && Allowed(w, c) && w.fate.Running?
    modifies reg, reg.logMap.Values, reg.appenderMap.Values
    ensures Tracks(reg, After(w, c)) && Expected(w, c, reply) && fate == After(w, c).fate
    ensures reply.Handed? ==> reply.l.alive && (reply.l.appender != null ==> reply.l in EverFiled(reg))
    ensures c.GetCall? ==> reply.l == if c.name in reg.logMap then reg.logMap[c.name] else reg.dummyLogger
    ensures reg.OnlyNew() && old(EverFiled(reg)) <= EverFiled(reg)
  {
    hide Tracks, Wired, Built, ConfReady, PlanOf, RequestsOf, Reached, SetupOf, Entries;
    fate := Running;
    match c {
      case InitCall(file, env, able) =>
        var r := DoInit(reg, file, env, able, w);
        fate := FateOf(r);
        reply := Returned(r);
      case GetCall(name) =>
        var l := DoGet(reg, name, w);
        reply := Handed(l, l.alive, l.name, l.level);
      case DestroyCall =>
        DoDestroy(reg, w);
        reply := Destroyed;
    }
  }

  lemma {:induction false} WorldNext(calls: seq<Call>, n: nat)
    requires AllAllowed(calls) && n < |calls|
    ensures AllAllowed(calls[..n]) && Allowed(WorldOf(calls[..n]), calls[n])
    ensures AllAllowed(calls[..n + 1]) && WorldOf(calls[..n + 1]) == After(WorldOf(calls[..n]), calls[n])
    decreases |calls|
  {
    var front := calls[..|calls| - 1];
    assert calls[..n + 1][..n] == calls[..n];
    if n < |front| {
      assert front[..n] == calls[..n] && front[..n + 1] == calls[..n + 1];
      WorldNext(front, n);
    } else {
      assert front == calls[..n] && calls[..n + 1] == calls;
    }
  }

  /** The replies are those that the fold prescribes, one for each call. */
  ghost predicate Answer(replies: seq<Reply>, calls: seq<Call>)
    requires AllAllowed(calls)
  {
    |replies| == |calls| &&
    (calls != [] ==>
       var n := |calls| - 1;
       Answer(replies[..n], calls[..n]) && Expected(WorldOf(calls[..n]), calls[n], replies[n]))
  }

  lemma AnswerNext(replies: seq<Reply>, calls: seq<Call>, n: nat, reply: Reply)
    requires AllAllowed(calls) && n < |calls| && AllAllowed(calls[..n]) && Answer(replies, calls[..n])
    requires Allowed(WorldOf(calls[..n]), calls[n]) && Expected(WorldOf(calls[..n]), calls[n], reply)
    ensures AllAllowed(calls[..n + 1]) && Answer(replies + [reply], calls[..n + 1])
  {
    WorldNext(calls, n);
    assert calls[..n + 1][..n] == calls[..n] && (replies + [reply])[..n] == replies;
  }

  /** Loggers of known names are ones that were filed here. */
  ghost predicate HandedFrom(replies: seq<Reply>, filed: set<Logger>) {
    forall reply <- replies :: reply.Handed? && reply.l.appender != null ==> reply.l in filed
  }

  lemma NothingAfterTheEnd(w: World, c: Call)
    requires !w.fate.Running? && Allowed(w, c)
    ensures After(w, c) == w && Expected(w, c, NotRun)
  {
  }

  lemma EmptyTracks(reg: CLogger)
    requires reg.Valid() && reg.logMap == map[] && reg.appenderMap == map[] && reg.dummyLogger == null
    requires reg.deletedLoggers == {} && reg.deletedAppenders == {} && reg.atexits == 0
    ensures Tracks(reg, NEWBORN)
  {
  }

  /** Any calls in any order: the registry ends where the fold does, and every reply is the
      one the fold prescribes, every logger alive when handed out. */
  method Run(calls: seq<Call>) returns (reg: CLogger, fate: Fate, ghost replies: seq<Reply>)
    requires AllAllowed(calls)
    ensures fresh(reg) && Tracks(reg, WorldOf(calls)) && fate == WorldOf(calls).fate
    ensures Answer(replies, calls) && HandedFrom(replies, EverFiled(reg))
    ensures forall k <- reg.logMap :: fresh(reg.logMap[k])
    ensures forall p <- reg.appenderMap :: fresh(reg.appenderMap[p])
  {
    hide Tracks, After, Expected, Allowed, Wired, Built;
    reg := new CLogger();
    EmptyTracks(reg);
    ghost var w := NEWBORN;
    fate := Running;
    replies := [];
    for i := 0 to |calls|
      invariant fresh(reg) && AllAllowed(calls[..i]) && w == WorldOf(calls[..i]) && fate == w.fate && Tracks(reg, w)
      invariant Answer(replies, calls[..i]) && HandedFrom(replies, EverFiled(reg))
      invariant forall k <- reg.logMap :: fresh(reg.logMap[k])
      invariant forall p <- reg.appenderMap :: fresh(reg.appenderMap[p])
    {
      WorldNext(calls, i);
      ghost var reply := NotRun;
      if fate != Running {
        NothingAfterTheEnd(w, calls[i]);
      } else {
        reply, fate := Do(reg, calls[i], w);
      }
      AnswerNext(replies, calls, i, reply);
      replies, w := replies + [reply], After(w, calls[i]);
    }
    assert calls[..|calls|] == calls;
  }

  // ------------------------------------------------------------------- at exit

  /** The handlers that successful calls of `init` registered with `atexit`; an aborted
      process never comes to them. */
  method RunHandlers(reg: CLogger, fate: Fate, ghost w: World)
    requires Tracks(reg, w) && fate == w.fate
    modifies reg, reg.logMap.Values, reg.appenderMap.Values
    ensures Tracks(reg, AtExit(w)) && EverFiled(reg) == old(EverFiled(reg))
  {
    hide Tracks;
    if fate == Aborted { return; }
    var registered := HandlerCount(reg, w);
    var left: nat := registered;
    while left > 0
      invariant left <= registered == w.atexits && EverFiled(reg) == old(EverFiled(reg))
      invariant left == registered ==>
        Tracks(reg, w) && reg.logMap == old(reg.logMap) && reg.appenderMap == old(reg.appenderMap)
      invariant left < registered ==>
        Tracks(reg, w.(book := NOTHING)) && reg.logMap == map[] && reg.appenderMap == map[]
      decreases left
    {
      DoDestroy(reg, if left == registered then w else w.(book := NOTHING));
      left := left - 1;
    }
  }

  method HandlerCount(reg: CLogger, ghost w: World) returns (n: nat)
    requires Tracks(reg, w)
    ensures n == w.atexits
  {
    n := reg.atexits;
  }

  /** All that the plans filed so far was deleted, and stopped before. */
  ghost predicate AllDeleted(reg: CLogger, w: World)
    reads reg, reg.deletedLoggers, reg.deletedAppenders
  {
    && reg.logMap == map[] && reg.appenderMap == map[]
    && |reg.deletedLoggers| == w.loggersFiled && (forall l <- reg.deletedLoggers :: !l.alive)
    && |reg.deletedAppenders| == w.appendersFiled && (forall a <- reg.deletedAppenders :: !a.alive && !a.running)
  }

  /** What the last plan filed was left where it was, alive; what had been filed before was deleted. */
  ghost predicate LeftBehind(reg: CLogger, w: World)
    reads reg, reg.logMap.Values, reg.appenderMap.Values
  {
    && reg.Shows(w.book, w.setup) && Living(reg.logMap, reg.appenderMap)
    && |reg.deletedLoggers| == w.loggersFiled - |w.book.loggers|
    && |reg.deletedAppenders| == w.appendersFiled - |w.book.sizes|
  }

  /** A whole process: the calls, then the handlers. Every destructor call along the way
      meets its precondition, so nothing is stopped or deleted when dead. */
  method Process(calls: seq<Call>) returns (reg: CLogger, ghost replies: seq<Reply>)
    requires AllAllowed(calls)
    ensures Tracks(reg, AtExit(WorldOf(calls)))
    ensures Answer(replies, calls) && HandedFrom(replies, EverFiled(reg))
    // all that the plans filed is deleted in the end, once, exactly if a handler ran or nothing was left to delete
    ensures var w := WorldOf(calls);
      AllDeleted(reg, w) <==> (w.atexits > 0 && w.fate != Aborted) || w.book == NOTHING
    // and otherwise the last plan is still there
    ensures var w := WorldOf(calls);
      w.atexits == 0 || w.fate == Aborted ==> LeftBehind(reg, w)
    // without a successful init nothing is ever deleted
    ensures WorldOf(calls).atexits == 0 ==> reg.deletedLoggers == {} && reg.deletedAppenders == {}
  {
    hide Tracks, CLogger.Valid, CLogger.Shows, AllDeleted, LeftBehind;
    var fate;
    reg, fate, replies := Run(calls);
    RunHandlers(reg, fate, WorldOf(calls));
    AtTheEnd(reg, calls);
  }

  /** Without a successful `init` whatever was filed is still planned. */
  lemma {:induction false} NothingDeleted(calls: seq<Call>)
    requires AllAllowed(calls) && WorldOf(calls).atexits == 0
    ensures var w := WorldOf(calls);
      && w.loggersFiled == |w.book.loggers| && w.appendersFiled == |w.book.sizes|
      && (w.fate.Running? ==> w.book == NOTHING)
    decreases |calls|
  {
    if calls != [] {
      var front, c := calls[..|calls| - 1], calls[|calls| - 1];
      hide ConfReady, RequestsOf, SetupOf, Entries;
      NothingDeleted(front);
    }
  }

  lemma AtTheEnd(reg: CLogger, calls: seq<Call>)
    requires AllAllowed(calls) && Tracks(reg, AtExit(WorldOf(calls)))
    ensures var w := WorldOf(calls);
      AllDeleted(reg, w) <==> (w.atexits > 0 && w.fate != Aborted) || w.book == NOTHING
    ensures var w := WorldOf(calls);
      w.atexits == 0 || w.fate == Aborted ==> LeftBehind(reg, w)
    ensures WorldOf(calls).atexits == 0 ==> reg.deletedLoggers == {} && reg.deletedAppenders == {}
  {
    hide Wired, Built, AllAllowed, WorldOf;
    var w := AtExit(WorldOf(calls));
    BuiltCounts(reg, w.book, w.setup);
    assert reg.logMap == map[] <==> reg.logMap.Keys == {};
    assert reg.appenderMap == map[] <==> reg.appenderMap.Keys == {};
    if w.atexits == 0 {
      NothingDeleted(calls);
    }
  }

  // ------------------------------------------------------- the fold by itself

  /** After a destroy, and until the next `init`, every name is unknown. */
  lemma {:induction false} UnknownAfterDestroy(calls: seq<Call>, later: seq<Call>)
    requires AllAllowed(calls + [DestroyCall] + later) && forall c <- later :: !c.InitCall?
    ensures var w := WorldOf(calls + [DestroyCall] + later); !w.fate.Running? || w.book.loggers == map[]
    decreases |later|
  {
    var all := calls + [DestroyCall] + later;
    var front := all[..|all| - 1];
    if later != [] {
      var n := |later| - 1;
      assert front == calls + [DestroyCall] + later[..n] && all[|all| - 1] == later[n];
      UnknownAfterDestroy(calls, later[..n]);
      assert later[n] in later;
    } else {
      assert front == calls && all[|all| - 1] == DestroyCall;
    }
  }

  /** An environment fit for any configuration. */
  predicate EnvReady(env: Env) {
    && env.pathMax > 1
    && (env.cwd.Some? ==> Directory(env.cwd.value))
    && env.home.Some? && Directory(env.home.value)
  }

  lemma PairTrimmed(str: string, sep: string)
    ensures forall e <- Pair(str, sep) :: Clean(e.value, SPACES)
  {
    hide Trim, Find;
    var at := Find(str, sep);
    if at.Some? {
      TrimIdempotent(str[at.value + |sep|..], SPACES);
    }
  }

  lemma {:induction false} EntriesTrimmed(lines: seq<string>, sep: string, comment: string)
    ensures forall e <- LinesEntries(lines, sep, comment) :: Clean(e.value, SPACES)
    decreases |lines|
  {
    hide Pair, Clean;
    if lines != [] {
      PairTrimmed(Before(lines[0], Find(lines[0], comment)), sep);
      EntriesTrimmed(lines[1..], sep, comment);
    }
  }

  lemma {:induction false} ValuesTrimmed(es: seq<Entry>, key: string)
    requires forall e <- es :: Clean(e.value, SPACES)
    ensures forall v <- Values(es, key) :: Clean(v, SPACES)
    decreases |es|
  {
    if es != [] {
      assert es[0] in es;
      ValuesTrimmed(es[1..], key);
    }
  }

  /** Every configuration text is fit to be read: the prefix that `init` passes on is never
      blank, because values are trimmed and an empty one is defaulted. */
  lemma AnyTextIsReady(text: string, env: Env)
    requires EnvReady(env)
    ensures ConfReady(text, env)
  {
    var es := Entries(text, ":", "#");
    var s := SetupOf(es, env);
    EntriesTrimmed(Split(text, NEWLINE), ":", "#");
    ValuesTrimmed(es, "log.prefix");
    assert Clean(s.prefix, BLANK);
    TrimClean(s.prefix, BLANK);
    forall v <- Values(es, "log.instance") ensures InstanceReady(v, s) {
      if Checked(v).Some? {
        AnyPathIsReady(Checked(v).value.path, DefaultFile(Checked(v).value), s);
      }
    }
  }

  lemma AnyPathIsReady(path: string, file: string, s: Setup)
    requires EnvReady(s.env) && PrefixText(s.prefix) != ""
    ensures KeyReady(s.env, path, s.prefix, file)
  {
    hide PrefixText, Spelled;
  }

  /** So every run in such environments is allowed that asks for no logger before an `init`. */
  lemma {:induction false} FitRunsAllowed(calls: seq<Call>)
    requires forall c <- calls :: c.InitCall? ==> EnvReady(c.env)
    requires forall j | 0 <= j < |calls| && calls[j].GetCall? :: exists i | 0 <= i < j :: calls[i].InitCall?
    ensures AllAllowed(calls)
    ensures (exists c <- calls :: c.InitCall?) || !WorldOf(calls).fate.Running? ==> WorldOf(calls).inited
    decreases |calls|
  {
    if calls != [] {
      var n := |calls| - 1;
      var front, c := calls[..n], calls[n];
      assert forall j | 0 <= j < n :: front[j] == calls[j];
      FitRunsAllowed(front);
      assert calls == front + [c];
      if c.InitCall? && c.file.Some? {
        AnyTextIsReady(c.file.value, c.env);
      }
      if c.GetCall? {
        var i :| 0 <= i < n && calls[i].InitCall?;
        assert front[i] in front;
      }
    }
  }
}
