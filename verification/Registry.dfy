/** The logger registry (src/Log.cc): the static maps of CLogger, and the lifetime of
    the loggers and appenders in them. `alive` marks objects that were created and not
    yet deleted; nothing but a constructor makes an object alive. */
module Registry {
  import opened Options
  import opened Numerals
  import opened PathBuffer
  import opened LogPath
  import opened Instances
  import opened Plan
  import opened Conf

  const WFLOGINSTANCE := "__LOG_WARN_FATLE__"  // include/Log.h:40
  const NONE := 0                              // include/Log.h:44

  /** An appender, asynchronous or not, as far as `init` and `destroy` deal with it. */
  class Appender {
    const path: string
    const splitSize: nat
    const splitFormat: string
    const async: bool
    var running: bool          // started, and not stopped since
    ghost var alive: bool
    ghost var stops: nat       // how often stop() was called

    constructor (path: string, splitSize: nat, splitFormat: string, async: bool)
      ensures this.path == path && this.splitSize == splitSize
      ensures this.splitFormat == splitFormat && this.async == async
      ensures alive && !running && stops == 0
    {
      this.path, this.splitSize, this.splitFormat, this.async := path, splitSize, splitFormat, async;
      running, alive, stops := false, true, 0;
    }

    /** `able`: the file could be opened, or the thread created. */
    method Start(able: bool) returns (started: bool)
      requires alive
      modifies this
      ensures alive && stops == old(stops)
      ensures running == started == (old(running) || able)
    {
      running := running || able;
      started := running;
    }

    method Stop()
      requires alive
      modifies this
      ensures alive && !running && stops == old(stops) + 1
    {
      running := false;
      stops := stops + 1;
    }

    /** `delete`: once, and not while running. */
    method Delete()
      requires alive && !running
      modifies `alive
      ensures !alive
    {
      alive := false;
    }
  }

  class Logger {
    var name: string
    const format: string
    var level: int
    const appender: Appender?
    ghost var alive: bool

    constructor (name: string, appender: Appender?, format: string, level: int)
      ensures this.name == CText(name) && this.appender == appender && this.format == format && this.level == level
      ensures alive
    {
      this.name, this.appender, this.format, this.level, alive := CText(name), appender, format, level, true;
    }

    /** The destructor: stop the appender, which other loggers may still be using. */
    method Delete()
      requires alive && (appender != null ==> appender.alive)
      modifies this`alive, appender
      ensures !alive
      ensures appender != null ==> appender.alive && !appender.running && appender.stops == old(appender.stops) + 1
    {
      if appender != null {
        appender.Stop();
      }
      alive := false;
    }
  }

  /** What became of a call of `init`. `Ended` says that the process did: through `abort`
      if `why` is `NoPath`, the failed assertion, and otherwise through `exit(1)`. */
  datatype Result = Success | AlreadyInited | NoFile | Ended(why: Outcome)

  function SetupOf(es: seq<Entry>, env: Env): Setup {
    var prefix := HeadOf(Values(es, "log.prefix"));
    var splitFormat := HeadOf(Values(es, "log.splitFormat"));
    Setup(if prefix == "" then "./" else prefix,
          HeadOf(Values(es, "log.async")) == "true",
          if splitFormat == "" then "_%Y%m%d_%H%M%S_%P_%n" else splitFormat,
          env)
  }

  /** `r` is the value of the key's first entry, or `otherwise` if it is empty or there is none. */
  ghost predicate FirstOr(es: seq<Entry>, key: string, otherwise: string, r: string) {
    && (forall i: nat | FirstOf(es, key, i) :: r == if es[i].value != "" then es[i].value else otherwise)
    && ((forall e <- es :: e.key != key) ==> r == otherwise)
  }

  ghost predicate FirstIs(es: seq<Entry>, key: string, value: string) {
    exists i: nat :: FirstOf(es, key, i) && es[i].value == value
  }

  /** What each setting comes from. */
  lemma SettingsExactly(es: seq<Entry>, env: Env)
    ensures FirstOr(es, "log.prefix", "./", SetupOf(es, env).prefix)
    ensures FirstOr(es, "log.splitFormat", "_%Y%m%d_%H%M%S_%P_%n", SetupOf(es, env).splitFormat)
    ensures SetupOf(es, env).async <==> FirstIs(es, "log.async", "true")
    ensures SetupOf(es, env).env == env
  {
    FirstDecides(es, "log.prefix");
    FirstDecides(es, "log.splitFormat");
    FirstDecides(es, "log.async");
    if exists e <- es :: e.key == "log.async" {
      var i := FirstExists(es, "log.async");
    }
  }

  /** The two maps fit together: each logger is filed once and its appender is the one
      registered for its path; each appender is filed under its path and used. */
  ghost predicate Wired(loggers: map<string, Logger>, appenders: map<string, Appender>) {
    && (forall j, k | j in loggers && k in loggers && loggers[j] == loggers[k] :: j == k)
    && (forall k <- loggers :: loggers[k].appender != null && Registered(appenders, loggers[k].appender))
    && (forall p <- appenders :: appenders[p].path == p && InUse(loggers, appenders[p]))
  }

  predicate Registered(appenders: map<string, Appender>, a: Appender) {
    a.path in appenders && appenders[a.path] == a
  }

  ghost predicate InUse(loggers: map<string, Logger>, a: Appender) {
    exists k <- loggers :: loggers[k].appender == a
  }

  /** The maps are the plan `b` made of objects, levels aside. */
  ghost predicate Built(loggers: map<string, Logger>, appenders: map<string, Appender>, b: Book, s: Setup) {
    && loggers.Keys == b.loggers.Keys && appenders.Keys == b.sizes.Keys
    && (forall n <- loggers :: loggers[n].appender != null
         && loggers[n].format == b.loggers[n].format && loggers[n].appender.path == b.loggers[n].key)
    && (forall p <- appenders :: appenders[p].splitSize == b.sizes[p]
         && appenders[p].async == s.async && appenders[p].splitFormat == s.splitFormat)
  }

  /** The loggers carry their names, and the levels of the plan. */
  ghost predicate Labelled(loggers: map<string, Logger>, b: Book)
    reads loggers.Values
  {
    forall n <- loggers ::
      n in b.loggers && loggers[n].level == b.loggers[n].level && loggers[n].name == CText(n)
  }

  ghost predicate Living(loggers: map<string, Logger>, appenders: map<string, Appender>)
    reads loggers.Values, appenders.Values
  {
    (forall k <- loggers :: loggers[k].alive) && (forall p <- appenders :: appenders[p].alive)
  }

  ghost predicate Buried(loggers: set<Logger>, appenders: set<Appender>)
    reads loggers, appenders
  {
    (forall l <- loggers :: !l.alive) && (forall a <- appenders :: !a.alive && !a.running)
  }

  lemma WiredWith(loggers: map<string, Logger>, appenders: map<string, Appender>, name: string, l: Logger, a: Appender)
    requires Wired(loggers, appenders) && name !in loggers
    requires l.appender == a && forall k <- loggers :: loggers[k] != l
    requires a.path in appenders ==> appenders[a.path] == a
    ensures Wired(loggers[name := l], appenders[a.path := a])
  {
    var loggers', appenders' := loggers[name := l], appenders[a.path := a];
    assert loggers'[name].appender == a;
    forall p <- appenders' ensures appenders'[p].path == p && InUse(loggers', appenders'[p]) {
      if p != a.path {
        var k :| k in loggers && loggers[k].appender == appenders[p];
        assert loggers'[k].appender == appenders'[p];
      }
    }
    forall k <- loggers' ensures loggers'[k].appender != null && Registered(appenders', loggers'[k].appender) {
      if k != name { assert Registered(appenders, loggers[k].appender); }
    }
  }

  lemma BuiltWith(loggers: map<string, Logger>, appenders: map<string, Appender>, b: Book, s: Setup,
                  name: string, l: Logger, a: Appender, level: int, size: nat)
    requires Built(loggers, appenders, b, s) && l.appender == a
    requires a.path in appenders ==> appenders[a.path] == a
    requires a.path !in appenders ==> a.splitSize == size && a.async == s.async && a.splitFormat == s.splitFormat
    ensures Built(loggers[name := l], appenders[a.path := a],
                  Filed(b, name, LoggerInfo(l.format, level, a.path), size), s)
  {
  }

  /** All that has to be kept when a new logger is filed with its appender. */
  lemma FitWith(loggers: map<string, Logger>, appenders: map<string, Appender>, b: Book, s: Setup,
                name: string, l: Logger, a: Appender, size: nat)
    requires Wired(loggers, appenders) && Living(loggers, appenders)
    requires Built(loggers, appenders, b, s) && Labelled(loggers, b)
    requires name !in loggers && l.alive && l.appender == a && l !in loggers.Values && l.name == CText(name)
    requires if a.path in appenders then appenders[a.path] == a
             else a.alive && a.splitSize == size && a.async == s.async && a.splitFormat == s.splitFormat
    ensures var loggers', appenders' := loggers[name := l], appenders[a.path := a];
      var b' := Filed(b, name, LoggerInfo(l.format, l.level, a.path), size);
      && Wired(loggers', appenders') && Living(loggers', appenders')
      && Built(loggers', appenders', b', s) && Labelled(loggers', b')
  {
    hide Wired, Built;
    WiredWith(loggers, appenders, name, l, a);
    BuiltWith(loggers, appenders, b, s, name, l, a, l.level, size);
  }

  predicate ConfReady(text: string, env: Env) {
    AllReady(Values(Entries(text, ":", "#"), "log.instance"), SetupOf(Entries(text, ":", "#"), env))
  }

  /** What a configuration file asks `init` for, and what comes of it. */
  function RequestsOf(text: string, env: Env): seq<Request>
    requires ConfReady(text, env)
  {
    var es := Entries(text, ":", "#");
    Requests(Values(es, "log.instance"), SetupOf(es, env))
  }

  function PlanOf(text: string, env: Env): Outcome
    requires ConfReady(text, env)
  {
    Load(RequestsOf(text, env))
  }

  /** The loggers filed under `ks` that use the appender `a`. */
  ghost function Users(loggers: map<string, Logger>, ks: set<string>, a: Appender): set<string> {
    set k <- ks | k in loggers && loggers[k].appender == a
  }

  /** Lines 64-82: what `init` takes from the configuration. */
  method ReadSettings(file: Option<string>, env: Env) returns (vec: seq<string>, s: Setup)
    requires file.Some?
    ensures s == SetupOf(Entries(file.value, ":", "#"), env)
    ensures vec == Values(Entries(file.value, ":", "#"), "log.instance")
  {
    hide Values, Entries;
    ghost var es := Entries(file.value, ":", "#");
    var conf := new TextConfig(file, ":", "#");
    var logpath := conf.GetString("log.prefix", es);
    if logpath == "" {
      logpath := "./";
    }
    var async := false;
    var asyncLogging := conf.GetString("log.async", es);
    if asyncLogging == "true" {
      async := true;
    }
    var splitFormat := conf.GetString("log.splitFormat", es);
    if splitFormat == "" {
      splitFormat := "_%Y%m%d_%H%M%S_%P_%n";
    }
    vec := conf.GetStrings("log.instance", es);
    s := Setup(logpath, async, splitFormat, env);
  }

  /** `a` has been stopped once by each of its users among `done`, and is idle if there was one. */
  ghost predicate StoppedBy(loggers: map<string, Logger>, a: Appender, done: set<string>, before: nat)
    reads a`stops, a`running
  {
    && a.stops == before + |Users(loggers, done, a)|
    && (Users(loggers, done, a) != {} ==> !a.running)
  }

  class CLogger {
    var dummyLogger: Logger?
    var wfLogger: Logger?
    var logMap: map<string, Logger>
    var appenderMap: map<string, Appender>
    var atexits: nat                           // how often destroy is registered to run at exit
    ghost var deletedLoggers: set<Logger>      // all that were ever filed and are filed no more
    ghost var deletedAppenders: set<Appender>

    ghost predicate Valid()
      reads `logMap, `appenderMap, `deletedLoggers, `deletedAppenders, `dummyLogger
      reads logMap.Values, appenderMap.Values, deletedLoggers, deletedAppenders, dummyLogger
    {
      && Wired(logMap, appenderMap)
      && Living(logMap, appenderMap)
      && Buried(deletedLoggers, deletedAppenders)
      // the dummy logger has no name, lets no level through and is never deleted
      && (dummyLogger != null ==>
           && dummyLogger.alive && dummyLogger.appender == null
           && dummyLogger.name == "" && dummyLogger.level == NONE)
    }

    ghost predicate Shows(b: Book, s: Setup)
      reads `logMap, `appenderMap, logMap.Values
    {
      Built(logMap, appenderMap, b, s) && Labelled(logMap, b)
    }

    constructor ()
      ensures Valid() && logMap == map[] && appenderMap == map[] && dummyLogger == null && wfLogger == null
      ensures atexits == 0
      ensures deletedLoggers == {} && deletedAppenders == {}
    {
      dummyLogger, wfLogger, logMap, appenderMap, atexits := null, null, map[], map[], 0;
      deletedLoggers, deletedAppenders := {}, {};
    }

    /** Every registered appender was started, and runs if it could be. */
    ghost predicate Started(able: string -> bool)
      reads `appenderMap, appenderMap.Values
    {
      forall p <- appenderMap :: appenderMap[p].running == able(p)
    }

    /** Everything filed is what was filed before or has been created since. */
    twostate predicate OnlyNew()
      reads this
    {
      && (forall k <- logMap :: logMap[k] in old(logMap.Values) || fresh(logMap[k]))
      && (forall p <- appenderMap :: appenderMap[p] in old(appenderMap.Values) || fresh(appenderMap[p]))
    }

    /** Lines 156-164; the dummy exists from the first call of `init` on. */
    method GetInstance(logname: string) returns (l: Logger)
      requires Valid() && dummyLogger != null
      ensures l.alive
      ensures l == if logname in logMap then logMap[logname] else dummyLogger
    {
      if logname in logMap {
        return logMap[logname];
      }
      return dummyLogger;
    }

    /** Lines 103-119: the appender registered for a path, made and started if there is none. */
    method AppenderFor(realPath: string, splitSize: nat, s: Setup, able: string -> bool)
        returns (appender: Appender)
      requires Wired(logMap, appenderMap) && Living(logMap, appenderMap) && Started(able)
      modifies this`appenderMap
      ensures Started(able) && OnlyNew() && appender.alive
      ensures appenderMap == old(appenderMap)[realPath := appender] && appender.path == realPath
      ensures realPath in old(appenderMap) ==> appender == old(appenderMap)[realPath]
      ensures realPath !in old(appenderMap) ==>
        && fresh(appender) && appender.splitSize == splitSize
        && appender.async == s.async && appender.splitFormat == s.splitFormat
    {
      if realPath in appenderMap {
        appender := appenderMap[realPath];
      } else {
        appender := new Appender(realPath, splitSize, s.splitFormat, s.async);
        var started := appender.Start(able(realPath));  // a failure is only reported
        appenderMap := appenderMap[realPath := appender];
      }
    }

    /** Lines 101-120: the logger and its appender. */
    method Enlist(name: string, format: string, level: int, realPath: string, splitSize: nat,
                  s: Setup, able: string -> bool, ghost b: Book)
      requires Valid() && Shows(b, s) && Started(able) && name !in logMap
      modifies this`logMap, this`appenderMap
      ensures Valid() && Shows(Filed(b, name, LoggerInfo(format, level, realPath), splitSize), s)
      ensures Started(able)
      ensures name in logMap && logMap == old(logMap)[name := logMap[name]]
      ensures realPath in appenderMap && appenderMap == old(appenderMap)[realPath := appenderMap[realPath]]
      ensures OnlyNew()
    {
      hide Started, Wired, Built, Living, Labelled, Buried;
      var logger := NewLogger(name, format, level, realPath, splitSize, s, able, b);
      logMap := logMap[name := logger];
    }

    /** Up to the insertion of line 120: a logger that can be filed, and its appender, which is. */
    method NewLogger(name: string, format: string, level: int, realPath: string, splitSize: nat,
                     s: Setup, able: string -> bool, ghost b: Book) returns (logger: Logger)
      requires Valid() && Shows(b, s) && Started(able) && name !in logMap
      modifies this`appenderMap
      ensures Started(able) && Buried(deletedLoggers, deletedAppenders) && OnlyNew()
      ensures fresh(logger) && logger.appender != null
      ensures appenderMap == old(appenderMap)[realPath := logger.appender]
      ensures Wired(logMap[name := logger], appenderMap) && Living(logMap[name := logger], appenderMap)
      ensures var b' := Filed(b, name, LoggerInfo(format, level, realPath), splitSize);
        Built(logMap[name := logger], appenderMap, b', s) && Labelled(logMap[name := logger], b')
    {
      hide Started, Wired, Built, Living, Labelled, Buried;
      var appender := AppenderFor(realPath, splitSize, s, able);
      logger := new Logger(name, appender, format, level);
      FitWith(logMap, old(appenderMap), b, s, name, logger, appender, splitSize);
    }

    /** Lines 84-127: one value of `log.instance`. */
    method Configure(inst: string, s: Setup, able: string -> bool, ghost b: Book) returns (failed: Option<Outcome>)
      requires Valid() && Shows(b, s) && Started(able)
      requires InstanceReady(inst, s) && s.env.pathMax > 1
      modifies this`logMap, this`appenderMap
      ensures Valid() && Started(able)
      ensures Enter(b, Read(inst, s)).Loaded? ==> failed == None && Shows(Enter(b, Read(inst, s)).book, s)
      ensures !Enter(b, Read(inst, s)).Loaded? ==> failed == Some(Enter(b, Read(inst, s))) && Shows(b, s)
      ensures OnlyNew()
    {
      hide Valid, Wired, Built, Checked, KeyReady, Key, Atoi, Strtoul;
      if inst == "" {
        return None;
      }
      var logInstance := SplitCheck(inst);
      if |logInstance| >= 5 {
        BuiltNames(logMap, appenderMap, b, s);
        if logInstance[0] in logMap {
          return Some(Duplicate);
        }
        var realPath := ToRealPath(logInstance[2], s.prefix, logInstance[0] + ".log", s.env, n => true);
        if realPath.None? {
          return Some(NoPath);
        }
        Enlist(logInstance[0], logInstance[1], Atoi(logInstance[4]), realPath.value, Strtoul(logInstance[3]),
               s, able, b);
        failed := None;
      } else {
        failed := Some(BadFormat);
      }
    }

    /** `init`; None as `file` is a configuration that cannot be opened. */
    method Init(file: Option<string>, env: Env, able: string -> bool) returns (r: Result)
      requires Valid() && (logMap == map[] && file.Some? ==> ConfReady(file.value, env))
      modifies this
      ensures Valid() && dummyLogger != null && fresh(dummyLogger)
      ensures dummyLogger.name == "" && dummyLogger.level == NONE
      ensures deletedLoggers == old(deletedLoggers) && deletedAppenders == old(deletedAppenders)
      ensures old(logMap) != map[] ==> r == AlreadyInited
      ensures old(logMap) == map[] && file.None? ==> r == NoFile
      ensures r == AlreadyInited || r == NoFile ==>
        logMap == old(logMap) && appenderMap == old(appenderMap) && wfLogger == old(wfLogger) && atexits == old(atexits)
      ensures old(logMap) == map[] && file.Some? ==> var plan := PlanOf(file.value, env);
        && Shows(Reached(RequestsOf(file.value, env)), SetupOf(Entries(file.value, ":", "#"), env)) && Started(able)
        && if plan.Loaded? then
          && r == Success && atexits == old(atexits) + 1
          && wfLogger == (if WFLOGINSTANCE in logMap then logMap[WFLOGINSTANCE] else dummyLogger)
        else r == Ended(plan) && atexits == old(atexits) && wfLogger == old(wfLogger)
      ensures OnlyNew()
    {
      hide Wired, Built, SetupOf, PlanOf, RequestsOf, Reached, ConfReady, Entries;
      dummyLogger := new Logger("", null, "", NONE);
      if logMap != map[] {
        return AlreadyInited;
      }
      if file.None? {
        return NoFile;
      }
      r := Fill(file, env, able);
    }

    /** Lines 64-139, on an empty registry. */
    method Fill(file: Option<string>, env: Env, able: string -> bool) returns (r: Result)
      requires Valid() && logMap == map[] && file.Some? && ConfReady(file.value, env)
      modifies this`logMap, this`appenderMap, this`wfLogger, this`atexits
      ensures Valid()
      ensures var plan := PlanOf(file.value, env);
        && Shows(Reached(RequestsOf(file.value, env)), SetupOf(Entries(file.value, ":", "#"), env)) && Started(able)
        && if plan.Loaded? then
          && r == Success && atexits == old(atexits) + 1
          && wfLogger == (if WFLOGINSTANCE in logMap then logMap[WFLOGINSTANCE] else dummyLogger)
        else r == Ended(plan) && atexits == old(atexits) && wfLogger == old(wfLogger)
      ensures OnlyNew()
    {
      hide Valid, Shows, Started, Wired, Built, SetupOf, Load, Reached, Requests, Values, Entries, AllReady;
      var vec, s := ReadSettings(file, env);
      r := Populate(vec, s, able);
      if r != Success { return; }
      if WFLOGINSTANCE in logMap {
        wfLogger := logMap[WFLOGINSTANCE];
      } else {
        wfLogger := dummyLogger;
      }
      atexits := atexits + 1;
    }

    /** Lines 83-128: the loop over the instances. */
    method Populate(vec: seq<string>, s: Setup, able: string -> bool) returns (r: Result)
      requires Valid() && logMap == map[] && AllReady(vec, s)
      modifies this`logMap, this`appenderMap
      ensures Valid() && Started(able)
      ensures Shows(Reached(Requests(vec, s)), s)
      ensures Load(Requests(vec, s)).Loaded? ==> r == Success
      ensures !Load(Requests(vec, s)).Loaded? ==> r == Ended(Load(Requests(vec, s)))
      ensures OnlyNew()
    {
      hide Wired, Built, Load, Reached, Enter, Read;
      ghost var rs := Requests(vec, s);
      NoneUnused(logMap, appenderMap);
      assert rs[..0] == [];
      NothingShown(s);
      for i := 0 to |vec|
        invariant Valid() && Load(rs[..i]).Loaded? && Shows(Load(rs[..i]).book, s)
        invariant Started(able) && OnlyNew()
      {
        var failed := Configure(vec[i], s, able, Load(rs[..i]).book);
        LoadNext(rs, i);
        if failed.Some? {
          LoadStuck(rs, i + 1);
          ReachedAt(rs, i);
          return Ended(failed.value);
        }
      }
      assert rs[..|vec|] == rs;
      ReachedAll(rs);
      r := Success;
    }

    lemma NothingShown(s: Setup)
      requires logMap == map[] && appenderMap == map[]
      ensures Load([]).Loaded? && Shows(Load([]).book, s)
    {
    }

    /** Lines 142-154: every logger is deleted, stopping its appender; then every appender. */
    method Destroy()
      requires Valid()
      modifies this`logMap, this`appenderMap, this`deletedLoggers, this`deletedAppenders
      modifies logMap.Values, appenderMap.Values
      ensures Valid() && logMap == map[] && appenderMap == map[]
      ensures deletedLoggers == old(deletedLoggers) + old(logMap.Values)
      ensures deletedAppenders == old(deletedAppenders) + old(appenderMap.Values)
      // each appender was stopped once for each logger that used it
      ensures forall p <- old(appenderMap) ::
        StoppedBy(old(logMap), old(appenderMap)[p], old(logMap.Keys), old(appenderMap[p].stops))
      // the warning logger is left dangling exactly when it is a configured one
      ensures wfLogger != null && old(wfLogger.alive) ==> (wfLogger.alive <==> wfLogger !in old(logMap.Values))
    {
      hide Wired, StoppedBy;
      ClearLoggers();
      ClearAppenders();
      NothingWired();
    }

    /** Lines 145-148. */
    method ClearLoggers()
      requires Valid()
      modifies this`logMap, this`deletedLoggers, logMap.Values, appenderMap.Values
      ensures logMap == map[] && deletedLoggers == old(deletedLoggers) + old(logMap.Values)
      ensures forall l <- deletedLoggers :: !l.alive
      ensures forall a <- deletedAppenders :: !a.alive && !a.running
      ensures forall p <- appenderMap :: appenderMap[p].path == p && appenderMap[p].alive && !appenderMap[p].running
      ensures forall p <- appenderMap ::
        StoppedBy(old(logMap), appenderMap[p], old(logMap.Keys), old(appenderMap[p].stops))
      ensures dummyLogger != null ==> dummyLogger.alive
    {
      hide Wired, Users;
      OneFiling(logMap, appenderMap);
      DeleteLoggers();
      deletedLoggers := deletedLoggers + logMap.Values;
      logMap := map[];
    }

    /** Lines 150-153. */
    method ClearAppenders()
      requires forall p <- appenderMap :: appenderMap[p].path == p && appenderMap[p].alive && !appenderMap[p].running
      requires forall a <- deletedAppenders :: !a.alive && !a.running
      modifies this`appenderMap, this`deletedAppenders
      modifies set p <- appenderMap :: appenderMap[p]`alive
      ensures appenderMap == map[] && deletedAppenders == old(deletedAppenders) + old(appenderMap.Values)
      ensures forall a <- deletedAppenders :: !a.alive && !a.running
    {
      var todo := appenderMap.Keys;
      while todo != {}
        invariant appenderMap == old(appenderMap) && deletedAppenders == old(deletedAppenders)
        invariant todo <= appenderMap.Keys
        invariant forall p <- appenderMap :: !appenderMap[p].running && (appenderMap[p].alive <==> p in todo)
        invariant forall a <- deletedAppenders :: !a.alive && !a.running
        decreases todo
      {
        var p :| p in todo;
        appenderMap[p].Delete();
        todo := todo - {p};
      }
      deletedAppenders := deletedAppenders + appenderMap.Values;
      appenderMap := map[];
    }

    method DeleteLoggers()
      requires Valid()
      modifies logMap.Values, appenderMap.Values
      ensures forall k <- logMap :: !logMap[k].alive
      ensures forall p <- appenderMap :: appenderMap[p].alive && !appenderMap[p].running
      ensures forall p <- appenderMap :: StoppedBy(logMap, appenderMap[p], logMap.Keys, old(appenderMap[p].stops))
    {
      hide Wired;
      var todo := logMap.Keys;
      ghost var before := map p | p in appenderMap :: appenderMap[p].stops;
      StartHalfDone(before);
      assert logMap.Keys - todo == {};
      while todo != {}
        invariant todo <= logMap.Keys && HalfDone(logMap.Keys - todo, before)
        decreases todo
      {
        var k :| k in todo;
        Shrinks(logMap.Keys, todo, k);
        Filing(logMap, appenderMap, k);
        DeleteLogger(k, logMap.Keys - todo, before);
        todo := todo - {k};
      }
      assert logMap.Keys - {} == logMap.Keys;
      AllIdle(before);
    }

    lemma AllIdle(before: map<string, nat>)
      requires HalfDone(logMap.Keys, before)
      ensures forall p <- appenderMap :: !appenderMap[p].running
    {
      forall p <- appenderMap ensures !appenderMap[p].running {
        AllUsed(logMap, appenderMap, p);
      }
    }

    lemma StartHalfDone(before: map<string, nat>)
      requires Valid() && before == map p | p in appenderMap :: appenderMap[p].stops
      ensures HalfDone({}, before)
    {
      forall p <- appenderMap ensures StoppedBy(logMap, appenderMap[p], {}, before[p]) {
        assert Users(logMap, {}, appenderMap[p]) == {};
      }
    }

    lemma Shrinks(all: set<string>, todo: set<string>, k: string)
      requires k in todo && todo <= all
      ensures all - (todo - {k}) == (all - todo) + {k}
    {
    }

    ghost predicate HalfDone(done: set<string>, before: map<string, nat>)
      reads this, logMap.Values, appenderMap.Values
    {
      && Wired(logMap, appenderMap) && appenderMap.Keys == before.Keys
      && (forall k <- logMap :: logMap[k].alive <==> k !in done)
      && (forall p <- appenderMap :: appenderMap[p].alive && StoppedBy(logMap, appenderMap[p], done, before[p]))
    }

    method DeleteLogger(k: string, ghost done: set<string>, ghost before: map<string, nat>)
      requires HalfDone(done, before) && k in logMap && k !in done
      modifies logMap[k], logMap[k].appender
      ensures HalfDone(done + {k}, before)
    {
      hide Wired, Users;
      Filing(logMap, appenderMap, k);
      OneFiling(logMap, appenderMap);
      logMap[k].Delete();
      forall p <- appenderMap ensures StoppedBy(logMap, appenderMap[p], done + {k}, before[p]) {
        UsersNext(logMap, done, k, appenderMap[p]);
      }
    }
  }

  lemma BuiltNames(loggers: map<string, Logger>, appenders: map<string, Appender>, b: Book, s: Setup)
    requires Built(loggers, appenders, b, s)
    ensures loggers.Keys == b.loggers.Keys
  {
  }

  lemma NothingWired()
    ensures Wired(map[], map[])
  {
  }

  lemma Filing(loggers: map<string, Logger>, appenders: map<string, Appender>, k: string)
    requires Wired(loggers, appenders) && k in loggers
    ensures loggers[k].appender != null && loggers[k].appender in appenders.Values
  {
    assert Registered(appenders, loggers[k].appender);
  }

  lemma OneFiling(loggers: map<string, Logger>, appenders: map<string, Appender>)
    requires Wired(loggers, appenders)
    ensures forall j, k | j in loggers && k in loggers && loggers[j] == loggers[k] :: j == k
    ensures forall k <- loggers :: loggers[k].appender != null
    ensures forall p <- appenders :: appenders[p].path == p
  {
  }

  lemma UsersNext(loggers: map<string, Logger>, done: set<string>, k: string, a: Appender)
    requires k in loggers && k !in done
    ensures var next := if loggers[k].appender == a then {k} else {};
      Users(loggers, done + {k}, a) == Users(loggers, done, a) + next
    ensures |Users(loggers, done + {k}, a)| ==
      |Users(loggers, done, a)| + (if loggers[k].appender == a then 1 else 0)
  {
    var next := if loggers[k].appender == a then {k} else {};
    assert Users(loggers, done + {k}, a) == Users(loggers, done, a) + next;
  }

  lemma AllUsed(loggers: map<string, Logger>, appenders: map<string, Appender>, p: string)
    requires Wired(loggers, appenders) && p in appenders
    ensures Users(loggers, loggers.Keys, appenders[p]) != {}
  {
    assert InUse(loggers, appenders[p]);
    var k :| k in loggers && loggers[k].appender == appenders[p];
    assert k in Users(loggers, loggers.Keys, appenders[p]);
  }

  lemma NoneUnused(loggers: map<string, Logger>, appenders: map<string, Appender>)
    requires Wired(loggers, appenders) && loggers == map[]
    ensures appenders == map[]
  {
    assert forall p <- appenders :: InUse(loggers, appenders[p]);
  }
}
