/** What a list of `log.instance` values asks for (the loop of `CLogger::init`,
    src/Log.cc:83-128), as a fold over plain values. */
module Plan {
  import opened Options
  import opened PathBuffer
  import opened LogPath
  import opened Numerals
  import opened Instances

  /** The settings `init` reads before the instances. */
  datatype Setup = Setup(prefix: string, async: bool, splitFormat: string, env: Env)

  function DefaultFile(i: Instance): string { i.name + ".log" }

  predicate InstanceReady(inst: string, s: Setup) {
    Checked(inst).Some? ==>
      KeyReady(s.env, Checked(inst).value.path, s.prefix, DefaultFile(Checked(inst).value))
  }

  predicate AllReady(vec: seq<string>, s: Setup) {
    s.env.pathMax > 1 && forall v <- vec :: InstanceReady(v, s)
  }

  /** What one value asks for: nothing, nonsense, or a logger writing to the file `key`
      (None when the path cannot be resolved). */
  datatype Request =
    | Blank
    | Malformed
    | Wanted(name: string, format: string, level: int, key: Option<string>, size: nat)

  function Read(inst: string, s: Setup): Request
    requires InstanceReady(inst, s)
  {
    if inst == "" then Blank
    else match Checked(inst)
      case None => Malformed
      case Some(i) =>
        Wanted(i.name, i.format, Atoi(i.level), Key(s.env, i.path, s.prefix, DefaultFile(i)), Strtoul(i.size))
  }

  /** Empty values ask for nothing, the others for a logger exactly if they are acceptable. */
  lemma ReadExactly(inst: string, s: Setup)
    requires InstanceReady(inst, s)
    ensures Read(inst, s).Blank? <==> inst == ""
    ensures Read(inst, s).Wanted? <==> Acceptable(inst)
  {
    CheckedExactly(inst);
    assert inst == "" ==> !Acceptable(inst);
    hide Key, Atoi, Strtoul, Checked, Acceptable;
  }

  function Requests(vec: seq<string>, s: Setup): (rs: seq<Request>)
    requires AllReady(vec, s)
    ensures |rs| == |vec| && forall j | 0 <= j < |vec| :: rs[j] == Read(vec[j], s)
  {
    seq(|vec|, j requires 0 <= j < |vec| => Read(vec[j], s))
  }

  datatype LoggerInfo = LoggerInfo(format: string, level: int, key: string)

  /** Loggers by name, and the split size of each appender by its canonical path. */
  datatype Book = Book(loggers: map<string, LoggerInfo>, sizes: map<string, nat>)

  /** The ways out of the loop: two are `exit(1)`, the last is the assertion in `toRealPath`. */
  datatype Outcome = Loaded(book: Book) | BadFormat | Duplicate | NoPath

  function Filed(b: Book, name: string, info: LoggerInfo, size: nat): Book {
    Book(b.loggers[name := info], if info.key in b.sizes then b.sizes else b.sizes[info.key := size])
  }

  function Enter(b: Book, r: Request): Outcome {
    match r
    case Blank => Loaded(b)
    case Malformed => BadFormat
    case Wanted(name, format, level, key, size) =>
      if name in b.loggers then Duplicate
      else if key.None? then NoPath
      else Loaded(Filed(b, name, LoggerInfo(format, level, key.value), size))
  }

  function Load(rs: seq<Request>): Outcome {
    if rs == [] then Loaded(Book(map[], map[]))
    else
      var front := Load(rs[..|rs| - 1]);
      if front.Loaded? then Enter(front.book, rs[|rs| - 1]) else front
  }

  /** A failure is final. */
  lemma {:induction false} LoadStuck(rs: seq<Request>, n: nat)
    requires n <= |rs| && !Load(rs[..n]).Loaded?
    ensures Load(rs) == Load(rs[..n])
    decreases |rs|
  {
    if n < |rs| {
      assert rs[..|rs| - 1][..n] == rs[..n];
      LoadStuck(rs[..|rs| - 1], n);
    } else {
      assert rs[..n] == rs;
    }
  }

  /** What the loop had built when it ended, in success or in failure. */
  function Reached(rs: seq<Request>): Book
    decreases |rs|
  {
    if Load(rs).Loaded? then Load(rs).book else Reached(rs[..|rs| - 1])
  }

  lemma ReachedAll(rs: seq<Request>)
    requires Load(rs).Loaded?
    ensures Reached(rs) == Load(rs).book
  {
  }

  lemma {:induction false} ReachedAt(rs: seq<Request>, n: nat)
    requires n < |rs| && Load(rs[..n]).Loaded? && !Load(rs[..n + 1]).Loaded?
    ensures Reached(rs) == Load(rs[..n]).book
    decreases |rs|
  {
    var front := rs[..|rs| - 1];
    LoadStuck(rs, n + 1);
    if n < |front| {
      assert front[..n] == rs[..n] && front[..n + 1] == rs[..n + 1];
      ReachedAt(front, n);
    } else {
      assert front == rs[..n];
    }
  }

  lemma LoadNext(rs: seq<Request>, n: nat)
    requires n < |rs| && Load(rs[..n]).Loaded?
    ensures Load(rs[..n + 1]) == Enter(Load(rs[..n]).book, rs[n])
  {
    assert rs[..n + 1][..n] == rs[..n];
  }

  // ------------------------------------------------------ the plan, declared

  ghost predicate AllFine(rs: seq<Request>) {
    forall j | 0 <= j < |rs| :: !rs[j].Malformed? && (rs[j].Wanted? ==> rs[j].key.Some?)
  }

  ghost predicate Distinct(rs: seq<Request>) {
    forall i, j | 0 <= i < j < |rs| && rs[i].Wanted? && rs[j].Wanted? :: rs[i].name != rs[j].name
  }

  /** Request `j` is the first to name its file. */
  ghost predicate First(rs: seq<Request>, j: nat) {
    && j < |rs| && rs[j].Wanted?
    && forall i | 0 <= i < j && rs[i].Wanted? :: rs[i].key != rs[j].key
  }

  /** Each request has its logger and each logger its request; each request has its
      appender, and each appender the size of the first request naming its file. */
  ghost predicate Fulfils(b: Book, rs: seq<Request>) {
    && (forall j | 0 <= j < |rs| && rs[j].Wanted? :: Granted(b, rs[j]))
    && (forall n <- b.loggers :: exists j | 0 <= j < |rs| :: rs[j].Wanted? && rs[j].name == n)
    && (forall k <- b.sizes ::
         exists j | 0 <= j < |rs| :: First(rs, j) && rs[j].key == Some(k) && b.sizes[k] == rs[j].size)
  }

  ghost predicate Granted(b: Book, r: Request)
    requires r.Wanted?
  {
    && r.key.Some? && r.key.value in b.sizes
    && r.name in b.loggers && b.loggers[r.name] == LoggerInfo(r.format, r.level, r.key.value)
  }

  lemma GrantedNext(b: Book, r: Request, q: Request)
    requires Enter(b, r).Loaded? && q.Wanted? && Granted(b, q)
    ensures Granted(Enter(b, r).book, q)
  {
  }

  lemma GrantedFile(b: Book, r: Request)
    requires r.Wanted? && Granted(b, r)
    ensures r.key.Some? && r.key.value in b.sizes
  {
  }

  lemma FirstNext(b: Book, rs: seq<Request>, r: Request, k: string) returns (j: nat)
    requires Fulfils(b, rs) && Enter(b, r).Loaded? && k in Enter(b, r).book.sizes
    ensures j <= |rs| && First(rs + [r], j) && (rs + [r])[j].key == Some(k)
    ensures Enter(b, r).book.sizes[k] == (rs + [r])[j].size
  {
    hide Granted;
    if k in b.sizes {
      var i :| 0 <= i < |rs| && First(rs, i) && rs[i].key == Some(k) && b.sizes[k] == rs[i].size;
      j := i;
    } else {
      j := |rs|;
      forall i | 0 <= i < j && rs[i].Wanted? ensures rs[i].key != r.key {
        GrantedFile(b, rs[i]);
      }
    }
  }

  lemma FulfilsNext(b: Book, rs: seq<Request>, r: Request)
    requires Fulfils(b, rs) && Enter(b, r).Loaded?
    ensures Fulfils(Enter(b, r).book, rs + [r])
  {
    var b', rs', n := Enter(b, r).book, rs + [r], |rs|;
    assert rs'[n] == r;
    forall j | 0 <= j < |rs'| && rs'[j].Wanted? ensures Granted(b', rs'[j]) {
      if j < n {
        GrantedNext(b, r, rs[j]);
      }
    }
    forall m <- b'.loggers ensures exists j | 0 <= j < |rs'| :: rs'[j].Wanted? && rs'[j].name == m {
      if m in b.loggers {
        var j :| 0 <= j < |rs| && rs[j].Wanted? && rs[j].name == m;
        assert rs'[j] == rs[j];
      }
    }
    forall k <- b'.sizes
      ensures exists j | 0 <= j < |rs'| :: First(rs', j) && rs'[j].key == Some(k) && b'.sizes[k] == rs'[j].size
    {
      var j := FirstNext(b, rs, r, k);
    }
  }

  /** The loop succeeds exactly on lists of fine requests with distinct names, and then
      builds exactly what they ask for. */
  lemma {:induction false} LoadExactly(rs: seq<Request>)
    ensures Load(rs).Loaded? <==> AllFine(rs) && Distinct(rs)
    ensures Load(rs).Loaded? ==> Fulfils(Load(rs).book, rs)
    decreases |rs|
  {
    if rs != [] {
      var n := |rs| - 1;
      var front, r := rs[..n], rs[n];
      LoadExactly(front);
      assert rs == front + [r];
      if Load(front).Loaded? {
        var b := Load(front).book;
        if Enter(b, r).Loaded? {
          FulfilsNext(b, front, r);
        }
        NameFree(b, front, r);
      } else {
        assert forall j | 0 <= j < n :: rs[j] == front[j];
      }
    }
  }

  /** Entry `j` is the first that the loop cannot carry out. */
  ghost predicate FirstBad(rs: seq<Request>, j: nat) {
    && j < |rs| && AllFine(rs[..j]) && Distinct(rs[..j])
    && !(AllFine(rs[..j + 1]) && Distinct(rs[..j + 1]))
  }

  /** How the loop fails: as the first bad entry does, a repeated name before a path. */
  lemma FailsAs(rs: seq<Request>, j: nat)
    requires FirstBad(rs, j)
    ensures rs[j].Malformed? ==> Load(rs) == BadFormat
    ensures rs[j].Wanted? && (exists i | 0 <= i < j :: rs[i].Wanted? && rs[i].name == rs[j].name) ==>
      Load(rs) == Duplicate
    ensures rs[j].Wanted? && (forall i | 0 <= i < j && rs[i].Wanted? :: rs[i].name != rs[j].name) ==>
      rs[j].key.None? && Load(rs) == NoPath
    ensures !rs[j].Blank? && Load(rs[..j]).Loaded? && Reached(rs) == Load(rs[..j]).book
  {
    var front := rs[..j];
    assert rs[..j + 1] == front + [rs[j]];
    LoadExactly(front);
    LoadExactly(rs[..j + 1]);
    LoadNext(rs, j);
    LoadStuck(rs, j + 1);
    ReachedAt(rs, j);
    hide Load, Reached, Fulfils;
    FineNext(front, rs[j]);
    DistinctNext(front, rs[j]);
    if rs[j].Wanted? {
      NameIsKnown(front, rs[j].name);
    }
  }

  lemma NameIsKnown(rs: seq<Request>, name: string)
    requires Load(rs).Loaded?
    ensures name in Load(rs).book.loggers <==> exists j | 0 <= j < |rs| :: rs[j].Wanted? && rs[j].name == name
  {
    LoadExactly(rs);
    hide Load;
    NameKnown(Load(rs).book, rs, name);
  }

  /** And a loop that fails has a first bad entry. */
  lemma {:induction false} HasFirstBad(rs: seq<Request>) returns (j: nat)
    requires !Load(rs).Loaded?
    ensures FirstBad(rs, j)
    decreases |rs|
  {
    var n := |rs| - 1;
    LoadExactly(rs);
    LoadExactly(rs[..n]);
    assert rs[..n + 1] == rs;
    if Load(rs[..n]).Loaded? {
      j := n;
    } else {
      j := HasFirstBad(rs[..n]);
      assert rs[..n][..j] == rs[..j] && rs[..n][..j + 1] == rs[..j + 1];
    }
  }

  lemma FineNext(front: seq<Request>, r: Request)
    ensures AllFine(front + [r]) <==> AllFine(front) && !r.Malformed? && (r.Wanted? ==> r.key.Some?)
  {
    var rs, n := front + [r], |front|;
    assert rs[n] == r && forall j | 0 <= j < n :: rs[j] == front[j];
  }

  lemma DistinctNext(front: seq<Request>, r: Request)
    ensures Distinct(front + [r]) <==>
      Distinct(front) && (r.Wanted? ==> forall j | 0 <= j < |front| && front[j].Wanted? :: front[j].name != r.name)
  {
    var rs, n := front + [r], |front|;
    assert rs[n] == r && forall j | 0 <= j < n :: rs[j] == front[j];
  }

  lemma NameFree(b: Book, front: seq<Request>, r: Request)
    requires Fulfils(b, front) && AllFine(front) && Distinct(front)
    ensures Enter(b, r).Loaded? <==> AllFine(front + [r]) && Distinct(front + [r])
  {
    hide Fulfils, AllFine, Distinct;
    FineNext(front, r);
    DistinctNext(front, r);
    if r.Wanted? {
      NameKnown(b, front, r.name);
    }
  }

  lemma NameKnown(b: Book, rs: seq<Request>, name: string)
    requires Fulfils(b, rs)
    ensures name in b.loggers <==> exists j | 0 <= j < |rs| :: rs[j].Wanted? && rs[j].name == name
  {
    forall j | 0 <= j < |rs| && rs[j].Wanted? ensures rs[j].name in b.loggers {
      assert Granted(b, rs[j]);
    }
  }

  /** Two loggers are planned on one file exactly when their requests resolve alike. */
  lemma SharePlanned(rs: seq<Request>, i: nat, j: nat)
    requires Load(rs).Loaded? && i < |rs| && j < |rs| && rs[i].Wanted? && rs[j].Wanted?
    ensures rs[i].name in Load(rs).book.loggers && rs[j].name in Load(rs).book.loggers
    ensures Load(rs).book.loggers[rs[i].name].key == Load(rs).book.loggers[rs[j].name].key <==> rs[i].key == rs[j].key
  {
    LoadExactly(rs);
    assert Granted(Load(rs).book, rs[i]) && Granted(Load(rs).book, rs[j]);
  }
}
