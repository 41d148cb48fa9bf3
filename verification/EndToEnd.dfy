/** From printed configuration text to the registry: `TextConfig`, `split`, `splitCheck`
    and the loop of `init` undo the printing of settings and instances. */
module EndToEnd {
  import opened Text
  import opened Numerals
  import opened PathBuffer
  import opened LogPath
  import opened Instances
  import opened Plan
  import opened Registry
  import opened Conf

  const INSTANCE_KEY := "log.instance"

  function InstanceEntries(insts: seq<Instance>): seq<Entry> {
    if insts == [] then [] else [Entry(INSTANCE_KEY, PrintInstance(insts[0]))] + InstanceEntries(insts[1..])
  }

  function ConfigText(settings: seq<Entry>, insts: seq<Instance>): string {
    PrintEntries(settings + InstanceEntries(insts), ':')
  }

  /** Tidy, and free of what the line format gives a meaning to. */
  ghost predicate Writable(i: Instance) {
    Tidy(i) && Free(Fields(i), '#') && Free(Fields(i), NEWLINE)
  }

  ghost predicate Settings(settings: seq<Entry>) {
    forall e <- settings :: Printable(e, ':', '#') && e.key != INSTANCE_KEY
  }

  lemma {:induction false} JoinAvoids(ps: seq<string>, det: char, x: char)
    requires ps != [] && Free(ps, x) && x != det
    ensures x !in Join(ps, det)
  {
    if |ps| > 1 {
      JoinAvoids(ps[1..], det, x);
    }
  }

  lemma {:induction false} JoinEnds(ps: seq<string>, det: char)
    requires |ps| > 1
    ensures Join(ps, det) != ""
    ensures var last := ps[|ps| - 1];
      Join(ps, det)[|Join(ps, det)| - 1] == if last == "" then det else last[|last| - 1]
  {
    if |ps| > 2 {
      JoinEnds(ps[1..], det);
    }
  }

  lemma PrintBegins(i: Instance)
    requires i.name != ""
    ensures PrintInstance(i) != "" && PrintInstance(i)[0] == i.name[0]
  {
    var rest := Join(Fields(i)[1..], COMMA);
    assert PrintInstance(i) == i.name + [COMMA] + rest;
  }

  lemma PrintableInstance(i: Instance)
    requires Writable(i)
    ensures Printable(Entry(INSTANCE_KEY, PrintInstance(i)), ':', '#')
  {
    hide Join;
    JoinAvoids(Fields(i), COMMA, '#');
    JoinAvoids(Fields(i), COMMA, NEWLINE);
    JoinEnds(Fields(i), COMMA);
    assert i.name in Fields(i) && i.level in Fields(i);
    PrintBegins(i);
  }

  lemma {:induction false} PrintableInstances(insts: seq<Instance>)
    requires forall i <- insts :: Writable(i)
    ensures forall e <- InstanceEntries(insts) :: Printable(e, ':', '#')
    decreases |insts|
  {
    if insts != [] {
      PrintableInstance(insts[0]);
      PrintableInstances(insts[1..]);
    }
  }

  function Printed(insts: seq<Instance>): seq<string> {
    if insts == [] then [] else [PrintInstance(insts[0])] + Printed(insts[1..])
  }

  lemma {:induction false} InstanceValues(insts: seq<Instance>, key: string)
    ensures Values(InstanceEntries(insts), key) == if key == INSTANCE_KEY then Printed(insts) else []
    decreases |insts|
  {
    if insts != [] {
      var e, later := Entry(INSTANCE_KEY, PrintInstance(insts[0])), InstanceEntries(insts[1..]);
      InstanceValues(insts[1..], key);
      assert ([e] + later)[0] == e && ([e] + later)[1..] == later;
    }
  }

  lemma {:induction false} NoValues(es: seq<Entry>, key: string)
    requires forall e <- es :: e.key != key
    ensures Values(es, key) == []
    decreases |es|
  {
    if es != [] {
      NoValues(es[1..], key);
    }
  }

  /** The instances come back as the values of their key, every setting as it was. */
  lemma TextReads(settings: seq<Entry>, insts: seq<Instance>, key: string)
    requires Settings(settings) && forall i <- insts :: Writable(i)
    ensures Values(Entries(ConfigText(settings, insts), ":", "#"), key) ==
      if key == INSTANCE_KEY then Printed(insts) else Values(settings, key)
  {
    var es := settings + InstanceEntries(insts);
    PrintableInstances(insts);
    PrintParses(es, ':', '#');
    assert [':'] == ":" && ['#'] == "#";
    ValuesAppend(settings, InstanceEntries(insts), key);
    InstanceValues(insts, key);
    if key == INSTANCE_KEY {
      NoValues(settings, key);
    }
  }

  /** What an instance asks for, said without any text. */
  function Intended(i: Instance, s: Setup): Request
    requires KeyReady(s.env, i.path, s.prefix, DefaultFile(i))
  {
    Wanted(i.name, i.format,
           if i.level != "" && 0 <= Atoi(i.level) <= LEVEL_ALL then Atoi(i.level) else LEVEL_ALL,
           Key(s.env, i.path, s.prefix, DefaultFile(i)), Strtoul(i.size))
  }

  lemma ReadsIntended(i: Instance, s: Setup)
    requires Writable(i) && KeyReady(s.env, i.path, s.prefix, DefaultFile(i))
    ensures InstanceReady(PrintInstance(i), s) && Read(PrintInstance(i), s) == Intended(i, s)
  {
    hide Checked, KeyReady, Key, Atoi, Strtoul;
    PrintChecks(i);
    PrintableInstance(i);
    JoinEnds(Fields(i), COMMA);
    LevelReads(i.level);
  }

  /** The same without the model's own words: each field where it belongs, and the file below
      the prefix or where the path says, `name.log` in the directory if it names one. */
  lemma ReadsPlainly(i: Instance, s: Setup)
    requires Writable(i) && KeyReady(s.env, i.path, s.prefix, DefaultFile(i))
    requires CString(i.path) && CString(i.name) && Tidied(s.prefix)
    ensures InstanceReady(PrintInstance(i), s)
    ensures var r := Read(PrintInstance(i), s);
      && r.Wanted? && r.name == i.name && r.format == i.format && r.size == Strtoul(i.size)
      && r.level == (if i.level != "" && 0 <= Atoi(i.level) <= LEVEL_ALL then Atoi(i.level) else LEVEL_ALL)
    ensures var anchored := i.path[0] == '/' || i.path[0] == '.' || i.path[0] == '~';
      var place := if anchored then i.path else s.prefix + "/" + i.path;
      var file := if EndsIn(i.path, '.') || EndsIn(i.path, '/') then place + "/" + (i.name + ".log") else place;
      Usable(s.env, file) && Read(PrintInstance(i), s).key == Real(s.env, file)
  {
    ReadsIntended(i, s);
    FieldsTidied(i);
    assert !EndsIn(i.name + ".log", '/');
    hide Writable, Tidied, KeyReady, Key, Atoi, Strtoul, Real, Usable, Read, PrintInstance, InstanceReady;
    KeyOfPath(s.env, i.path, s.prefix, i.name + ".log");
  }

  lemma FieldsTidied(i: Instance)
    requires Writable(i) && CString(i.path) && CString(i.name)
    ensures Tidied(i.path) && Tidied(DefaultFile(i))
  {
    assert i.name in Fields(i) && i.path in Fields(i);
    assert (i.name + ".log")[|i.name| + 3] == 'g';
  }

  lemma LevelReads(level: string)
    ensures Atoi(LevelText(level)) ==
      if level != "" && 0 <= Atoi(level) <= LEVEL_ALL then Atoi(level) else LEVEL_ALL
  {
    DecimalReads(LEVEL_ALL);
  }

  ghost predicate InstancesReady(insts: seq<Instance>, s: Setup) {
    s.env.pathMax > 1 && forall i <- insts :: Writable(i) && KeyReady(s.env, i.path, s.prefix, DefaultFile(i))
  }

  lemma {:induction false} PrintedAt(insts: seq<Instance>)
    ensures |Printed(insts)| == |insts|
    ensures forall j | 0 <= j < |insts| :: Printed(insts)[j] == PrintInstance(insts[j])
    decreases |insts|
  {
    if insts != [] {
      PrintedAt(insts[1..]);
    }
  }

  ghost function AllIntended(insts: seq<Instance>, s: Setup): seq<Request>
    requires InstancesReady(insts, s)
  {
    seq(|insts|, j requires 0 <= j < |insts| => Intended(insts[j], s))
  }

  lemma SettingsRead(settings: seq<Entry>, insts: seq<Instance>, env: Env)
    requires Settings(settings) && forall i <- insts :: Writable(i)
    ensures var es := Entries(ConfigText(settings, insts), ":", "#");
      SetupOf(es, env) == SetupOf(settings, env) && Values(es, INSTANCE_KEY) == Printed(insts)
  {
    hide Settings, Writable, Entries, ConfigText, Values, Printed;
    TextReads(settings, insts, INSTANCE_KEY);
    TextReads(settings, insts, "log.prefix");
    TextReads(settings, insts, "log.async");
    TextReads(settings, insts, "log.splitFormat");
  }

  lemma RequestsRead(insts: seq<Instance>, s: Setup)
    requires InstancesReady(insts, s)
    ensures AllReady(Printed(insts), s) && Requests(Printed(insts), s) == AllIntended(insts, s)
  {
    hide Writable, KeyReady, Intended, Read, InstanceReady, Printed, PrintInstance;
    PrintedAt(insts);
    forall j | 0 <= j < |insts|
      ensures InstanceReady(PrintInstance(insts[j]), s) && Read(PrintInstance(insts[j]), s) == Intended(insts[j], s)
    {
      ReadsIntended(insts[j], s);
    }
  }

  /** `init` on a printed configuration reads exactly the intended requests, and carries them
      out up to the first that fails. */
  lemma RoundTrip(settings: seq<Entry>, insts: seq<Instance>, env: Env)
    requires Settings(settings) && InstancesReady(insts, SetupOf(settings, env))
    ensures ConfReady(ConfigText(settings, insts), env)
    ensures SetupOf(Entries(ConfigText(settings, insts), ":", "#"), env) == SetupOf(settings, env)
    ensures FirstOr(settings, "log.prefix", "./", SetupOf(settings, env).prefix)
    ensures FirstOr(settings, "log.splitFormat", "_%Y%m%d_%H%M%S_%P_%n", SetupOf(settings, env).splitFormat)
    ensures SetupOf(settings, env).async <==> FirstIs(settings, "log.async", "true")
    ensures RequestsOf(ConfigText(settings, insts), env) == AllIntended(insts, SetupOf(settings, env))
    ensures PlanOf(ConfigText(settings, insts), env) == Load(AllIntended(insts, SetupOf(settings, env)))
  {
    hide InstancesReady, AllIntended, AllReady, SetupOf, Entries, Values, ConfigText, FirstOr, FirstIs, Load, Requests;
    assert forall i <- insts :: Writable(i) by { AllWritable(insts, SetupOf(settings, env)); }
    SettingsRead(settings, insts, env);
    SettingsExactly(settings, env);
    RequestsRead(insts, SetupOf(settings, env));
  }

  lemma AllWritable(insts: seq<Instance>, s: Setup)
    requires InstancesReady(insts, s)
    ensures forall i <- insts :: Writable(i)
  {
  }

  /** So it succeeds exactly when the names are distinct and the paths can be resolved. */
  lemma RoundTripSucceeds(settings: seq<Entry>, insts: seq<Instance>, env: Env)
    requires Settings(settings) && InstancesReady(insts, SetupOf(settings, env))
    ensures ConfReady(ConfigText(settings, insts), env)
    ensures PlanOf(ConfigText(settings, insts), env).Loaded? <==>
      && (forall i, j | 0 <= i < j < |insts| :: insts[i].name != insts[j].name)
      && (forall i <- insts :: Intended(i, SetupOf(settings, env)).key.Some?)
  {
    RoundTrip(settings, insts, env);
    hide *;
    IntendedSucceeds(insts, SetupOf(settings, env));
  }

  lemma IntendedSucceeds(insts: seq<Instance>, s: Setup)
    requires InstancesReady(insts, s)
    ensures Load(AllIntended(insts, s)).Loaded? <==>
      && (forall i, j | 0 <= i < j < |insts| :: insts[i].name != insts[j].name)
      && (forall i <- insts :: Intended(i, s).key.Some?)
  {
    var rs := AllIntended(insts, s);
    LoadExactly(rs);
    hide *;
    IntendedFine(insts, s);
    IntendedDistinct(insts, s);
  }

  lemma IntendedFine(insts: seq<Instance>, s: Setup)
    requires InstancesReady(insts, s)
    ensures AllFine(AllIntended(insts, s)) <==> forall i <- insts :: Intended(i, s).key.Some?
  {
    hide Writable, KeyReady, Key, Atoi, Strtoul;
    var rs := AllIntended(insts, s);
    assert forall j | 0 <= j < |insts| :: rs[j] == Intended(insts[j], s) && insts[j] in insts;
  }

  lemma IntendedDistinct(insts: seq<Instance>, s: Setup)
    requires InstancesReady(insts, s)
    ensures Distinct(AllIntended(insts, s)) <==>
      forall i, j | 0 <= i < j < |insts| :: insts[i].name != insts[j].name
  {
    hide Writable, KeyReady, Key, Atoi, Strtoul;
    var rs := AllIntended(insts, s);
    assert forall j | 0 <= j < |insts| :: rs[j].Wanted? && rs[j].name == insts[j].name;
  }
}
