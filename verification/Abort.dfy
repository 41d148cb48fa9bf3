/** A process whose handler is registered and never runs, found with public calls alone. */
module Abort {
  import opened Options
  import opened Text
  import opened Paths
  import opened PathBuffer
  import opened LogPath
  import opened Numerals
  import opened Instances
  import opened Conf
  import opened Plan
  import opened Registry
  import opened EndToEnd
  import opened Runs

  /** A process whose working directory cannot be reported. */
  const NOWHERE := Env(None, None, 4096)

  const KEPT := Instance("a", "f", "/x", "", "")
  const FATAL := Instance("b", "f", "y", "", "")

  const TEXT := "log.instance:a,f,/x,,\nlog.instance:b,f,y,,\n"

  lemma KeySpelled(path: string, file: string, name: string)
    requires Clean(path, BLANK) && path != "" && Clean(file, BLANK) && file != "" && CString(name)
    requires name == Under("./", Completed(path, file)) && !Tilde(name)
    ensures KeyReady(NOWHERE, path, "./", file)
    ensures Key(NOWHERE, path, "./", file).Some? <==> Absolute(name)
  {
    TrimClean("./", BLANK);
    TrimClean(path, BLANK);
    TrimClean(file, BLANK);
    IndexOfIs(name, NUL, |name|);
    hide Trim, Under, Completed;
  }

  const PLAIN := Setup("./", false, "_%Y%m%d_%H%M%S_%P_%n", NOWHERE)

  lemma BothWritable()
    ensures Writable(KEPT) && Writable(FATAL)
  {
    assert Fields(KEPT) == ["a", "f", "/x", "", ""] && Fields(FATAL) == ["b", "f", "y", "", ""];
  }

  lemma BothKeys()
    ensures KeyReady(NOWHERE, "/x", "./", "a.log") && Key(NOWHERE, "/x", "./", "a.log").Some?
    ensures KeyReady(NOWHERE, "y", "./", "b.log") && Key(NOWHERE, "y", "./", "b.log").None?
  {
    hide KeyReady, Key;
    KeySpelled("/x", "a.log", "/x");
    KeySpelled("y", "b.log", "./y");
  }

  /** The first gets its file, the second none. */
  lemma BothIntended()
    ensures KeyReady(NOWHERE, KEPT.path, "./", DefaultFile(KEPT)) && Intended(KEPT, PLAIN).key.Some?
    ensures KeyReady(NOWHERE, FATAL.path, "./", DefaultFile(FATAL)) && Intended(FATAL, PLAIN).key.None?
  {
    BothKeys();
    hide KeyReady, Key, Atoi, Strtoul;
    assert DefaultFile(KEPT) == "a.log" && DefaultFile(FATAL) == "b.log";
  }

  lemma PrintedFields(name: string, format: string, path: string)
    ensures PrintInstance(Instance(name, format, path, "", "")) == name + "," + format + "," + path + ",,"
  {
    assert [COMMA] == ",";
    assert Join([""], COMMA) == "";
    assert Join(["", ""], COMMA) == ",";
    assert Join([path, "", ""], COMMA) == path + ",,";
    assert Join([format, path, "", ""], COMMA) == format + "," + path + ",,";
  }

  lemma PrintedLines(i: Instance, j: Instance)
    ensures ConfigText([], []) == ""
    ensures ConfigText([], [i, j]) ==
      "log.instance:" + PrintInstance(i) + "\n" + ("log.instance:" + PrintInstance(j) + "\n")
  {
    hide PrintInstance;
    var e, f := Entry(INSTANCE_KEY, PrintInstance(i)), Entry(INSTANCE_KEY, PrintInstance(j));
    assert [i, j][1..] == [j] && InstanceEntries([j]) == [f] + InstanceEntries([]) == [f];
    assert InstanceEntries([i, j]) == [e] + [f] == [] + ([e] + [f]);
    assert ([e] + [f])[1..] == [f];
    assert PrintEntries([f], ':') == PrintEntry(f, ':') + [NEWLINE] + "";
    assert "log.instance" + ":" == "log.instance:";
  }

  lemma TextPrinted()
    ensures ConfigText([], []) == "" && ConfigText([], [KEPT, FATAL]) == TEXT
  {
    PrintedLines(KEPT, FATAL);
    PrintedFields("a", "f", "/x");
    PrintedFields("b", "f", "y");
    hide ConfigText, PrintInstance;
  }

  /** What a call of `init` on a printed configuration makes of an empty registry. */
  lemma InitPrinted(w: World, insts: seq<Instance>, able: string -> bool)
    requires w.fate.Running? && w.book.loggers == map[] && InstancesReady(insts, SetupOf([], NOWHERE))
    ensures var c := InitCall(Some(ConfigText([], insts)), NOWHERE, able);
      var rs := AllIntended(insts, SetupOf([], NOWHERE));
      && Allowed(w, c)
      && var w' := After(w, c);
        && w'.book == Reached(rs) && w'.loggersFiled == w.loggersFiled + |Reached(rs).loggers|
        && w'.fate == (if Load(rs).Loaded? then Running else if Load(rs).NoPath? then Aborted else Exited)
        && w'.atexits == w.atexits + (if Load(rs).Loaded? then 1 else 0)
  {
    RoundTrip([], insts, NOWHERE);
    hide ConfigText, InstancesReady, AllIntended, ConfReady, RequestsOf, PlanOf, SetupOf, Entries, Load, Reached;
  }

  lemma NothingAsked()
    ensures Load([]) == Loaded(NOTHING) && Reached([]) == NOTHING
  {
  }

  /** What the loop makes of a wanted logger and one whose path cannot be resolved. */
  lemma KeptThenFatal(kept: Request, fatal: Request)
    requires kept.Wanted? && fatal.Wanted? && kept.name != fatal.name && kept.key.Some? && fatal.key.None?
    ensures Load([kept, fatal]) == NoPath
    ensures Reached([kept, fatal]).loggers.Keys == {kept.name} && |Reached([kept, fatal]).loggers| == 1
  {
    var rs := [kept, fatal];
    assert rs[..0] == [] && rs[..1] == [kept];
    LoadNext(rs, 0);
    assert rs[..2] == rs;
    LoadNext(rs, 1);
    ReachedAt(rs, 1);
  }

  lemma TwoCalls(c: Call, d: Call)
    requires Allowed(NEWBORN, c) && Allowed(After(NEWBORN, c), d)
    ensures AllAllowed([c, d]) && WorldOf([c, d]) == After(After(NEWBORN, c), d)
  {
    hide Allowed, After;
    var run := [c, d];
    assert run[..1] == [c] && [c][..0] == [];
    assert AllAllowed([]) && WorldOf([]) == NEWBORN;
    assert AllAllowed([c]) && WorldOf([c]) == After(NEWBORN, c);
  }

  lemma BothAsk()
    ensures SetupOf([], NOWHERE) == PLAIN
    ensures InstancesReady([], PLAIN) && AllIntended([], PLAIN) == []
    ensures InstancesReady([KEPT, FATAL], PLAIN)
    ensures var rs := AllIntended([KEPT, FATAL], PLAIN);
      && Load(rs) == NoPath && Reached(rs).loggers.Keys == {"a"} && |Reached(rs).loggers| == 1
  {
    BothWritable();
    BothIntended();
    hide Writable, KeyReady, Key, Atoi, Strtoul, Load, Reached;
    KeptThenFatal(Intended(KEPT, PLAIN), Intended(FATAL, PLAIN));
    assert AllIntended([KEPT, FATAL], PLAIN) == [Intended(KEPT, PLAIN), Intended(FATAL, PLAIN)];
  }

  /** The first `init` finds no instance, so a later one is not refused; that one aborts:
      the handler is registered, and the logger filed by then is never deleted. */
  lemma AbortedRun(able: string -> bool)
    ensures var run := [InitCall(Some(""), NOWHERE, able), InitCall(Some(TEXT), NOWHERE, able)];
      && AllAllowed(run)
      && var w := WorldOf(run);
        && w.fate == Aborted && w.atexits == 1 && !HandlersRun(w)
        && w.book.loggers.Keys == {"a"} && w.loggersFiled == 1
  {
    var c, d := InitCall(Some(""), NOWHERE, able), InitCall(Some(TEXT), NOWHERE, able);
    TextPrinted();
    BothAsk();
    NothingAsked();
    hide ConfigText, InstancesReady, AllIntended, SetupOf, Load, Reached, Allowed, After, AllAllowed, WorldOf;
    InitPrinted(NEWBORN, [], able);
    InitPrinted(After(NEWBORN, c), [KEPT, FATAL], able);
    TwoCalls(c, d);
  }
}
