/** What the registry built by `init` says about files: who shares an appender. */
module Sharing {
  import opened PathBuffer
  import opened PathLaws
  import opened LogPath
  import opened Instances
  import opened Plan
  import opened Registry

  /** Two configured loggers hold the same appender object exactly when their paths
      have the same canonical text. */
  lemma SharedExactly(loggers: map<string, Logger>, appenders: map<string, Appender>,
                      rs: seq<Request>, s: Setup, i: nat, j: nat)
    requires Load(rs).Loaded? && Wired(loggers, appenders) && Built(loggers, appenders, Load(rs).book, s)
    requires i < |rs| && j < |rs| && rs[i].Wanted? && rs[j].Wanted?
    ensures rs[i].name in loggers && rs[j].name in loggers
    ensures loggers[rs[i].name].appender == loggers[rs[j].name].appender <==> rs[i].key == rs[j].key
  {
    hide Load;
    SharePlanned(rs, i, j);
    var a, b := loggers[rs[i].name].appender, loggers[rs[j].name].appender;
    assert Registered(appenders, a) && Registered(appenders, b);
  }

  /** There is one appender for each distinct file asked for, and no other. */
  lemma OneAppenderPerFile(loggers: map<string, Logger>, appenders: map<string, Appender>, rs: seq<Request>, s: Setup)
    requires Load(rs).Loaded? && Built(loggers, appenders, Load(rs).book, s)
    ensures appenders.Keys == set j | 0 <= j < |rs| && rs[j].Wanted? && rs[j].key.Some? :: rs[j].key.value
    ensures forall j: nat | First(rs, j) :: rs[j].key.Some? && rs[j].key.value in appenders
    ensures forall j: nat | First(rs, j) :: appenders[rs[j].key.value].splitSize == rs[j].size
  {
    LoadExactly(rs);
    hide Load;
    var b := Load(rs).book;
    forall j | 0 <= j < |rs| && rs[j].Wanted? ensures rs[j].key.Some? && rs[j].key.value in appenders {
      assert Granted(b, rs[j]);
    }
    forall j: nat | First(rs, j) ensures b.sizes[rs[j].key.value] == rs[j].size {
      assert Granted(b, rs[j]);
      var i :| 0 <= i < |rs| && First(rs, i) && rs[i].key == rs[j].key && b.sizes[rs[j].key.value] == rs[i].size;
      FirstUnique(rs, i, j);
    }
  }

  lemma FirstUnique(rs: seq<Request>, i: nat, j: nat)
    requires First(rs, i) && First(rs, j) && rs[i].key == rs[j].key
    ensures i == j
  {
  }

  /** The name under which an instance's file is resolved. */
  function FileName(inst: string, s: Setup): string
    requires Checked(inst).Some?
  {
    CText(Spelled(Checked(inst).value.path, s.prefix, DefaultFile(Checked(inst).value)))
  }

  /** Canonical texts agree exactly when the paths walk to the same directory entry. */
  lemma SharedFile(u: string, v: string, s: Setup)
    requires u != "" && v != "" && Checked(u).Some? && Checked(v).Some?
    requires InstanceReady(u, s) && InstanceReady(v, s)
    requires Settled(s.env, FileName(u, s)) && Settled(s.env, FileName(v, s))
    ensures Read(u, s).key == Read(v, s).key <==> Resolve(s.env, FileName(u, s)) == Resolve(s.env, FileName(v, s))
  {
    SameText(s.env, FileName(u, s), FileName(v, s));
  }

  /** Both together: in the registry built from the values `vec`, two loggers hold the same
      appender exactly when their path fields walk to the same directory entry. */
  lemma SharedIffSameEntry(loggers: map<string, Logger>, appenders: map<string, Appender>,
                           vec: seq<string>, s: Setup, i: nat, j: nat)
    requires AllReady(vec, s) && Load(Requests(vec, s)).Loaded?
    requires Wired(loggers, appenders) && Built(loggers, appenders, Load(Requests(vec, s)).book, s)
    requires i < |vec| && j < |vec| && vec[i] != "" && vec[j] != ""
    requires Checked(vec[i]).Some? && Checked(vec[j]).Some?
    requires Settled(s.env, FileName(vec[i], s)) && Settled(s.env, FileName(vec[j], s))
    ensures Checked(vec[i]).value.name in loggers && Checked(vec[j]).value.name in loggers
    ensures loggers[Checked(vec[i]).value.name].appender == loggers[Checked(vec[j]).value.name].appender
      <==> Resolve(s.env, FileName(vec[i], s)) == Resolve(s.env, FileName(vec[j], s))
  {
    hide Load, Wired, Built, Checked, Settled, Resolve;
    SharedExactly(loggers, appenders, Requests(vec, s), s, i, j);
    SharedFile(vec[i], vec[j], s);
  }
}
