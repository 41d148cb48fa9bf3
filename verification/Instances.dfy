/** `CLogger::splitCheck` (src/Log.cc:26-46): the fields of one `log.instance` value. */
module Instances {
  import opened Options
  import opened Text
  import opened Numerals
  import opened LogPath

  const LEVEL_ALL := 100  // include/Log.h:63
  const COMMA := ','

  datatype Instance = Instance(name: string, format: string, path: string, size: string, level: string)

  function Fields(i: Instance): seq<string> { [i.name, i.format, i.path, i.size, i.level] }

  /** A missing level, or one outside the range, means every level. */
  function LevelText(level: string): string {
    if level == "" || Atoi(level) < 0 || Atoi(level) > LEVEL_ALL then Decimal(LEVEL_ALL) else level
  }

  /** None is the source's empty vector. */
  function Checked(instance: string): Option<Instance> {
    var ps := Split(instance, COMMA);
    if |ps| < 5 then None
    else
      var i := Instance(Trim(ps[0], BLANK), Trim(ps[1], BLANK), Trim(ps[2], BLANK),
                        Trim(ps[3], BLANK), LevelText(Trim(ps[4], BLANK)));
      if i.name == "" || i.format == "" || i.path == "" then None else Some(i)
  }

  method SplitCheck(instance: string) returns (ret: seq<string>)
    ensures Checked(instance).None? ==> ret == []
    ensures Checked(instance).Some? ==> ret == Fields(Checked(instance).value)
  {
    ret := SplitBy(instance, COMMA, 5);
    if |ret| != 5 {
      return [];
    }
    var f0 := TrimRef(ret[0], BLANK);
    var f1 := TrimRef(ret[1], BLANK);
    var f2 := TrimRef(ret[2], BLANK);
    var f3 := TrimRef(ret[3], BLANK);
    var f4 := TrimRef(ret[4], BLANK);
    if f0 == "" || f1 == "" || f2 == "" {
      return [];
    }
    if f4 == "" || Atoi(f4) < 0 || Atoi(f4) > LEVEL_ALL {
      f4 := Decimal(LEVEL_ALL);
    }
    ret := [f0, f1, f2, f3, f4];
  }

  /** Whatever the field says, the level a logger is given is one of the levels. */
  lemma LevelInRange(level: string)
    ensures 0 <= Atoi(LevelText(level)) <= LEVEL_ALL
  {
    DecimalReads(LEVEL_ALL);
  }

  /** Four commas or more, and something other than spaces in the first three fields. */
  ghost predicate Acceptable(instance: string) {
    && multiset(instance)[COMMA] >= 4
    && forall k | 0 <= k < 3 :: k < |Split(instance, COMMA)| && !Within(Split(instance, COMMA)[k], BLANK)
  }

  /** When an instance is accepted. */
  lemma CheckedExactly(instance: string)
    ensures Checked(instance).Some? <==> Acceptable(instance)
  {
    hide Split, Trim, LevelText, Within;
    SplitLength(instance, COMMA);
    var ps := Split(instance, COMMA);
    if |ps| >= 5 {
      BlankTrims(ps[0]);
      BlankTrims(ps[1]);
      BlankTrims(ps[2]);
    }
  }

  lemma BlankTrims(s: string)
    ensures Trim(s, BLANK) == "" <==> Within(s, BLANK)
  {
    if Within(s, BLANK) {
      TrimPeels(s, "", "", BLANK);
      assert s + "" + "" == s;
    } else {
      var x, y := TrimSplitsOff(s, BLANK);
    }
  }

  // ------------------------------------------------------- printing a value

  function PrintInstance(i: Instance): string { Join(Fields(i), COMMA) }

  ghost predicate Tidy(i: Instance) {
    && Free(Fields(i), COMMA)
    && (forall f <- Fields(i) :: Clean(f, BLANK))
    && i.name != "" && i.format != "" && i.path != ""
  }

  /** `s` is `f` with spaces around it. */
  ghost predicate Spaced(s: string, f: string) {
    exists x, y :: Within(x, BLANK) && Within(y, BLANK) && s == x + f + y
  }

  /** Spaces around the fields do not matter, nor does what follows the fifth. */
  lemma SpacedChecks(i: Instance, ps: seq<string>)
    requires Tidy(i) && |ps| >= 5 && Free(ps, COMMA)
    requires forall k | 0 <= k < 5 :: Spaced(ps[k], Fields(i)[k])
    ensures Checked(Join(ps, COMMA)) == Some(i.(level := LevelText(i.level)))
  {
    SplitOfJoin(ps, COMMA);
    forall k | 0 <= k < 5 ensures Trim(ps[k], BLANK) == Fields(i)[k] {
      var x, y :| Within(x, BLANK) && Within(y, BLANK) && ps[k] == x + Fields(i)[k] + y;
      assert Fields(i)[k] in Fields(i);
      TrimPeels(x, Fields(i)[k], y, BLANK);
    }
    hide Trim, LevelText, Join, Split, Spaced;
    FieldsTrim(i, ps);
  }

  lemma FieldsTrim(i: Instance, ps: seq<string>)
    requires |ps| >= 5 && forall k | 0 <= k < 5 :: Trim(ps[k], BLANK) == Fields(i)[k]
    ensures Trim(ps[0], BLANK) == i.name && Trim(ps[1], BLANK) == i.format && Trim(ps[2], BLANK) == i.path
    ensures Trim(ps[3], BLANK) == i.size && Trim(ps[4], BLANK) == i.level
  {
  }

  /** The level kept is the one written if it is between 0 and 100, and otherwise 100. */
  lemma LevelKept(n: nat)
    requires n < INT_RANGE / 2
    ensures Atoi(LevelText(Decimal(n))) == if n <= LEVEL_ALL then n else LEVEL_ALL
    ensures n > 0 ==> Atoi(LevelText("-" + Decimal(n))) == LEVEL_ALL
    ensures Atoi(LevelText("")) == LEVEL_ALL
  {
    DecimalReads(n);
    DecimalReads(LEVEL_ALL);
    NumberReads("", n, "");
    assert "" + (['-'] + (Decimal(n) + "")) == "-" + Decimal(n);
  }

  lemma PrintChecks(i: Instance)
    requires Tidy(i)
    ensures Checked(PrintInstance(i)) == Some(i.(level := LevelText(i.level)))
  {
    SplitOfJoin(Fields(i), COMMA);
    forall f <- Fields(i) ensures Trim(f, BLANK) == f {
      TrimClean(f, BLANK);
    }
    var fs := Fields(i);
    assert fs[0] in fs && fs[1] in fs && fs[2] in fs && fs[3] in fs && fs[4] in fs;
  }
}
