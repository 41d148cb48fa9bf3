/** `TextConfig` (src/Conf.cc:9-42, include/Conf.h): a file of `key sep value` lines. */
module Conf {
  import opened Options
  import opened Text

  const NEWLINE := '\n'
  const SPACES := " "

  datatype Entry = Entry(key: string, value: string)

  /** `string::find(pattern)`, the first occurrence; None is `npos`. */
  function Find(s: string, pattern: string): (r: Option<nat>)
    ensures r.Some? ==> r.value + |pattern| <= |s|
  {
    if pattern <= s then Some(0)
    else if s == "" then None
    else
      match Find(s[1..], pattern)
      case None => None
      case Some(i) => Some(i + 1)
  }

  function Before(s: string, at: Option<nat>): string
    requires at.Some? ==> at.value <= |s|
  {
    if at.Some? then s[..at.value] else s
  }

  /** The entry of a line without its comment, if it has one. */
  function Pair(str: string, sep: string): seq<Entry> {
    var at := Find(str, sep);
    var key := Trim(Before(str, at), SPACES);
    var value := if at.Some? then Trim(str[at.value + |sep|..], SPACES) else "";
    if key == "" then [] else [Entry(key, value)]
  }

  /** What a line contributes: nothing, or one entry. */
  function LineEntry(line: string, sep: string, comment: string): seq<Entry> {
    Pair(Before(line, Find(line, comment)), sep)
  }

  function LinesEntries(lines: seq<string>, sep: string, comment: string): seq<Entry> {
    if lines == [] then [] else LineEntry(lines[0], sep, comment) + LinesEntries(lines[1..], sep, comment)
  }

  function Entries(text: string, sep: string, comment: string): seq<Entry> {
    LinesEntries(Split(text, NEWLINE), sep, comment)
  }

  /** The values of a key, in order. */
  function Values(es: seq<Entry>, key: string): seq<string> {
    if es == [] then []
    else (if es[0].key == key then [es[0].value] else []) + Values(es[1..], key)
  }

  function Lookup(m: map<string, seq<string>>, key: string): seq<string> {
    if key in m then m[key] else []
  }

  lemma {:induction false} ValuesAppend(a: seq<Entry>, b: seq<Entry>, key: string)
    ensures Values(a + b, key) == Values(a, key) + Values(b, key)
    decreases |a|
  {
    if a == [] {
      assert a + b == b;
    } else {
      var ab := a + b;
      assert ab[0] == a[0] && ab[1..] == a[1..] + b;
      ValuesAppend(a[1..], b, key);
    }
  }

  lemma ValuesPush(es: seq<Entry>, e: Entry, key: string)
    ensures Values(es + [e], key) == Values(es, key) + (if e.key == key then [e.value] else [])
  {
    ValuesAppend(es, [e], key);
    assert [e][1..] == [];
  }

  /** `getline`, without the newline it leaves at the end. */
  method ReadLine(text: string, pos: nat) returns (line: string, next: nat)
    requires pos < |text|
    ensures pos < next <= |text|
    ensures forall sep, comment ::
      Entries(text[pos..], sep, comment) == LineEntry(line, sep, comment) + Entries(text[next..], sep, comment)
  {
    var newline := FindChar(text, NEWLINE, pos);
    next := if newline < |text| then newline + 1 else newline;
    line := text[pos..next];
    if line != "" && line[|line| - 1] == NEWLINE {
      line := line[..|line| - 1];
    }
    assert line == text[pos..newline] by {
      assert text[pos..][..newline - pos] == text[pos..newline];
    }
    forall sep, comment
      ensures Entries(text[pos..], sep, comment) == LineEntry(line, sep, comment) + Entries(text[next..], sep, comment)
    {
      TakeLine(text, pos, newline, sep, comment);
    }
  }

  method ParseLine(line: string, sep: string, comment: string) returns (key: string, value: string)
    ensures LineEntry(line, sep, comment) == if key == "" then [] else [Entry(key, value)]
  {
    var str := Before(line, Find(line, comment));
    var index := Find(str, sep);
    key := Before(str, index);
    value := "";
    if index.Some? {
      value := str[index.value + |sep|..];
    }
    key := TrimRef(key, SPACES);
    value := TrimRef(value, SPACES);
  }

  class TextConfig {
    var confMap: map<string, seq<string>>

    /** Looking a key up gives its values in file order. */
    ghost predicate Answers(es: seq<Entry>)
      reads this
    {
      forall k :: Lookup(confMap, k) == Values(es, k)
    }

    /** ... and the keys are those the file gives a value to. */
    ghost predicate Lists(es: seq<Entry>)
      reads this
    {
      Answers(es) && forall k :: k in confMap <==> Values(es, k) != []
    }

    constructor (file: Option<string>, sep: string, comment: string)
      ensures Lists(if file.None? then [] else Entries(file.value, sep, comment))
    {
      hide Values, Entries, LineEntry;
      confMap := map[];
      new;
      NoEntries();
      if file.None? { return; }
      var text := file.value;
      var pos := 0;
      ghost var done: seq<Entry> := [];
      assert text[0..] == text;
      while pos < |text|
        invariant pos <= |text|
        invariant done + Entries(text[pos..], sep, comment) == Entries(text, sep, comment)
        invariant Lists(done)
        decreases |text| - pos
      {
        var line, next := ReadLine(text, pos);
        var key, value := ParseLine(line, sep, comment);
        ghost var found := LineEntry(line, sep, comment);
        Moved(done, found, Entries(text[next..], sep, comment));
        if key != "" {
          PushBack(key, value, done);
        } else {
          assert done + found == done;
        }
        done := done + found;
        pos := next;
      }
      assert text[pos..] == "";
      EmptyText(sep, comment);
      assert done + [] == done;
    }

    /** `confMap_[key].push_back(value)` */
    method PushBack(key: string, value: string, ghost done: seq<Entry>)
      requires Lists(done)
      modifies this
      ensures Lists(done + [Entry(key, value)])
    {
      confMap := confMap[key := Lookup(confMap, key) + [value]];
      forall k ensures Values(done + [Entry(key, value)], k) == Values(done, k) + (if key == k then [value] else []) {
        ValuesPush(done, Entry(key, value), k);
      }
    }

    /** `confMap_[name]`: a missing name is entered with no values. */
    method GetStrings(name: string, ghost es: seq<Entry>) returns (values: seq<string>)
      requires Answers(es)
      modifies this
      ensures Answers(es) && values == Values(es, name)
      ensures confMap == old(confMap)[name := values]
    {
      if name !in confMap {
        confMap := confMap[name := []];
      }
      values := confMap[name];
    }

    method GetString(name: string, ghost es: seq<Entry>) returns (value: string)
      requires Answers(es)
      modifies this
      ensures Answers(es) && value == HeadOf(Values(es, name))
      // the first entry of the key decides
      ensures forall i: nat | FirstOf(es, name, i) :: value == es[i].value
      ensures (forall e <- es :: e.key != name) ==> value == ""
    {
      FirstDecides(es, name);
      var vec := GetStrings(name, es);
      if vec != [] {
        value := vec[0];
      } else {
        value := "";
      }
    }
  }

  function HeadOf(vec: seq<string>): string { if vec != [] then vec[0] else "" }

  /** Entry `i` is the first one with the key. */
  ghost predicate FirstOf(es: seq<Entry>, key: string, i: nat) {
    i < |es| && es[i].key == key && forall j | 0 <= j < i :: es[j].key != key
  }

  /** Of several values the first in the file is answered, and without one the empty text. */
  lemma {:induction false} FirstDecides(es: seq<Entry>, key: string)
    ensures forall i: nat | FirstOf(es, key, i) :: HeadOf(Values(es, key)) == es[i].value
    ensures (forall e <- es :: e.key != key) ==> Values(es, key) == []
    ensures Values(es, key) == [] ==> forall e <- es :: e.key != key
    decreases |es|
  {
    if es != [] {
      FirstDecides(es[1..], key);
      assert es == [es[0]] + es[1..];
      forall i: nat | FirstOf(es, key, i) ensures HeadOf(Values(es, key)) == es[i].value {
        if i > 0 {
          assert es[0].key != key;
          assert forall j | 0 <= j < i - 1 :: es[1..][j] == es[j + 1];
          assert FirstOf(es[1..], key, i - 1);
        }
      }
    }
  }

  lemma {:induction false} FirstExists(es: seq<Entry>, key: string) returns (i: nat)
    requires exists e <- es :: e.key == key
    ensures FirstOf(es, key, i)
    decreases |es|
  {
    if es[0].key == key {
      i := 0;
    } else {
      assert es == [es[0]] + es[1..];
      var j := FirstExists(es[1..], key);
      i := j + 1;
      assert forall k | 0 <= k < |es| - 1 :: es[1..][k] == es[k + 1];
    }
  }

  lemma NoEntries()
    ensures forall k :: Values([], k) == []
  {
  }

  lemma Moved(done: seq<Entry>, found: seq<Entry>, todo: seq<Entry>)
    ensures done + (found + todo) == done + found + todo
  {
  }

  lemma OneLine(line: string, sep: string, comment: string)
    requires NEWLINE !in line
    ensures Entries(line, sep, comment) == LineEntry(line, sep, comment)
  {
    SplitLast(line, NEWLINE);
    assert [line][1..] == [];
    assert LinesEntries([], sep, comment) == [];
  }

  lemma EmptyText(sep: string, comment: string)
    ensures Entries("", sep, comment) == []
  {
    OneLine("", sep, comment);
    assert Before("", Find("", comment)) == "";
    assert Before("", Find("", sep)) == "";
  }

  /** The line `getline` delivers at `pos`, its newline removed, against the split text. */
  lemma TakeLine(text: string, pos: nat, newline: nat, sep: string, comment: string)
    requires pos < |text| && newline == pos + IndexOf(text[pos..], NEWLINE)
    ensures var next := if newline < |text| then newline + 1 else newline;
      Entries(text[pos..], sep, comment)
        == LineEntry(text[pos..newline], sep, comment) + Entries(text[next..], sep, comment)
  {
    var rest := text[pos..];
    if newline < |text| {
      SplitStep(text, NEWLINE, pos, newline);
      assert ([text[pos..newline]] + Split(text[newline + 1..], NEWLINE))[1..] == Split(text[newline + 1..], NEWLINE);
    } else {
      assert rest[..|rest|] == rest == text[pos..newline];
      OneLine(rest, sep, comment);
      EmptyText(sep, comment);
      assert text[newline..] == "";
    }
  }

  // -------------------------------------------------------- parsing as a whole

  lemma {:induction false} LinesEntriesAppend(a: seq<string>, b: seq<string>, sep: string, comment: string)
    ensures LinesEntries(a + b, sep, comment) == LinesEntries(a, sep, comment) + LinesEntries(b, sep, comment)
    decreases |a|
  {
    if a == [] {
      assert a + b == b;
    } else {
      var ab := a + b;
      hide LineEntry;
      assert ab[0] == a[0] && ab[1..] == a[1..] + b;
      LinesEntriesAppend(a[1..], b, sep, comment);
      Moved(LineEntry(a[0], sep, comment), LinesEntries(a[1..], sep, comment), LinesEntries(b, sep, comment));
    }
  }

  /** Parsing distributes over concatenation at a newline. */
  lemma EntriesConcat(a: string, b: string, sep: string, comment: string)
    ensures Entries(a + [NEWLINE] + b, sep, comment) == Entries(a, sep, comment) + Entries(b, sep, comment)
  {
    SplitConcat(a, NEWLINE, b);
    LinesEntriesAppend(Split(a, NEWLINE), Split(b, NEWLINE), sep, comment);
  }

  lemma {:induction false} FindIsChar(s: string, c: char)
    ensures Find(s, [c]) == if c in s then Some(IndexOf(s, c)) else None
    decreases |s|
  {
    if s != "" && s[0] != c {
      FindIsChar(s[1..], c);
      assert c in s <==> c in s[1..];
    }
  }

  lemma PairReads(left: string, right: string, sep: char)
    requires sep !in left
    ensures Pair(left + [sep] + right, [sep])
      == if Trim(left, SPACES) == "" then [] else [Entry(Trim(left, SPACES), Trim(right, SPACES))]
  {
    var str := left + [sep] + right;
    FindIsChar(str, sep);
    assert str[..|left|] == left && str[|left| + 1..] == right;
    IndexOfIs(str, sep, |left|);
  }

  /** Spaces around the key and the value, and a trailing comment, do not matter. */
  lemma LineReads(key: string, value: string, sep: char, comment: char,
                  x: string, y: string, u: string, v: string, remark: string)
    requires sep != comment && key != "" && Clean(key, SPACES) && Clean(value, SPACES)
    requires sep !in key && comment !in key && comment !in value
    requires Within(x, SPACES) && Within(y, SPACES) && Within(u, SPACES) && Within(v, SPACES)
    requires (x + y != "" ==> sep != ' ') && (x + y + u + v != "" ==> comment != ' ')
    requires remark == "" || remark[0] == comment
    ensures LineEntry(x + key + y + [sep] + (u + value + v) + remark, [sep], [comment]) == [Entry(key, value)]
  {
    SpacesAvoid(x, comment);
    SpacesAvoid(y, comment);
    SpacesAvoid(u, comment);
    SpacesAvoid(v, comment);
    SpacesAvoid(x, sep);
    SpacesAvoid(y, sep);
    CutAt(x + key + y + [sep] + (u + value + v), comment, remark);
    TrimPeels(x, key, y, SPACES);
    TrimPeels(u, value, v, SPACES);
    PairReads(x + key + y, u + value + v, sep);
  }

  /** `find` answers the first place where the pattern is, and nothing if there is none. */
  lemma {:induction false} FindExactly(s: string, pattern: string)
    ensures Find(s, pattern).Some? ==> pattern <= s[Find(s, pattern).value..]
    ensures forall i | 0 <= i <= |s| && (Find(s, pattern).None? || i < Find(s, pattern).value) :: !(pattern <= s[i..])
    decreases |s|
  {
    assert s[0..] == s;
    if !(pattern <= s) && s != "" {
      FindExactly(s[1..], pattern);
      var r := Find(s[1..], pattern);
      assert forall i | 0 < i <= |s| :: s[i..] == s[1..][i - 1..];
    }
  }

  /** What starts with the comment does not count; a line that does so gives no entry. */
  lemma CommentCut(str: string, remark: string, sep: string, comment: char)
    requires comment !in str && sep != ""
    ensures LineEntry(str + [comment] + remark, sep, [comment]) == LineEntry(str, sep, [comment])
    ensures LineEntry([comment] + remark, sep, [comment]) == []
  {
    assert str + [comment] + remark == str + ([comment] + remark);
    CutAt(str, comment, [comment] + remark);
    CutAt(str, comment, "");
    assert str + "" == str;
    CutAt("", comment, [comment] + remark);
    assert "" + ([comment] + remark) == [comment] + remark;
  }

  /** A line without a separator is a key with an empty value, if it is not blank. */
  lemma KeyAlone(key: string, sep: char, comment: char, x: string, y: string)
    requires Clean(key, SPACES) && Within(x, SPACES) && Within(y, SPACES)
    requires sep !in x + key + y && comment !in x + key + y
    ensures LineEntry(x + key + y, [sep], [comment]) == if key == "" then [] else [Entry(key, "")]
  {
    var line := x + key + y;
    FindIsChar(line, comment);
    FindIsChar(line, sep);
    TrimPeels(x, key, y, SPACES);
  }

  /** A line with nothing but spaces before the separator gives no entry. */
  lemma NoKey(x: string, value: string, sep: char, comment: char)
    requires Within(x, SPACES) && sep !in x && comment !in x + [sep] + value
    ensures LineEntry(x + [sep] + value, [sep], [comment]) == []
  {
    FindIsChar(x + [sep] + value, comment);
    TrimPeels(x, "", "", SPACES);
    assert x + "" + "" == x;
    PairReads(x, value, sep);
  }

  lemma BareLineReads(key: string, value: string, sep: char, comment: char)
    requires sep != comment && key != "" && Clean(key, SPACES) && Clean(value, SPACES)
    requires sep !in key && comment !in key && comment !in value
    ensures LineEntry(key + [sep] + value, [sep], [comment]) == [Entry(key, value)]
  {
    FindIsChar(key + [sep] + value, comment);
    TrimClean(key, SPACES);
    TrimClean(value, SPACES);
    PairReads(key, value, sep);
  }

  lemma SpacesAvoid(x: string, c: char)
    requires Within(x, SPACES) && (x != "" ==> c != ' ')
    ensures c !in x
  {
    assert forall d <- x :: d == SPACES[0];
  }

  lemma CutAt(str: string, c: char, remark: string)
    requires c !in str && (remark == "" || remark[0] == c)
    ensures Before(str + remark, Find(str + remark, [c])) == str
  {
    var line := str + remark;
    FindIsChar(line, c);
    assert line[..|str|] == str;
    if remark == "" {
      assert line == str;
    } else {
      assert line[|str|] == c;
      IndexOfIs(line, c, |str|);
    }
  }

  // -------------------------------------------------------------- the printer

  function PrintEntry(e: Entry, sep: char): string { e.key + [sep] + e.value }

  function PrintEntries(es: seq<Entry>, sep: char): string {
    if es == [] then ""
    else PrintEntry(es[0], sep) + [NEWLINE] + PrintEntries(es[1..], sep)
  }

  ghost predicate Printable(e: Entry, sep: char, comment: char) {
    && e.key != "" && Clean(e.key, SPACES) && Clean(e.value, SPACES)
    && sep !in e.key && comment !in e.key && NEWLINE !in e.key
    && comment !in e.value && NEWLINE !in e.value
  }

  lemma PrintedLine(e: Entry, sep: char, comment: char)
    requires sep != comment && sep != NEWLINE && Printable(e, sep, comment)
    ensures Entries(PrintEntry(e, sep), [sep], [comment]) == [e]
  {
    OneLine(PrintEntry(e, sep), [sep], [comment]);
    BareLineReads(e.key, e.value, sep, comment);
  }

  /** What is printed is parsed back, in order. */
  lemma {:induction false} PrintParses(es: seq<Entry>, sep: char, comment: char)
    requires sep != comment && sep != NEWLINE
    requires forall e <- es :: Printable(e, sep, comment)
    ensures Entries(PrintEntries(es, sep), [sep], [comment]) == es
  {
    if es == [] {
      EmptyText([sep], [comment]);
    } else {
      var e, later := es[0], es[1..];
      assert es == [e] + later;
      PrintedLine(e, sep, comment);
      PrintParses(later, sep, comment);
      EntriesConcat(PrintEntry(e, sep), PrintEntries(later, sep), [sep], [comment]);
    }
  }
}
