/** The thread's current time and its cached text (src/StrUtil.cc:242-307), and the
    bracket `writeLog` puts around a message (src/Log.cc:166-182). */
module Clock {
  import opened Options
  import opened Text
  import opened Numerals

  datatype TimeVal = TimeVal(sec: int, usec: nat)

  const NO_TIME := TimeVal(0, 0)

  /** A broken-down local time, year and month already counted from 0 and 1. */
  datatype Tm = Tm(year: int, mon: nat, mday: nat, hour: nat, min: nat, sec: nat)

  predicate Calendar(t: Tm) {
    && -0x8000_0000 <= t.year < 0x8000_0000
    && t.mon <= 12 && t.mday <= 31 && t.hour <= 23 && t.min <= 59 && t.sec <= 60
  }

  // ------------------------------------------------------------ printf formats

  function Signed(n: int): string { if n < 0 then ['-'] + Decimal(-n) else Decimal(n) }

  function Pad(s: string, width: nat, fill: char): (r: string)
    ensures |r| == Max(width, |s|)
    decreases width - |s|
  {
    if |s| >= width then s else Pad([fill] + s, width, fill)
  }

  function Two(n: nat): string { Pad(Decimal(n), 2, '0') }

  /** `%4d-%02d-%02d %02d:%02d:%02d:` */
  function Stamp(t: Tm): string {
    Pad(Signed(t.year), 4, ' ') + "-" + Two(t.mon) + "-" + Two(t.mday) + " "
    + Two(t.hour) + ":" + Two(t.min) + ":" + Two(t.sec) + ":"
  }

  /** `%06ld` */
  function Micros(usec: nat): string { Pad(Decimal(usec), 6, '0') }

  type Zone = int -> Tm

  ghost predicate Local(zone: Zone) { forall sec :: Calendar(zone(sec)) }

  /** The text of a time, formatted from scratch. */
  function Full(v: TimeVal, zone: Zone): string { Stamp(zone(v.sec)) + Micros(v.usec) }

  predicate Time(v: TimeVal) { v.usec < 1_000_000 }

  // ---------------------------------------------------------------- text sizes

  lemma {:induction false} DecimalLength(n: nat, k: nat)
    requires k > 0
    ensures n < Power10(k) <==> |Decimal(n)| <= k
    decreases n
  {
    if n >= 10 {
      if k > 1 {
        DecimalLength(n / 10, k - 1);
      } else {
        assert Power10(1) == 10 * Power10(0);
      }
    } else {
      PowerAtLeast(k);
    }
  }

  function Power10(k: nat): nat { if k == 0 then 1 else 10 * Power10(k - 1) }

  lemma {:induction false} PowerAtLeast(k: nat)
    requires k > 0
    ensures Power10(k) >= 10
  {
    if k > 1 { PowerAtLeast(k - 1); }
  }

  lemma TwoDigits(n: nat)
    requires n < 100
    ensures |Two(n)| == 2
  {
    assert Power10(2) == 100;
    DecimalLength(n, 2);
  }

  lemma StampLength(t: Tm)
    requires Calendar(t)
    ensures |Stamp(t)| == Max(4, |Signed(t.year)|) + 16 <= 27
  {
    TwoDigits(t.mon);
    TwoDigits(t.mday);
    TwoDigits(t.hour);
    TwoDigits(t.min);
    TwoDigits(t.sec);
    assert Power10(10) == 10_000_000_000;
    DecimalLength(if t.year < 0 then -t.year else t.year, 10);
  }

  lemma MicrosLength(usec: nat)
    requires usec < 1_000_000
    ensures |Micros(usec)| == 6
  {
    assert Power10(6) == 1_000_000;
    DecimalLength(usec, 6);
  }

  // ---------------------------------------------------------- texts read back

  lemma {:induction false} PadIs(s: string, width: nat, fill: char)
    ensures var p := Pad(s, width, fill); var k := |p| - |s|;
      p[k..] == s && forall c <- p[..k] :: c == fill
    decreases width - |s|
  {
    if |s| < width {
      PadIs([fill] + s, width, fill);
      var p := Pad([fill] + s, width, fill);
      var k := |p| - |s| - 1;
      assert p[k + 1..] == p[k..][1..] == s;
      assert p[k] == p[k..][0];
      assert p[..k + 1] == p[..k] + [p[k]];
    }
  }

  lemma {:induction false} LeadingZeros(z: string, s: string)
    requires forall c <- z :: c == '0'
    ensures Digits(z + s, 0) == Digits(s, 0)
    decreases |z|
  {
    if z == "" {
      assert z + s == s;
    } else {
      assert (z + s)[1..] == z[1..] + s && (z + s)[0] == z[0];
      assert z[0] in z && Worth('0') == 0 by {
        assert '0' - '0' == 0 as char;
      }
      forall c <- z[1..] ensures c == '0' {
        assert c in z;
      }
      LeadingZeros(z[1..], s);
    }
  }

  /** A number printed with leading zeros reads back, and is made of digits only. */
  lemma ZeroFilled(n: nat, width: nat)
    ensures Digits(Pad(Decimal(n), width, '0'), 0) == n
    ensures forall c <- Pad(Decimal(n), width, '0') :: Digit(c)
  {
    var d := Decimal(n);
    var p := Pad(d, width, '0');
    PadIs(d, width, '0');
    assert p == p[..|p| - |d|] + d && d + "" == d;
    LeadingZeros(p[..|p| - |d|], d);
    DigitsOfDecimal(n, "");
  }

  /** The year reads back after the spaces that fill it up. */
  lemma YearReads(year: int)
    requires -0x8000_0000 <= year < 0x8000_0000
    ensures Atoi(Pad(Signed(year), 4, ' ')) == year
  {
    var s := Signed(year);
    var p := Pad(s, 4, ' ');
    PadIs(s, 4, ' ');
    var n: nat := if year < 0 then -year else year;
    assert Decimal(n) + "" == Decimal(n);
    assert p == p[..|p| - |s|] + s;
    assert Space(' ');
    hide Pad, Decimal, Atoi;
    NumberReads(p[..|p| - |s|], n, "");
  }

  lemma TwoReads(n: nat)
    requires n < 100
    ensures |Two(n)| == 2 && Digits(Two(n), 0) == n
  {
    TwoDigits(n);
    ZeroFilled(n, 2);
  }

  lemma Places(y: string, a: string, b: string, c: string, d: string, e: string)
    requires |a| == |b| == |c| == |d| == |e| == 2
    ensures var s, w := y + "-" + a + "-" + b + " " + c + ":" + d + ":" + e + ":", |y|;
      && |s| == w + 16 && s[..w] == y
      && s[w + 1..w + 3] == a && s[w + 4..w + 6] == b && s[w + 7..w + 9] == c
      && s[w + 10..w + 12] == d && s[w + 13..w + 15] == e
      && s[w] == s[w + 3] == '-' && s[w + 6] == ' ' && s[w + 9] == s[w + 12] == s[w + 15] == ':'
  {
  }

  /** The stamp says the time: year, month, day, hour, minute and second read back from
      their places, and the separators stand between them. */
  lemma StampReads(t: Tm)
    requires Calendar(t)
    ensures var s := Stamp(t); var w := |s| - 16;
      && w >= 4 && (-1000 < t.year < 10_000 ==> w == 4)
      && Atoi(s[..w]) == t.year
      && Digits(s[w + 1..w + 3], 0) == t.mon && Digits(s[w + 4..w + 6], 0) == t.mday
      && Digits(s[w + 7..w + 9], 0) == t.hour && Digits(s[w + 10..w + 12], 0) == t.min
      && Digits(s[w + 13..w + 15], 0) == t.sec
      && s[w] == s[w + 3] == '-' && s[w + 6] == ' ' && s[w + 9] == s[w + 12] == s[w + 15] == ':'
  {
    StampLength(t);
    YearWidth(t.year);
    YearReads(t.year);
    hide Pad, Atoi, Signed, Two, Digits;
    TwoReads(t.mon);
    TwoReads(t.mday);
    TwoReads(t.hour);
    TwoReads(t.min);
    TwoReads(t.sec);
    Places(Pad(Signed(t.year), 4, ' '), Two(t.mon), Two(t.mday), Two(t.hour), Two(t.min), Two(t.sec));
  }

  lemma YearWidth(year: int)
    ensures -1000 < year < 10_000 <==> |Signed(year)| <= 4
  {
    assert Power10(3) == 1000 && Power10(4) == 10_000;
    DecimalLength(if year < 0 then -year else year, if year < 0 then 3 else 4);
  }

  /** The whole text is the stamp and six digits that read back as the microseconds. */
  lemma FullReads(v: TimeVal, zone: Zone)
    requires Local(zone) && Time(v)
    ensures var n := |Stamp(zone(v.sec))|;
      && |Full(v, zone)| == n + 6 && Full(v, zone)[..n] == Stamp(zone(v.sec))
      && Digits(Full(v, zone)[n..], 0) == v.usec && forall c <- Full(v, zone)[n..] :: Digit(c)
  {
    hide Stamp;
    MicrosLength(v.usec);
    ZeroFilled(v.usec, 6);
    assert Full(v, zone)[|Stamp(zone(v.sec))|..] == Micros(v.usec);
  }

  const SIZE := 32

  /** The text and its terminator fit the buffer exactly for years of at most nine characters. */
  lemma FitsExactly(v: TimeVal, zone: Zone)
    requires Local(zone) && Time(v)
    ensures |Full(v, zone)| < SIZE <==> -100_000_000 < zone(v.sec).year < 1_000_000_000
  {
    var year := zone(v.sec).year;
    StampLength(zone(v.sec));
    MicrosLength(v.usec);
    assert Power10(8) == 100_000_000 && Power10(9) == 1_000_000_000;
    DecimalLength(if year < 0 then -year else year, if year < 0 then 8 else 9);
  }

  // ------------------------------------------------------------- cache as value

  /** The thread-local state: current time, second last formatted, and its stamp. */
  datatype Cache = Cache(tm: TimeVal, last: int, stamp: string)

  const EMPTY := Cache(NO_TIME, 0, "")

  datatype Op = Update(now: TimeVal) | Clear | Get(now: TimeVal)

  /** `now` is what `gettimeofday` would answer, if asked. */
  function TestSet(tm: TimeVal, now: TimeVal): TimeVal { if tm.sec == 0 then now else tm }

  function Refresh(c: Cache, zone: Zone): Cache {
    if c.tm.sec != c.last then c.(last := c.tm.sec, stamp := Stamp(zone(c.tm.sec))) else c
  }

  function Step(c: Cache, op: Op, zone: Zone): Cache {
    match op
    case Update(now) => c.(tm := now)
    case Clear => c.(tm := NO_TIME)
    case Get(now) => Refresh(c.(tm := TestSet(c.tm, now)), zone)
  }

  /** What `GetTimeString` answers in the state it leaves behind. */
  function Shown(c: Cache): string { c.stamp + Micros(c.tm.usec) }

  /** The answers to the `Get`s of a run, with the cache ... */
  function Answers(c: Cache, ops: seq<Op>, zone: Zone): seq<string>
    decreases |ops|
  {
    if ops == [] then []
    else
      var next := Step(c, ops[0], zone);
      (if ops[0].Get? then [Shown(next)] else []) + Answers(next, ops[1..], zone)
  }

  /** ... and formatting each time from scratch. */
  function PlainAnswers(tm: TimeVal, ops: seq<Op>, zone: Zone): seq<string>
    decreases |ops|
  {
    if ops == [] then []
    else match ops[0]
      case Update(now) => PlainAnswers(now, ops[1..], zone)
      case Clear => PlainAnswers(NO_TIME, ops[1..], zone)
      case Get(now) => [Full(TestSet(tm, now), zone)] + PlainAnswers(TestSet(tm, now), ops[1..], zone)
  }

  predicate Primed(c: Cache, zone: Zone) { c.stamp == Stamp(zone(c.last)) }

  predicate Sound(c: Cache, zone: Zone) { Primed(c, zone) || (c.last == 0 && c.stamp == "") }

  lemma StepSound(c: Cache, op: Op, zone: Zone)
    requires Sound(c, zone)
    ensures Sound(Step(c, op, zone), zone)
  {
  }

  /** One answer is right exactly when the second is not zero or a stamp was made before. */
  lemma AnswerExactly(c: Cache, now: TimeVal, zone: Zone)
    requires Sound(c, zone) && Local(zone)
    ensures var next := Step(c, Get(now), zone);
      Shown(next) == Full(next.tm, zone) <==> next.tm.sec != 0 || c.stamp != ""
  {
    var next := Step(c, Get(now), zone);
    StampLength(zone(0));
    if next.tm.sec == 0 && c.stamp == "" {
      assert |Shown(next)| < |Full(next.tm, zone)|;
    }
  }

  /** The time current when a text is first asked for, if one ever is. */
  function FirstAsked(tm: TimeVal, ops: seq<Op>): Option<TimeVal>
    decreases |ops|
  {
    if ops == [] then None
    else match ops[0]
      case Update(now) => FirstAsked(now, ops[1..])
      case Clear => FirstAsked(NO_TIME, ops[1..])
      case Get(now) => Some(TestSet(tm, now))
  }

  /** Once a stamp was made the cache is invisible for good, whatever the clock shows. */
  lemma {:induction false} InvisibleOncePrimed(c: Cache, ops: seq<Op>, zone: Zone)
    requires Primed(c, zone)
    ensures Answers(c, ops, zone) == PlainAnswers(c.tm, ops, zone)
    decreases |ops|
  {
    hide Stamp, Micros;
    if ops != [] {
      InvisibleOncePrimed(Step(c, ops[0], zone), ops[1..], zone);
    }
  }

  /** A run's answers all equal formatting from scratch exactly when a stamp was there from
      the start, no text is asked for, or the first is asked for at a non-zero second. */
  lemma {:induction false} CacheExactly(c: Cache, ops: seq<Op>, zone: Zone)
    requires Sound(c, zone) && Local(zone)
    ensures Answers(c, ops, zone) == PlainAnswers(c.tm, ops, zone) <==>
      c.stamp != "" || FirstAsked(c.tm, ops).None? || FirstAsked(c.tm, ops).value.sec != 0
    decreases |ops|
  {
    StampLength(zone(0));
    if c.stamp != "" {
      InvisibleOncePrimed(c, ops, zone);
    } else if ops != [] {
      var next := Step(c, ops[0], zone);
      StepSound(c, ops[0], zone);
      if ops[0].Get? {
        AnswerExactly(c, ops[0].now, zone);
        if next.tm.sec != 0 {
          InvisibleOncePrimed(next, ops[1..], zone);
        } else {
          assert Answers(c, ops, zone)[0] != PlainAnswers(c.tm, ops, zone)[0];
        }
      } else {
        CacheExactly(next, ops[1..], zone);
      }
    }
  }

  /** For a new thread. */
  lemma ThreadExactly(ops: seq<Op>, zone: Zone)
    requires Local(zone)
    ensures Answers(EMPTY, ops, zone) == PlainAnswers(NO_TIME, ops, zone) <==>
      FirstAsked(NO_TIME, ops).None? || FirstAsked(NO_TIME, ops).value.sec != 0
  {
    CacheExactly(EMPTY, ops, zone);
  }

  /** The shortest run that fails: a new thread asks at second 0 and gets no date. */
  lemma FirstAtZero(usec: nat, zone: Zone)
    requires Local(zone) && usec < 1_000_000
    ensures var run := [Get(TimeVal(0, usec))];
      && Answers(EMPTY, run, zone) == [Micros(usec)]
      && PlainAnswers(NO_TIME, run, zone) == [Stamp(zone(0)) + Micros(usec)] != [Micros(usec)]
  {
    var run := [Get(TimeVal(0, usec))];
    assert run[1..] == [];
    assert "" + Micros(usec) == Micros(usec);
    StampLength(zone(0));
    assert |Stamp(zone(0)) + Micros(usec)| > |Micros(usec)|;
  }

  // --------------------------------------------------------- the state in place

  /** `snprintf(buf + at, size, ...)` of a text: truncated, terminated, its full length returned. */
  method SnPrintf(buf: array<char>, at: nat, size: nat, text: string) returns (ret: nat)
    requires size > 0 && at + size <= buf.Length
    modifies buf
    ensures ret == |text| && buf[..at] == old(buf[..at])
    ensures var kept := if |text| < size then |text| else size - 1;
      buf[..at + kept] == old(buf[..at]) + text[..kept] && buf[at + kept] == NUL
  {
    var kept := if |text| < size then |text| else size - 1;
    var i := 0;
    while i < kept
      invariant i <= kept && buf[..at] == old(buf[..at])
      invariant buf[at..at + i] == text[..i]
    {
      buf[at + i] := text[i];
      i := i + 1;
    }
    buf[at + kept] := NUL;
    assert buf[..at + kept] == buf[..at] + buf[at..at + kept];
    ret := |text|;
  }

  // ------------------------------------------------------ the times of one message

  /** What calls of TestSetCurrentTm answer, one for each clock reading they may take. */
  function TimesSeen(tm: TimeVal, later: seq<TimeVal>): (seen: seq<TimeVal>)
    ensures |seen| == |later|
    decreases |later|
  {
    if later == [] then [] else [TestSet(tm, later[0])] + TimesSeen(TestSet(tm, later[0]), later[1..])
  }

  /** The first time that sticks: the first of the readings whose second is not 0. */
  function Sticks(readings: seq<TimeVal>): (j: nat)
    ensures j <= |readings| && (j < |readings| ==> readings[j].sec != 0)
    ensures forall i | 0 <= i < j :: readings[i].sec == 0
    decreases |readings|
  {
    if readings == [] || readings[0].sec != 0 then 0 else 1 + Sticks(readings[1..])
  }

  /** From the first reading with a non-zero second on all times are that reading; before it
      each is a reading of its own. */
  lemma {:induction false} SeenExactly(now: TimeVal, later: seq<TimeVal>, i: nat)
    requires i < |later|
    ensures var readings := [now] + later; var j := Sticks(readings);
      TimesSeen(now, later)[i] == if j <= i + 1 then readings[j] else later[i]
    decreases |later|
  {
    var readings := [now] + later;
    assert readings[1..] == later;
    assert [later[0]] + later[1..] == later;
    if now.sec == 0 {
      if i > 0 {
        SeenExactly(later[0], later[1..], i - 1);
      }
    } else {
      assert Sticks(readings) == 0;
      if i > 0 {
        SeenExactly(now, later[1..], i - 1);
        assert Sticks([now] + later[1..]) == 0;
      }
    }
  }

  /** One message shows one time exactly if the entry time or the first reading after it has
      a non-zero second, or the later readings do not differ at all. */
  lemma OneTimeExactly(now: TimeVal, later: seq<TimeVal>)
    ensures (forall v, w | v in TimesSeen(now, later) && w in TimesSeen(now, later) :: v == w) <==>
      now.sec != 0 || later == [] || later[0].sec != 0 || forall v <- later :: v == later[0]
  {
    var readings, seen := [now] + later, TimesSeen(now, later);
    var j := Sticks(readings);
    forall i | 0 <= i < |later| ensures seen[i] == if j <= i + 1 then readings[j] else later[i] {
      SeenExactly(now, later, i);
    }
    assert forall i | 0 <= i < |later| :: readings[i + 1] == later[i];
    if now.sec == 0 && later != [] && later[0].sec == 0 {
      assert seen[0] in seen && seen[0] == later[0];
      if j < |readings| {
        assert seen[j - 1] in seen && later[j - 1] in later;
      } else {
        assert seen == later;
      }
    }
  }

  class ThreadTime {
    var tm: TimeVal
    var lastSecond: int
    var offset: nat
    const timeBuff: array<char>
    const zone: Zone

    ghost predicate Valid()
      reads this, timeBuff
    {
      timeBuff.Length == SIZE && Local(zone) && Time(tm) && offset <= 27 && Sound(State(), zone)
    }

    ghost function State(): Cache
      reads this, timeBuff
      requires offset <= timeBuff.Length
    {
      Cache(tm, lastSecond, timeBuff[..offset])
    }

    /** Thread-local storage starts out zero. */
    constructor (zone: Zone)
      requires Local(zone)
      ensures Valid() && State() == EMPTY && this.zone == zone
    {
      tm, lastSecond, offset := NO_TIME, 0, 0;
      timeBuff := new char[SIZE](_ => NUL);
      this.zone := zone;
    }

    method UpdateCurrentTm(now: TimeVal)
      requires Valid() && Time(now)
      modifies `tm
      ensures Valid() && State() == Step(old(State()), Update(now), zone)
    {
      tm := now;
    }

    method ClearCurrentTm()
      requires Valid()
      modifies `tm
      ensures Valid() && State() == Step(old(State()), Clear, zone)
    {
      tm := NO_TIME;
    }

    method TestSetCurrentTm(now: TimeVal) returns (t: TimeVal)
      requires Valid() && Time(now)
      modifies `tm
      ensures Valid() && State() == old(State()).(tm := t) && t == TestSet(old(tm), now)
    {
      if tm.sec == 0 {
        UpdateCurrentTm(now);
      }
      t := tm;
    }

    /** The text is in the buffer up to the terminator, and whole if it fits. */
    method GetTimeString(now: TimeVal) returns (bufflen: nat)
      requires Valid() && Time(now)
      modifies this, timeBuff
      ensures Valid() && State() == Step(old(State()), Get(now), zone)
      ensures bufflen == |Shown(State())|
      ensures var kept := if bufflen < SIZE then bufflen else SIZE - 1;
        timeBuff[..kept] == Shown(State())[..kept] && timeBuff[kept] == NUL
    {
      hide Stamp, Micros, Local;
      var t := TestSetCurrentTm(now);
      RefreshStamp();
      ghost var stamp := timeBuff[..offset];
      var micros := Micros(t.usec);
      var ret := SnPrintf(timeBuff, offset, SIZE - offset, micros);
      ghost var kept := if offset + ret < SIZE then offset + ret else SIZE - 1;
      assert (stamp + micros)[..kept] == stamp + micros[..kept - offset];
      bufflen := offset + ret;
    }

    /** Lines 292-303. */
    method RefreshStamp()
      requires Valid()
      modifies `lastSecond, `offset, timeBuff
      ensures Valid() && State() == Refresh(old(State()), zone)
    {
      hide Stamp;
      if tm.sec != lastSecond {
        lastSecond := tm.sec;
        offset := FormatStamp(tm.sec);
      }
    }

    method FormatStamp(sec: int) returns (n: nat)
      requires timeBuff.Length == SIZE && Local(zone)
      modifies timeBuff
      ensures n <= 27 && timeBuff[..n] == Stamp(zone(sec))
    {
      hide Stamp;
      var text := Stamp(zone(sec));
      StampLength(zone(sec));
      n := SnPrintf(timeBuff, 0, SIZE, text);
      assert text[..|text|] == text;
    }

    /** `writeLog`: `later` are the clock readings that the calls of TestSetCurrentTm made
        while formatting and writing would get, `formatted` what the formatter returns. */
    method WriteLog(now: TimeVal, later: seq<TimeVal>, formatted: nat, granted: bool)
        returns (seen: seq<TimeVal>, msg: array?<char>, size: nat)
      requires Valid() && Time(now) && forall v <- later :: Time(v)
      modifies `tm
      ensures Valid()
      ensures !granted ==> msg == null && tm == old(tm)
      ensures granted ==> tm == NO_TIME && seen == TimesSeen(now, later)
      ensures granted ==> msg != null && 0 < size <= msg.Length == MAX_SIZE_PER_LOG && msg[size - 1] == '\n'
      ensures granted ==> size == (if formatted < MAX_SIZE_PER_LOG then formatted + 1 else MAX_SIZE_PER_LOG)
    {
      hide Stamp, Micros;
      seen, msg, size := [], null, 0;
      if !granted { return; }
      var buf := new char[MAX_SIZE_PER_LOG];
      UpdateCurrentTm(now);
      for i := 0 to |later|
        invariant Valid() && seen + TimesSeen(tm, later[i..]) == TimesSeen(now, later)
      {
        var t := TestSetCurrentTm(later[i]);
        seen := seen + [t];
        assert later[i..][1..] == later[i + 1..];
      }
      var msgLen := formatted;
      if msgLen >= MAX_SIZE_PER_LOG {
        msgLen := MAX_SIZE_PER_LOG - 1;
      }
      buf[msgLen] := '\n';
      msg, size := buf, msgLen + 1;
      ClearCurrentTm();
    }
  }

  const MAX_SIZE_PER_LOG := 4096  // include/Log.h:62
}
