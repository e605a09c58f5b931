/** The server statistics of lib/mixminion/server/EventStats.py: an
    EventLog counts events per argument, accumulates logging time across
    saves, rotates its totals into a history report no earlier than
    nextRotation, and schedules that time (rounded to the hour when the
    interval is a whole number of hours).  Times are integer seconds;
    nextRotation is a real because three quarters of an interval need not
    be whole.  time() is the parameter 'clock'; pickling and the history
    file are values returned by the operations. */
module EventStats {
  import opened Common

  /** _EVENTS: every recognised event type. */
  const EVENTS: seq<string> := [
    "ReceivedPacket",
    "ReceivedConnection",
    "AttemptedConnect", "SuccessfulConnect", "FailedConnect",
    "AttemptedRelay", "SuccessfulRelay", "FailedRelay", "UnretriableRelay",
    "AttemptedDelivery", "SuccessfulDelivery", "FailedDelivery", "UnretriableDelivery"
  ]

  /** The topic of an event: None or a string (a server name, say). */
  datatype Arg = NoArg | Named(name: string)

  type Counts = map<string, map<Arg, int>>

  datatype StatsError = NoSuchEvent(event: string) | NotReadyToRotate

  /** What _save pickles: count, lastRotation and accumulatedTime. */
  datatype Pickled = Pickled(count: Counts, lastRotation: int, accumulatedTime: int)

  /** 'if not now: now = time()' (None and 0 both read the clock). */
  function NowOrClock(now: Option<int>, clock: int): (t: int)
    ensures now.Some? && now.value != 0 ==> t == now.value
    ensures now.None? || now.value == 0 ==> t == clock
  {
    if now.None? || now.value == 0 then clock else now.value
  }

  /** 'if now is None: now = time()' (0 is kept). */
  function NowUnlessNone(now: Option<int>, clock: int): (t: int)
    ensures now.Some? ==> t == now.value
    ensures now.None? ==> t == clock
  {
    if now.None? then clock else now.value
  }

  /** Every event of _EVENTS present, with an empty map where it was missing;
      events already present keep their maps. */
  function AddMissingEvents(c: Counts): (r: Counts)
    ensures forall e :: e in EVENTS ==> e in r
    ensures forall e :: e in c ==> e in r && r[e] == c[e]
    ensures forall e :: e in r ==> e in c || (e in EVENTS && r[e] == map[])
  {
    map e | e in c.Keys + (set x | x in EVENTS) :: if e in c then c[e] else map[]
  }

  /** A count map with nothing counted yet. */
  function EmptyCounts(): (r: Counts)
    ensures forall e :: e in r <==> e in EVENTS
    ensures forall e :: e in r ==> r[e] == map[]
  {
    AddMissingEvents(map[])
  }

  // ---------------------------------------------------------------------
  // Scheduling the next rotation

  /** _setNextRotation before rounding: not before lastRotation + interval,
      not before three quarters of an interval of logging time would have
      accumulated, and never before 'now'.  The least such time. */
  function NextRotationTarget(lastRotation: int, interval: int, accumulated: int,
                              lastSave: int, now: int): (r: real)
    ensures r >= now as real
    ensures r >= (lastRotation + interval) as real
    ensures (accumulated + now - lastSave) as real + (r - now as real) >= 0.75 * interval as real
    ensures r == now as real || r == (lastRotation + interval) as real ||
            r == now as real + 0.75 * interval as real - (accumulated + now - lastSave) as real
  {
    var acc := accumulated + (now - lastSave);
    var secToGo := if 0.75 * interval as real - acc as real > 0.0
                   then 0.75 * interval as real - acc as real else 0.0;
    var a := (lastRotation + interval) as real;
    var b := now as real + secToGo;
    var next := if a >= b then a else b;
    if next < now as real then now as real else next
  }

  /** previousMidnight: the start of the UTC day holding t. */
  function PreviousMidnight(t: real): (m: int)
    ensures m % 86400 == 0
    ensures m as real <= t < m as real + 86400.0
  {
    86400 * (t.Floor / 86400)
  }

  /** Rounding to the hour: mid + 3600 * floorDiv(rest + 55*60, 3600).  The
      result lies on a whole hour, at most five minutes (strictly less)
      before and at most fifty-five minutes after the unrounded time. */
  function RoundToHour(r: real): (h: real)
    ensures h.Floor as real == h && h.Floor % 3600 == 0
    ensures r - 300.0 < h <= r + 3300.0
  {
    var mid := PreviousMidnight(r);
    var rest := r - mid as real;
    var k := FloorDiv3600(rest + 3300.0);
    assert mid == 3600 * (24 * (r.Floor / 86400));
    (mid + 3600 * k) as real
  }

  /** floorDiv(x, 3600) on a real x. */
  function FloorDiv3600(x: real): (k: int)
    ensures 3600.0 * k as real <= x < 3600.0 * k as real + 3600.0
  {
    var k := (x / 3600.0).Floor;
    assert k as real <= x / 3600.0 < k as real + 1.0;
    k
  }

  /** The scheduled time after _setNextRotation. */
  function ScheduledRotation(lastRotation: int, interval: int, accumulated: int,
                             lastSave: int, now: int): (r: real)
    ensures interval % 3600 != 0 ==> r == NextRotationTarget(lastRotation, interval, accumulated, lastSave, now)
    ensures interval % 3600 == 0 ==>
              r.Floor as real == r && r.Floor % 3600 == 0 &&
              NextRotationTarget(lastRotation, interval, accumulated, lastSave, now) - 300.0 < r <=
              NextRotationTarget(lastRotation, interval, accumulated, lastSave, now) + 3300.0
  {
    var target := NextRotationTarget(lastRotation, interval, accumulated, lastSave, now);
    if interval % 3600 == 0 then RoundToHour(target) else target
  }

  // ---------------------------------------------------------------------
  // The order of dump's sorted argument list (Python 2: None first, then
  // strings in lexicographic order of their characters)

  predicate StrLess(a: string, b: string)
    decreases |a|
  {
    if a == [] then b != []
    else if b == [] then false
    else if a[0] != b[0] then a[0] < b[0]
    else StrLess(a[1..], b[1..])
  }

  lemma {:induction false} StrLessIrreflexive(a: string)
    ensures !StrLess(a, a)
    decreases |a|
  {
    if a != [] {
      StrLessIrreflexive(a[1..]);
    }
  }

  lemma {:induction false} StrLessTransitive(a: string, b: string, c: string)
    requires StrLess(a, b) && StrLess(b, c)
    ensures StrLess(a, c)
    decreases |a|
  {
    if a != [] && a[0] == b[0] && b[0] == c[0] {
      StrLessTransitive(a[1..], b[1..], c[1..]);
    }
  }

  lemma {:induction false} StrLessTotal(a: string, b: string)
    requires a != b
    ensures StrLess(a, b) || StrLess(b, a)
    decreases |a|
  {
    if a != [] && b != [] && a[0] == b[0] {
      assert a == [a[0]] + a[1..] && b == [b[0]] + b[1..];
      StrLessTotal(a[1..], b[1..]);
    }
  }

  predicate ArgLess(a: Arg, b: Arg)
  {
    match (a, b)
    case (NoArg, Named(_)) => true
    case (Named(x), Named(y)) => StrLess(x, y)
    case _ => false
  }

  /** ArgLess is a strict total order. */
  lemma ArgLessOrder(a: Arg, b: Arg, c: Arg)
    ensures !ArgLess(a, a)
    ensures ArgLess(a, b) && ArgLess(b, c) ==> ArgLess(a, c)
    ensures a != b ==> ArgLess(a, b) || ArgLess(b, a)
  {
    if a.Named? {
      StrLessIrreflexive(a.name);
    }
    if a.Named? && b.Named? && c.Named? && ArgLess(a, b) && ArgLess(b, c) {
      StrLessTransitive(a.name, b.name, c.name);
    }
    if a.Named? && b.Named? && a != b {
      StrLessTotal(a.name, b.name);
    }
  }

  predicate StrictlySorted(s: seq<Arg>)
  {
    forall i, j :: 0 <= i < j < |s| ==> ArgLess(s[i], s[j])
  }

  /** Insert x in its place in a sorted list. */
  function Insert(x: Arg, s: seq<Arg>): (r: seq<Arg>)
    ensures |r| == |s| + 1
    ensures forall y :: y in r <==> y == x || y in s
  {
    if s == [] then [x]
    else if ArgLess(x, s[0]) then [x] + s
    else [s[0]] + Insert(x, s[1..])
  }

  lemma {:induction false} InsertSorted(x: Arg, s: seq<Arg>)
    requires StrictlySorted(s) && x !in s
    ensures StrictlySorted(Insert(x, s))
  {
    if s == [] {
    } else if ArgLess(x, s[0]) {
      var r := [x] + s;
      forall j | 1 <= j < |r|
        ensures ArgLess(x, r[j])
      {
        if j > 1 {
          ArgLessOrder(x, s[0], s[j - 1]);
        }
      }
    } else {
      ArgLessOrder(x, s[0], s[0]);
      assert ArgLess(s[0], x);
      InsertSorted(x, s[1..]);
      var rest := Insert(x, s[1..]);
      forall j | 0 <= j < |rest|
        ensures ArgLess(s[0], rest[j])
      {
        assert rest[j] in rest;
        if rest[j] != x {
          var i :| 0 <= i < |s[1..]| && s[1..][i] == rest[j];
          assert s[i + 1] == rest[j];
        }
      }
    }
  }

  /** args = count.keys(); args.sort() */
  method SortedKeys(m: map<Arg, int>) returns (args: seq<Arg>)
    ensures StrictlySorted(args)
    ensures forall a :: a in args <==> a in m
    ensures |args| == |m|
  {
    var rest := m.Keys;
    args := [];
    while rest != {}
      invariant rest <= m.Keys
      invariant StrictlySorted(args)
      invariant forall a :: a in args <==> a in m && a !in rest
      invariant |args| + |rest| == |m|
      decreases |rest|
    {
      var x :| x in rest;
      InsertSorted(x, args);
      args := Insert(x, args);
      rest := rest - {x};
    }
  }

  // ---------------------------------------------------------------------
  // dump's report

  /** One line "    %<width>s: %s" of an event's listing. */
  datatype Row = Row(arg: Arg, text: string, n: int)

  /** What dump prints for one event. */
  datatype EventReport =
    | NoEntries(event: string)                       // "  E: 0"
    | UnknownOnly(event: string, n: int)             // "  E: n"
    | Listed(event: string, rows: seq<Row>, totalText: string, total: int)

  /** The whole dump: the "From .. to .." interval and one report per event. */
  datatype Report = Report(from: int, to: int, events: seq<EventReport>)

  /** str(arg) */
  function ArgText(a: Arg): string
  {
    if a.NoArg? then "None" else a.name
  }

  /** The printed label: None is shown as "{Unknown}". */
  function Label(a: Arg): string
  {
    if a.NoArg? then "{Unknown}" else a.name
  }

  /** "%<width>s" % s: right-justified in a field of 'width' characters. */
  function Pad(s: string, width: nat): (r: string)
    ensures |r| == if |s| >= width then |s| else width
  {
    if |s| >= width then s else seq(width - |s|, _ => ' ') + s
  }

  /** The padded text ends with s and is blank before it. */
  lemma PadLayout(s: string, width: nat)
    ensures Pad(s, width)[|Pad(s, width)| - |s|..] == s
    ensures forall k :: 0 <= k < |Pad(s, width)| - |s| ==> Pad(s, width)[k] == ' '
  {
  }

  /** max([len(str(arg)) for arg in args] + [10]) */
  function Width(args: seq<Arg>): (w: nat)
    ensures w >= 10
    ensures forall k :: 0 <= k < |args| ==> |ArgText(args[k])| <= w
    ensures w == 10 || exists k :: 0 <= k < |args| && |ArgText(args[k])| == w
  {
    if args == [] then 10
    else
      var rest := Width(args[1..]);
      assert forall k :: 1 <= k < |args| ==> args[k] == args[1..][k - 1];
      if |ArgText(args[0])| > rest then |ArgText(args[0])| else rest
  }

  function ArgsOf(rows: seq<Row>): (s: seq<Arg>)
    ensures |s| == |rows| && forall k :: 0 <= k < |rows| ==> s[k] == rows[k].arg
  {
    seq(|rows|, k requires 0 <= k < |rows| => rows[k].arg)
  }

  /** The sum of the counts of the rows. */
  function TotalOf(rows: seq<Row>): int
  {
    if rows == [] then 0 else TotalOf(rows[..|rows| - 1]) + rows[|rows| - 1].n
  }

  /** The row printed for argument a with count n in a field of width w. */
  function RowFor(a: Arg, n: int, w: nat): (r: Row)
    ensures r.arg == a && r.n == n && |r.text| == if |Label(a)| >= w then |Label(a)| else w
  {
    Row(a, Pad(Label(a), w), n)
  }

  /** The listing of an event: every argument once, sorted, with its
      count, and a Total that is the sum of those counts. */
  ghost predicate ListingFor(cnt: map<Arg, int>, rows: seq<Row>, totalText: string, total: int)
  {
    var args := ArgsOf(rows);
    var w := Width(args);
    StrictlySorted(args) &&
    (forall a :: a in args <==> a in cnt) &&
    (forall k :: 0 <= k < |rows| ==> rows[k].arg in cnt && rows[k] == RowFor(rows[k].arg, cnt[rows[k].arg], w)) &&
    total == TotalOf(rows) &&
    totalText == Pad("Total", w)
  }

  /** What dump must print for event e with counts cnt: "0" when nothing
      was counted, the bare count when the only argument is None, and
      otherwise the listing. */
  ghost predicate EventReportFor(e: string, cnt: map<Arg, int>, rep: EventReport)
  {
    rep.event == e &&
    if |cnt| == 0 then rep == NoEntries(e)
    else if |cnt| == 1 && NoArg in cnt then rep == UnknownOnly(e, cnt[NoArg])
    else rep.Listed? && ListingFor(cnt, rep.rows, rep.totalText, rep.total)
  }

  ghost predicate ReportFor(c: Counts, from: int, to: int, rep: Report)
    requires forall e :: e in EVENTS ==> e in c
  {
    rep.from == from && rep.to == to && |rep.events| == |EVENTS| &&
    forall i :: 0 <= i < |EVENTS| ==> EventReportFor(EVENTS[i], c[EVENTS[i]], rep.events[i])
  }

  /** The lines dump prints for one event. */
  method ReportEvent(e: string, cnt: map<Arg, int>) returns (rep: EventReport)
    ensures EventReportFor(e, cnt, rep)
  {
    if |cnt| == 0 {
      rep := NoEntries(e);
    } else if |cnt| == 1 && NoArg in cnt {
      rep := UnknownOnly(e, cnt[NoArg]);
    } else {
      rep := ListEvent(e, cnt);
    }
  }

  /** The listing of one event with at least one argument other than a
      lone None. */
  method ListEvent(e: string, cnt: map<Arg, int>) returns (rep: EventReport)
    requires |cnt| != 0 && !(|cnt| == 1 && NoArg in cnt)
    ensures EventReportFor(e, cnt, rep)
  {
    var args := SortedKeys(cnt);
    var w := Width(args);
    var rows, total := CountRows(cnt, args, w);
    rep := Listed(e, rows, Pad("Total", w), total);
    ListingMeetsSpec(e, cnt, args, rep);
  }

  /** The loop of _dumpEvent over the sorted arguments: one row each, and
      their running total. */
  method CountRows(cnt: map<Arg, int>, args: seq<Arg>, w: nat) returns (rows: seq<Row>, total: int)
    requires forall a :: a in args ==> a in cnt
    ensures |rows| == |args|
    ensures forall j :: 0 <= j < |args| ==> rows[j] == RowFor(args[j], cnt[args[j]], w)
    ensures total == TotalOf(rows)
  {
    rows, total := [], 0;
    for k := 0 to |args|
      invariant |rows| == k
      invariant forall j :: 0 <= j < k ==> rows[j] == RowFor(args[j], cnt[args[j]], w)
      invariant total == TotalOf(rows)
    {
      var v := cnt[args[k]];
      var row := RowFor(args[k], v, w);
      assert TotalOf(rows + [row]) == total + v by {
        assert (rows + [row])[..k] == rows;
      }
      forall j | 0 <= j <= k
        ensures (rows + [row])[j] == RowFor(args[j], cnt[args[j]], w)
      {
        if j < k {
          assert (rows + [row])[j] == rows[j];
        }
      }
      rows := rows + [row];
      total := total + v;
    }
  }

  lemma ListingMeetsSpec(e: string, cnt: map<Arg, int>, args: seq<Arg>, rep: EventReport)
    requires |cnt| != 0 && !(|cnt| == 1 && NoArg in cnt)
    requires StrictlySorted(args) && (forall a :: a in args <==> a in cnt)
    requires rep.Listed? && rep.event == e && |rep.rows| == |args|
    requires forall j :: 0 <= j < |args| ==> rep.rows[j] == RowFor(args[j], cnt[args[j]], Width(args))
    requires rep.total == TotalOf(rep.rows) && rep.totalText == Pad("Total", Width(args))
    ensures EventReportFor(e, cnt, rep)
  {
    ListingHolds(cnt, args, rep.rows, rep.totalText, rep.total);
  }

  lemma ListingHolds(cnt: map<Arg, int>, args: seq<Arg>, rows: seq<Row>, totalText: string, total: int)
    requires StrictlySorted(args) && (forall a :: a in args <==> a in cnt)
    requires |rows| == |args|
    requires forall j :: 0 <= j < |args| ==> rows[j] == RowFor(args[j], cnt[args[j]], Width(args))
    requires total == TotalOf(rows) && totalText == Pad("Total", Width(args))
    ensures ListingFor(cnt, rows, totalText, total)
  {
    assert ArgsOf(rows) == args;
    RowsMatch(cnt, args, rows, Width(args));
  }

  lemma RowsMatch(cnt: map<Arg, int>, args: seq<Arg>, rows: seq<Row>, w: nat)
    requires forall a :: a in args ==> a in cnt
    requires |rows| == |args| && forall j :: 0 <= j < |args| ==> rows[j] == RowFor(args[j], cnt[args[j]], w)
    ensures forall k :: 0 <= k < |rows| ==> rows[k].arg in cnt && rows[k] == RowFor(rows[k].arg, cnt[rows[k].arg], w)
  {
    forall k | 0 <= k < |rows|
      ensures rows[k].arg in cnt && rows[k] == RowFor(rows[k].arg, cnt[rows[k].arg], w)
    {
      assert rows[k].arg == args[k] && args[k] in args;
    }
  }

  // ---------------------------------------------------------------------
  // The logs

  /** NilEventLog: ignores every event and never asks to wait for a
      rotation.  Its save, rotate and _log change nothing (they may modify
      nothing). */
  class NilEventLog {
    constructor ()
    {
    }

    /** getNextRotation() */
    function GetNextRotation(): (r: int)
      ensures r == 0
    {
      0
    }

    method Save(now: Option<int>)
    {
    }

    method Rotate(now: Option<int>)
    {
    }

    method Log(event: string, arg: Arg)
    {
    }
  }

  class EventLog {
    var count: Counts
    var lastRotation: int
    var accumulatedTime: int
    var lastSave: int
    var rotateInterval: int
    var nextRotation: real

    /** Every event of _EVENTS has a count map. */
    ghost predicate Valid()
      reads this
    {
      forall e :: e in EVENTS ==> e in count
    }

    /** EventLog(filename, historyFile, interval): load the pickled state
        if the file exists ('loaded'), else start empty at 'clock'; then
        schedule the next rotation and save (which returns the pickle). */
    constructor (interval: int, loaded: Option<Pickled>, clock: int)
      ensures Valid()
      ensures loaded.Some? ==> count == AddMissingEvents(loaded.value.count) &&
                                lastRotation == loaded.value.lastRotation
      ensures loaded.None? ==> count == EmptyCounts() && lastRotation == clock
      ensures rotateInterval == interval && lastSave == clock
      ensures accumulatedTime == if loaded.Some? then loaded.value.accumulatedTime else 0
      ensures nextRotation == ScheduledRotation(lastRotation, interval, accumulatedTime, clock, clock)
    {
      var last, acc;
      if loaded.Some? {
        count := AddMissingEvents(loaded.value.count);
        last, acc := loaded.value.lastRotation, loaded.value.accumulatedTime;
      } else {
        count := EmptyCounts();
        last, acc := clock, 0;
      }
      lastRotation, accumulatedTime := last, acc;
      rotateInterval := interval;
      lastSave := clock;
      nextRotation := ScheduledRotation(last, interval, acc, clock, clock);
      // the final save() at the same clock reading adds int(clock - clock) == 0
    }

    /** _save(now): add the whole seconds since the last save to the
        accumulated time, remember the save time, and return what is
        pickled. */
    method Save(now: Option<int>, clock: int) returns (written: Pickled)
      modifies this
      ensures accumulatedTime == old(accumulatedTime) + (NowOrClock(now, clock) - old(lastSave))
      ensures lastSave == NowOrClock(now, clock)
      ensures count == old(count) && lastRotation == old(lastRotation)
      ensures rotateInterval == old(rotateInterval) && nextRotation == old(nextRotation)
      ensures written == Pickled(count, lastRotation, accumulatedTime)
    {
      var t := NowOrClock(now, clock);
      accumulatedTime := accumulatedTime + (t - lastSave);
      lastSave := t;
      written := Pickled(count, lastRotation, accumulatedTime);
    }

    /** _log(event, arg): one more occurrence of 'arg' under 'event'; an
        unknown event raises KeyError and changes nothing. */
    method Log(event: string, arg: Arg) returns (err: Option<StatsError>)
      modifies this
      ensures event !in old(count) <==> err == Some(NoSuchEvent(event))
      ensures err.None? <==> event in old(count)
      ensures err.Some? ==> count == old(count)
      ensures err.None? ==>
                count == old(count)[event := old(count)[event][arg :=
                  if arg in old(count)[event] then old(count)[event][arg] + 1 else 1]]
      ensures lastRotation == old(lastRotation) && accumulatedTime == old(accumulatedTime)
      ensures lastSave == old(lastSave) && rotateInterval == old(rotateInterval)
      ensures nextRotation == old(nextRotation)
    {
      if event !in count {
        return Some(NoSuchEvent(event));
      }
      var forEvent := count[event];
      var n := if arg in forEvent then forEvent[arg] + 1 else 1;
      count := count[event := forEvent[arg := n]];
      err := None;
    }

    /** getNextRotation() */
    function GetNextRotation(): (r: real)
      reads this
      ensures r == nextRotation
    {
      nextRotation
    }

    /** _setNextRotation(now) */
    method SetNextRotation(now: Option<int>, clock: int)
      modifies this
      ensures nextRotation == ScheduledRotation(old(lastRotation), old(rotateInterval),
                                                old(accumulatedTime), old(lastSave), NowOrClock(now, clock))
      ensures count == old(count) && lastRotation == old(lastRotation)
      ensures accumulatedTime == old(accumulatedTime) && lastSave == old(lastSave)
      ensures rotateInterval == old(rotateInterval)
    {
      var t := NowOrClock(now, clock);
      nextRotation := ScheduledRotation(lastRotation, rotateInterval, accumulatedTime, lastSave, t);
    }

    /** dump(f, now): the report of the current interval, from lastRotation
        to 'now'. */
    method Dump(now: Option<int>, clock: int) returns (rep: Report)
      requires Valid()
      ensures ReportFor(count, lastRotation, NowUnlessNone(now, clock), rep)
    {
      var t := NowUnlessNone(now, clock);
      var reports: seq<EventReport> := [];
      for i := 0 to |EVENTS|
        invariant |reports| == i
        invariant forall j :: 0 <= j < i ==> EventReportFor(EVENTS[j], count[EVENTS[j]], reports[j])
      {
        var r := ReportEvent(EVENTS[i], count[EVENTS[i]]);
        reports := reports + [r];
      }
      rep := Report(lastRotation, t, reports);
    }

    /** rotate(now): refuse before nextRotation (MixError); otherwise
        _rotate: report the interval to the history file (after the
        boilerplate if the file is new), start empty counts at 'now', save
        and zero the accumulated time, and schedule the next rotation. */
    method Rotate(now: Option<int>, clock: int, historyExists: bool)
      returns (err: Option<StatsError>, boilerplate: bool, report: Report)
      requires Valid()
      modifies this
      ensures Valid()
      ensures var t := NowUnlessNone(now, clock);
              (t as real < old(nextRotation) <==> err == Some(NotReadyToRotate)) &&
              (err.None? <==> t as real >= old(nextRotation))
      ensures err.Some? ==>
                count == old(count) && lastRotation == old(lastRotation) &&
                accumulatedTime == old(accumulatedTime) && lastSave == old(lastSave) &&
                nextRotation == old(nextRotation)
      ensures err.None? ==>
                var t := NowUnlessNone(now, clock);
                boilerplate == !historyExists &&
                ReportFor(old(count), old(lastRotation), t, report) &&
                var saved := NowOrClock(Some(t), clock);  // _save reads the clock for t == 0
                count == EmptyCounts() &&
                lastRotation == t && lastSave == saved && accumulatedTime == 0 &&
                nextRotation == ScheduledRotation(t, old(rotateInterval), 0, saved, saved)
      ensures rotateInterval == old(rotateInterval)
    {
      var t := NowUnlessNone(now, clock);
      boilerplate := false;
      report := Report(0, 0, []);
      if (t as real) < nextRotation {
        return Some(NotReadyToRotate), boilerplate, report;
      }
      err := None;
      boilerplate := !historyExists;
      report := Dump(Some(t), clock);
      count := EmptyCounts();
      lastRotation := t;
      var _ := Save(Some(t), clock);
      accumulatedTime := 0;
      SetNextRotation(Some(t), clock);
    }
  }

  /** Loading what _save pickled gives back the same counts, rotation time
      and accumulated time. */
  lemma PickleRoundTrip(c: Counts, lastRotation: int, accumulated: int)
    requires forall e :: e in EVENTS ==> e in c
    ensures AddMissingEvents(Pickled(c, lastRotation, accumulated).count) == c
  {
  }

  /** Right after a rotation at t, the next one is at least one interval
      later (up to the five-minute rounding margin for whole-hour intervals). */
  lemma RotationSpacing(t: int, interval: int)
    ensures ScheduledRotation(t, interval, 0, t, t) >= (t + interval) as real - 300.0
    ensures interval % 3600 != 0 ==> ScheduledRotation(t, interval, 0, t, t) >= (t + interval) as real
  {
  }
}
