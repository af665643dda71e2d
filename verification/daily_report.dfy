/**
 * The daily background task (services/backgroundTaskService.js): clean old
 * data, fetch today's rows and send one report notification; and the guard
 * that registers the task once.
 *
 * The task's inputs are parameters: the table behind the handle `getDb()`
 * returns (or the failure opening threw), the clock reading the task takes,
 * the separate clock reading `cleanOldData` takes, and the outcome of reading
 * the retention setting. Notifications are a sink that never throws: the run
 * returns the list it sent.
 */
module DailyReport {
  import opened Calendar
  import opened Decimal
  import opened IsoText
  import opened JsDate
  import opened Outcomes
  import opened SensorStore
  import opened StoreQueries
  import opened Retention
  import opened ActivitySummary

  /** `BackgroundFetchResult`. */
  datatype FetchResult = NewData | Failed

  datatype Notification = Notification(title: string, body: string)

  /** What one run returns and the notifications it sent. */
  datatype RunOutcome = RunOutcome(result: FetchResult, sent: seq<Notification>)

  const ReportTitle := "Beehive Daily Report"
  const NoActivityBody := "No bee activity recorded today."

  function SummaryBody(entradas: int, saidas: int): string {
    "Today's Summary: " + IntText(entradas) + " bees in, " + IntText(saidas) + " bees out."
  }

  /** `new Date(now.getFullYear(), now.getMonth(), now.getDate())`. */
  function Today(now: int): Option<int> {
    NewLocalDate(GetFullYear(now), GetMonth(now), GetDate(now), 0, 0, 0, 0)
  }

  /** The one notification for today's rows: the totals when there are rows,
      the no-activity text otherwise. */
  function ReportFor(rows: seq<Row>): (n: Notification)
    ensures n.title == ReportTitle
    ensures |rows| == 0 <==> n.body == NoActivityBody
    ensures |rows| > 0 ==> n.body == SummaryBody(TotalEntradas(rows), TotalSaidas(rows))
  {
    if |rows| > 0 then
      var n := Notification(ReportTitle, SummaryBody(TotalEntradas(rows), TotalSaidas(rows)));
      assert n.body[0] == 'T' != NoActivityBody[0];
      n
    else Notification(ReportTitle, NoActivityBody)
  }

  /** Today's rows after the clean: the clean runs first, and either step's
      failure is the run's failure. */
  function TodaysRows(s: Store, now: int, sweepNow: int, read: Option<Option<string>>): (r: Result<seq<Row>, Failure>)
    ensures CleanOldData(Some(s), sweepNow, read).Err? ==> r.Err?
  {
    match CleanOldData(Some(s), sweepNow, read)
    case Err(e) => Err(e)
    case Ok((swept, _)) => ByDate(Some(swept), Today(now))
  }

  /** The task body: any failure to open, clean or fetch is caught and the run
      returns Failed having sent nothing; otherwise it sends exactly one
      report and returns NewData. */
  function RunTask(db: Result<Store, Failure>, now: int, sweepNow: int, read: Option<Option<string>>): (out: RunOutcome)
    ensures out.result == NewData <==> |out.sent| == 1
    ensures out.result == Failed <==> out.sent == []
    ensures forall k :: 0 <= k < |out.sent| ==> out.sent[k].title == ReportTitle
    ensures db.Err? ==> out == RunOutcome(Failed, [])
    ensures db.Ok? ==> (out.result == NewData <==> TodaysRows(db.value, now, sweepNow, read).Ok?)
    ensures db.Ok? && out.result == NewData ==> out.sent == [ReportFor(TodaysRows(db.value, now, sweepNow, read).value)]
  {
    match db
    case Err(_) => RunOutcome(Failed, [])
    case Ok(s) =>
      match TodaysRows(s, now, sweepNow, read)
      case Err(_) => RunOutcome(Failed, [])
      case Ok(rows) => RunOutcome(NewData, [ReportFor(rows)])
  }

  /** "Today" is the local midnight starting now's day, which is its own
      day's start. */
  lemma TodayIsLocalMidnight(now: int)
    requires !(0 <= GetFullYear(now) <= 99) && IsTimeValue(StartOfLocalDay(now))
    ensures Today(now) == Some(StartOfLocalDay(now))
    ensures Day(LocalTime(StartOfLocalDay(now))) == Day(LocalTime(now))
    ensures StartOfLocalDay(StartOfLocalDay(now)) == StartOfLocalDay(now)
  {
    NewLocalDateOfOwnDate(now);
    var d := Day(LocalTime(now));
    assert LocalTime(StartOfLocalDay(now)) == MsPerDay * d;
    DivUnique(MsPerDay * d, MsPerDay, d);
  }

  /** When the task's instants have four-digit years, the report counts
      exactly the stored rows that survive the clean's cutoff and were
      stamped during now's local day. */
  lemma TodaysRowsExactly(s: Store, now: int, sweepNow: int, read: Option<Option<string>>, x: Row, u: int)
    requires !(0 <= GetFullYear(now) <= 99)
    requires InIsoYears(StartOfLocalDay(now)) && InIsoYears(StartOfLocalDay(now) + MsPerDay - 1)
    requires Cutoff(sweepNow, GetRetentionSetting(read)).Some?
    requires InIsoYears(Cutoff(sweepNow, GetRetentionSetting(read)).value)
    requires ParseIso(x.dataHora) == Some(u)
    ensures TodaysRows(s, now, sweepNow, read).Ok?
    ensures x in TodaysRows(s, now, sweepNow, read).value <==>
      && x in s.rows
      && Cutoff(sweepNow, GetRetentionSetting(read)).value <= u
      && Day(LocalTime(u)) == Day(LocalTime(now))
  {
    var sod := StartOfLocalDay(now);
    IsoYearsAreTimeValues(sod);
    TodayIsLocalMidnight(now);
    TodaysRowsOn(s, now, sweepNow, read, x, u, sod);
  }

  /** The rows of the day `Today(now)` starts, after the clean. */
  lemma TodaysRowsOn(s: Store, now: int, sweepNow: int, read: Option<Option<string>>, x: Row, u: int, sod: int)
    requires Today(now) == Some(sod)
    requires InIsoYears(StartOfLocalDay(sod)) && InIsoYears(StartOfLocalDay(sod) + MsPerDay - 1)
    requires Cutoff(sweepNow, GetRetentionSetting(read)).Some?
    requires InIsoYears(Cutoff(sweepNow, GetRetentionSetting(read)).value)
    requires ParseIso(x.dataHora) == Some(u)
    ensures TodaysRows(s, now, sweepNow, read).Ok?
    ensures x in TodaysRows(s, now, sweepNow, read).value <==>
      && x in s.rows
      && Cutoff(sweepNow, GetRetentionSetting(read)).value <= u
      && Day(LocalTime(u)) == Day(LocalTime(sod))
  {
    var swept := SweptTable(s, now, sweepNow, read);
    CleanKeepsInstants(s, sweepNow, read, x, u);
    ByDateSelectsLocalDay(swept, sod, x, u);
  }

  /** The clean succeeds whenever its cutoff is a date. */
  lemma SweptTable(s: Store, now: int, sweepNow: int, read: Option<Option<string>>) returns (swept: Store)
    requires Cutoff(sweepNow, GetRetentionSetting(read)).Some?
    ensures CleanOldData(Some(s), sweepNow, read).Ok?
    ensures swept == CleanOldData(Some(s), sweepNow, read).value.0
    ensures TodaysRows(s, now, sweepNow, read) == ByDate(Some(swept), Today(now))
  {
    swept := CleanOldData(Some(s), sweepNow, read).value.0;
  }

  /** Every character of a decimal text is a digit or the minus sign. */
  lemma {:induction false} NatTextDigits(n: nat)
    ensures forall i :: 0 <= i < |NatText(n)| ==> IsDigit(NatText(n)[i])
    decreases n
  {
    if n >= 10 {
      NatTextDigits(n / 10);
    }
  }

  predicate Spaceless(s: string) {
    forall i :: 0 <= i < |s| ==> s[i] != ' '
  }

  lemma IntTextSpaceless(n: int)
    ensures Spaceless(IntText(n))
  {
    if n < 0 {
      NatTextDigits(-n);
      assert forall i :: 1 <= i < |IntText(n)| ==> IntText(n)[i] == NatText(-n)[i - 1];
    } else {
      NatTextDigits(n);
    }
  }

  /** Two words without spaces, each followed by a text that starts with a
      space, split the same way. */
  lemma SplitAtSpace(a: string, b: string, r1: string, r2: string)
    requires Spaceless(a) && Spaceless(b)
    requires |r1| > 0 && r1[0] == ' ' && |r2| > 0 && r2[0] == ' '
    requires a + r1 == b + r2
    ensures a == b && r1 == r2
  {
    if |a| < |b| {
      AppendAt(a, r1);
      PrefixAt(b, r2, |a|);
    } else if |b| < |a| {
      AppendAt(b, r2);
      PrefixAt(a, r1, |b|);
    } else {
      assert a == (a + r1)[..|a|];
      assert b == (b + r2)[..|b|];
      assert r1 == (a + r1)[|a|..];
      assert r2 == (b + r2)[|b|..];
    }
  }

  lemma AppendAt(a: string, r: string)
    ensures |r| > 0 ==> (a + r)[|a|] == r[0]
  {
  }

  lemma PrefixAt(a: string, r: string, i: int)
    ensures 0 <= i < |a| ==> (a + r)[i] == a[i]
  {
  }

  /** A text made of a fixed prefix, a word, a fixed middle, a word and a
      fixed end, where the words have no spaces and the middle and the end
      start with one, determines both words. */
  lemma TwoWords(p: string, m: string, z: string, a1: string, b1: string, a2: string, b2: string)
    requires Spaceless(a1) && Spaceless(b1) && Spaceless(a2) && Spaceless(b2)
    requires |m| > 0 && m[0] == ' ' && |z| > 0 && z[0] == ' '
    requires p + a1 + m + b1 + z == p + a2 + m + b2 + z
    ensures a1 == a2 && b1 == b2
  {
    var w1 := p + a1 + m + b1 + z;
    var w2 := p + a2 + m + b2 + z;
    assert w1[|p|..] == a1 + (m + (b1 + z));
    assert w2[|p|..] == a2 + (m + (b2 + z));
    SplitAtSpace(a1, a2, m + (b1 + z), m + (b2 + z));
    assert (m + (b1 + z))[|m|..] == b1 + z;
    assert (m + (b2 + z))[|m|..] == b2 + z;
    SplitAtSpace(b1, b2, z, z);
  }

  /** The report's text determines both totals: different totals never give
      the same message. */
  lemma SummaryBodyInjective(e1: int, s1: int, e2: int, s2: int)
    requires SummaryBody(e1, s1) == SummaryBody(e2, s2)
    ensures e1 == e2 && s1 == s2
  {
    IntTextSpaceless(e1);
    IntTextSpaceless(e2);
    IntTextSpaceless(s1);
    IntTextSpaceless(s2);
    TwoWords("Today's Summary: ", " bees in, ", " bees out.", IntText(e1), IntText(s1), IntText(e2), IntText(s2));
    IntTextInjective(e1, e2);
    IntTextInjective(s1, s2);
  }

  /** The options `registerTaskAsync` receives. */
  datatype Registration = Registration(minimumIntervalSeconds: int, stopOnTerminate: bool, startOnBoot: bool)

  /** Once a day, kept after the app is closed, restarted on boot. */
  const DailyRegistration := Registration(60 * 60 * 24, false, true)

  /** `registerBackgroundFetchTask`: `current` is the task's registration,
      `queryFails` and `registerFails` whether the two calls throw (the error
      is caught and logged). Returns the registration afterwards. */
  function RegisterTask(current: Option<Registration>, queryFails: bool, registerFails: bool): (r: Option<Registration>)
    ensures current.Some? ==> r == current
    ensures r != current <==> current.None? && !queryFails && !registerFails
    ensures r.Some? ==> r == current || r == Some(DailyRegistration)
  {
    if queryFails then current
    else if current.Some? then current
    else if registerFails then current
    else Some(DailyRegistration)
  }

  /** Registering again changes nothing. */
  lemma RegisterTaskIdempotent(current: Option<Registration>, q1: bool, r1: bool, q2: bool, r2: bool)
    requires RegisterTask(current, q1, r1).Some?
    ensures RegisterTask(RegisterTask(current, q1, r1), q2, r2) == RegisterTask(current, q1, r1)
  {
  }
}
