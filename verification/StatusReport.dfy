/** The latest event of each session, out of a log whose lines may be in any order. */
module StatusReport {
  import opened Wrappers
  import opened Timestamps

  /** A logged event: when its turn started, which event it is, and the rest of it. */
  datatype Envelope = Envelope(startedAt: Option<string>, event: Option<string>, rest: int)

  datatype Entry = Entry(session: string, envelope: Envelope)

  datatype Rank = Rank(started: string, terminal: bool)

  const STARTED: string := "turn_started"

  function RankOf(v: Envelope): Rank {
    Rank(match v.startedAt case None => "" case Some(s) => s, v.event != Some(STARTED))
  }

  predicate RankLess(x: Rank, y: Rank) {
    LexLess(x.started, y.started) || (x.started == y.started && !x.terminal && y.terminal)
  }

  lemma RankTotal(x: Rank, y: Rank)
    ensures RankLess(x, y) || RankLess(y, x) || x == y
    ensures !(RankLess(x, y) && RankLess(y, x))
  {
    LexTotal(x.started, y.started);
    hide LexLess;
  }

  lemma RankTransitive(x: Rank, y: Rank, z: Rank)
    requires !RankLess(y, x) && !RankLess(z, y)
    ensures !RankLess(z, x)
    ensures RankLess(x, y) || RankLess(y, z) ==> RankLess(x, z)
  {
    LexTotal(x.started, y.started);
    LexTotal(y.started, z.started);
    LexTotal(x.started, z.started);
    if LexLess(x.started, y.started) && LexLess(y.started, z.started) {
      LexTransitive(x.started, y.started, z.started);
    }
    if LexLess(z.started, x.started) && LexLess(x.started, y.started) {
      LexTransitive(z.started, x.started, y.started);
    }
    hide LexLess;
  }

  /** Line `i` of the log is an event of `session`; other lines are unreadable or name no session. */
  predicate IsEvent(log: seq<Option<Entry>>, session: string, i: int) {
    0 <= i < |log| && log[i].Some? && log[i].value.session == session
  }

  ghost predicate Logged(log: seq<Option<Entry>>, session: string) {
    exists i :: IsEvent(log, session, i)
  }

  /** Line `i` is the newest event of its session: none ranks higher, and of equal ones it is last. */
  ghost predicate Newest(log: seq<Option<Entry>>, session: string, i: int) {
    && IsEvent(log, session, i)
    && forall j :: IsEvent(log, session, j) ==>
         && !RankLess(RankOf(log[i].value.envelope), RankOf(log[j].value.envelope))
         && (j > i ==> RankLess(RankOf(log[j].value.envelope), RankOf(log[i].value.envelope)))
  }

  ghost predicate IsLatest(log: seq<Option<Entry>>, session: string, v: Envelope) {
    exists i :: Newest(log, session, i) && log[i].value.envelope == v
  }

  /** The report of the first lines of the log holds every session's newest event among them. */
  ghost predicate ReportOf(log: seq<Option<Entry>>, latest: map<string, Envelope>) {
    && (forall session :: session in latest <==> Logged(log, session))
    && (forall session :: session in latest ==> IsLatest(log, session, latest[session]))
  }

  lemma OneMoreLine(log: seq<Option<Entry>>, latest: map<string, Envelope>, line: Option<Entry>)
    requires ReportOf(log, latest)
    ensures line.None? ==> ReportOf(log + [line], latest)
    ensures line.Some? ==>
      var e := line.value;
      if e.session in latest && RankLess(RankOf(e.envelope), RankOf(latest[e.session]))
      then ReportOf(log + [line], latest)
      else ReportOf(log + [line], latest[e.session := e.envelope])
  {
    hide RankOf, RankLess, Logged, IsLatest;
    var longer := log + [line];
    forall session
      ensures Logged(longer, session) <==> Logged(log, session) || (line.Some? && line.value.session == session)
    {
      LoggedLonger(log, line, session);
    }
    forall session | session in latest && (line.None? || line.value.session != session)
      ensures IsLatest(longer, session, latest[session])
    {
      KeepsLatest(log, line, session, latest[session]);
    }
    if line.Some? {
      NewestOfSession(log, latest, line.value);
    }
  }

  lemma LoggedLonger(log: seq<Option<Entry>>, line: Option<Entry>, session: string)
    ensures Logged(log + [line], session) <==> Logged(log, session) || (line.Some? && line.value.session == session)
  {
    var longer := log + [line];
    if Logged(log, session) {
      var i :| IsEvent(log, session, i);
      assert IsEvent(longer, session, i);
    }
    if line.Some? && line.value.session == session {
      assert IsEvent(longer, session, |log|);
    }
    if Logged(longer, session) {
      var i :| IsEvent(longer, session, i);
      assert i < |log| ==> IsEvent(log, session, i);
    }
  }

  lemma KeepsLatest(log: seq<Option<Entry>>, line: Option<Entry>, session: string, v: Envelope)
    requires IsLatest(log, session, v) && (line.None? || line.value.session != session)
    ensures IsLatest(log + [line], session, v)
  {
    hide RankOf, RankLess;
    var i :| Newest(log, session, i) && log[i].value.envelope == v;
    KeepsNewest(log, line, session, i);
  }

  lemma KeepsNewest(log: seq<Option<Entry>>, line: Option<Entry>, session: string, i: int)
    requires Newest(log, session, i)
    requires line.Some? && line.value.session == session ==>
      RankLess(RankOf(line.value.envelope), RankOf(log[i].value.envelope))
    ensures Newest(log + [line], session, i)
  {
    var longer := log + [line];
    hide RankOf, RankLess;
    forall j | IsEvent(longer, session, j)
      ensures !RankLess(RankOf(longer[i].value.envelope), RankOf(longer[j].value.envelope))
      ensures j > i ==> RankLess(RankOf(longer[j].value.envelope), RankOf(longer[i].value.envelope))
    {
      if j < |log| {
        assert IsEvent(log, session, j);
      } else {
        RankTotal(RankOf(longer[j].value.envelope), RankOf(longer[i].value.envelope));
      }
    }
  }

  lemma NewestOfSession(log: seq<Option<Entry>>, latest: map<string, Envelope>, e: Entry)
    requires ReportOf(log, latest)
    ensures
      var v := if e.session in latest && RankLess(RankOf(e.envelope), RankOf(latest[e.session]))
               then latest[e.session] else e.envelope;
      IsLatest(log + [Some(e)], e.session, v)
  {
    var longer := log + [Some(e)];
    hide RankOf, RankLess;
    if e.session in latest && RankLess(RankOf(e.envelope), RankOf(latest[e.session])) {
      var i :| Newest(log, e.session, i) && log[i].value.envelope == latest[e.session];
      KeepsNewest(log, Some(e), e.session, i);
    } else {
      forall j | IsEvent(longer, e.session, j)
        ensures !RankLess(RankOf(e.envelope), RankOf(longer[j].value.envelope))
      {
        RankTotal(RankOf(e.envelope), RankOf(e.envelope));
        if j < |log| {
          assert IsEvent(log, e.session, j) && Logged(log, e.session);
          var i :| Newest(log, e.session, i) && log[i].value.envelope == latest[e.session];
          RankTransitive(RankOf(longer[j].value.envelope), RankOf(latest[e.session]), RankOf(e.envelope));
        }
      }
      assert IsEvent(longer, e.session, |log|);
      assert Newest(longer, e.session, |log|);
    }
  }

  /** The newest logged event of each session; a session without one is reported from its record. */
  method Report(log: seq<Option<Entry>>, records: seq<(string, Envelope)>) returns (report: map<string, Envelope>)
    ensures forall session :: session in report <==>
      Logged(log, session) || exists r :: r in records && r.0 == session
    ensures forall session :: session in report && Logged(log, session) ==> IsLatest(log, session, report[session])
    ensures forall session :: session in report && !Logged(log, session) ==> (session, report[session]) in records
  {
    hide IsLatest, Logged, RankOf, RankLess;
    var latest: map<string, Envelope> := map[];
    assert ReportOf([], latest) by {
      NothingLogged();
    }
    for i := 0 to |log|
      invariant ReportOf(log[..i], latest)
    {
      OneMoreLine(log[..i], latest, log[i]);
      assert log[..i + 1] == log[..i] + [log[i]];
      match log[i] {
        case None =>
        case Some(e) =>
          if !(e.session in latest && RankLess(RankOf(e.envelope), RankOf(latest[e.session]))) {
            latest := latest[e.session := e.envelope];
          }
      }
    }
    assert log[..|log|] == log;
    report := latest;
    for i := 0 to |records|
      invariant forall session :: session in latest ==> session in report && report[session] == latest[session]
      invariant forall session :: session in report ==>
        session in latest || (session, report[session]) in records[..i]
      invariant forall r :: r in records[..i] ==> r.0 in report
    {
      var (name, record) := records[i];
      if name !in report {
        report := report[name := record];
      }
      assert records[..i + 1] == records[..i] + [records[i]];
    }
    assert records[..|records|] == records;
  }

  lemma NothingLogged()
    ensures ReportOf([], map[])
  {
  }

  /** Different events of one session have different ranks. */
  ghost predicate DistinctRanks(log: seq<Option<Entry>>) {
    forall i, j, session {:trigger IsEvent(log, session, i), IsEvent(log, session, j)} ::
      (IsEvent(log, session, i) && IsEvent(log, session, j)
       && RankOf(log[i].value.envelope) == RankOf(log[j].value.envelope)) ==> log[i] == log[j]
  }

  /** The order of the lines does not matter: two logs with the same lines report the same event. */
  lemma OrderDoesNotMatter(log: seq<Option<Entry>>, log': seq<Option<Entry>>, session: string, v: Envelope, v': Envelope)
    requires DistinctRanks(log) && multiset(log) == multiset(log')
    requires IsLatest(log, session, v) && IsLatest(log', session, v')
    ensures v == v'
  {
    var i :| Newest(log, session, i) && log[i].value.envelope == v;
    var i' :| Newest(log', session, i') && log'[i'].value.envelope == v';
    assert log'[i'] in multiset(log') && log[i] in multiset(log);
    var j :| 0 <= j < |log| && log[j] == log'[i'];
    var j' :| 0 <= j' < |log'| && log'[j'] == log[i];
    assert IsEvent(log, session, j) && IsEvent(log', session, j');
    RankTotal(RankOf(v), RankOf(v'));
    hide RankOf, RankLess;
  }

  /** Ranks order events by the start of their turn, and a terminal event above its turn's start. */
  lemma RankIsLifecycle(t: int, u: int, e: Option<string>, f: Option<string>, x: int, y: int)
    requires t < YEAR_10000 && u < YEAR_10000
    ensures
      var v, w := Envelope(Some(Rfc3339(t)), e, x), Envelope(Some(Rfc3339(u)), f, y);
      RankLess(RankOf(v), RankOf(w)) <==>
        SinceEpoch(t) < SinceEpoch(u)
        || (SinceEpoch(t) == SinceEpoch(u) && e == Some("turn_started") && f != Some("turn_started"))
  {
    TimestampOrder(t, u);
    hide LexLess, Rfc3339, SinceEpoch;
  }

  /** Of events that tell the same start and the same event the one logged last is reported. */
  lemma LaterLineWins(log: seq<Option<Entry>>, e: Entry, v: Envelope)
    requires IsLatest(log + [Some(e)], e.session, v)
    requires forall j :: IsEvent(log, e.session, j) ==>
      log[j].value.envelope.startedAt == e.envelope.startedAt && log[j].value.envelope.event == e.envelope.event
    ensures v == e.envelope
  {
    var longer := log + [Some(e)];
    var i :| Newest(longer, e.session, i) && longer[i].value.envelope == v;
    assert IsEvent(longer, e.session, |log|);
    if i < |log| {
      assert IsEvent(log, e.session, i);
      RankTotal(RankOf(v), RankOf(e.envelope));
    }
  }

  /** An event that does not tell when its turn started ranks below every one that does. */
  lemma UntimedIsOldest(e: Option<string>, f: Option<string>, started: string, x: int, y: int)
    requires started != []
    ensures RankLess(RankOf(Envelope(None, e, x)), RankOf(Envelope(Some(started), f, y)))
  {
  }

  /** `time` tells when each logged event's turn of a session started, as its line spells it. */
  ghost predicate Timed(log: seq<Option<Entry>>, session: string, time: int -> int) {
    forall j :: IsEvent(log, session, j) ==>
      time(j) < YEAR_10000 && log[j].value.envelope.startedAt == Some(Rfc3339(time(j)))
  }

  predicate IsTerminal(v: Envelope) {
    v.event != Some("turn_started")
  }

  /** No logged event of the session belongs to a newer turn than line `i`, nor ends the turn that
      line `i` only starts. */
  ghost predicate NewestInTime(log: seq<Option<Entry>>, session: string, time: int -> int, i: int) {
    && IsEvent(log, session, i)
    && forall j :: IsEvent(log, session, j) ==>
         && SinceEpoch(time(j)) <= SinceEpoch(time(i))
         && (SinceEpoch(time(j)) == SinceEpoch(time(i)) && IsTerminal(log[j].value.envelope) ==>
              IsTerminal(log[i].value.envelope))
  }

  /** What the report holds for a session is an event of its newest turn in time, and a terminal one if
      that turn has logged any. */
  lemma ReportedIsNewestInTime(log: seq<Option<Entry>>, session: string, v: Envelope, time: int -> int)
    returns (i: int)
    requires IsLatest(log, session, v) && Timed(log, session, time)
    ensures NewestInTime(log, session, time, i) && log[i].value.envelope == v
  {
    hide RankLess, RankOf, Rfc3339, SinceEpoch;
    i :| Newest(log, session, i) && log[i].value.envelope == v;
    forall j | IsEvent(log, session, j)
      ensures SinceEpoch(time(j)) <= SinceEpoch(time(i))
      ensures SinceEpoch(time(j)) == SinceEpoch(time(i)) && IsTerminal(log[j].value.envelope) ==> IsTerminal(v)
    {
      var w := log[j].value.envelope;
      RankIsLifecycle(time(i), time(j), v.event, w.event, v.rest, w.rest);
      assert v == Envelope(Some(Rfc3339(time(i))), v.event, v.rest);
      assert w == Envelope(Some(Rfc3339(time(j))), w.event, w.rest);
    }
  }
}
