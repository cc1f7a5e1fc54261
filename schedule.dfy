/** The meeting configuration and `compute_next_run`: when a worker should
    next open its meeting. The clock is a parameter: `now` is the instant
    `datetime.now(TZ)` would return, in whole seconds. */
module Schedule {
  import opened Wrappers
  import opened Builtins
  import opened Calendar

  /** The `programacion` dictionary; a missing key is None. */
  datatype Programacion = Programacion(
    tipo: Option<string>,
    fechaHora: Option<string>,
    dias: Option<seq<string>>,
    hora: Option<string>)

  /** One entry of the `reuniones` list; a missing key is None, except the
      required `url`. */
  datatype Reunion = Reunion(
    url: string,
    modo: Option<string>,
    nombreUsuario: Option<string>,
    incognito: Option<bool>,
    programacion: Option<Programacion>,
    abrirAntesMin: Option<int>)

  /** What `compute_next_run` produces: None, a datetime, or the ValueError
      that `_parse_hhmm` lets escape. */
  datatype RunTime = NoRun | RunAt(at: int) | ParseError

  /** `reu.get("programacion") or {}`. */
  function Prog(reu: Reunion): Programacion
  {
    reu.programacion.GetOr(Programacion(None, None, None, None))
  }

  /** `int(reu.get("abrir_antes_min", 20))`: the lead time in minutes. */
  function LeadMinutes(reu: Reunion): int
  {
    reu.abrirAntesMin.GetOr(20)
  }

  /** The schedule kinds `compute_next_run` tells apart by `tipo`. */
  datatype Kind = OneOff | Weekly | Unscheduled

  /** `"unico"` is one-off, `"semanal"` weekly, anything else (or nothing)
      unscheduled. */
  function KindOf(p: Programacion): Kind
  {
    if p.tipo == Some("unico") then OneOff
    else if p.tipo == Some("semanal") then Weekly
    else Unscheduled
  }

  predicate IsOneOff(reu: Reunion)
  {
    KindOf(Prog(reu)) == OneOff
  }

  predicate IsWeekly(reu: Reunion)
  {
    KindOf(Prog(reu)) == Weekly
  }

  /** Python truthiness of an optional string: present and non-empty. */
  predicate Truthy(s: Option<string>)
  {
    s.Some? && s.value != ""
  }

  /** `prog.get("dias") or []`. */
  function DayTokens(p: Programacion): seq<string>
  {
    p.dias.GetOr([])
  }

  // ---------------------------------------------------------------- WEEKDAY_MAP

  /** `WEEKDAY_MAP`: Spanish (with and without accents) and English day
      abbreviations to `datetime.weekday()` numbers, as the entries of its
      dict display, in order. */
  const WeekdayMap: seq<(string, int)> := [
    ("lun", 0), ("mar", 1), ("mie", 2), ("mi\U{E9}", 2), ("jue", 3), ("vie", 4),
    ("sab", 5), ("s\U{E1}b", 5), ("dom", 6),
    ("mon", 0), ("tue", 1), ("wed", 2), ("thu", 3), ("fri", 4), ("sat", 5), ("sun", 6)]

  const SpanishNames := ["lun", "mar", "mie", "jue", "vie", "sab", "dom"]
  const EnglishNames := ["mon", "tue", "wed", "thu", "fri", "sat", "sun"]

  /** `table.get(key)` on a dict display given by its entries, whose keys
      are distinct (as `WeekdayMapKeysAreDistinct` proves of `WEEKDAY_MAP`):
      the value of the entry whose key is `key`, None when there is none.
      The scan stops at the first match; with distinct keys that is the
      only one. (A display that repeated a key would keep the LAST value in
      Python; no such display is looked up here.) */
  function Lookup(table: seq<(string, int)>, key: string): Option<int>
  {
    if table == [] then None
    else if table[0].0 == key then Some(table[0].1)
    else Lookup(table[1..], key)
  }

  /** A value found is the value of some entry. */
  lemma {:induction false} LookupFindsAnEntry(table: seq<(string, int)>, key: string)
    ensures Lookup(table, key).Some? ==>
      exists i :: 0 <= i < |table| && table[i] == (key, Lookup(table, key).value)
  {
    if table != [] && table[0].0 != key {
      LookupFindsAnEntry(table[1..], key);
      if Lookup(table, key).Some? {
        var i :| 0 <= i < |table[1..]| && table[1..][i] == (key, Lookup(table, key).value);
        assert table[i + 1] == table[1..][i];
      }
    }
  }

  /** A listed key that no earlier entry shares (with distinct keys, every
      listed key) is found, with the value of its entry. */
  lemma {:induction false} LookupFindsListedKeys(table: seq<(string, int)>, i: nat)
    requires i < |table| && forall j :: 0 <= j < i ==> table[j].0 != table[i].0
    ensures Lookup(table, table[i].0) == Some(table[i].1)
  {
    if i > 0 {
      LookupFindsListedKeys(table[1..], i - 1);
    }
  }

  /** Every entry is a weekday number. */
  lemma WeekdayMapValuesAreWeekdays()
    ensures forall i :: 0 <= i < |WeekdayMap| ==> 0 <= WeekdayMap[i].1 < 7
  {
  }

  /** No key of the dict display is listed twice. */
  lemma WeekdayMapKeysAreDistinct()
    ensures forall i, j :: 0 <= i < j < |WeekdayMap| ==> WeekdayMap[i].0 != WeekdayMap[j].0
  {
    forall i, j | 0 <= i < j < |WeekdayMap|
      ensures WeekdayMap[i].0 != WeekdayMap[j].0
    {
      var a, b := WeekdayMap[i].0, WeekdayMap[j].0;
      assert |a| == 3 && |b| == 3;
      assert a[0] != b[0] || a[1] != b[1] || a[2] != b[2];
    }
  }

  /** Every weekday has a Spanish and an English name. */
  lemma WeekdayMapCoversTheWeek()
    ensures forall wd :: 0 <= wd < 7 ==>
      Lookup(WeekdayMap, SpanishNames[wd]) == Some(wd) && Lookup(WeekdayMap, EnglishNames[wd]) == Some(wd)
  {
    var spanish := [0, 1, 2, 4, 5, 6, 8];
    var english := [9, 10, 11, 12, 13, 14, 15];
    forall wd | 0 <= wd < 7
      ensures Lookup(WeekdayMap, SpanishNames[wd]) == Some(wd) && Lookup(WeekdayMap, EnglishNames[wd]) == Some(wd)
    {
      WeekdayMapEntryFound(spanish[wd]);
      WeekdayMapEntryFound(english[wd]);
    }
  }

  lemma WeekdayMapEntryFound(k: nat)
    requires k < |WeekdayMap|
    ensures Lookup(WeekdayMap, WeekdayMap[k].0) == Some(WeekdayMap[k].1)
  {
    WeekdayMapKeysAreDistinct();
    LookupFindsListedKeys(WeekdayMap, k);
  }

  /** `WEEKDAY_MAP.get(d.strip().lower())`. */
  function DayNumber(token: string): (wd: Option<int>)
    ensures wd.Some? ==> 0 <= wd.value < 7
  {
    WeekdayMapValuesAreWeekdays();
    LookupFindsAnEntry(WeekdayMap, Lower(Strip(token)));
    Lookup(WeekdayMap, Lower(Strip(token)))
  }

  /** Tokens are looked up trimmed and lower-cased: a token and its
      normalised form name the same day. */
  lemma DayNumberNormalises(token: string)
    ensures DayNumber(token) == DayNumber(Lower(Strip(token)))
  {
    var key := Lower(Strip(token));
    var s := Strip(token);
    if key != [] {
      LowerKeepsSpaces(s[0]);
      LowerKeepsSpaces(s[|s| - 1]);
    }
    StripUnchanged(key);
    LowerIdempotent(s);
  }

  /** The weekday a token names, as a set: empty for an unknown token. */
  function DaysNamed(token: string): set<int>
  {
    match DayNumber(token)
    case None => {}
    case Some(wd) => {wd}
  }

  /** The weekday numbers the recognised tokens of `dias` name. */
  function RecognisedDays(dias: seq<string>): set<int>
  {
    if dias == [] then {} else RecognisedDays(dias[..|dias| - 1]) + DaysNamed(dias[|dias| - 1])
  }

  // ---------------------------------------------------------------- compute_next_run

  /** The `candidates` list the weekly branch builds: one next occurrence per
      recognised token, in the order of the tokens; unknown tokens skipped. */
  function Candidates(dias: seq<string>, tod: TimeOfDay, now: int): seq<int>
  {
    if dias == [] then []
    else Candidates(dias[..|dias| - 1], tod, now) + CandidateOf(dias[|dias| - 1], tod, now)
  }

  /** What one token adds to the list: its day's next occurrence, or
      nothing for an unknown token. */
  function CandidateOf(token: string, tod: TimeOfDay, now: int): seq<int>
  {
    match DayNumber(token)
    case None => []
    case Some(wd) => [NextWeekdayInstant(wd, tod, now)]
  }

  /** Appending a token appends its contribution. */
  lemma CandidatesSnoc(dias: seq<string>, i: nat, tod: TimeOfDay, now: int)
    requires i < |dias|
    ensures Candidates(dias[..i + 1], tod, now) == Candidates(dias[..i], tod, now) + CandidateOf(dias[i], tod, now)
  {
    assert dias[..i + 1][..i] == dias[..i];
  }

  /** Each candidate is an occurrence of a recognised day at `tod` within the
      week after `now`. */
  lemma {:induction false} CandidatesAreOccurrences(dias: seq<string>, tod: TimeOfDay, now: int)
    ensures forall c :: c in Candidates(dias, tod, now) ==>
      (now < c <= now + WeekSeconds
       && Weekday(c) in RecognisedDays(dias) && SecondOfDay(c) == Offset(tod))
  {
    if dias != [] {
      var init := dias[..|dias| - 1];
      CandidatesAreOccurrences(init, tod, now);
      var d := DayNumber(dias[|dias| - 1]);
      var tail := if d.Some? then [NextWeekdayInstant(d.value, tod, now)] else [];
      assert Candidates(dias, tod, now) == Candidates(init, tod, now) + tail;
      assert RecognisedDays(dias) == RecognisedDays(init) + DaysNamed(dias[|dias| - 1]);
      if d.Some? {
        var wd := d.value;
        WeekdayNumberModSeven(wd);
        assert wd in RecognisedDays(dias);
      }
    }
  }

  /** Each recognised day contributes its next occurrence. */
  lemma {:induction false} CandidatesCoverDays(dias: seq<string>, tod: TimeOfDay, now: int)
    ensures forall wd :: wd in RecognisedDays(dias) ==> NextWeekdayInstant(wd, tod, now) in Candidates(dias, tod, now)
  {
    if dias != [] {
      var init := dias[..|dias| - 1];
      CandidatesCoverDays(init, tod, now);
    }
  }

  /** The list is empty exactly when no token is recognised. */
  lemma {:induction false} CandidatesEmpty(dias: seq<string>, tod: TimeOfDay, now: int)
    ensures Candidates(dias, tod, now) == [] <==> RecognisedDays(dias) == {}
  {
    if dias != [] {
      var init := dias[..|dias| - 1];
      CandidatesEmpty(init, tod, now);
    }
  }

  lemma CandidatesSpec(dias: seq<string>, tod: TimeOfDay, now: int)
    ensures var cs := Candidates(dias, tod, now);
      && (forall c :: c in cs ==>
            (now < c <= now + WeekSeconds
             && Weekday(c) in RecognisedDays(dias) && SecondOfDay(c) == Offset(tod)))
      && (forall wd :: wd in RecognisedDays(dias) ==> NextWeekdayInstant(wd, tod, now) in cs)
      && (cs == [] <==> RecognisedDays(dias) == {})
  {
    CandidatesAreOccurrences(dias, tod, now);
    CandidatesCoverDays(dias, tod, now);
    CandidatesEmpty(dias, tod, now);
  }

  /** The one-off branch: `fecha_hora` minus the lead, if that is still ahead. */
  function OneOffRun(p: Programacion, lead: int, now: int): RunTime
  {
    if !Truthy(p.fechaHora) then NoRun
    else match ParseDateTime(p.fechaHora.value)
      case None => NoRun
      case Some(dt) =>
        var run := dt - Minutes(lead);
        if run > now then RunAt(run) else NoRun
  }

  /** The weekly branch: the earliest candidate minus the lead. */
  function WeeklyRun(p: Programacion, lead: int, now: int): RunTime
  {
    var dias := DayTokens(p);
    if dias == [] || !Truthy(p.hora) then NoRun
    else match ParseHhmm(p.hora.value)
      case None => ParseError
      case Some(tod) => EarliestLess(Candidates(dias, tod, now), lead)
  }

  /** `min(candidates) - timedelta(minutes=lead)`, or None for no candidates. */
  function EarliestLess(candidates: seq<int>, lead: int): RunTime
  {
    if candidates == [] then NoRun else RunAt(Min(candidates) - Minutes(lead))
  }

  /** Once `dias` and `hora` are given and `hora` reads, the weekly branch
      depends only on the candidates. */
  lemma WeeklyRunParsed(p: Programacion, lead: int, now: int, tod: TimeOfDay)
    requires DayTokens(p) != [] && Truthy(p.hora) && ParseHhmm(p.hora.value) == Some(tod)
    ensures WeeklyRun(p, lead, now) == EarliestLess(Candidates(DayTokens(p), tod, now), lead)
  {
  }

  /** There is a run time exactly when there is a candidate, and then the
      lead added back gives the earliest candidate. */
  lemma EarliestLessSpec(candidates: seq<int>, lead: int)
    ensures EarliestLess(candidates, lead).RunAt? <==> candidates != []
    ensures EarliestLess(candidates, lead) == NoRun <==> candidates == []
    ensures candidates != [] ==> EarliestLess(candidates, lead).at + Minutes(lead) == Min(candidates)
  {
  }

  /** Without `dias` or `hora` the weekly branch gives None; with both but
      a `hora` that does not read, the ValueError. */
  lemma WeeklyRunUnread(p: Programacion, lead: int, now: int)
    requires !(DayTokens(p) != [] && Truthy(p.hora) && ParseHhmm(p.hora.value).Some?)
    ensures WeeklyRun(p, lead, now) == if DayTokens(p) == [] || !Truthy(p.hora) then NoRun else ParseError
  {
  }

  /** `compute_next_run(reu)` with the clock reading `now`. */
  function NextRunTime(reu: Reunion, now: int): RunTime
  {
    var p := Prog(reu);
    match KindOf(p)
    case OneOff => OneOffRun(p, LeadMinutes(reu), now)
    case Weekly => WeeklyRun(p, LeadMinutes(reu), now)
    case Unscheduled => RunAt(now)
  }

  /** The weekly branch's loop over `dias`: append the next occurrence of
      each recognised day, skip unknown tokens. */
  method CollectCandidates(dias: seq<string>, tod: TimeOfDay, now: int) returns (candidates: seq<int>)
    ensures candidates == Candidates(dias, tod, now)
  {
    candidates := [];
    var i := 0;
    while i < |dias|
      invariant 0 <= i <= |dias|
      invariant candidates == Candidates(dias[..i], tod, now)
    {
      CandidatesSnoc(dias, i, tod, now);
      var wd := DayNumber(dias[i]);
      if wd.Some? {
        candidates := candidates + [NextWeekdayInstant(wd.value, tod, now)];
      }
      i := i + 1;
    }
    assert dias[..|dias|] == dias;
  }

  /** `compute_next_run`, step by step as the source runs it. */
  method ComputeNextRun(reu: Reunion, now: int) returns (r: RunTime)
    ensures r == NextRunTime(reu, now)
  {
    var p := Prog(reu);
    var lead := LeadMinutes(reu);
    if p.tipo == Some("unico") {
      r := OneOffRun(p, lead, now);
    } else if p.tipo == Some("semanal") {
      r := ComputeWeekly(p, lead, now);
    } else {
      r := RunAt(now);
    }
  }

  /** The weekly branch of `compute_next_run`. */
  method ComputeWeekly(p: Programacion, lead: int, now: int) returns (r: RunTime)
    ensures r == WeeklyRun(p, lead, now)
  {
    var dias := DayTokens(p);
    if dias == [] || !Truthy(p.hora) {
      return NoRun;
    }
    var hhmm := ParseHhmm(p.hora.value);
    if hhmm.None? {
      return ParseError;
    }
    var candidates := CollectCandidates(dias, hhmm.value, now);
    WeeklyRunParsed(p, lead, now, hhmm.value);
    EarliestLessSpec(candidates, lead);
    if candidates == [] {
      return NoRun;
    }
    var nextDt := Min(candidates);
    r := RunAt(nextDt - Minutes(lead));
    assert r == EarliestLess(candidates, lead);
  }

  // ---------------------------------------------------------------- what it promises

  /** `o` is the first instant after `now` that falls on one of `days` at
      time of day `tod`; it lies at most a week after `now`. */
  ghost predicate IsNextOccurrence(o: int, days: set<int>, tod: TimeOfDay, now: int)
  {
    && now < o <= now + WeekSeconds
    && Weekday(o) in days && SecondOfDay(o) == Offset(tod)
    && forall t :: now < t < o ==> !(Weekday(t) in days && SecondOfDay(t) == Offset(tod))
  }

  /** Substitution of equals, as a call: it keeps the solver from unfolding
      `IsNextOccurrence` at both instants. */
  lemma NextOccurrenceSame(o1: int, o2: int, days: set<int>, tod: TimeOfDay, now: int)
    requires o1 == o2 && IsNextOccurrence(o1, days, tod, now)
    ensures IsNextOccurrence(o2, days, tod, now)
  {
  }

  /** There is only one first occurrence. */
  lemma NextOccurrenceUnique(o1: int, o2: int, days: set<int>, tod: TimeOfDay, now: int)
    requires IsNextOccurrence(o1, days, tod, now) && IsNextOccurrence(o2, days, tod, now)
    ensures o1 == o2
  {
  }

  /** The earliest candidate is the first occurrence after `now` of any
      recognised day at the configured time. */
  lemma {:induction false} MinCandidateIsNextOccurrence(dias: seq<string>, tod: TimeOfDay, now: int)
    requires RecognisedDays(dias) != {}
    ensures Candidates(dias, tod, now) != []
    ensures IsNextOccurrence(Min(Candidates(dias, tod, now)), RecognisedDays(dias), tod, now)
  {
    var days := RecognisedDays(dias);
    var cs := Candidates(dias, tod, now);
    CandidatesSpec(dias, tod, now);
    var m := Min(cs);
    forall t | now < t && Weekday(t) in days && SecondOfDay(t) == Offset(tod)
      ensures m <= t
    {
      var wd := Weekday(t);
      WeekdayNumberModSeven(wd);
      var n := NextWeekdayInstant(wd, tod, now);
      assert n in cs;
      assert IsOccurrence(t, wd, tod);
    }
  }

  /** Weekly schedules: None exactly when `dias` is empty, `hora` is missing
      or empty, or `hora` reads but no token names a day; the ValueError
      exactly when `dias` and `hora` are given and `hora` does not read
      (whatever the tokens are, since `_parse_hhmm` runs first); otherwise a
      run time whose occurrence, `at` plus the lead, is the first instant
      after `now` on a configured day at `hora`. */
  lemma WeeklyNextRun(reu: Reunion, now: int)
    requires IsWeekly(reu)
    ensures var p := Prog(reu);
      var dias := DayTokens(p);
      var r := NextRunTime(reu, now);
      && (r == NoRun <==>
            dias == [] || !Truthy(p.hora)
            || (ParseHhmm(p.hora.value).Some? && RecognisedDays(dias) == {}))
      && (r == ParseError <==> dias != [] && Truthy(p.hora) && ParseHhmm(p.hora.value).None?)
      && (r.RunAt? ==>
            IsNextOccurrence(r.at + Minutes(LeadMinutes(reu)),
                             RecognisedDays(dias), ParseHhmm(p.hora.value).value, now))
  {
    var p, lead := Prog(reu), LeadMinutes(reu);
    assert NextRunTime(reu, now) == WeeklyRun(p, lead, now);
    WeeklyRunOutcome(p, lead, now);
  }

  /** `WeeklyNextRun` for the `programacion` and lead alone. */
  lemma WeeklyRunOutcome(p: Programacion, lead: int, now: int)
    ensures var dias := DayTokens(p);
      var r := WeeklyRun(p, lead, now);
      && (r == NoRun <==>
            dias == [] || !Truthy(p.hora)
            || (ParseHhmm(p.hora.value).Some? && RecognisedDays(dias) == {}))
      && (r == ParseError <==> dias != [] && Truthy(p.hora) && ParseHhmm(p.hora.value).None?)
      && (r.RunAt? ==>
            IsNextOccurrence(r.at + Minutes(lead),
                             RecognisedDays(dias), ParseHhmm(p.hora.value).value, now))
  {
    var dias := DayTokens(p);
    if dias != [] && Truthy(p.hora) && ParseHhmm(p.hora.value).Some? {
      WeeklyRunOfDays(p, lead, now, ParseHhmm(p.hora.value).value);
    } else {
      WeeklyRunUnread(p, lead, now);
    }
  }

  /** With `dias` and a `hora` that reads, the weekly branch gives None
      exactly when no token names a day, and otherwise the first occurrence
      less the lead. */
  lemma WeeklyRunOfDays(p: Programacion, lead: int, now: int, tod: TimeOfDay)
    requires DayTokens(p) != [] && Truthy(p.hora) && ParseHhmm(p.hora.value) == Some(tod)
    ensures var r := WeeklyRun(p, lead, now);
      && r != ParseError
      && (r == NoRun <==> RecognisedDays(DayTokens(p)) == {})
      && (r.RunAt? ==> IsNextOccurrence(r.at + Minutes(lead), RecognisedDays(DayTokens(p)), tod, now))
  {
    var dias := DayTokens(p);
    var cs := Candidates(dias, tod, now);
    var r := WeeklyRun(p, lead, now);
    WeeklyRunParsed(p, lead, now, tod);
    CandidatesEmpty(dias, tod, now);
    EarliestLessSpec(cs, lead);
    if RecognisedDays(dias) != {} {
      assert r.RunAt? && r.at + Minutes(lead) == Min(cs);
      MinCandidateIsNextOccurrence(dias, tod, now);
      NextOccurrenceSame(Min(cs), r.at + Minutes(lead), RecognisedDays(dias), tod, now);
    } else {
      assert r == NoRun;
    }
  }

  /** A weekly configuration that reads: `dias` and `hora` are given and
      `hora` reads as a time of day. */
  predicate WeeklyReads(reu: Reunion)
  {
    IsWeekly(reu) && DayTokens(Prog(reu)) != [] && Truthy(Prog(reu).hora)
    && ParseHhmm(Prog(reu).hora.value).Some?
  }

  /** The weekdays a weekly configuration names. */
  function WeeklyDays(reu: Reunion): set<int>
  {
    RecognisedDays(DayTokens(Prog(reu)))
  }

  /** The time of day a weekly configuration names. */
  function WeeklyTime(reu: Reunion): TimeOfDay
    requires WeeklyReads(reu)
  {
    ParseHhmm(Prog(reu).hora.value).value
  }

  /** A weekly run time exists only for a configuration that reads and names
      a day, and then its occurrence is the next one after `now`. */
  lemma WeeklyRunIsNextOccurrence(reu: Reunion, now: int)
    requires IsWeekly(reu) && NextRunTime(reu, now).RunAt?
    ensures WeeklyReads(reu) && WeeklyDays(reu) != {}
    ensures IsNextOccurrence(NextRunTime(reu, now).at + Minutes(LeadMinutes(reu)),
                             WeeklyDays(reu), WeeklyTime(reu), now)
  {
    WeeklyNextRun(reu, now);
  }

  /** A weekly configuration that reads and names a day has a run time
      whatever the clock says. */
  lemma WeeklyRunExists(reu: Reunion, now: int)
    requires WeeklyReads(reu) && WeeklyDays(reu) != {}
    ensures NextRunTime(reu, now).RunAt?
  {
    WeeklyNextRun(reu, now);
  }

  /** The next occurrence seen from `s` is still the next one seen from any
      later instant before it. */
  lemma NextOccurrenceStable(o: int, days: set<int>, tod: TimeOfDay, s: int, t: int)
    requires IsNextOccurrence(o, days, tod, s) && s <= t < o
    ensures IsNextOccurrence(o, days, tod, t)
  {
  }

  /** The earliest candidate seen from `s` is still the earliest seen from
      any later instant before it. */
  lemma MinCandidateStable(dias: seq<string>, tod: TimeOfDay, s: int, t: int)
    requires RecognisedDays(dias) != {}
    requires Candidates(dias, tod, s) != [] && s <= t < Min(Candidates(dias, tod, s))
    ensures Candidates(dias, tod, t) != []
    ensures Min(Candidates(dias, tod, t)) == Min(Candidates(dias, tod, s))
  {
    var days := RecognisedDays(dias);
    var o := Min(Candidates(dias, tod, s));
    MinCandidateIsNextOccurrence(dias, tod, s);
    MinCandidateIsNextOccurrence(dias, tod, t);
    NextOccurrenceStable(o, days, tod, s, t);
    NextOccurrenceUnique(o, Min(Candidates(dias, tod, t)), days, tod, t);
  }

  /** The weekly run time does not move while its occurrence is still ahead:
      computed again at any `t` from `s` up to (not including) the occurrence
      `at + lead`, it is the same. */
  lemma WeeklyRunStableUntilOccurrence(reu: Reunion, s: int, t: int)
    requires IsWeekly(reu) && NextRunTime(reu, s).RunAt?
    requires s <= t < NextRunTime(reu, s).at + Minutes(LeadMinutes(reu))
    ensures NextRunTime(reu, t) == NextRunTime(reu, s)
  {
    WeeklyRunIsNextOccurrence(reu, s);
    var dias := DayTokens(Prog(reu));
    var tod := WeeklyTime(reu);
    CandidatesEmpty(dias, tod, s);
    MinCandidateStable(dias, tod, s, t);
    WeeklyRunOfCandidates(reu, s);
    WeeklyRunOfCandidates(reu, t);
    EarliestLessSpec(Candidates(dias, tod, s), LeadMinutes(reu));
    EarliestLessSpec(Candidates(dias, tod, t), LeadMinutes(reu));
  }

  /** A weekly configuration that reads and names a day runs at its
      earliest candidate minus the lead. */
  lemma WeeklyRunOfCandidates(reu: Reunion, now: int)
    requires WeeklyReads(reu) && WeeklyDays(reu) != {}
    ensures Candidates(DayTokens(Prog(reu)), WeeklyTime(reu), now) != []
    ensures NextRunTime(reu, now) == EarliestLess(Candidates(DayTokens(Prog(reu)), WeeklyTime(reu), now), LeadMinutes(reu))
  {
    var p, lead := Prog(reu), LeadMinutes(reu);
    var tod := WeeklyTime(reu);
    var cs := Candidates(DayTokens(p), tod, now);
    CandidatesEmpty(DayTokens(p), tod, now);
    assert cs != [];
    assert NextRunTime(reu, now) == WeeklyRun(p, lead, now);
    WeeklyRunParsed(p, lead, now, tod);
  }

  /** One-off schedules never raise; they give `fecha_hora` minus the lead
      exactly when `fecha_hora` is given, reads as `YYYY-MM-DD HH:MM`, and
      that run time is strictly after `now`; otherwise None. */
  lemma OneOffNextRun(reu: Reunion, now: int)
    requires IsOneOff(reu)
    ensures var p := Prog(reu);
      var r := NextRunTime(reu, now);
      && r != ParseError
      && (r.RunAt? <==>
            Truthy(p.fechaHora) && ParseDateTime(p.fechaHora.value).Some?
            && ParseDateTime(p.fechaHora.value).value - Minutes(LeadMinutes(reu)) > now)
      && (r.RunAt? ==>
            r.at == ParseDateTime(p.fechaHora.value).value - Minutes(LeadMinutes(reu))
            && r.at > now)
  {
  }

  /** Without a recognised `tipo` the meeting is due now; without
      `abrir_antes_min` the lead is 20 minutes, so a one-off run is twenty
      minutes before its `fecha_hora`. */
  lemma UnscheduledAndDefaultLead(reu: Reunion, now: int)
    ensures !IsOneOff(reu) && !IsWeekly(reu) ==> NextRunTime(reu, now) == RunAt(now)
    ensures reu.abrirAntesMin.None? && IsOneOff(reu) && NextRunTime(reu, now).RunAt? ==>
      NextRunTime(reu, now).at == ParseDateTime(Prog(reu).fechaHora.value).value - Minutes(20)
  {
  }
}
