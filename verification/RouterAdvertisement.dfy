/** Router advertisements on a timer. */
module RouterAdvertisement {
  // packages/tcpip/wasm/ipv6_helpers.c (section 6.2.4 of RFC 4861)

  import opened Options
  import opened Bytes

  type Netif = nat

  datatype Prefix = Prefix(address: Data, valid: nat, preferred: nat, initialOnly: bool)

  const MAX_PREFIXES: nat := 8
  const RA_INITIAL_COUNT: nat := 3
  const RA_INITIAL_MS: nat := 2000
  const RA_NORMAL_MS: nat := 600000

  const Zero: Data := [0, 0, 0, 0, 0, 0, 0, 0, 0, 0, 0, 0, 0, 0, 0, 0]

  const Cleared := Prefix(Zero, 0, 0, false)

  datatype Timer = Timer(due: nat, netif: Netif)

  /** A sent advertisement; `timed` tells those of `tcpip_ra_set` and of the timer from answers to solicitations. */
  datatype Ra = Ra(netif: Netif, time: nat, prefixes: seq<Prefix>, timed: bool)

  /** The globals of the file, the armed timers, and what was sent. */
  datatype State = State(
    netif: Option<Netif>,
    initialLeft: nat,
    prefixes: seq<Prefix>,
    count: nat,
    timers: seq<Timer>,
    sent: seq<Ra>)

  const AllCleared: seq<Prefix> := [Cleared, Cleared, Cleared, Cleared, Cleared, Cleared, Cleared, Cleared]

  const Initially := State(None, 0, AllCleared, 0, [], [])

  datatype Status = ErrOk | ErrArg

  // ---------------------------------------------------------------- the functions of the file

  function Advertised(prefixes: seq<Prefix>, initialLeft: nat): seq<Prefix> {
    if prefixes == [] then []
    else
      (if !prefixes[0].initialOnly || initialLeft > 0 then [prefixes[0]] else [])
        + Advertised(prefixes[1..], initialLeft)
  }

  predicate Proper(s: State) {
    |s.prefixes| == MAX_PREFIXES && s.count <= MAX_PREFIXES
  }

  /** `ra_send`; `able` is whether the interface is up, has a valid address and a buffer can be had. */
  function Send(s: State, netif: Netif, able: bool, now: nat, timed: bool): State
    requires Proper(s)
  {
    var prefixes := Advertised(s.prefixes[..s.count], s.initialLeft);
    if !able || prefixes == [] then s else s.(sent := s.sent + [Ra(netif, now, prefixes, timed)])
  }

  function Untimeout(timers: seq<Timer>, netif: Netif): seq<Timer> {
    if timers == [] then []
    else if timers[0].netif == netif then timers[1..]
    else [timers[0]] + Untimeout(timers[1..], netif)
  }

  /** `ra_timer`, when the timer of `netif` has expired. */
  function OnTimer(s: State, netif: Netif, able: bool, now: nat): State
    requires Proper(s)
  {
    if s.netif != Some(netif) then s
    else
      var v := Send(s, netif, able, now, true);
      var left := if v.initialLeft > 0 then v.initialLeft - 1 else 0;
      var next := if left > 0 then RA_INITIAL_MS else RA_NORMAL_MS;
      v.(initialLeft := left, timers := v.timers + [Timer(now + next, netif)])
  }

  /** `ra_stop` */
  function Stop(s: State, netif: Netif): State {
    if s.netif != Some(netif) then s
    else State(None, 0, AllCleared, 0, Untimeout(s.timers, netif), s.sent)
  }

  /** The entries before the first whose preferred lifetime exceeds the valid one. */
  function Acceptable(entries: seq<Prefix>): (n: nat)
    ensures n <= |entries|
  {
    if entries == [] || entries[0].preferred > entries[0].valid then 0 else 1 + Acceptable(entries[1..])
  }

  function Overwritten(prefixes: seq<Prefix>, entries: seq<Prefix>): (r: seq<Prefix>)
    requires |entries| <= |prefixes|
    ensures |r| == |prefixes|
  {
    entries + prefixes[|entries|..]
  }

  /** `tcpip_ra_set`; `arrays` is whether the other pointers are given. */
  function Set(
    s: State, netif: Option<Netif>, entries: Option<seq<Prefix>>, arrays: bool, able: bool, now: nat): (State, Status)
    requires Proper(s)
  {
    if netif.None? then (s, ErrArg)
    else if entries.None? || entries.value == [] then (Stop(s, netif.value), ErrOk)
    else if !arrays || |entries.value| > MAX_PREFIXES then (s, ErrArg)
    else
      var other := if s.netif.Some? && s.netif != netif then Stop(s, s.netif.value) else s;
      var n := Acceptable(entries.value);
      var copied := other.(prefixes := Overwritten(other.prefixes, entries.value[..n]));
      if n < |entries.value| then (copied, ErrArg)
      else
        var v := Send(
          copied.(count := |entries.value|, netif := netif, initialLeft := RA_INITIAL_COUNT),
          netif.value, able, now, true);
        (v.(initialLeft := RA_INITIAL_COUNT - 1,
            timers := Untimeout(v.timers, netif.value) + [Timer(now + RA_INITIAL_MS, netif.value)]),
         ErrOk)
  }

  /** The hook for incoming packets, on a router solicitation. */
  function OnSolicitation(s: State, netif: Netif, able: bool, now: nat): State
    requires Proper(s)
  {
    if s.netif != Some(netif) then s else Send(s, netif, able, now, false)
  }

  // ---------------------------------------------------------------- runs

  datatype Event =
    | SetRequest(netif: Option<Netif>, entries: Option<seq<Prefix>>, arrays: bool, able: bool, now: nat)
    | Expired(timer: nat, able: bool, now: nat)
    | Solicited(on: Netif, able: bool, now: nat)

  /** A timer expires at its time or later. */
  function Step(s: State, e: Event): (r: State)
    requires Proper(s)
    ensures Proper(r)
  {
    match e
    case SetRequest(netif, entries, arrays, able, now) => Set(s, netif, entries, arrays, able, now).0
    case Expired(timer, able, now) =>
      if timer >= |s.timers| || s.timers[timer].due > now then s
      else OnTimer(s.(timers := s.timers[..timer] + s.timers[timer + 1..]), s.timers[timer].netif, able, now)
    case Solicited(on, able, now) => OnSolicitation(s, on, able, now)
  }

  function After(s: State, events: seq<Event>): (r: State)
    requires Proper(s)
    ensures Proper(r)
    decreases |events|
  {
    if events == [] then s else After(Step(s, events[0]), events[1..])
  }

  // ---------------------------------------------------------------- one timer

  /** Exactly one timer is armed, for the advertising interface, if there is one; otherwise none is. */
  ghost predicate OneTimer(s: State) {
    && Proper(s)
    && (s.netif.None? ==> s.timers == [] && s.initialLeft == 0 && s.count == 0)
    && (s.netif.Some? ==> |s.timers| == 1 && s.timers[0].netif == s.netif.value)
  }

  lemma StepOneTimer(s: State, e: Event)
    requires OneTimer(s)
    ensures OneTimer(Step(s, e))
  {
  }

  lemma {:induction false} TimerArmedIff(s: State, events: seq<Event>)
    requires OneTimer(s)
    ensures Proper(s) && OneTimer(After(s, events))
    decreases |events|
  {
    if events != [] {
      StepOneTimer(s, events[0]);
      TimerArmedIff(Step(s, events[0]), events[1..]);
    }
  }

  /** In every run exactly one timer is armed if and only if an interface advertises. */
  lemma OneTimerInEveryRun(events: seq<Event>)
    ensures Proper(Initially)
    ensures var s := After(Initially, events); |s.timers| == (if s.netif.Some? then 1 else 0)
  {
    TimerArmedIff(Initially, events);
  }

  lemma {:induction false} AcceptableAll(entries: seq<Prefix>)
    ensures Acceptable(entries) == |entries| <==>
      forall i :: 0 <= i < |entries| ==> entries[i].preferred <= entries[i].valid
  {
    if entries != [] {
      AcceptableAll(entries[1..]);
      var rest := entries[1..];
      assert forall i :: 0 <= i < |rest| ==> rest[i] == entries[i + 1];
      assert (forall i :: 0 <= i < |entries| ==> entries[i].preferred <= entries[i].valid) <==>
        entries[0].preferred <= entries[0].valid && forall i :: 0 <= i < |rest| ==>
          rest[i].preferred <= rest[i].valid by {
        if entries[0].preferred <= entries[0].valid && forall i :: 0 <= i < |rest| ==>
          rest[i].preferred <= rest[i].valid {
          forall i | 0 <= i < |entries| ensures entries[i].preferred <= entries[i].valid {
            assert i > 0 ==> entries[i] == rest[i - 1];
          }
        }
      }
    }
  }

  /**
   A set with prefixes is accepted if and only if there are 1 to 8 of them and no preferred lifetime is
   longer than the valid one.
   */
  lemma SetAcceptedIff(s: State, netif: Netif, entries: seq<Prefix>, able: bool, now: nat)
    requires Proper(s) && entries != []
    ensures Set(s, Some(netif), Some(entries), true, able, now).1 == ErrOk <==>
      |entries| <= MAX_PREFIXES && forall i :: 0 <= i < |entries| ==> entries[i].preferred <= entries[i].valid
  {
    AcceptableAll(entries);
  }

  // ---------------------------------------------------------------- the schedule

  /** A set that is refused before it touches anything: no interface, no arrays, or too many prefixes. */
  predicate RefusedAtOnce(e: Event) {
    && e.SetRequest?
    && (e.netif.None? || (e.entries.Some? && e.entries.value != [] && (!e.arrays || |e.entries.value| > MAX_PREFIXES)))
  }

  /** A set for this interface that is refused at a prefix, the ones before it having been copied. */
  predicate RefusedMidway(e: Event, netif: Netif) {
    && e.SetRequest? && e.netif == Some(netif) && e.arrays
    && e.entries.Some? && Acceptable(e.entries.value) < |e.entries.value| <= MAX_PREFIXES
  }

  /** A stop of an interface other than this one. */
  predicate StopElsewhere(e: Event, netif: Netif) {
    e.SetRequest? && e.netif != Some(netif) && (e.entries.None? || e.entries.value == [])
  }

  predicate Calm(e: Event, netif: Netif) {
    e.SetRequest? ==> RefusedAtOnce(e) || RefusedMidway(e, netif) || StopElsewhere(e, netif)
  }

  /**
   A run until the next accepted set, the stop of this interface, or a set of prefixes for another one:
   the timer expires, and solicitations come in.
   */
  predicate Undisturbed(events: seq<Event>, netif: Netif) {
    forall i :: 0 <= i < |events| ==> Calm(events[i], netif)
  }

  /** The entries with those that were copied over the first of them. */
  function Overlaid(entries: seq<Prefix>, copied: seq<Prefix>): (r: seq<Prefix>)
    ensures |r| == |entries|
  {
    if |copied| >= |entries| then copied[..|entries|] else copied + entries[|copied|..]
  }

  lemma OverlaidIs(prefixes: seq<Prefix>, count: nat, copied: seq<Prefix>)
    requires count <= |prefixes| && |copied| <= |prefixes|
    ensures Overwritten(prefixes, copied)[..count] == Overlaid(prefixes[..count], copied)
  {
  }

  /** What is to be advertised after the event: only a set that is refused midway changes it. */
  function InForceAfter(netif: Netif, entries: seq<Prefix>, e: Event): seq<Prefix> {
    if RefusedMidway(e, netif) then Overlaid(entries, e.entries.value[..Acceptable(e.entries.value)]) else entries
  }

  function InForce(netif: Netif, entries: seq<Prefix>, events: seq<Event>): seq<Prefix>
    decreases |events|
  {
    if events == [] then entries else InForce(netif, InForceAfter(netif, entries, events[0]), events[1..])
  }

  /** The time from the timed advertisement number `k`, the immediate one being number 0, to the next. */
  function Gap(k: nat): nat {
    if k < 2 then 2000 else 600000
  }

  /**
   A time at which the set, the timer or (not `timed`) a solicitation asked for an advertisement, what was to
   be advertised then, and whether sending was possible.
   */
  datatype Turn = Turn(time: nat, entries: seq<Prefix>, able: bool, timed: bool)

  /** The times at which the set and then the timer ran. */
  function Times(turns: seq<Turn>): seq<nat> {
    if turns == [] then []
    else Times(turns[..|turns| - 1]) + if turns[|turns| - 1].timed then [turns[|turns| - 1].time] else []
  }

  /** None comes earlier than its gap allows. */
  ghost predicate Spaced(times: seq<nat>) {
    forall k :: 0 <= k < |times| - 1 ==> times[k] + Gap(k) <= times[k + 1]
  }

  /** What is sent in a turn before which the set and the timer ran `k` times, if it carries any prefix at all. */
  function Numbered(netif: Netif, turn: Turn, k: nat): seq<Ra> {
    var prefixes := if k <= 2 then turn.entries else Lasting(turn.entries);
    if !turn.able || prefixes == [] then [] else [Ra(netif, turn.time, prefixes, turn.timed)]
  }

  /** The entries that are not for the start only. */
  function Lasting(entries: seq<Prefix>): seq<Prefix> {
    if entries == [] then []
    else (if entries[0].initialOnly then [] else [entries[0]]) + Lasting(entries[1..])
  }

  function Schedule(netif: Netif, turns: seq<Turn>): seq<Ra> {
    if turns == [] then []
    else
      var before := turns[..|turns| - 1];
      Schedule(netif, before) + Numbered(netif, turns[|turns| - 1], |Times(before)|)
  }

  lemma {:induction false} AdvertisedIs(entries: seq<Prefix>, left: nat)
    ensures Advertised(entries, left) == if left > 0 then entries else Lasting(entries)
  {
    if entries != [] {
      AdvertisedIs(entries[1..], left);
      assert [entries[0]] + entries[1..] == entries;
    }
  }

  /**
   The state after these turns: the advertisements sent are those of the schedule, the timer is armed for
   the next gap, and these entries are in force.
   */
  ghost predicate OnSchedule(s: State, base: nat, netif: Netif, entries: seq<Prefix>, turns: seq<Turn>) {
    && Running(s, netif, entries, Times(turns))
    && base <= |s.sent| && s.sent[base..] == Schedule(netif, turns)
  }

  ghost predicate Running(s: State, netif: Netif, entries: seq<Prefix>, times: seq<nat>) {
    && Proper(s) && times != []
    && s.netif == Some(netif) && s.count == |entries| && s.prefixes[..s.count] == entries
    && s.initialLeft == (if |times| < 3 then 3 - |times| else 0)
    && s.timers == [Timer(times[|times| - 1] + Gap(|times| - 1), netif)]
    && Spaced(times)
  }

  lemma TurnAppend(netif: Netif, turns: seq<Turn>, next: Turn)
    ensures Times(turns + [next]) == Times(turns) + if next.timed then [next.time] else []
    ensures Schedule(netif, turns + [next]) == Schedule(netif, turns) + Numbered(netif, next, |Times(turns)|)
  {
    assert (turns + [next])[..|turns|] == turns;
  }

  /** What one more send adds to what was sent. */
  lemma SentMore(s: State, v: State, base: nat, netif: Netif, turn: Turn, k: nat)
    requires Proper(s) && base <= |s.sent| && s.prefixes[..s.count] == turn.entries && (s.initialLeft > 0 <==> k <= 2)
    requires v == Send(s, netif, turn.able, turn.time, turn.timed)
    ensures base <= |v.sent| && v.sent[base..] == s.sent[base..] + Numbered(netif, turn, k)
  {
    AdvertisedIs(turn.entries, s.initialLeft);
  }

  lemma SetRuns(s: State, netif: Netif, entries: seq<Prefix>, able: bool, now: nat)
    requires OneTimer(s) && entries != []
    requires Set(s, Some(netif), Some(entries), true, able, now).1 == ErrOk
    ensures Running(Set(s, Some(netif), Some(entries), true, able, now).0, netif, entries, [now])
  {
    assert entries[..|entries|] == entries;
  }

  lemma SetSends(s: State, netif: Netif, entries: seq<Prefix>, able: bool, now: nat)
    requires OneTimer(s) && entries != []
    requires Set(s, Some(netif), Some(entries), true, able, now).1 == ErrOk
    ensures Set(s, Some(netif), Some(entries), true, able, now).0.sent ==
      s.sent + Numbered(netif, Turn(now, entries, able, true), 0)
  {
    assert entries[..|entries|] == entries;
    AdvertisedIs(entries, RA_INITIAL_COUNT);
  }

  lemma SetStartsSchedule(s: State, netif: Netif, entries: seq<Prefix>, able: bool, now: nat)
    requires OneTimer(s) && entries != []
    requires Set(s, Some(netif), Some(entries), true, able, now).1 == ErrOk
    ensures var v := Set(s, Some(netif), Some(entries), true, able, now).0;
      Proper(v) && OnSchedule(v, |s.sent|, netif, entries, [Turn(now, entries, able, true)])
  {
    var turn := Turn(now, entries, able, true);
    SetRuns(s, netif, entries, able, now);
    SetSends(s, netif, entries, able, now);
    FirstTurn(netif, turn);
  }

  lemma FirstTurn(netif: Netif, turn: Turn)
    requires turn.timed
    ensures Times([turn]) == [turn.time] && Schedule(netif, [turn]) == Numbered(netif, turn, 0)
  {
    assert [] + [turn] == [turn];
    TurnAppend(netif, [], turn);
  }

  lemma SpacedAppend(times: seq<nat>, next: nat)
    requires Spaced(times) && times != [] && times[|times| - 1] + Gap(|times| - 1) <= next
    ensures Spaced(times + [next])
  {
    var more := times + [next];
    forall k | 0 <= k < |more| - 1 ensures more[k] + Gap(k) <= more[k + 1] {
      assert k < |times| - 1 ==> times[k] + Gap(k) <= times[k + 1];
    }
  }

  lemma TimerRuns(s: State, netif: Netif, entries: seq<Prefix>, times: seq<nat>, able: bool, now: nat)
    requires Running(s, netif, entries, times) && s.timers[0].due <= now
    ensures Running(OnTimer(s.(timers := []), netif, able, now), netif, entries, times + [now])
  {
    SpacedAppend(times, now);
  }

  lemma TimerOnSchedule(
    s: State, base: nat, netif: Netif, entries: seq<Prefix>, turns: seq<Turn>, able: bool, now: nat)
    requires OnSchedule(s, base, netif, entries, turns) && s.timers[0].due <= now
    ensures OnSchedule(OnTimer(s.(timers := []), netif, able, now), base, netif, entries,
      turns + [Turn(now, entries, able, true)])
  {
    var u, turn := s.(timers := []), Turn(now, entries, able, true);
    TurnAppend(netif, turns, turn);
    TimerRuns(s, netif, entries, Times(turns), able, now);
    TimerSends(u, base, netif, turn, |Times(turns)|);
  }

  lemma TimerSends(u: State, base: nat, netif: Netif, turn: Turn, k: nat)
    requires Proper(u) && base <= |u.sent| && u.prefixes[..u.count] == turn.entries && turn.timed
    requires u.netif == Some(netif) && (u.initialLeft > 0 <==> k <= 2)
    ensures var v := OnTimer(u, netif, turn.able, turn.time);
      base <= |v.sent| && v.sent[base..] == u.sent[base..] + Numbered(netif, turn, k)
  {
    SentMore(u, Send(u, netif, turn.able, turn.time, true), base, netif, turn, k);
  }

  /** The turns with one more if the event makes the timer run or is a solicitation. */
  function TurnsAfter(s: State, e: Event, netif: Netif, entries: seq<Prefix>, turns: seq<Turn>): seq<Turn> {
    turns +
      if e.Expired? && e.timer < |s.timers| && s.timers[e.timer].due <= e.now then [Turn(e.now, entries, e.able, true)]
      else if e.Solicited? && e.on == netif then [Turn(e.now, entries, e.able, false)]
      else []
  }

  lemma SolicitedOnSchedule(
    s: State, base: nat, netif: Netif, entries: seq<Prefix>, turns: seq<Turn>, able: bool, now: nat)
    requires OnSchedule(s, base, netif, entries, turns)
    ensures OnSchedule(Send(s, netif, able, now, false), base, netif, entries,
      turns + [Turn(now, entries, able, false)])
  {
    var turn := Turn(now, entries, able, false);
    SentMore(s, Send(s, netif, able, now, false), base, netif, turn, |Times(turns)|);
    TurnAppend(netif, turns, turn);
    SendRuns(s, netif, entries, Times(turns), able, now);
  }

  lemma SendRuns(s: State, netif: Netif, entries: seq<Prefix>, times: seq<nat>, able: bool, now: nat)
    requires Running(s, netif, entries, times)
    ensures Running(Send(s, netif, able, now, false), netif, entries, times + [])
  {
    assert times + [] == times;
  }

  lemma RefusedOnSchedule(s: State, base: nat, netif: Netif, entries: seq<Prefix>, turns: seq<Turn>, e: Event)
    requires OnSchedule(s, base, netif, entries, turns) && RefusedMidway(e, netif)
    ensures OnSchedule(Step(s, e), base, netif, InForceAfter(netif, entries, e), turns)
  {
    OverlaidIs(s.prefixes, s.count, e.entries.value[..Acceptable(e.entries.value)]);
  }

  lemma ExpiredOnSchedule(s: State, base: nat, netif: Netif, entries: seq<Prefix>, turns: seq<Turn>, e: Event)
    requires OnSchedule(s, base, netif, entries, turns) && e.Expired?
    ensures OnSchedule(Step(s, e), base, netif, entries, TurnsAfter(s, e, netif, entries, turns))
  {
    if e.timer < |s.timers| && s.timers[e.timer].due <= e.now {
      assert s.timers[..0] + s.timers[1..] == [];
      TimerOnSchedule(s, base, netif, entries, turns, e.able, e.now);
    } else {
      assert turns + [] == turns;
    }
  }

  lemma StepOnSchedule(s: State, base: nat, netif: Netif, entries: seq<Prefix>, turns: seq<Turn>, e: Event)
    requires OnSchedule(s, base, netif, entries, turns) && Calm(e, netif)
    ensures OnSchedule(
      Step(s, e), base, netif, InForceAfter(netif, entries, e), TurnsAfter(s, e, netif, entries, turns))
  {
    assert turns + [] == turns;
    match e {
      case Expired(_, _, _) => ExpiredOnSchedule(s, base, netif, entries, turns, e);
      case Solicited(_, able, now) => SolicitedOnSchedule(s, base, netif, entries, turns, able, now);
      case SetRequest(_, _, _, _, _) =>
        if RefusedMidway(e, netif) {
          RefusedOnSchedule(s, base, netif, entries, turns, e);
        } else {
          assert Step(s, e) == s;
        }
    }
  }

  /** These turns and those of the events. */
  function Turns(s: State, events: seq<Event>, netif: Netif, entries: seq<Prefix>, turns: seq<Turn>): seq<Turn>
    requires Proper(s)
    decreases |events|
  {
    if events == [] then turns
    else
      var next := TurnsAfter(s, events[0], netif, entries, turns);
      Turns(Step(s, events[0]), events[1..], netif, InForceAfter(netif, entries, events[0]), next)
  }

  lemma {:induction false} RunOnSchedule(
    s: State, base: nat, netif: Netif, entries: seq<Prefix>, turns: seq<Turn>, events: seq<Event>)
    requires OnSchedule(s, base, netif, entries, turns) && Undisturbed(events, netif)
    ensures OnSchedule(
      After(s, events), base, netif, InForce(netif, entries, events), Turns(s, events, netif, entries, turns))
    decreases |events|
  {
    if events != [] {
      var rest := UndisturbedRest(events, netif);
      var next := InForceAfter(netif, entries, events[0]);
      StepOnSchedule(s, base, netif, entries, turns, events[0]);
      RunOnSchedule(
        Step(s, events[0]), base, netif, next, TurnsAfter(s, events[0], netif, entries, turns), rest);
    }
  }

  lemma UndisturbedRest(events: seq<Event>, netif: Netif) returns (rest: seq<Event>)
    requires Undisturbed(events, netif) && events != []
    ensures rest == events[1..] && Undisturbed(rest, netif) && Calm(events[0], netif)
  {
    rest := events[1..];
    assert forall i :: 0 <= i < |rest| ==> rest[i] == events[i + 1];
  }

  /**
   After each accepted set, until the next accepted set, the stop of the interface, or a set of prefixes for
   another one: the set and the timer run at times that are 2 s, 2 s and then always 600 s apart (or later, if
   the timer is served late); the first three times, and for solicitations that come before the third of
   them, all prefixes in force are advertised, from then on exactly those that are not for the start only; and
   nothing else is sent. Where sending is not possible, that turn is left out and the schedule goes on. A set that
   is refused midway puts the prefixes it has copied by then in force in place of the first ones, on the same
   schedule.
   */
  lemma AdvertisedOnSchedule(
    before: seq<Event>, netif: Netif, entries: seq<Prefix>, able: bool, now: nat, events: seq<Event>)
    requires entries != [] && Undisturbed(events, netif)
    requires Set(After(Initially, before), Some(netif), Some(entries), true, able, now).1 == ErrOk
    ensures var s := After(Initially, before);
      var v := Set(s, Some(netif), Some(entries), true, able, now).0;
      var turns := Turns(v, events, netif, entries, [Turn(now, entries, able, true)]);
      OnSchedule(After(v, events), |s.sent|, netif, InForce(netif, entries, events), turns)
  {
    TimerArmedIff(Initially, before);
    var s := After(Initially, before);
    SetStartsSchedule(s, netif, entries, able, now);
    var v := Set(s, Some(netif), Some(entries), true, able, now).0;
    RunOnSchedule(v, |s.sent|, netif, entries, [Turn(now, entries, able, true)], events);
  }

  /**
   What a set answers and leaves: it is refused exactly for want of an interface, of the arrays, for too many
   prefixes or for a bad lifetime, and changes nothing in the first three cases. A set without prefixes stops
   the advertising of its interface, with its timer and all its prefixes, and sends nothing; on any other
   interface it changes nothing.
   */
  lemma SetAnswers(
    s: State, netif: Option<Netif>, entries: Option<seq<Prefix>>, arrays: bool, able: bool, now: nat)
    requires OneTimer(s)
    ensures var (v, status) := Set(s, netif, entries, arrays, able, now);
      var none := entries.None? || entries.value == [];
      var unread := netif.None? || (!none && (!arrays || |entries.value| > 8));
      && (status == ErrArg <==> unread || (!none && exists p :: p in entries.value && p.preferred > p.valid))
      && (unread ==> v == s)
      && (none && netif.Some? ==> v == if s.netif == netif then Initially.(sent := s.sent) else s)
  {
    if entries.Some? {
      AcceptableAll(entries.value);
      assert forall i :: 0 <= i < |entries.value| ==> entries.value[i] in entries.value;
    }
  }

  /** A refused set replaces what is advertised: the first prefix by another one, from the timer's next run on. */
  lemma RefusedSetIsAdvertised(netif: Netif, first: Prefix, second: Prefix, bad: Prefix, due: nat)
    requires first.preferred <= first.valid && second.preferred <= second.valid && bad.preferred > bad.valid
    requires due >= 2000
    ensures var events := [
        SetRequest(Some(netif), Some([first]), true, true, 0),
        SetRequest(Some(netif), Some([second, bad]), true, true, 0),
        Expired(0, true, due)];
      After(Initially, events).sent == [Ra(netif, 0, [first], true), Ra(netif, due, [second], true)]
  {
    var accepted := SetRequest(Some(netif), Some([first]), true, true, 0);
    var refused := SetRequest(Some(netif), Some([second, bad]), true, true, 0);
    ThreeEvents(Initially, accepted, refused, Expired(0, true, due));
    FirstSet(netif, first);
    MidwaySet(Step(Initially, accepted), netif, second, bad);
    NextRun(Step(Step(Initially, accepted), refused), netif, second, due);
  }

  /** The state in which this one prefix has been advertised once. */
  ghost predicate Started(s: State, netif: Netif, prefix: Prefix, sent: seq<Ra>) {
    && |s.prefixes| == MAX_PREFIXES && s.prefixes[0] == prefix && s.count == 1
    && s.netif == Some(netif) && s.initialLeft == 2 && s.timers == [Timer(2000, netif)] && s.sent == sent
  }

  lemma FirstSet(netif: Netif, first: Prefix)
    requires first.preferred <= first.valid
    ensures Started(Step(Initially, SetRequest(Some(netif), Some([first]), true, true, 0)), netif, first,
      [Ra(netif, 0, [first], true)])
  {
    assert [first][1..] == [];
    AdvertisedIs([first], RA_INITIAL_COUNT);
  }

  lemma MidwaySet(s: State, netif: Netif, second: Prefix, bad: Prefix)
    requires |s.prefixes| == MAX_PREFIXES && Started(s, netif, s.prefixes[0], s.sent)
    requires second.preferred <= second.valid && bad.preferred > bad.valid
    ensures Started(Step(s, SetRequest(Some(netif), Some([second, bad]), true, true, 0)), netif, second, s.sent)
  {
    assert [second, bad][1..] == [bad] && [second, bad][..1] == [second];
    assert Acceptable([bad]) == 0 && Acceptable([second, bad]) == 1;
  }

  lemma NextRun(s: State, netif: Netif, prefix: Prefix, due: nat)
    requires Started(s, netif, prefix, s.sent) && due >= 2000
    ensures Step(s, Expired(0, true, due)).sent == s.sent + [Ra(netif, due, [prefix], true)]
  {
    assert s.prefixes[..1] == [prefix];
    AdvertisedIs([prefix], 2);
  }

  lemma ThreeEvents(s: State, a: Event, b: Event, c: Event)
    requires Proper(s)
    ensures After(s, [a, b, c]) == Step(Step(Step(s, a), b), c)
  {
    assert [a, b, c][1..] == [b, c] && [b, c][1..] == [c] && [c][1..] == [];
    assert After(Step(s, a), [b, c]) == After(Step(Step(s, a), b), [c]);
    assert After(Step(Step(s, a), b), [c]) == After(Step(Step(Step(s, a), b), c), []);
  }

  /**
   A set that is refused midway on another interface than the advertising one stops the latter: no timer
   is armed, and nothing is sent until a set is accepted.
   */
  lemma RefusedElsewhereStops(before: seq<Event>, e: Event, netif: Netif, events: seq<Event>)
    requires After(Initially, before).netif.Some? && After(Initially, before).netif != Some(netif)
    requires RefusedMidway(e, netif) && NoAccepted(Step(After(Initially, before), e), events)
    ensures var s := After(Initially, before);
      Step(s, e).netif == None && Step(s, e).timers == [] && After(Step(s, e), events).sent == s.sent
  {
    TimerArmedIff(Initially, before);
    var s := After(Initially, before);
    StepOneTimer(s, e);
    SilentUntilSet(Step(s, e), events);
  }

  predicate NoAccepted(s: State, events: seq<Event>)
    requires Proper(s)
    decreases |events|
  {
    events == [] ||
      ((events[0].SetRequest? ==> Step(s, events[0]).netif.None?) && NoAccepted(Step(s, events[0]), events[1..]))
  }

  /** While no interface advertises nothing is sent, whatever timers and solicitations bring. */
  lemma {:induction false} SilentUntilSet(s: State, events: seq<Event>)
    requires OneTimer(s) && s.netif.None? && NoAccepted(s, events)
    ensures After(s, events).sent == s.sent
    decreases |events|
  {
    if events != [] {
      StepOneTimer(s, events[0]);
      SilentUntilSet(Step(s, events[0]), events[1..]);
    }
  }

  lemma AcceptableFrom(entries: seq<Prefix>, i: nat)
    requires i < |entries|
    ensures Acceptable(entries[i..]) ==
      if entries[i].preferred > entries[i].valid then 0 else 1 + Acceptable(entries[i + 1..])
  {
    assert entries[i..][1..] == entries[i + 1..];
  }

  lemma OverwriteNext(prefixes: seq<Prefix>, entries: seq<Prefix>, i: nat)
    requires i < |entries| <= |prefixes|
    ensures Overwritten(prefixes, entries[..i])[i := entries[i]] == Overwritten(prefixes, entries[..i + 1])
  {
  }

  // ---------------------------------------------------------------- the globals

  class RouterAdvertiser {
    var netif: Option<Netif>
    var initialLeft: nat
    const prefixes: array<Prefix>
    var count: nat
    var timers: seq<Timer>
    var sent: seq<Ra>

    ghost function Abstract(): State
      reads this, prefixes
    {
      State(netif, initialLeft, prefixes[..], count, timers, sent)
    }

    ghost predicate Valid()
      reads this, prefixes
    {
      OneTimer(Abstract())
    }

    constructor ()
      ensures Valid() && Abstract() == Initially && fresh(prefixes)
    {
      netif, initialLeft, count, timers, sent := None, 0, 0, [], [];
      prefixes := new Prefix[MAX_PREFIXES](_ => Cleared);
    }

    /** The loops of `ra_send` over the prefixes. */
    method SendRa(to: Netif, able: bool, now: nat, timed: bool)
      requires Proper(Abstract())
      modifies this`sent
      ensures Abstract() == Send(old(Abstract()), to, able, now, timed)
    {
      if !able {
        return;
      }
      var advertised: seq<Prefix> := [];
      ghost var all := Advertised(prefixes[..count], initialLeft);
      for i := 0 to count
        invariant advertised + Advertised(prefixes[i..count], initialLeft) == all
      {
        assert prefixes[i..count][1..] == prefixes[i + 1..count];
        if !prefixes[i].initialOnly || initialLeft > 0 {
          advertised := advertised + [prefixes[i]];
        }
      }
      assert advertised == all;
      if |advertised| == 0 {
        return;
      }
      sent := sent + [Ra(to, now, advertised, timed)];
    }

    /** `ra_timer`, called when the timer at `index` has expired. */
    method RaTimer(index: nat, able: bool, now: nat)
      requires Valid() && index < |timers| && timers[index].due <= now
      modifies this
      ensures Valid() && Abstract() == Step(old(Abstract()), Expired(index, able, now))
    {
      StepOneTimer(Abstract(), Expired(index, able, now));
      var arg := timers[index].netif;
      timers := timers[..index] + timers[index + 1..];
      if netif != Some(arg) {
        return;
      }
      SendRa(arg, able, now, true);
      var next;
      if initialLeft > 0 {
        initialLeft := initialLeft - 1;
        next := if initialLeft > 0 then RA_INITIAL_MS else RA_NORMAL_MS;
      } else {
        next := RA_NORMAL_MS;
      }
      timers := timers + [Timer(now + next, arg)];
    }

    method RaStop(interface: Netif)
      requires prefixes.Length == MAX_PREFIXES
      modifies this, prefixes
      ensures Abstract() == Stop(old(Abstract()), interface)
    {
      if netif != Some(interface) {
        return;
      }
      timers := Untimeout(timers, interface);
      netif, initialLeft, count := None, 0, 0;
      for i := 0 to MAX_PREFIXES
        modifies prefixes
        invariant forall k :: 0 <= k < i ==> prefixes[k] == Cleared
      {
        prefixes[i] := Cleared;
      }
      assert prefixes[..] == AllCleared;
    }

    /** The loop of `tcpip_ra_set`, which gives up at the first bad lifetime. */
    method CopyPrefixes(entries: seq<Prefix>) returns (ok: bool)
      requires |entries| <= prefixes.Length
      modifies prefixes
      ensures ok <==> Acceptable(entries) == |entries|
      ensures prefixes[..] == Overwritten(old(prefixes[..]), entries[..Acceptable(entries)])
    {
      ghost var before := prefixes[..];
      for i := 0 to |entries|
        invariant Acceptable(entries) == i + Acceptable(entries[i..])
        invariant prefixes[..] == Overwritten(before, entries[..i])
      {
        AcceptableFrom(entries, i);
        if entries[i].preferred > entries[i].valid {
          return false;
        }
        OverwriteNext(before, entries, i);
        prefixes[i] := entries[i];
      }
      return true;
    }

    method TcpipRaSet(
      interface: Option<Netif>, entries: Option<seq<Prefix>>, arrays: bool, able: bool,
      now: nat) returns (status: Status)
      requires Valid()
      modifies this, prefixes
      ensures Valid() && (Abstract(), status) == Set(old(Abstract()), interface, entries, arrays, able, now)
    {
      StepOneTimer(Abstract(), SetRequest(interface, entries, arrays, able, now));
      if interface.None? {
        return ErrArg;
      }
      if entries.None? || |entries.value| == 0 {
        RaStop(interface.value);
        return ErrOk;
      }
      if !arrays || |entries.value| > MAX_PREFIXES {
        return ErrArg;
      }
      if netif.Some? && netif != interface {
        RaStop(netif.value);
      }
      var copied := CopyPrefixes(entries.value);
      if !copied {
        return ErrArg;
      }
      Start(interface.value, |entries.value|, able, now);
      return ErrOk;
    }

    /** The end of `tcpip_ra_set`. */
    method Start(interface: Netif, n: nat, able: bool, now: nat)
      requires Proper(Abstract()) && n <= MAX_PREFIXES
      modifies this
      ensures var v := Send(old(Abstract()).(count := n, netif := Some(interface), initialLeft := RA_INITIAL_COUNT),
        interface, able, now, true);
        Abstract() == v.(initialLeft := RA_INITIAL_COUNT - 1,
                         timers := Untimeout(v.timers, interface) + [Timer(now + RA_INITIAL_MS, interface)])
    {
      count, netif, initialLeft := n, Some(interface), RA_INITIAL_COUNT;
      SendRa(interface, able, now, true);
      initialLeft := RA_INITIAL_COUNT - 1;
      timers := Untimeout(timers, interface);
      timers := timers + [Timer(now + RA_INITIAL_MS, interface)];
    }

    method InputHook(inp: Netif, able: bool, now: nat)
      requires Valid()
      modifies this`sent
      ensures Valid() && Abstract() == OnSolicitation(old(Abstract()), inp, able, now)
    {
      if netif != Some(inp) {
        return;
      }
      SendRa(inp, able, now, false);
    }
  }
}
