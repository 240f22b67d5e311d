/**
  The difficulty chooser (the DifficultyPopupViewController extension in
  Controllers/CustomViewController.swift): each difficulty may be started once
  per calendar day. The persisted `PlayedDifficulties` list and `LastPlayedDate`
  value are the fields of the popup; days are day numbers and the current day
  is a parameter.
 */
module DifficultyGate {
  import opened Wrappers
  import opened Streak

  /** The persisted list of difficulties started today and the day of the last start
      or reset; None is a missing value, which the source reads as the distant past. */
  datatype Gate = Gate(playedDifficulties: seq<string>, lastPlayedDate: Option<int>)

  /** resetIfNewDay: unless the last played day is today, the list is emptied and
      today is stored. */
  function ResetStep(g: Gate, today: int): (g': Gate)
    ensures NoDuplicates(g.playedDifficulties) ==> NoDuplicates(g'.playedDifficulties)
  {
    if g.lastPlayedDate == Some(today) then g else Gate([], Some(today))
  }

  /** The outcome of difficultyTapped: the new gate and the difficulty whose game starts, if any. */
  datatype Tap = Tap(gate: Gate, started: Option<string>)

  /** difficultyTapped: a difficulty already in the list is refused with an alert;
      otherwise it is appended, today is stored and its game starts. */
  function TapStep(g: Gate, difficulty: string, today: int): (t: Tap)
    ensures NoDuplicates(g.playedDifficulties) ==> NoDuplicates(t.gate.playedDifficulties)
  {
    if difficulty in g.playedDifficulties then Tap(g, None)
    else Tap(Gate(g.playedDifficulties + [difficulty], Some(today)), Some(difficulty))
  }

  /** Resetting clears the list exactly when the stored day is not today (a missing day
      included), and afterwards the stored day is today either way. */
  lemma ResetOutcome(g: Gate, today: int)
    ensures ResetStep(g, today).lastPlayedDate == Some(today)
    ensures ResetStep(g, today) == g <==> g.lastPlayedDate == Some(today)
    ensures g.lastPlayedDate != Some(today) ==> ResetStep(g, today).playedDifficulties == []
    ensures g.lastPlayedDate.None? ==> ResetStep(g, today) == Gate([], Some(today))
  {
  }

  /** A second reset on the same day changes nothing. */
  lemma ResetIdempotent(g: Gate, today: int)
    ensures ResetStep(ResetStep(g, today), today) == ResetStep(g, today)
  {
  }

  /** A tap starts a game, with exactly the tapped label, if and only if that label is
      not yet in the list; a refused tap changes nothing, and an accepted one adds the
      label once at the end and stores today. */
  lemma TapOutcome(g: Gate, difficulty: string, today: int)
    requires NoDuplicates(g.playedDifficulties)
    ensures var t := TapStep(g, difficulty, today);
            && (t.started.Some? <==> difficulty !in g.playedDifficulties)
            && (t.started.Some? ==> t.started.value == difficulty)
            && (t.started.None? ==> t.gate == g)
            && (t.started.Some? ==>
                  && t.gate.playedDifficulties == g.playedDifficulties + [difficulty]
                  && multiset(t.gate.playedDifficulties)[difficulty] == 1
                  && t.gate.lastPlayedDate == Some(today))
  {
    var t := TapStep(g, difficulty, today);
    if t.started.Some? {
      assert multiset(g.playedDifficulties)[difficulty] == 0;
    }
  }

  /** Within one day a difficulty starts at most once: after it has started, every
      later tap on it is refused, whatever is tapped in between. */
  lemma {:induction false} OncePerDay(g: Gate, difficulty: string, today: int, between: seq<string>)
    requires difficulty in g.playedDifficulties
    ensures var g' := TapAll(g, between, today);
            && difficulty in g'.playedDifficulties
            && TapStep(g', difficulty, today).started.None?
    decreases |between|
  {
    if |between| > 0 {
      var t := TapStep(g, between[0], today);
      assert difficulty in t.gate.playedDifficulties;
      OncePerDay(t.gate, difficulty, today, between[1..]);
    }
  }

  /** The gate after tapping each label of taps in turn. */
  function TapAll(g: Gate, taps: seq<string>, today: int): Gate
    decreases |taps|
  {
    if |taps| == 0 then g else TapAll(TapStep(g, taps[0], today).gate, taps[1..], today)
  }

  /** Tapping labels in turn, on one day, keeps the list free of duplicates and keeps
      the earlier entries as its prefix; the list then holds exactly the earlier entries
      and the tapped labels. */
  lemma {:induction false} TapAllStartsAppended(g: Gate, taps: seq<string>, today: int)
    requires NoDuplicates(g.playedDifficulties)
    ensures NoDuplicates(TapAll(g, taps, today).playedDifficulties)
    ensures |g.playedDifficulties| <= |TapAll(g, taps, today).playedDifficulties|
    ensures TapAll(g, taps, today).playedDifficulties[..|g.playedDifficulties|] == g.playedDifficulties
    ensures forall d :: d in TapAll(g, taps, today).playedDifficulties <==> d in g.playedDifficulties || d in taps
    decreases |taps|
  {
    if |taps| > 0 {
      var t := TapStep(g, taps[0], today);
      TapAllStartsAppended(t.gate, taps[1..], today);
      var final := TapAll(g, taps, today).playedDifficulties;
      assert final[..|t.gate.playedDifficulties|] == t.gate.playedDifficulties;
      assert final[..|g.playedDifficulties|] == t.gate.playedDifficulties[..|g.playedDifficulties|];
      assert taps == [taps[0]] + taps[1..];
      forall d
        ensures d in final <==> d in g.playedDifficulties || d in taps
      {
        assert d in taps <==> d == taps[0] || d in taps[1..];
      }
    }
  }

  /** The popup, holding the persisted values it reads and rewrites. */
  class DifficultyPopup {
    var playedDifficulties: seq<string>
    var lastPlayedDate: Option<int>

    function State(): Gate
      reads this
    {
      Gate(playedDifficulties, lastPlayedDate)
    }

    /** Within one day the list holds each difficulty at most once. */
    ghost predicate Valid()
      reads this
    {
      NoDuplicates(playedDifficulties)
    }

    /** viewDidLoad: the stored values are read and resetIfNewDay runs. */
    constructor (stored: Gate, today: int)
      requires NoDuplicates(stored.playedDifficulties)
      ensures State() == ResetStep(stored, today)
      ensures Valid()
    {
      playedDifficulties := stored.playedDifficulties;
      lastPlayedDate := stored.lastPlayedDate;
      if !(stored.lastPlayedDate == Some(today)) {
        playedDifficulties := [];
        lastPlayedDate := Some(today);
      }
    }

    method ResetIfNewDay(today: int)
      requires Valid()
      modifies this
      ensures State() == ResetStep(old(State()), today)
      ensures Valid()
    {
      var last := lastPlayedDate;
      if !(last == Some(today)) {
        playedDifficulties := [];
        lastPlayedDate := Some(today);
      }
    }

    /** Returns the difficulty whose game starts, or None when the "Already Played"
        alert is shown. */
    method DifficultyTapped(difficulty: string, today: int) returns (started: Option<string>)
      requires Valid()
      modifies this
      ensures Tap(State(), started) == TapStep(old(State()), difficulty, today)
      ensures Valid()
    {
      var played := playedDifficulties;
      if difficulty in played {
        return None;
      }
      var updatedDifficulties := played + [difficulty];
      playedDifficulties := updatedDifficulties;
      lastPlayedDate := Some(today);
      started := Some(difficulty);
    }
  }
}
