/** The points screen: the best time shown for the selected difficulty. */
module BestTime {
  import opened Wrappers

  datatype CategoryStat = CategoryStat(category: string, bestTime: int, totalPoints: int)

  datatype GameResult = GameResult(riderId: string, category: string,
                                   categoryStats: seq<CategoryStat>, grandTotalPoints: int)

  /** `lowercased()` on the ASCII letters A-Z; other characters are left as they are. */
  function LowerChar(ch: char): (r: char)
    ensures 'A' <= ch <= 'Z' ==> 'a' <= r <= 'z' && r as int - ch as int == 32
    ensures !('A' <= ch <= 'Z') ==> r == ch
  {
    if 'A' <= ch <= 'Z' then (ch as int + 32) as char else ch
  }

  function Lower(s: string): (r: string)
    ensures |r| == |s|
    ensures forall i :: 0 <= i < |s| ==> r[i] == LowerChar(s[i])
  {
    if s == [] then [] else [LowerChar(s[0])] + Lower(s[1..])
  }

  /** Lowercasing twice is lowercasing once. */
  lemma LowerIdempotent(s: string)
    ensures Lower(Lower(s)) == Lower(s)
  {
    assert forall i :: 0 <= i < |s| ==> LowerChar(LowerChar(s[i])) == LowerChar(s[i]);
  }

  predicate SameCategory(a: string, b: string) {
    Lower(a) == Lower(b)
  }

  /** Entry i matches and no earlier entry does. */
  predicate IsFirstMatch(stats: seq<CategoryStat>, difficulty: string, i: int)
    requires 0 <= i < |stats|
  {
    SameCategory(stats[i].category, difficulty)
    && forall j :: 0 <= j < i ==> !SameCategory(stats[j].category, difficulty)
  }

  /** The position of the first statistic whose category matches case-insensitively. */
  function FirstMatch(stats: seq<CategoryStat>, difficulty: string): (r: Option<nat>)
    ensures r.Some? ==> r.value < |stats| && SameCategory(stats[r.value].category, difficulty)
    ensures r.Some? ==> forall i :: 0 <= i < r.value ==> !SameCategory(stats[i].category, difficulty)
    ensures r.None? <==> forall i :: 0 <= i < |stats| ==> !SameCategory(stats[i].category, difficulty)
  {
    if stats == [] then None
    else if SameCategory(stats[0].category, difficulty) then Some(0)
    else
      match FirstMatch(stats[1..], difficulty)
      case Some(k) => Some(k + 1)
      case None => None
  }

  /** updateUI: the first matching statistic's best time, or 0 when none matches. */
  function BestTimeFor(result: GameResult, difficulty: string): (seconds: int)
    ensures (forall i :: 0 <= i < |result.categoryStats| ==> !SameCategory(result.categoryStats[i].category, difficulty))
              ==> seconds == 0
    ensures forall i :: 0 <= i < |result.categoryStats| && IsFirstMatch(result.categoryStats, difficulty, i)
              ==> seconds == result.categoryStats[i].bestTime
  {
    match FirstMatch(result.categoryStats, difficulty)
    case Some(k) =>
      result.categoryStats[k].bestTime
    case None => 0
  }

  /** The lookup depends on the difficulty only up to case. */
  lemma BestTimeIgnoresCase(result: GameResult, a: string, b: string)
    requires Lower(a) == Lower(b)
    ensures BestTimeFor(result, a) == BestTimeFor(result, b)
  {
    assert forall x :: SameCategory(x, a) == SameCategory(x, b);
  }
}
