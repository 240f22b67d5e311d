/**
  Integer-only time texts: the zero-padded HH:MM:SS clock of the start and
  points screens, and the three-way best-time text of the score screen.
  Swift's `/` and `%` truncate toward zero and `%02d` pads to two characters;
  both are written out here.
 */
module TimeFormat {
  import opened Wrappers

  /** Swift's `n / d` for d > 0: the quotient truncated toward zero. */
  function Quot(n: int, d: int): int
    requires d > 0
  {
    if n >= 0 then n / d else -((-n) / d)
  }

  /** Swift's `n % d` for d > 0: the remainder takes the sign of n. */
  function Rem(n: int, d: int): int
    requires d > 0
  {
    n - d * Quot(n, d)
  }

  lemma QuotRem(n: int, d: int)
    requires d > 0
    ensures d * Quot(n, d) + Rem(n, d) == n
    ensures n >= 0 ==> Quot(n, d) == n / d && Rem(n, d) == n % d && 0 <= Rem(n, d) < d
    ensures n < 0 ==> Quot(n, d) <= 0 && -d < Rem(n, d) <= 0
  {
  }

  // ---------------------------------------------------------------------
  // Decimal text

  predicate IsDigitChar(ch: char) { '0' <= ch <= '9' }

  function DigitChar(d: int): (ch: char)
    requires 0 <= d <= 9
    ensures IsDigitChar(ch)
  {
    (('0' as int) + d) as char
  }

  function DigitValue(ch: char): int
    requires IsDigitChar(ch)
  {
    (ch as int) - ('0' as int)
  }

  /** Decimal digits of n, most significant first, no leading zeros: `"\(n)"`. */
  function NatToString(n: nat): string
  {
    if n < 10 then [DigitChar(n)] else NatToString(n / 10) + [DigitChar(n % 10)]
  }

  /** `%d`: a minus sign before the digits of a negative value. */
  function IntToString(n: int): string
  {
    if n < 0 then "-" + NatToString(-n) else NatToString(n)
  }

  /** `%02d`: a value 0-9 gets a leading zero; any other keeps its `%d` text. */
  function Pad2(n: int): string
  {
    if 0 <= n < 10 then "0" + NatToString(n) else IntToString(n)
  }

  predicate AllDigits(s: string) {
    forall i :: 0 <= i < |s| ==> IsDigitChar(s[i])
  }

  /** The value of a string of decimal digits. */
  function DigitsValue(s: string): nat
    requires AllDigits(s)
  {
    if s == [] then 0 else 10 * DigitsValue(s[..|s| - 1]) + DigitValue(s[|s| - 1])
  }

  /** Reads a non-empty string of decimal digits back as a number. */
  function ParseNat(s: string): Option<nat>
  {
    if |s| > 0 && AllDigits(s) then Some(DigitsValue(s)) else None
  }

  /** The digits of n read back as n; one digit below 10, two below 100, three or more from 100 on. */
  lemma {:induction false} NatToStringParses(n: nat)
    ensures AllDigits(NatToString(n)) && ParseNat(NatToString(n)) == Some(n)
    ensures n < 10 ==> |NatToString(n)| == 1
    ensures 10 <= n < 100 ==> |NatToString(n)| == 2
    ensures n >= 100 ==> |NatToString(n)| >= 3
  {
    if n >= 10 {
      var s := NatToString(n / 10);
      NatToStringParses(n / 10);
      var t := s + [DigitChar(n % 10)];
      assert t[..|t| - 1] == s;
      assert DigitValue(t[|t| - 1]) == n % 10;
      assert AllDigits(t);
      assert DigitsValue(t) == 10 * DigitsValue(s) + n % 10;
      assert DigitsValue(s) == n / 10;
    } else {
      var t := NatToString(n);
      assert t == [DigitChar(n)];
      assert (DigitChar(n) as int) == ('0' as int) + n;
      assert DigitValue(t[0]) == n;
      assert t[..|t| - 1] == [];
      assert DigitsValue(t) == n;
    }
  }

  /** `%02d` of a non-negative value reads back as that value, and is two characters below 100. */
  lemma Pad2Parses(n: int)
    requires n >= 0
    ensures ParseNat(Pad2(n)) == Some(n)
    ensures n < 100 ==> |Pad2(n)| == 2
    ensures n >= 100 ==> |Pad2(n)| >= 3
  {
    NatToStringParses(n);
    if n < 10 {
      var t := "0" + NatToString(n);
      assert t == ['0', DigitChar(n)];
      assert t[..1] == ['0'];
      assert DigitsValue(t[..1]) == 0 by {
        assert t[..1][..0] == [];
      }
    }
  }

  // ---------------------------------------------------------------------
  // Hours, minutes, seconds

  datatype Clock = Clock(hours: int, minutes: int, seconds: int)

  /** hours = t / 3600, minutes = (t % 3600) / 60, seconds = t % 60, with Swift's operators. */
  function Split(t: int): Clock
  {
    Clock(Quot(t, 3600), Quot(Rem(t, 3600), 60), Rem(t, 60))
  }

  /** Quotient and remainder by 60 are unique. */
  lemma Div60Unique(n: int, q: int, r: int)
    requires n == 60 * q + r && 0 <= r < 60
    ensures n / 60 == q && n % 60 == r
  {
    var x := n / 60 - q;
    assert 60 * x == r - n % 60;
    assert -1 < x < 1;
  }

  /** For u >= 0: u is u / 3600 hours, (u % 3600) / 60 minutes and u % 60 seconds,
      and the seconds of u are those of u % 3600. */
  lemma NatSplit(u: int)
    requires u >= 0
    ensures u == 3600 * (u / 3600) + 60 * ((u % 3600) / 60) + u % 60
    ensures u % 60 == (u % 3600) % 60
    ensures 0 <= (u % 3600) / 60 < 60 && 0 <= u % 60 < 60 && u / 3600 >= 0
  {
    var q, r := u / 3600, u % 3600;
    var a, b := r / 60, r % 60;
    assert u == 3600 * q + r && 0 <= r < 3600;
    assert r == 60 * a + b && 0 <= b < 60;
    Div60Unique(u, 60 * q + a, b);
  }

  /** The three fields recombine to t; for t >= 0 the minutes and seconds are below 60
      and none is negative. */
  lemma SplitRecombines(t: int)
    ensures Split(t).hours * 3600 + Split(t).minutes * 60 + Split(t).seconds == t
    ensures t >= 0 ==> Split(t).hours >= 0 && 0 <= Split(t).minutes < 60 && 0 <= Split(t).seconds < 60
    ensures -60 < Split(t).minutes < 60 && -60 < Split(t).seconds < 60
  {
    var u := if t >= 0 then t else -t;
    NatSplit(u);
    var r := Rem(t, 3600);
    if t >= 0 {
      assert Quot(t, 3600) == u / 3600 && r == u % 3600;
      assert Quot(r, 60) == (u % 3600) / 60;
      assert Rem(t, 60) == u % 60;
    } else {
      assert Quot(t, 3600) == -(u / 3600);
      assert r == -(u % 3600);
      assert Quot(r, 60) == -((u % 3600) / 60);
      assert Rem(t, 60) == -(u % 60);
    }
  }

  /** formatTime: `String(format: "%02d:%02d:%02d", hours, minutes, secs)`. */
  function FormatTime(seconds: int): string
  {
    var k := Split(seconds);
    Pad2(k.hours) + ":" + Pad2(k.minutes) + ":" + Pad2(k.seconds)
  }

  /** Reads an "H…H:MM:SS" text back as a number of seconds; the hours field may be
      wider than two digits. */
  function ParseClock(text: string): Option<int>
  {
    if |text| < 8 || text[|text| - 6] != ':' || text[|text| - 3] != ':' then None
    else
      match (ParseNat(text[..|text| - 6]), ParseNat(text[|text| - 5..|text| - 3]), ParseNat(text[|text| - 2..]))
      case (Some(h), Some(m), Some(s)) => Some(h * 3600 + m * 60 + s)
      case _ => None
  }

  /** Where the fields of an "hh:mm:ss" text sit when minutes and seconds take two
      characters each. */
  lemma ClockTextParts(hh: string, mm: string, ss: string)
    requires |mm| == 2 && |ss| == 2
    ensures var text := hh + ":" + mm + ":" + ss;
            && |text| == |hh| + 6 && text[|text| - 6] == ':' && text[|text| - 3] == ':'
            && text[..|text| - 6] == hh && text[|text| - 5..|text| - 3] == mm && text[|text| - 2..] == ss
  {
    var text := hh + ":" + mm + ":" + ss;
    assert text == hh + ([':'] + mm + [':'] + ss);
  }

  /** Where the fields of an "mm:ss" text sit when both take two characters. */
  lemma MinSecParts(mm: string, ss: string)
    requires |mm| == 2 && |ss| == 2
    ensures var body := mm + ":" + ss;
            |body| == 5 && body[2] == ':' && body[..2] == mm && body[3..] == ss
  {
  }

  /** A four-character unit appended to a body is the text's suffix, and the body is the rest. */
  lemma UnitParts(body: string, unit: string)
    requires |unit| == 4
    ensures Suffix(body + unit) == unit && (body + unit)[..|body + unit| - 4] == body
  {
    assert (body + unit)[|body + unit| - 4..] == unit;
  }

  /** Every non-negative duration is recovered from its clock text; the text is exactly
      eight characters, with ':' at positions 2 and 5, below 100 hours, and wider from
      100 hours on, since the hours field is not capped. */
  lemma FormatTimeRoundTrip(seconds: int)
    requires seconds >= 0
    ensures ParseClock(FormatTime(seconds)) == Some(seconds)
    ensures seconds < 360000 ==> |FormatTime(seconds)| == 8 && FormatTime(seconds)[2] == ':' && FormatTime(seconds)[5] == ':'
    ensures seconds >= 360000 ==> |FormatTime(seconds)| > 8
  {
    var k := Split(seconds);
    SplitRecombines(seconds);
    Pad2Parses(k.hours);
    Pad2Parses(k.minutes);
    Pad2Parses(k.seconds);
    ClockTextParts(Pad2(k.hours), Pad2(k.minutes), Pad2(k.seconds));
    assert seconds >= 360000 ==> k.hours >= 100;
  }

  /** The score screen's best-time text (ScoreViewController.updateUI): "HH:MM:SS hrs"
      when there are hours, else "MM:SS min" when there are minutes, else "S sec". */
  function BestTimeText(bestTime: int): string
  {
    var k := Split(bestTime);
    if k.hours > 0 then Pad2(k.hours) + ":" + Pad2(k.minutes) + ":" + Pad2(k.seconds) + " hrs"
    else if k.minutes > 0 then Pad2(k.minutes) + ":" + Pad2(k.seconds) + " min"
    else IntToString(k.seconds) + " sec"
  }

  /** The last four characters of a text, or the whole text when shorter. */
  function Suffix(text: string): string
  {
    if |text| < 4 then text else text[|text| - 4..]
  }

  /** Reads a best-time text back as a number of seconds, by its unit suffix. */
  function ParseBestTimeText(text: string): Option<int>
  {
    if |text| < 4 then None
    else
      var body := text[..|text| - 4];
      if Suffix(text) == " hrs" then ParseClock(body)
      else if Suffix(text) == " min" then
        (if |body| == 5 && body[2] == ':' then
           match (ParseNat(body[..2]), ParseNat(body[3..]))
           case (Some(m), Some(s)) => Some(m * 60 + s)
           case _ => None
         else None)
      else if Suffix(text) == " sec" then
        (match ParseNat(body)
         case Some(s) => Some(s)
         case None => None)
      else None
  }

  /** For a non-negative time exactly one unit applies: " hrs" when there are hours,
      " min" when there are minutes but no hours, " sec" otherwise. */
  lemma BestTimeTextUnit(bestTime: int)
    requires bestTime >= 0
    ensures var k := Split(bestTime);
            && (Suffix(BestTimeText(bestTime)) == " hrs" <==> k.hours > 0)
            && (Suffix(BestTimeText(bestTime)) == " min" <==> k.hours == 0 && k.minutes > 0)
            && (Suffix(BestTimeText(bestTime)) == " sec" <==> k.hours == 0 && k.minutes == 0)
  {
    var k := Split(bestTime);
    var text := BestTimeText(bestTime);
    SplitRecombines(bestTime);
    if k.hours > 0 {
      UnitParts(Pad2(k.hours) + ":" + Pad2(k.minutes) + ":" + Pad2(k.seconds), " hrs");
    } else if k.minutes > 0 {
      UnitParts(Pad2(k.minutes) + ":" + Pad2(k.seconds), " min");
    } else {
      UnitParts(IntToString(k.seconds), " sec");
    }
  }

  /** Every non-negative best time is recovered from its text. */
  lemma BestTimeTextRoundTrip(bestTime: int)
    requires bestTime >= 0
    ensures ParseBestTimeText(BestTimeText(bestTime)) == Some(bestTime)
  {
    var k := Split(bestTime);
    var text := BestTimeText(bestTime);
    SplitRecombines(bestTime);
    BestTimeTextUnit(bestTime);
    Pad2Parses(k.minutes);
    Pad2Parses(k.seconds);
    if k.hours > 0 {
      UnitParts(FormatTime(bestTime), " hrs");
      FormatTimeRoundTrip(bestTime);
    } else if k.minutes > 0 {
      var body := Pad2(k.minutes) + ":" + Pad2(k.seconds);
      UnitParts(body, " min");
      MinSecParts(Pad2(k.minutes), Pad2(k.seconds));
    } else {
      NatToStringParses(k.seconds);
      UnitParts(NatToString(k.seconds), " sec");
    }
  }
}
