/**
  The text an Act records for a moved dial (cmd/web/retentionpanel.go humanDays, humanCadences;
  cmd/web/act.go onOff), and the form values the dial handlers read.
*/
module DialText {
  import opened Wrappers
  import opened Decimal

  function HumanDays(days: int): string {
    if days <= 0 then "keep everything"
    else if days == 1 then "1 day"
    else if days % 365 == 0 && days >= 365 then
      if days / 365 == 1 then "1 year" else Dec(days / 365) + " years"
    else if days % 30 == 0 && days >= 60 then Dec(days / 30) + " months"
    else Dec(days) + " days"
  }

  function HumanCadences(n: int): string {
    if n <= 0 then "keep everything"
    else if n == 1 then "1 cadence"
    else Dec(n) + " cadences"
  }

  function OnOff(value: int): string {
    if value != 0 then "on" else "off"
  }

  /** The count and the unit a positive day dial is written in. */
  function DaysCount(days: int): nat
    requires days > 0
  {
    if days == 1 then 1
    else if days % 365 == 0 then days / 365
    else if days % 30 == 0 && days >= 60 then days / 30
    else days
  }

  function DaysUnit(days: int): string
    requires days > 0
  {
    if days == 1 then " day"
    else if days == 365 then " year"
    else if days % 365 == 0 then " years"
    else if days % 30 == 0 && days >= 60 then " months"
    else " days"
  }

  lemma HumanDaysIsCountAndUnit(days: int)
    requires days > 0
    ensures HumanDays(days) == Dec(DaysCount(days)) + DaysUnit(days)
  {
    assert Dec(1) == "1";
    assert "1" + " day" == "1 day";
    assert "1" + " year" == "1 year";
    if days % 365 == 0 {
      assert days >= 365;
    }
  }

  /** A count of one unit, as a reader of the log sees it. */
  function Counted(n: nat, unit: string): string {
    Dec(n) + " " + unit + if n == 1 then "" else "s"
  }

  lemma CountedReads(n: nat, unit: string, one: string, many: string)
    requires one == " " + unit && many == " " + unit + "s"
    ensures Counted(n, unit) == Dec(n) + if n == 1 then one else many
  {
    assert Dec(n) + " " + unit + "" == Dec(n) + (" " + unit);
    assert Dec(n) + " " + unit + "s" == Dec(n) + (" " + unit + "s");
  }

  /** A day dial reads in whole years where it can, else in whole months from two months up, else in
      days, and one of a unit is never written as a plural. */
  lemma HumanDaysReads(days: int)
    ensures HumanDays(days) ==
            if days <= 0 then "keep everything"
            else if days % 365 == 0 then Counted(days / 365, "year")
            else if days % 30 == 0 && days != 30 then Counted(days / 30, "month")
            else Counted(days, "day")
  {
    if days > 0 {
      HumanDaysIsCountAndUnit(days);
      CountedReads(DaysCount(days), "year", " year", " years");
      CountedReads(DaysCount(days), "month", " month", " months");
      CountedReads(DaysCount(days), "day", " day", " days");
    }
  }

  lemma HumanCadencesReads(n: int)
    ensures HumanCadences(n) == if n <= 0 then "keep everything" else Counted(n, "cadence")
  {
    if n > 0 {
      CountedReads(n, "cadence", " cadence", " cadences");
      assert Dec(1) == "1" && "1" + " cadence" == "1 cadence";
    }
  }

  /** Two day dials are recorded with the same text exactly when they are equal or both unbounded. */
  lemma HumanDaysDeterminesDays(a: int, b: int)
    ensures HumanDays(a) == HumanDays(b) <==> a == b || (a <= 0 && b <= 0)
  {
    if a > 0 && b > 0 {
      HumanDaysIsCountAndUnit(a);
      HumanDaysIsCountAndUnit(b);
      if HumanDays(a) == HumanDays(b) {
        NumberThenText(DaysCount(a), DaysUnit(a), DaysCount(b), DaysUnit(b));
        UnitsDiffer(a, b);
      }
    } else if a > 0 {
      BoundedIsNotUnbounded(a);
    } else if b > 0 {
      BoundedIsNotUnbounded(b);
    }
  }

  lemma UnitsDiffer(a: int, b: int)
    requires a > 0 && b > 0
    requires DaysCount(a) == DaysCount(b) && DaysUnit(a) == DaysUnit(b)
    ensures a == b
  {
    var day, year, years, months, days := " day", " year", " years", " months", " days";
    assert |day| == 4 && |year| == 5 && |years| == 6 && |months| == 7 && |days| == 5;
    assert year[1] == 'y' && days[1] == 'd';
  }

  lemma BoundedIsNotUnbounded(days: int)
    requires days > 0
    ensures HumanDays(days) != "keep everything"
  {
    HumanDaysIsCountAndUnit(days);
    DecDigits(DaysCount(days));
    assert IsDigit(HumanDays(days)[0]);
    assert "keep everything"[0] == 'k';
  }

  lemma HumanCadencesDeterminesCount(a: int, b: int)
    ensures HumanCadences(a) == HumanCadences(b) <==> a == b || (a <= 0 && b <= 0)
  {
    var one, many := " cadence", " cadences";
    assert |one| == 8 && |many| == 9;
    assert Dec(1) == "1" && "1" + one == "1 cadence";
    assert "keep everything"[0] == 'k';
    if a > 0 {
      DecDigits(a);
      assert IsDigit(HumanCadences(a)[0]);
    }
    if b > 0 {
      DecDigits(b);
      assert IsDigit(HumanCadences(b)[0]);
    }
    if a > 0 && b > 0 && HumanCadences(a) == HumanCadences(b) {
      NumberThenText(a, if a == 1 then one else many, b, if b == 1 then one else many);
    }
  }

  /** A form value as `parseDialValue` reads it: `parsed` is what the integer parse gave. */
  function ParseDialValue(parsed: Option<int>, fallback: int): int {
    if parsed.None? || parsed.value < 0 then fallback else parsed.value
  }

  function ClampToFloor(value: int, floor: int): int {
    if value <= 0 || floor <= 0 then value else if value < floor then floor else value
  }
}
