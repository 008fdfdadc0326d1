/** Worked examples of the duration resolver, each derived from the general
    lemmas of module Duration. */
module DurationExamples {
  import opened Wrappers
  import opened Text
  import opened Duration

  /** `side` is a well-formed time of day without surrounding space. */
  lemma ClockText(side: string, h: nat, m: nat, hw: nat, mw: nat)
    requires h < 24 && m < 60 && FitsWidth(h, hw) && FitsWidth(m, mw)
    requires side == Clock(h, m, hw, mw)
    ensures '-' !in side
    ensures ParseClock(Strip(side)) == Some(60 * h + m)
  {
    ClockRoundTrip(h, m, hw, mw);
    forall i | 0 <= i < |side| ensures !IsSpace(side[i]) {
      assert IsDigit(side[i]) || side[i] == ':';
    }
    StripWithoutSpaces(side);
  }

  /** The examples of the resolver's documented behaviour: an overnight
      range, the inclusive twelve-hour ceiling, and a malformed range. */
  lemma Examples()
    ensures TimeToMinutes("23:30-00:15", "watched tv") == 45
    ensures TimeToMinutes("8:00-20:00", "study") == 720
    ensures TimeToMinutes("8:00-20:01", "study") == 0
    ensures TimeToMinutes("25:99-26:00", "x") == 0
  {
    ExampleRanges();
    ExampleTexts();
  }

  lemma ExampleTexts()
    ensures "23:30" + "-" + "00:15" == "23:30-00:15"
    ensures "8:00" + "-" + "20:00" == "8:00-20:00"
    ensures "8:00" + "-" + "20:01" == "8:00-20:01"
    ensures "25:99" + "-" + "26:00" == "25:99-26:00"
  {
  }

  lemma ExampleRanges()
    ensures TimeToMinutes("23:30" + "-" + "00:15", "watched tv") == 45
    ensures TimeToMinutes("8:00" + "-" + "20:00", "study") == 720
    ensures TimeToMinutes("8:00" + "-" + "20:01", "study") == 0
    ensures TimeToMinutes("25:99" + "-" + "26:00", "x") == 0
  {
    Side2330();
    Side0015();
    Side800();
    Side2000();
    Side2001();
    HourTwentyFive();
    ClockRangeDuration("23:30", "00:15", "watched tv");
    ClockRangeDuration("8:00", "20:00", "study");
    ClockRangeDuration("8:00", "20:01", "study");
    BadSideRejected("25:99", "26:00", "x");
  }

  lemma Side2330()
    ensures '-' !in "23:30" && ParseClock(Strip("23:30")) == Some(1410)
  {
    ClockText("23:30", 23, 30, 2, 2);
  }

  lemma Side0015()
    ensures '-' !in "00:15" && ParseClock(Strip("00:15")) == Some(15)
  {
    ClockText("00:15", 0, 15, 2, 2);
  }

  lemma Side800()
    ensures '-' !in "8:00" && ParseClock(Strip("8:00")) == Some(480)
  {
    ClockText("8:00", 8, 0, 1, 2);
  }

  lemma Side2000()
    ensures '-' !in "20:00" && ParseClock(Strip("20:00")) == Some(1200)
  {
    ClockText("20:00", 20, 0, 2, 2);
  }

  lemma Side2001()
    ensures '-' !in "20:01" && ParseClock(Strip("20:01")) == Some(1201)
  {
    ClockText("20:01", 20, 1, 2, 2);
  }

  lemma HourTwentyFive()
    ensures '-' !in "25:99" && '-' !in "26:00" && ParseClock(Strip("25:99")).None?
  {
    StripWithoutSpaces("25:99");
    assert IndexOf("25:99", ':') == 2;
  }
}
