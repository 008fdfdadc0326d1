/** The duration resolver `time_to_minutes(t, what_i_did)` of pie_graph.py,
    which turns the free-text "Time" column of a log entry ("7:30-8:00") into
    minutes.  It never fails: every malformed text yields 0, the value the
    dashboard treats as "no duration". */
module Duration {
  import opened Wrappers
  import opened Text

  const MinutesPerDay := 1440
  /** Longest interval accepted when the sleep flag is set (16 hours). */
  const SleepCeiling := 960
  /** Longest interval accepted otherwise (12 hours). */
  const OtherCeiling := 720
  /** Duration assumed for a time text without a range, with and without the sleep flag. */
  const SleepFallback := 540
  const OtherFallback := 5

  const SleepKeywords: seq<string> :=
    ["sleep", "slept", "sleeping", "i was sleeping", "nap", "bed", "rest"]

  /** The sleep flag.  The source tests the lower-cased TIME text, not the
      activity text, and the activity parameter is never read. */
  predicate IsSleepText(t: string)
  {
    ContainsAny(Lower(t), SleepKeywords)
  }

  /** "sleeping" and "i was sleeping" only repeat what "sleep" already
      catches: the flag is set exactly when one of five words occurs. */
  lemma SleepTextMeaning(t: string)
    ensures IsSleepText(t) <==>
      var low := Lower(t);
      Contains(low, "sleep") || Contains(low, "slept") || Contains(low, "nap") ||
      Contains(low, "bed") || Contains(low, "rest")
  {
    var low := Lower(t);
    if Contains(low, "i was sleeping") {
      ContainsInfix(low, "i was sleeping", 6);
      assert "i was sleeping"[6..] == "sleeping";
    }
    if Contains(low, "sleeping") {
      ContainsPrefix(low, "sleeping", "sleep");
    }
    assert SleepKeywords[0] == "sleep" && SleepKeywords[1] == "slept" && SleepKeywords[2] == "sleeping" &&
      SleepKeywords[3] == "i was sleeping" && SleepKeywords[4] == "nap" && SleepKeywords[5] == "bed" &&
      SleepKeywords[6] == "rest";
  }

  // ---------------------------------------------------------------------------
  // datetime.strptime(side, "%H:%M")

  function DigitValue(c: char): nat
    requires IsDigit(c)
  {
    c as int - '0' as int
  }

  function DigitChar(d: nat): char
    requires d < 10
  {
    ('0' as int + d) as char
  }

  /** One `%H` or `%M` field matching the whole of `s`: one digit, or two
      digits whose value is at most `max` (the regular expressions
      `2[0-3]|[0-1]\d|\d` and `[0-5]\d|\d`). */
  function ParseField(s: string, max: nat): (r: Option<nat>)
    requires 9 <= max < 100
    ensures r.Some? ==> r.value <= max
    ensures r.Some? ==> forall i :: 0 <= i < |s| ==> IsDigit(s[i])
  {
    if |s| == 1 && IsDigit(s[0]) then Some(DigitValue(s[0]))
    else if |s| == 2 && IsDigit(s[0]) && IsDigit(s[1])
            && 10 * DigitValue(s[0]) + DigitValue(s[1]) <= max
    then Some(10 * DigitValue(s[0]) + DigitValue(s[1]))
    else None
  }

  /** A time of day "H:MM" as minutes since midnight, or None where
      `strptime` raises. */
  function ParseClock(s: string): (r: Option<nat>)
    ensures r.Some? ==> r.value < MinutesPerDay
    ensures r.Some? ==> forall i :: 0 <= i < |s| ==> IsDigit(s[i]) || s[i] == ':'
  {
    if ':' !in s then None
    else
      var i := IndexOf(s, ':');
      match (ParseField(s[..i], 23), ParseField(s[i + 1..], 59))
      case (Some(h), Some(m)) =>
        assert forall j :: 0 <= j < i ==> s[j] == s[..i][j];
        assert forall j :: i < j < |s| ==> s[j] == s[i + 1..][j - i - 1];
        Some(60 * h + m)
      case _ => None
  }

  // ---------------------------------------------------------------------------
  // The texts strptime accepts, written out independently

  predicate FitsWidth(n: nat, width: nat)
  {
    (width == 1 && n < 10) || (width == 2 && n < 100)
  }

  /** `n` written with `width` digits, zero-padded. */
  function Field(n: nat, width: nat): string
    requires FitsWidth(n, width)
  {
    if width == 1 then [DigitChar(n)] else [DigitChar(n / 10), DigitChar(n % 10)]
  }

  function Clock(h: nat, m: nat, hw: nat, mw: nat): string
    requires FitsWidth(h, hw) && FitsWidth(m, mw)
  {
    Field(h, hw) + ":" + Field(m, mw)
  }

  /** Every hour 0-23 and minute 0-59, written with one or two digits each,
      parses back to its minutes since midnight. */
  lemma ClockRoundTrip(h: nat, m: nat, hw: nat, mw: nat)
    requires h < 24 && m < 60 && FitsWidth(h, hw) && FitsWidth(m, mw)
    ensures ParseClock(Clock(h, m, hw, mw)) == Some(60 * h + m)
  {
    var s := Clock(h, m, hw, mw);
    assert s[hw] == ':' && ':' !in s[..hw];
    assert IndexOf(s, ':') == hw by { IndexOfUnique(s, ':', hw); }
    assert s[..hw] == Field(h, hw) && s[hw + 1..] == Field(m, mw);
  }

  lemma {:induction false} IndexOfUnique(s: string, c: char, i: nat)
    requires i < |s| && s[i] == c && c !in s[..i]
    ensures IndexOf(s, c) == i
    decreases i
  {
    if i > 0 {
      assert s[0] == s[..i][0];
      assert s[1..][..i - 1] == s[..i][1..];
      IndexOfUnique(s[1..], c, i - 1);
    }
  }

  /** And nothing else parses: an accepted text is such a rendering. */
  lemma ParsedIsClock(s: string)
    requires ParseClock(s).Some?
    ensures var v := ParseClock(s).value;
      exists hw, mw :: FitsWidth(v / 60, hw) && FitsWidth(v % 60, mw)
                    && s == Clock(v / 60, v % 60, hw, mw)
  {
    var i := IndexOf(s, ':');
    var h, m := ParseField(s[..i], 23).value, ParseField(s[i + 1..], 59).value;
    var v := ParseClock(s).value;
    assert v / 60 == h && v % 60 == m;
    FieldIsRendering(s[..i], 23);
    FieldIsRendering(s[i + 1..], 59);
    assert s == s[..i] + ":" + s[i + 1..];
    assert s == Clock(h, m, i, |s| - i - 1);
  }

  lemma FieldIsRendering(s: string, max: nat)
    requires 9 <= max < 100 && ParseField(s, max).Some?
    ensures FitsWidth(ParseField(s, max).value, |s|)
    ensures s == Field(ParseField(s, max).value, |s|)
  {
    if |s| == 2 {
      var n := ParseField(s, max).value;
      assert n / 10 == DigitValue(s[0]) && n % 10 == DigitValue(s[1]);
    }
  }

  // ---------------------------------------------------------------------------
  // time_to_minutes

  /** Minutes from `s` to `e`, the end moved to the next day when it is not
      after the start. */
  function Interval(s: int, e: int): (d: int)
    // the end is `d` minutes after the start on the clock face
    ensures (s + d) % MinutesPerDay == e % MinutesPerDay
    ensures 0 <= s < MinutesPerDay && 0 <= e < MinutesPerDay ==> 0 < d <= MinutesPerDay
  {
    if e <= s then e + MinutesPerDay - s else e - s
  }

  /** `time_to_minutes(t, what_i_did)`. */
  function TimeToMinutes(t: string, whatIDid: string): (r: int)
    ensures 0 <= r <= SleepCeiling
  {
    var sleep := IsSleepText(t);
    if '-' in t then
      var parts := Split(t, '-');
      if |parts| != 2 then 0  // unpacking into (start, end) raises
      else
        match (ParseClock(Strip(parts[0])), ParseClock(Strip(parts[1])))
        case (Some(s), Some(e)) =>
          var d := Interval(s, e);
          if d <= 0 then 0
          else if sleep then (if d > SleepCeiling then 0 else d)
          else (if d > OtherCeiling then 0 else d)
        case _ => 0
    else if sleep then SleepFallback else OtherFallback
  }

  // ---------------------------------------------------------------------------
  // Properties

  /** A side that strptime accepts holds no letter. */
  lemma ClockSideHasNoLetters(a: string)
    requires ParseClock(Strip(a)).Some?
    ensures forall i :: 0 <= i < |a| ==> !IsLetter(a[i])
  {
    var r := Strip(a);
    forall i | 0 <= i < |a| ensures !IsLetter(a[i]) {
      if !IsSpace(a[i]) {
        var j :| 0 <= j < |r| && r[j] == a[i];
      }
    }
  }

  lemma SplitInTwo(t: string)
    requires |Split(t, '-')| == 2
    ensures t == Split(t, '-')[0] + "-" + Split(t, '-')[1]
  {
    var parts := Split(t, '-');
    SplitJoin(t, '-');
    assert Join(parts, '-') == parts[0] + ['-'] + Join(parts[1..], '-');
  }

  /** A range whose two sides parse holds digits, colons, white space and
      its one "-", so no letter, even once lower-cased. */
  lemma ClockRangeHasNoLetters(t: string)
    requires |Split(t, '-')| == 2
    requires ParseClock(Strip(Split(t, '-')[0])).Some? && ParseClock(Strip(Split(t, '-')[1])).Some?
    ensures forall i :: 0 <= i < |t| ==> !IsLetter(Lower(t)[i])
  {
    var parts := Split(t, '-');
    SplitInTwo(t);
    ClockSideHasNoLetters(parts[0]);
    ClockSideHasNoLetters(parts[1]);
    JoinHasNoLetters(parts[0], parts[1]);
  }

  lemma JoinHasNoLetters(a: string, b: string)
    requires forall i :: 0 <= i < |a| ==> !IsLetter(a[i])
    requires forall i :: 0 <= i < |b| ==> !IsLetter(b[i])
    ensures forall i :: 0 <= i < |a + "-" + b| ==> !IsLetter(Lower(a + "-" + b)[i])
  {
    var t := a + "-" + b;
    forall i | 0 <= i < |t| ensures !IsLetter(t[i]) {
      if i < |a| {
        assert t[i] == a[i];
      } else if i > |a| {
        assert t[i] == b[i - |a| - 1];
      }
    }
  }

  lemma SleepKeywordsStartWithLetters()
    ensures forall k :: 0 <= k < |SleepKeywords| ==> SleepKeywords[k] != [] && IsLetter(SleepKeywords[k][0])
  {
  }

  /** A sleep keyword in the time text always spoils one side of the range:
      every keyword starts with a letter and a parsable range has none. */
  lemma {:induction false} SleepTextHasNoClockRange(t: string)
    requires IsSleepText(t) && |Split(t, '-')| == 2
    ensures ParseClock(Strip(Split(t, '-')[0])).None? || ParseClock(Strip(Split(t, '-')[1])).None?
  {
    var parts := Split(t, '-');
    if ParseClock(Strip(parts[0])).Some? && ParseClock(Strip(parts[1])).Some? {
      ClockRangeHasNoLetters(t);
      SleepKeywordsStartWithLetters();
      NoKeywordStartsIn(Lower(t), SleepKeywords);
      assert false;
    }
  }

  /** The 16-hour sleep ceiling can never apply, so every duration is at most
      12 hours. */
  lemma {:induction false} TimeToMinutesAtMostTwelveHours(t: string, whatIDid: string)
    ensures 0 <= TimeToMinutes(t, whatIDid) <= OtherCeiling
  {
    if '-' in t && |Split(t, '-')| == 2 && IsSleepText(t) {
      SleepTextHasNoClockRange(t);
    }
  }

  /** A range "start-end" whose two sides parse: the minutes from start to
      end, across midnight when end is not after start; rejected above 12
      hours, kept at exactly 12 hours. */
  lemma {:induction false} ClockRangeDuration(a: string, b: string, whatIDid: string)
    requires '-' !in a && '-' !in b
    requires ParseClock(Strip(a)).Some? && ParseClock(Strip(b)).Some?
    ensures var s, e := ParseClock(Strip(a)).value, ParseClock(Strip(b)).value;
      var d := if e > s then e - s else e + MinutesPerDay - s;
      TimeToMinutes(a + "-" + b, whatIDid) == (if d <= OtherCeiling then d else 0)
  {
    var t := a + "-" + b;
    assert t[|a|] == '-';
    SplitOnce(a, b);
    if IsSleepText(t) {
      SleepTextHasNoClockRange(t);
    }
  }

  lemma SplitOnce(a: string, b: string)
    requires '-' !in a && '-' !in b
    ensures Split(a + "-" + b, '-') == [a, b]
  {
    var t := a + "-" + b;
    assert t[|a|] == '-' && t[..|a|] == a && t[|a| + 1..] == b;
    IndexOfUnique(t, '-', |a|);
  }

  /** Equal endpoints mean a whole day, which is over the ceiling. */
  lemma EqualEndpointsRejected(a: string, b: string, whatIDid: string)
    requires '-' !in a && '-' !in b
    requires ParseClock(Strip(a)).Some? && ParseClock(Strip(a)) == ParseClock(Strip(b))
    ensures TimeToMinutes(a + "-" + b, whatIDid) == 0
  {
    ClockRangeDuration(a, b, whatIDid);
  }

  /** Without a "-" there is no range: 540 minutes when the sleep flag is set,
      5 otherwise. */
  lemma NoRangeFallback(t: string, whatIDid: string)
    requires '-' !in t
    ensures TimeToMinutes(t, whatIDid) == if IsSleepText(t) then SleepFallback else OtherFallback
  {
  }

  /** Two or more "-" make the unpacking into two sides raise: the result is 0. */
  lemma {:induction false} SeveralDashesRejected(t: string, whatIDid: string)
    requires Count(t, '-') >= 2
    ensures TimeToMinutes(t, whatIDid) == 0
  {
    SplitJoin(t, '-');
    if '-' !in t { CountAbsent(t, '-'); }
  }

  /** A side that is not a time of day gives 0. */
  lemma {:induction false} BadSideRejected(a: string, b: string, whatIDid: string)
    requires '-' !in a && '-' !in b
    requires ParseClock(Strip(a)).None? || ParseClock(Strip(b)).None?
    ensures TimeToMinutes(a + "-" + b, whatIDid) == 0
  {
    var t := a + "-" + b;
    assert t[|a|] == '-';
    SplitOnce(a, b);
  }

  /** The activity text never influences the duration. */
  lemma ActivityIgnored(t: string, w1: string, w2: string)
    ensures TimeToMinutes(t, w1) == TimeToMinutes(t, w2)
  {
  }
}
