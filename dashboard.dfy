/** The dashboard's treatment of one period of the time log: the "Duration"
    column from `time_to_minutes`, the removal of rows whose text is exactly
    "ate", the "Activity Group" column from the grouper, the "who you are"
    summary over the per-group totals, and the duration overrides of the
    heatmap. */
module Dashboard {
  import opened Wrappers
  import opened Text
  import opened TimeLog
  import Duration
  import Grouping

  /** A row of the period frame: a log entry with the two columns the
      dashboard adds. */
  datatype Row = Row(entry: Entry, duration: int, group: string)

  // ---------------------------------------------------------------------------
  // The columns, as functions of the rows

  function WithDurations(rows: seq<Row>): (r: seq<Row>)
    ensures |r| == |rows|
    ensures forall i :: 0 <= i < |r| ==>
      r[i] == rows[i].(duration := Duration.TimeToMinutes(rows[i].entry.time, rows[i].entry.activity))
  {
    seq(|rows|, i requires 0 <= i < |rows| =>
      rows[i].(duration := Duration.TimeToMinutes(rows[i].entry.time, rows[i].entry.activity)))
  }

  /** Every duration the dashboard computes lies between 0 and 12 hours. */
  lemma DurationsWithinTwelveHours(rows: seq<Row>)
    ensures forall i :: 0 <= i < |rows| ==>
      0 <= WithDurations(rows)[i].duration <= Duration.OtherCeiling
  {
    forall i | 0 <= i < |rows|
      ensures 0 <= WithDurations(rows)[i].duration <= Duration.OtherCeiling
    {
      Duration.TimeToMinutesAtMostTwelveHours(rows[i].entry.time, rows[i].entry.activity);
    }
  }

  /** The text is exactly "ate" once stripped and lower-cased. */
  /** The mask of the "ate" drop.  Such a row would be labelled "Eating"
      anyway: its lower-cased text contains "ate". */
  predicate IsExactAte(text: string)
    ensures IsExactAte(text) ==> Contains(Lower(text), "ate")
  {
    ExactAteContainsAte(text);
    Lower(Strip(text)) == "ate"
  }

  lemma ExactAteContainsAte(text: string)
    ensures Lower(Strip(text)) == "ate" ==> Contains(Lower(text), "ate")
  {
    StripContained(text);
    LowerContains(text, Strip(text));
  }

  /** The rows that `keep` accepts, in their order. */
  function KeepRows(rows: seq<Row>, keep: Row -> bool): (r: seq<Row>)
    ensures |r| <= |rows|
    ensures forall x :: x in r <==> x in rows && keep(x)
  {
    if rows == [] then []
    else
      assert forall x :: x in rows <==> x == rows[0] || x in rows[1..];
      (if keep(rows[0]) then [rows[0]] else []) + KeepRows(rows[1..], keep)
  }

  /** Filtering two parts filters the whole: the rows kept stay in their
      order, and whether a row is kept depends on the row alone. */
  lemma {:induction false} KeepRowsAppend(xs: seq<Row>, ys: seq<Row>, keep: Row -> bool)
    ensures KeepRows(xs + ys, keep) == KeepRows(xs, keep) + KeepRows(ys, keep)
  {
    if xs == [] {
      assert xs + ys == ys;
    } else {
      assert (xs + ys)[0] == xs[0] && (xs + ys)[1..] == xs[1..] + ys;
      KeepRowsAppend(xs[1..], ys, keep);
    }
  }

  lemma KeepRowsSnoc(rows: seq<Row>, x: Row, keep: Row -> bool)
    ensures KeepRows(rows + [x], keep) == KeepRows(rows, keep) + (if keep(x) then [x] else [])
  {
    KeepRowsAppend(rows, [x], keep);
    assert [x][1..] == [];
  }

  lemma PrefixSnoc(rows: seq<Row>, i: nat)
    requires i < |rows|
    ensures rows[..i + 1] == rows[..i] + [rows[i]]
  {
  }

  /** A filter that accepts every row changes nothing. */
  lemma {:induction false} KeepRowsKeepsAll(rows: seq<Row>, keep: Row -> bool)
    requires forall i :: 0 <= i < |rows| ==> keep(rows[i])
    ensures KeepRows(rows, keep) == rows
  {
    if rows != [] {
      assert forall i :: 0 <= i < |rows| - 1 ==> rows[1..][i] == rows[i + 1];
      KeepRowsKeepsAll(rows[1..], keep);
      assert rows == [rows[0]] + rows[1..];
    }
  }

  predicate NotExactAte(row: Row)
  {
    !IsExactAte(row.entry.activity)
  }

  /** The rows whose text is not exactly "ate", in their order. */
  function WithoutExactAte(rows: seq<Row>): (r: seq<Row>)
    ensures |r| <= |rows|
    ensures forall x :: x in r <==> x in rows && !IsExactAte(x.entry.activity)
  {
    KeepRows(rows, NotExactAte)
  }

  /** Filtering rows that hold no exact "ate" changes nothing. */
  lemma WithoutExactAteKeepsAll(rows: seq<Row>)
    requires forall i :: 0 <= i < |rows| ==> !IsExactAte(rows[i].entry.activity)
    ensures WithoutExactAte(rows) == rows
  {
    KeepRowsKeepsAll(rows, NotExactAte);
  }

  /** The "ate" filter of two parts is the filter of the whole. */
  lemma WithoutExactAteAppend(xs: seq<Row>, ys: seq<Row>)
    ensures WithoutExactAte(xs + ys) == WithoutExactAte(xs) + WithoutExactAte(ys)
  {
    KeepRowsAppend(xs, ys, NotExactAte);
  }

  /** Row by row: a row is appended to the result exactly when its text is
      not exactly "ate".  With `WithoutExactAte([]) == []` this fixes the
      result, order and repeats included. */
  lemma WithoutExactAteSnoc(rows: seq<Row>, x: Row)
    ensures WithoutExactAte(rows + [x]) == WithoutExactAte(rows) + (if IsExactAte(x.entry.activity) then [] else [x])
  {
    KeepRowsSnoc(rows, x, NotExactAte);
  }

  /** Dropping the exact "ate" rows twice is dropping them once. */
  lemma WithoutExactAteIdempotent(rows: seq<Row>)
    ensures WithoutExactAte(WithoutExactAte(rows)) == WithoutExactAte(rows)
  {
    var r := WithoutExactAte(rows);
    assert forall i :: 0 <= i < |r| ==> r[i] in r;
    WithoutExactAteKeepsAll(r);
  }

  function Activities(rows: seq<Row>): (r: seq<string>)
    ensures |r| == |rows| && forall i :: 0 <= i < |rows| ==> r[i] == rows[i].entry.activity
  {
    seq(|rows|, i requires 0 <= i < |rows| => rows[i].entry.activity)
  }

  /** The index of the first occurrence of `x` in `xs`. */
  function FirstIndex(xs: seq<string>, x: string): (k: nat)
    requires x in xs
    ensures k < |xs| && xs[k] == x && forall j :: 0 <= j < k ==> xs[j] != x
  {
    if xs[0] == x then 0 else 1 + FirstIndex(xs[1..], x)
  }

  /** `pd.Series(xs).unique()`: the distinct values in order of first
      occurrence. */
  function Unique(xs: seq<string>): (r: seq<string>)
    ensures forall x :: x in r <==> x in xs
    ensures forall i, j :: 0 <= i < j < |r| ==> r[i] != r[j]
  {
    if xs == [] then []
    else
      var init, last := xs[..|xs| - 1], xs[|xs| - 1];
      assert xs == init + [last];
      var u := Unique(init);
      if last in u then u else u + [last]
  }

  /** The distinct values come in the order in which they first occur. */
  lemma {:induction false} UniqueInFirstOccurrenceOrder(xs: seq<string>)
    ensures forall i, j :: 0 <= i < j < |Unique(xs)| ==>
      FirstIndex(xs, Unique(xs)[i]) < FirstIndex(xs, Unique(xs)[j])
  {
    if xs != [] {
      var init, last := xs[..|xs| - 1], xs[|xs| - 1];
      assert xs == init + [last];
      UniqueInFirstOccurrenceOrder(init);
      FirstIndexOfPrefix(init, last);
      var u, r := Unique(init), Unique(xs);
      forall i, j | 0 <= i < j < |r|
        ensures FirstIndex(xs, r[i]) < FirstIndex(xs, r[j])
      {
        assert r[i] in init;
        if j < |u| {
          assert r[j] in init;
        } else {
          assert r[j] == last && last !in init;
        }
      }
    }
  }

  /** Appending an element moves no first occurrence in the prefix. */
  lemma FirstIndexOfPrefix(init: seq<string>, last: string)
    ensures forall x :: x in init ==> FirstIndex(init + [last], x) == FirstIndex(init, x)
    ensures last !in init ==> FirstIndex(init + [last], last) == |init|
  {
    var xs := init + [last];
    forall x | x in init ensures FirstIndex(xs, x) == FirstIndex(init, x) {
      var k' := FirstIndex(init, x);
      assert xs[k'] == x;
    }
  }

  /** The siblings the grouper compares against: the distinct activity texts
      of the period, `period_df["What I Did"].unique()`. */
  function Siblings(rows: seq<Row>): (r: seq<string>)
    ensures forall x :: x in r <==> exists i :: 0 <= i < |rows| && rows[i].entry.activity == x
    ensures forall i, j :: 0 <= i < j < |r| ==> r[i] != r[j]
  {
    Unique(Activities(rows))
  }

  function WithGroups(rows: seq<Row>): (r: seq<Row>)
    ensures |r| == |rows|
    ensures forall i :: 0 <= i < |r| ==>
      r[i] == rows[i].(group := Grouping.Group(rows[i].entry.activity, Siblings(rows)))
  {
    var siblings := Siblings(rows);
    seq(|rows|, i requires 0 <= i < |rows| =>
      rows[i].(group := Grouping.Group(rows[i].entry.activity, siblings)))
  }

  /** No row is ever grouped as "Ate", and a row is grouped as "Eating"
      exactly when its text holds "ate" or an eating keyword. */
  lemma GroupsOfRows(rows: seq<Row>)
    ensures forall i :: 0 <= i < |rows| ==> WithGroups(rows)[i].group != "Ate"
    ensures forall i :: 0 <= i < |rows| ==>
      (WithGroups(rows)[i].group == "Eating" <==>
        Contains(Lower(rows[i].entry.activity), "ate") || Grouping.IsEating(rows[i].entry.activity))
  {
    var siblings := Siblings(rows);
    forall i | 0 <= i < |rows|
      ensures WithGroups(rows)[i].group != "Ate"
      ensures WithGroups(rows)[i].group == "Eating" <==>
        Contains(Lower(rows[i].entry.activity), "ate") || Grouping.IsEating(rows[i].entry.activity)
    {
      Grouping.EatingLabel(rows[i].entry.activity, siblings);
    }
  }

  /** The heatmap's fixed durations: 5 minutes for "Bath", 60 for "Eating". */
  function HeatmapDuration(row: Row): (d: int)
    ensures row.group == "Bath" ==> d == 5
    ensures row.group == "Eating" ==> d == 60
    ensures row.group != "Bath" && row.group != "Eating" ==> d == row.duration
  {
    if row.group == "Bath" then 5 else if row.group == "Eating" then 60 else row.duration
  }

  function WithHeatmapDurations(rows: seq<Row>): (r: seq<Row>)
    ensures |r| == |rows|
    ensures forall i :: 0 <= i < |r| ==> r[i] == rows[i].(duration := HeatmapDuration(rows[i]))
  {
    seq(|rows|, i requires 0 <= i < |rows| => rows[i].(duration := HeatmapDuration(rows[i])))
  }

  /** The heatmap drops the exact "ate" rows again; on a period from which
      they were already dropped, that removes nothing. */
  lemma HeatmapDropRemovesNothing(rows: seq<Row>)
    ensures var period := WithGroups(WithoutExactAte(WithDurations(rows)));
      WithoutExactAte(WithHeatmapDurations(period)) == WithHeatmapDurations(period)
  {
    var kept := WithoutExactAte(WithDurations(rows));
    var heat := WithHeatmapDurations(WithGroups(kept));
    forall i | 0 <= i < |heat| ensures !IsExactAte(heat[i].entry.activity) {
      assert heat[i].entry == kept[i].entry && kept[i] in kept;
    }
    WithoutExactAteKeepsAll(heat);
  }

  // ---------------------------------------------------------------------------
  // The "who you are" summary

  /** `activity_summary.get(g, 0)`: the minutes of the rows in group `g`. */
  function GroupTotal(rows: seq<Row>, g: string): (t: int)
    // a group no row belongs to totals 0, as `get` with its default gives
    ensures (forall i :: 0 <= i < |rows| ==> rows[i].group != g) ==> t == 0
    ensures NonNegativeDurations(rows) ==> t >= 0
  {
    if rows == [] then 0
    else
      assert forall i :: 1 <= i < |rows| ==> rows[1..][i - 1] == rows[i];
      (if rows[0].group == g then rows[0].duration else 0) + GroupTotal(rows[1..], g)
  }

  /** `groupby(...).sum()`: the total of two parts is the sum of their
      totals.  With `GroupTotalSingle` this fixes every total as the sum of
      the group's durations. */
  lemma {:induction false} GroupTotalAppend(xs: seq<Row>, ys: seq<Row>, g: string)
    ensures GroupTotal(xs + ys, g) == GroupTotal(xs, g) + GroupTotal(ys, g)
  {
    if xs == [] {
      assert xs + ys == ys;
    } else {
      assert (xs + ys)[0] == xs[0] && (xs + ys)[1..] == xs[1..] + ys;
      GroupTotalAppend(xs[1..], ys, g);
    }
  }

  /** One row contributes its duration to its own group and nothing to any other. */
  lemma GroupTotalSingle(row: Row, g: string)
    ensures GroupTotal([row], g) == if row.group == g then row.duration else 0
  {
    assert [row][1..] == [];
  }

  predicate NonNegativeDurations(rows: seq<Row>)
  {
    forall i :: 0 <= i < |rows| ==> rows[i].duration >= 0
  }

  /** A positive total means some row is in the group. */
  lemma {:induction false} PositiveTotalHasRow(rows: seq<Row>, g: string)
    requires GroupTotal(rows, g) > 0
    ensures exists i :: 0 <= i < |rows| && rows[i].group == g
  {
    if rows[0].group != g {
      PositiveTotalHasRow(rows[1..], g);
      var i :| 1 <= i + 1 < |rows| && rows[1..][i].group == g;
      assert rows[i + 1].group == g;
    }
  }

  function Groups(rows: seq<Row>): (r: seq<string>)
    ensures forall g :: g in r <==> exists i :: 0 <= i < |rows| && rows[i].group == g
  {
    var gs := seq(|rows|, i requires 0 <= i < |rows| => rows[i].group);
    assert forall i :: 0 <= i < |rows| ==> rows[i].group == gs[i] && gs[i] in gs;
    assert forall g :: g in gs ==> exists i :: 0 <= i < |rows| && rows[i].group == g by {
      forall g | g in gs ensures exists i :: 0 <= i < |rows| && rows[i].group == g {
        var i :| 0 <= i < |gs| && gs[i] == g;
        assert rows[i].group == g;
      }
    }
    Unique(gs)
  }

  /** The largest of the totals of the groups `gs`. */
  function MaxOver(rows: seq<Row>, gs: seq<string>): (m: int)
    requires gs != []
    ensures forall g :: g in gs ==> GroupTotal(rows, g) <= m
    ensures exists g :: g in gs && GroupTotal(rows, g) == m
  {
    if |gs| == 1 then GroupTotal(rows, gs[0])
    else
      var rest := MaxOver(rows, gs[1..]);
      assert forall g :: g in gs[1..] ==> g in gs;
      if GroupTotal(rows, gs[0]) >= rest then GroupTotal(rows, gs[0]) else rest
  }

  /** `activity_summary.max()`: the largest total of a group present in the
      period. */
  function MaxTotal(rows: seq<Row>): (m: int)
    requires rows != []
    ensures forall i :: 0 <= i < |rows| ==> GroupTotal(rows, rows[i].group) <= m
    ensures exists i :: 0 <= i < |rows| && GroupTotal(rows, rows[i].group) == m
  {
    assert rows[0].group in Groups(rows);
    MaxOver(rows, Groups(rows))
  }

  datatype Persona = Businessman | ToiletCleaner | Idiot

  function Max(a: int, b: int): int
  {
    if a >= b then a else b
  }

  /** The summary message, decided on the Homework, Watch, Play, Eating and
      Sleep totals.  An empty summary has no maximum, and no total equals it. */
  function SummaryLabel(rows: seq<Row>): (r: Option<Persona>)
    ensures r == Some(Businessman) <==> GroupTotal(rows, "Homework") >= Max(GroupTotal(rows, "Watch"), GroupTotal(rows, "Play"))
    ensures rows == [] ==> r == Some(Businessman)
    ensures r.None? ==> GroupTotal(rows, "Eating") <= GroupTotal(rows, "Sleep")
  {
    var homework, watch, play := GroupTotal(rows, "Homework"), GroupTotal(rows, "Watch"), GroupTotal(rows, "Play");
    if homework >= Max(watch, play) then Some(Businessman)
    else if rows != [] && (watch == MaxTotal(rows) || play == MaxTotal(rows)) then Some(ToiletCleaner)
    else if GroupTotal(rows, "Eating") > GroupTotal(rows, "Sleep") then Some(Idiot)
    else None
  }

  /** A period with neither watching nor playing always reads "businessman",
      however little homework it holds. */
  lemma NoWatchOrPlayIsBusinessman(rows: seq<Row>)
    requires NonNegativeDurations(rows)
    requires forall i :: 0 <= i < |rows| ==> rows[i].group != "Watch" && rows[i].group != "Play"
    ensures SummaryLabel(rows) == Some(Businessman)
  {
  }

  /** No group of the period totals more than `t`. */
  predicate TopsAll(rows: seq<Row>, t: int)
  {
    forall i :: 0 <= i < |rows| ==> GroupTotal(rows, rows[i].group) <= t
  }

  /** "Toilet cleaner" exactly when Homework trails Watch or Play and one of
      those two has the largest total of all groups. */
  lemma ToiletCleanerMeaning(rows: seq<Row>)
    requires NonNegativeDurations(rows)
    ensures SummaryLabel(rows) == Some(ToiletCleaner) <==>
      var watch, play := GroupTotal(rows, "Watch"), GroupTotal(rows, "Play");
      GroupTotal(rows, "Homework") < Max(watch, play) && (TopsAll(rows, watch) || TopsAll(rows, play))
  {
    if rows != [] {
      TopsAllIsMaxTotal(rows, "Watch");
      TopsAllIsMaxTotal(rows, "Play");
    }
  }

  /** Every group's total, present in the period or not, is at most the
      largest total. */
  lemma MaxTotalBoundsEveryGroup(rows: seq<Row>, g: string)
    requires rows != [] && NonNegativeDurations(rows)
    ensures GroupTotal(rows, g) <= MaxTotal(rows)
  {
    if forall i :: 0 <= i < |rows| ==> rows[i].group != g {
      assert GroupTotal(rows, rows[0].group) >= 0;
    } else {
      var i :| 0 <= i < |rows| && rows[i].group == g;
    }
  }

  /** Some group of the period totals more than `t`. */
  predicate OutweighedBy(rows: seq<Row>, t: int)
  {
    exists i :: 0 <= i < |rows| && GroupTotal(rows, rows[i].group) > t
  }

  /** A total tops every group of a non-empty period exactly when it is the
      largest total. */
  lemma TopsAllIsMaxTotal(rows: seq<Row>, g: string)
    requires rows != [] && NonNegativeDurations(rows)
    ensures TopsAll(rows, GroupTotal(rows, g)) <==> GroupTotal(rows, g) == MaxTotal(rows)
  {
    MaxTotalBoundsEveryGroup(rows, g);
    var i :| 0 <= i < |rows| && GroupTotal(rows, rows[i].group) == MaxTotal(rows);
  }

  /** "Idiot" exactly when Homework trails Watch or Play, neither of those two
      has the largest total of all groups, and Eating outweighs Sleep. */
  lemma IdiotMeaning(rows: seq<Row>)
    requires NonNegativeDurations(rows)
    ensures SummaryLabel(rows) == Some(Idiot) <==>
      var watch, play := GroupTotal(rows, "Watch"), GroupTotal(rows, "Play");
      rows != [] && GroupTotal(rows, "Homework") < Max(watch, play) &&
      !TopsAll(rows, watch) && !TopsAll(rows, play) &&
      GroupTotal(rows, "Eating") > GroupTotal(rows, "Sleep")
  {
    if rows != [] {
      TopsAllIsMaxTotal(rows, "Watch");
      TopsAllIsMaxTotal(rows, "Play");
    }
  }

  /** An "Idiot" period holds an Eating row, and some group outweighs both
      Watch and Play. */
  lemma IdiotHasEatingRow(rows: seq<Row>)
    requires NonNegativeDurations(rows)
    requires SummaryLabel(rows) == Some(Idiot)
    ensures exists i :: 0 <= i < |rows| && rows[i].group == "Eating"
    ensures OutweighedBy(rows, GroupTotal(rows, "Watch")) && OutweighedBy(rows, GroupTotal(rows, "Play"))
  {
    var watch, play := GroupTotal(rows, "Watch"), GroupTotal(rows, "Play");
    assert rows != [] && watch != MaxTotal(rows) && play != MaxTotal(rows);
    PositiveTotalHasRow(rows, "Eating");
    MaxTotalBoundsEveryGroup(rows, "Watch");
    MaxTotalBoundsEveryGroup(rows, "Play");
    var i :| 0 <= i < |rows| && GroupTotal(rows, rows[i].group) == MaxTotal(rows);
  }

  /** In the heatmap every "Eating" row counts 60 minutes, whatever its
      logged time. */
  lemma {:induction false} HeatmapEatingTotal(rows: seq<Row>)
    ensures GroupTotal(WithHeatmapDurations(rows), "Eating") == 60 * GroupCount(rows, "Eating")
  {
    if rows != [] {
      HeatmapEatingTotal(rows[1..]);
      assert WithHeatmapDurations(rows)[1..] == WithHeatmapDurations(rows[1..]);
    }
  }

  /** The number of rows in group `g`. */
  function GroupCount(rows: seq<Row>, g: string): (n: nat)
    ensures n <= |rows|
    ensures n == 0 <==> forall i :: 0 <= i < |rows| ==> rows[i].group != g
  {
    if rows == [] then 0
    else
      assert forall i :: 1 <= i < |rows| ==> rows[1..][i - 1] == rows[i];
      (if rows[0].group == g then 1 else 0) + GroupCount(rows[1..], g)
  }

  /** The count of two parts is the sum of their counts. */
  lemma {:induction false} GroupCountAppend(xs: seq<Row>, ys: seq<Row>, g: string)
    ensures GroupCount(xs + ys, g) == GroupCount(xs, g) + GroupCount(ys, g)
  {
    if xs == [] {
      assert xs + ys == ys;
    } else {
      assert (xs + ys)[0] == xs[0] && (xs + ys)[1..] == xs[1..] + ys;
      GroupCountAppend(xs[1..], ys, g);
    }
  }

  /** One row counts once for its own group and not for any other. */
  lemma GroupCountSingle(row: Row, g: string)
    ensures GroupCount([row], g) == if row.group == g then 1 else 0
  {
    assert [row][1..] == [];
  }

  // ---------------------------------------------------------------------------
  // The period frame

  class PeriodFrame {
    var rows: seq<Row>

    /** The period's log entries, before any column is added; the duration
        and group of each row start as 0 and "". */
    constructor(entries: seq<Entry>)
      ensures |rows| == |entries|
      ensures forall i :: 0 <= i < |rows| ==> rows[i] == Row(entries[i], 0, "")
    {
      rows := seq(|entries|, i requires 0 <= i < |entries| => Row(entries[i], 0, ""));
    }

    /** Fills the "Duration" column with the resolved minutes of each row. */
    method ResolveDurations()
      modifies this
      ensures rows == WithDurations(old(rows))
      ensures forall i :: 0 <= i < |rows| ==> 0 <= rows[i].duration <= Duration.OtherCeiling
    {
      ghost var rows0 := rows;
      var i := 0;
      while i < |rows|
        invariant 0 <= i <= |rows| == |rows0|
        invariant forall j :: 0 <= j < i ==> rows[j] == WithDurations(rows0)[j]
        invariant forall j :: i <= j < |rows| ==> rows[j] == rows0[j]
      {
        var row := rows[i];
        rows := rows[i := row.(duration := Duration.TimeToMinutes(row.entry.time, row.entry.activity))];
        i := i + 1;
      }
      DurationsWithinTwelveHours(rows0);
    }

    /** Drops the rows whose text is exactly "ate", keeping the order of the others. */
    method DropExactAte()
      modifies this
      ensures rows == WithoutExactAte(old(rows))
    {
      var all := rows;
      var kept: seq<Row> := [];
      var i := 0;
      while i < |all|
        invariant 0 <= i <= |all|
        invariant kept == KeepRows(all[..i], NotExactAte)
      {
        var row := all[i];
        PrefixSnoc(all, i);
        KeepRowsSnoc(all[..i], row, NotExactAte);
        if NotExactAte(row) {
          kept := kept + [row];
        }
        i := i + 1;
      }
      assert all[..i] == all;
      rows := kept;
    }

    /** Fills the "Activity Group" column with the grouper's label of each row. */
    method AssignGroups()
      modifies this
      ensures rows == WithGroups(old(rows))
    {
      ghost var rows0 := rows;
      var siblings := Siblings(rows);
      var i := 0;
      while i < |rows|
        invariant 0 <= i <= |rows| == |rows0|
        invariant forall j :: 0 <= j < i ==> rows[j] == WithGroups(rows0)[j]
        invariant forall j :: i <= j < |rows| ==> rows[j] == rows0[j]
      {
        var row := rows[i];
        rows := rows[i := row.(group := Grouping.Group(row.entry.activity, siblings))];
        i := i + 1;
      }
    }

    /** Sets the duration of every "Bath" row to 5 minutes and of every
        "Eating" row to 60. */
    method OverrideHeatmapDurations()
      modifies this
      ensures rows == WithHeatmapDurations(old(rows))
    {
      ghost var rows0 := rows;
      var i := 0;
      while i < |rows|
        invariant 0 <= i <= |rows| == |rows0|
        invariant forall j :: 0 <= j < i ==> rows[j] == WithHeatmapDurations(rows0)[j]
        invariant forall j :: i <= j < |rows| ==> rows[j] == rows0[j]
      {
        var row := rows[i];
        rows := rows[i := row.(duration := HeatmapDuration(row))];
        i := i + 1;
      }
    }
  }
}
