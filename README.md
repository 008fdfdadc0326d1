# Daily-Tracker time logger: a verified model of its core

Daily-Tracker is a Streamlit application in which users log what they did
("What I Did") and when ("Time", free text such as `7:30-8:00`). The
application then shows charts and a dashboard over a date range. This
project models the deterministic core of `pie_graph.py` in Dafny and proves
properties of it:

- **Duration resolver** (`Duration`): `time_to_minutes`, which turns the
  time text into minutes. It parses `%H:%M` as Python's `strptime` does,
  adds one day to an interval that wraps past midnight, and applies the
  12-hour and 16-hour ceilings and the 540/5-minute fallbacks. Every error
  yields 0. The function appears twice in the source, identically, at lines
  366-393 and 604-630; one definition models both.
- **Activity grouper** (`Grouping`): `is_eating`, `is_sleep`, the stopword
  list and `group_activity_meaningful_word`. The chain of keyword rules comes
  first, then the comparison with the other activity texts of the period
  ("siblings"), then the activity's own smallest word, then the stripped
  text.
- **Dashboard rules** (`Dashboard`): the period frame as a class whose
  methods add the "Duration" and "Activity Group" columns, drop rows whose
  text is exactly "ate", and apply the heatmap overrides (Bath is 5 minutes,
  Eating is 60). Beside them sit the per-group totals and the "who you are"
  summary label.
- **User registry** (`Registry`): the list of user records as a class,
  with these operations:
  - sign-up, the management page's "Add User" and the first-user form;
  - the login test;
  - admin approval by the super-admin "The G.O.A.T";
  - profile edits;
  - kicking a user out.

`Text` holds the Python string operations the code relies on:
- `lower`, `capitalize` and `strip`;
- `split` on one character;
- `re.findall(r"\w+", ...)`;
- `sorted(...)[0]` in code-point order;
- substring tests.

`TimeLog` holds the log entry record. `Wrappers` holds `Option`.
`DurationExamples` and `GroupingExamples` prove concrete instances.

Where the code does something other than its comments or a natural
reading suggest, the model follows the code:
- **Sleep flag.** `time_to_minutes` decides the sleep flag from the time
  text, not from the activity text, and never reads its activity argument.
  A time text containing a sleep keyword never parses as a range. So the
  16-hour ceiling is unreachable and every duration is at most 720
  (`Duration.TimeToMinutesAtMostTwelveHours`).
- **Splitting the time text.** `t.split("-")` must give exactly two parts.
  Two or more dashes raise an error inside the `try`, and the result is 0.
- **Shared word.** The grouper returns the shared word of the *first*
  sibling that shares one, not the smallest shared word over all siblings
  (`GroupingExamples.JogClubFirst`, `GroupingExamples.GoKartFirst`).
- **Stopword-only texts.** When every word of an activity is a stopword,
  its own word set falls back to all of its words. The siblings' word sets
  are still stopword-filtered, so such an activity never shares a word with
  a sibling (`Grouping.StopwordTextIgnoresSiblings`).
- **The "Ate" guard.** The guard against the label "Ate" can never fire:
  any text with the word "ate" is caught by the first rule
  (`Grouping.AteGuardUnreachable`).
- **The "I was sleeping" keyword.** The grouper's keyword "I was sleeping"
  is compared against lower-cased text, so it never matches on its own.

## Model

| member | source | states |
|---|---|---|
| Text.Lower | pie_graph.py:658 | `str.lower()` on ASCII: same length, each character lower-cased |
| Text.Capitalize | pie_graph.py:684 | `str.capitalize()`: first character upper-cased, the rest lower-cased |
| Text.CapitalizeInjective | pie_graph.py:687-688 | two words without upper-case letters that capitalise alike are equal |
| Text.Strip | pie_graph.py:691 | `str.strip()`: the result is the slice left after removing whitespace from both ends, and it neither starts nor ends with whitespace |
| Text.Split | pie_graph.py:373 | `str.split("-")`: at least one part, and no part contains the separator |
| Text.SplitJoin | pie_graph.py:373 | joining the parts with the separator gives back the text, and there is one part more than separators |
| Text.Tokens | pie_graph.py:668 | `re.findall(r"\w+")`: every token is a non-empty run of word characters that occurs in the text |
| Text.TokensSplit | pie_graph.py:668 | tokens are maximal runs: a non-word character splits a text's tokens into those before it and those after it |
| Text.SingleToken | pie_graph.py:668 | a non-empty run of word characters is a single token |
| Text.LowerContains | pie_graph.py:650 | lower-casing keeps containment |
| Text.StripContained | pie_graph.py:650 | the stripped text occurs in the text |
| Text.ContainsAny | pie_graph.py:371 | `any(kw in s for kw in keywords)`: true exactly when one keyword occurs |
| Text.ContainsInfix | pie_graph.py:370-371 | a text containing `sub` contains every suffix of `sub` |
| Text.TokensEmptyIff | pie_graph.py:676-677 | a text has no tokens exactly when it holds no word character |
| Text.Smallest | pie_graph.py:684 | `sorted(ws)[0]`: an element of `ws` that is at most every element in code-point order |
| Text.SmallestBySet | pie_graph.py:687 | the smallest element depends only on which elements are present, so a sequence may stand for the Python set |
| Text.LexLeqTotal | pie_graph.py:687 | code-point order is total |
| Text.LexLeqTrans | pie_graph.py:687 | code-point order is transitive |
| Text.LexLeqAntisym | pie_graph.py:687 | code-point order is antisymmetric |
| Duration.SleepTextMeaning | pie_graph.py:369-371 | the sleep flag is set exactly when the lower-cased time text contains "sleep", "slept", "nap", "bed" or "rest"; the other two keywords add nothing |
| Duration.ParseClock | pie_graph.py:374-375 | an accepted `%H:%M` side is a time of day below 1440 minutes, made of digits and one colon |
| Duration.ParseField | pie_graph.py:374-375 | an accepted `%H` or `%M` field is all digits and at most its maximum |
| Duration.ClockRoundTrip | pie_graph.py:374-375 | every hour below 24 and minute below 60, written with one or two digits each, parses back to `60*h+m` |
| Duration.ParsedIsClock | pie_graph.py:374-375 | every accepted side is such a rendering, so nothing else parses |
| Duration.FieldIsRendering | pie_graph.py:374-375 | an accepted hour or minute field is the zero-padded rendering of its value |
| Duration.TimeToMinutes | pie_graph.py:366-393 | the result is always between 0 and 960 minutes; no input escapes as an error |
| Duration.TimeToMinutesAtMostTwelveHours | pie_graph.py:366-393 | every result is between 0 and 720, because a sleep keyword in the time text makes a side unparseable |
| Duration.SleepTextHasNoClockRange | pie_graph.py:370-375 | a time text with a sleep keyword that splits into two sides has a side that fails to parse |
| Duration.ClockRangeDuration | pie_graph.py:372-389 | for two parseable sides, the result is `end-start` (or `end+1440-start` when `end <= start`) if at most 720, else 0 |
| Duration.Interval | pie_graph.py:377-379 | the end lies the result's minutes after the start on the clock face, and for two times of day the result is between 1 and 1440 |
| Duration.EqualEndpointsRejected | pie_graph.py:377-388 | equal endpoints mean a whole day, which is over the ceiling: 0 |
| Duration.NoRangeFallback | pie_graph.py:368-391 | without a dash the result is 540 when the time text has a sleep keyword, else 5 |
| Duration.SeveralDashesRejected | pie_graph.py:372-393 | two or more dashes give 0 |
| Duration.BadSideRejected | pie_graph.py:373-393 | a side that is not `%H:%M`, such as "25:99", gives 0 |
| Duration.ActivityIgnored | pie_graph.py:366-393 | the activity argument never changes the result |
| Duration.SplitOnce | pie_graph.py:373 | two dash-free sides joined by a dash split back into those two sides |
| DurationExamples.Examples | pie_graph.py:366-393 | "23:30-00:15" gives 45, "8:00-20:00" gives 720, "8:00-20:01" gives 0, "25:99-26:00" gives 0 |
| Grouping.IsStopword | pie_graph.py:653-656 | every stopword is a non-empty lower-case word |
| Grouping.IsEating | pie_graph.py:641-644 | true exactly when the lower-cased text contains an eating keyword |
| Grouping.IsSleep | pie_graph.py:645-648 | true exactly when the lower-cased text contains "sleep", "nap", "bed", "rest" or "slept"; "I was sleeping" never matches lower-cased text |
| Grouping.Meaningful | pie_graph.py:675 | a word is kept exactly when it is in the input and not a stopword |
| Grouping.Words | pie_graph.py:668 | `re.findall(r"\w+", text.lower())`: every word is made of word characters and holds no upper-case letter |
| Grouping.Common | pie_graph.py:683 | the intersection: a word is kept exactly when it is in both |
| Grouping.KeyWords | pie_graph.py:675-677 | the activity's own word set is its non-stopword words, or all of its words when every word is a stopword; it is empty only when the text has no words |
| Grouping.FirstSharing | pie_graph.py:678-683 | the position of the first sibling sharing a word; no earlier sibling shares one |
| Grouping.Shares | pie_graph.py:680-683 | a sibling shares a word exactly when it is not the activity's own text and one of the activity's words is among its meaningful words |
| Grouping.SharedWord | pie_graph.py:678-684 | a shared word exists exactly when some sibling shares a word; it is then the smallest word common to the activity's own words and the first sharing sibling's meaningful words |
| Grouping.KeywordLabel | pie_graph.py:660-673 | the keyword rules give only "Eating", "Sleep", "School" or "Homework" |
| Grouping.KeywordLabelMeaning | pie_graph.py:660-673 | "Eating" exactly when "ate" occurs or `is_eating` holds; "Sleep" exactly when neither does and `is_sleep` holds; no rule fires exactly when none of these hold and none of "track", "field", "school", "home" is a word |
| Grouping.Fallback | pie_graph.py:675-691 | the label after the keyword rules: the capitalised shared word when a sibling shares one; otherwise the capitalised smallest own word; for a text without words the stripped text, capitalised; never "Ate" |
| Grouping.FallbackAvoidsRuleLabels | pie_graph.py:675-691 | the fallback never yields "Eating", "Sleep" or "School" |
| Grouping.Group | pie_graph.py:657-691 | "Ate" is never a label, whatever the siblings |
| Grouping.NoWordsLabel | pie_graph.py:657-691 | a text without words fires no keyword rule and is labelled with its stripped text, capitalised, whatever the siblings |
| Grouping.EatingWordIsEating | pie_graph.py:641-644 | a text with the word "eating" satisfies `is_eating` |
| Grouping.SleepWordIsSleep | pie_graph.py:645-648 | a text with the word "sleep" satisfies `is_sleep` |
| Grouping.NoWordsNoLetters | pie_graph.py:691 | the stripped-text label of a text without words does not start with a letter |
| Grouping.FallbackLabelAs | pie_graph.py:675-691 | a fallback label `Capitalize(target)` for a lower-case lettered target comes from the word `target` of the activity |
| Grouping.AteGuardUnreachable | pie_graph.py:685-690 | when no keyword rule fires, the own smallest word never capitalises to "Ate" |
| Grouping.EatingLabel | pie_graph.py:660-663 | the label is "Eating" exactly when the lower-cased text contains "ate" or an eating keyword |
| Grouping.SleepLabel | pie_graph.py:664-665 | the label is "Sleep" exactly when no eating rule fires and a sleep keyword occurs |
| Grouping.SchoolLabel | pie_graph.py:667-670 | the label is "School" exactly when no earlier rule fires and "track", "field" or "school" is a word |
| Grouping.HomeworkLabel | pie_graph.py:672-673 | "home" as a word gives "Homework" once no earlier rule fires |
| Grouping.FirstSharingAppend | pie_graph.py:678-684 | siblings are scanned in order: a sharing sibling in a prefix hides the rest |
| Grouping.SameSharedWordSameGroup | pie_graph.py:683-684 | sibling lists with the same shared word give the same label |
| Grouping.LaterSiblingsIgnored | pie_graph.py:678-684 | once a sibling shares a word, later siblings do not change the shared word |
| Grouping.NonSharingSiblingsIgnored | pie_graph.py:678-684 | siblings that share nothing can be dropped from the front |
| Grouping.FirstSharingSiblingDecidesGroup | pie_graph.py:678-684 | the label depends only on the first sharing sibling |
| Grouping.Others | pie_graph.py:680-681 | the siblings other than the activity's own text |
| Grouping.FirstSharingOthers | pie_graph.py:680-683 | skipping siblings equal to the activity finds the same sharing sibling |
| Grouping.OwnTextIgnored | pie_graph.py:680-681 | the activity's own text among the siblings never changes its label |
| Grouping.StopwordTextIgnoresSiblings | pie_graph.py:675-684 | an activity made only of stopwords gets the label it would get alone |
| GroupingExamples.NoRuleFires | pie_graph.py:660-673 | no keyword rule fires on a lower-case text that avoids the keywords' first letters and the place words |
| GroupingExamples.AloneLabel | pie_graph.py:685-690 | with no keyword rule and no sibling, the label is the capitalised smallest own word |
| GroupingExamples.SharedLabel | pie_graph.py:678-684 | with no keyword rule, the label is the capitalised shared word |
| GroupingExamples.GoJogAlone | pie_graph.py:685-690 | "go jog" alone is labelled "Go" |
| GroupingExamples.GoJogBesideJogClub | pie_graph.py:678-684 | beside "jog club" it is labelled "Jog" |
| GroupingExamples.GoJogBesideGoKart | pie_graph.py:678-684 | beside "go kart" it is labelled "Go" |
| GroupingExamples.JogClubFirst | pie_graph.py:678-684 | with both siblings, "jog club" first, the label is "Jog" |
| GroupingExamples.GoKartFirst | pie_graph.py:678-684 | with both siblings, "go kart" first, the label is "Go": the first sharing sibling decides |
| Dashboard.WithDurations | pie_graph.py:631 | each row's duration is `time_to_minutes` of its time and activity, and nothing else changes |
| Dashboard.DurationsWithinTwelveHours | pie_graph.py:604-631 | every computed duration is between 0 and 720 |
| Dashboard.KeepRows | pie_graph.py:650 | a boolean-mask filter: a row is kept exactly when it satisfies the mask, and the result is no longer |
| Dashboard.KeepRowsAppend | pie_graph.py:650 | the filter keeps order: filtering two parts and joining them is filtering the whole |
| Dashboard.WithoutExactAte | pie_graph.py:650 | a row is kept exactly when its stripped, lower-cased text is not "ate" |
| Dashboard.IsExactAte | pie_graph.py:650 | the drop's mask; a dropped text contains "ate" once lower-cased, so the grouper would have labelled it "Eating" |
| Dashboard.WithoutExactAteAppend | pie_graph.py:650 | the kept rows stay in their order: the filter distributes over concatenation |
| Dashboard.WithoutExactAteSnoc | pie_graph.py:650 | row by row, a row is appended exactly when its text is not exactly "ate", so order and repeats are kept |
| Dashboard.WithoutExactAteKeepsAll | pie_graph.py:780 | the filter removes nothing from rows that hold no exact "ate" |
| Dashboard.WithoutExactAteIdempotent | pie_graph.py:650 | filtering twice is filtering once |
| Dashboard.HeatmapDropRemovesNothing | pie_graph.py:780 | the heatmap's second "ate" filter removes nothing from the period the dashboard built |
| Dashboard.FirstIndex | pie_graph.py:678 | the first position of a value |
| Dashboard.Unique | pie_graph.py:678 | `Series.unique()`: the same values, each once |
| Dashboard.UniqueInFirstOccurrenceOrder | pie_graph.py:678 | the distinct values come in order of first occurrence |
| Dashboard.Siblings | pie_graph.py:678 | the distinct activity texts of the period: each once, and exactly those that occur in a row |
| Dashboard.WithGroups | pie_graph.py:692 | each row's group is the grouper's label against the period's distinct texts |
| Dashboard.GroupsOfRows | pie_graph.py:692 | no row is grouped "Ate", and a row is "Eating" exactly when its text holds "ate" or an eating keyword |
| Dashboard.HeatmapDuration | pie_graph.py:777-778 | Bath rows count 5, Eating rows 60, and every other row keeps its duration |
| Dashboard.WithHeatmapDurations | pie_graph.py:777-778 | the override applied to every row |
| Dashboard.HeatmapEatingTotal | pie_graph.py:778 | in the heatmap the Eating total is 60 times the number of Eating rows |
| Dashboard.GroupTotal | pie_graph.py:694-701 | a group with no row totals 0, the default of `get`; totals of non-negative durations are non-negative |
| Dashboard.GroupTotalAppend | pie_graph.py:694 | the total of two parts is the sum of their totals |
| Dashboard.GroupTotalSingle | pie_graph.py:694 | one row adds its duration to its own group and nothing to any other, so a total is the sum of the group's durations |
| Dashboard.PositiveTotalHasRow | pie_graph.py:694 | a positive total has a row in that group |
| Dashboard.GroupCount | pie_graph.py:778 | the number of rows of a group is at most the number of rows, and 0 exactly when no row is in the group |
| Dashboard.GroupCountAppend | pie_graph.py:778 | the count of two parts is the sum of their counts |
| Dashboard.GroupCountSingle | pie_graph.py:778 | one row counts once for its own group and not for any other |
| Dashboard.Groups | pie_graph.py:694 | the groups present in the period |
| Dashboard.MaxOver | pie_graph.py:716 | the largest total over the given groups, reached by one of them |
| Dashboard.MaxTotal | pie_graph.py:716 | `activity_summary.max()`: at least every group's total and equal to one |
| Dashboard.MaxTotalBoundsEveryGroup | pie_graph.py:697-716 | even an absent group's total is at most the maximum |
| Dashboard.SummaryLabel | pie_graph.py:714-719 | "businessman" exactly when Homework is at least the larger of Watch and Play, always for an empty period; no label only when Eating does not exceed Sleep |
| Dashboard.TopsAllIsMaxTotal | pie_graph.py:716 | a total reaches every group's total exactly when it equals `activity_summary.max()` |
| Dashboard.NoWatchOrPlayIsBusinessman | pie_graph.py:714-715 | with no Watch or Play rows the label is always "businessman" |
| Dashboard.ToiletCleanerMeaning | pie_graph.py:714-717 | "toilet cleaner" exactly when Homework trails Watch or Play and one of them has the largest total of all groups |
| Dashboard.IdiotMeaning | pie_graph.py:714-719 | "idiot" exactly when the period is non-empty, Homework trails the larger of Watch and Play, neither Watch nor Play has the largest total, and Eating exceeds Sleep |
| Dashboard.IdiotHasEatingRow | pie_graph.py:714-719 | "idiot" implies an Eating row exists and some group outweighs both Watch and Play |
| Dashboard.PeriodFrame.constructor | pie_graph.py:598-599 | the frame holds the period's entries in order, with no duration or group yet |
| Dashboard.PeriodFrame.ResolveDurations | pie_graph.py:631 | the rows become `WithDurations` of the old rows, all within 0..720 |
| Dashboard.PeriodFrame.DropExactAte | pie_graph.py:650 | the rows become `WithoutExactAte` of the old rows |
| Dashboard.PeriodFrame.AssignGroups | pie_graph.py:692 | the rows become `WithGroups` of the old rows |
| Dashboard.PeriodFrame.OverrideHeatmapDurations | pie_graph.py:776-778 | the rows become `WithHeatmapDurations` of the old rows |
| Registry.FindUser | pie_graph.py:145 | the first record with the id; none exactly when the id is not registered |
| Registry.IsAdmin | pie_graph.py:209 | the admin flag holds exactly when the first record with the id has role "admin" |
| Registry.CheckNewUser | pie_graph.py:422-426 | missing id, password or full name is rejected first, then an id already registered |
| Registry.NewUser | pie_graph.py:112-120 | the new record has the id, the hash of the password, the creation time, name, email and role, status "active", no admin request and no photo |
| Registry.FirstMatchSurvivesAppend | pie_graph.py:145 | appending a record moves no earlier first match and is found only for a new id |
| Registry.LoginSucceeds | pie_graph.py:144-146 | login succeeds exactly when the first record with the id holds the hash of the typed password |
| Registry.AddedUserLogsIn | pie_graph.py:144-146 | a user just added logs in with the sign-up password, and nobody else's login changes |
| Registry.SplitFullName | pie_graph.py:125-126 | the first name has no space, and the full name is the first name, a space and the last name (or the first name alone, with last name "") |
| Registry.SplitFullNameUnique | pie_graph.py:125-126 | that split is the only one with a space-free first name |
| Registry.InfoRowFor | pie_graph.py:125-132 | the info row has the id and email, a space-free first name, and first and last name joined by a space give the full name (last name "" when there is no space) |
| Registry.KickableIds | pie_graph.py:516-518 | exactly the registered ids other than the current user and "The G.O.A.T" |
| Registry.WithoutUser | pie_graph.py:522 | a record is kept exactly when its id is not the target, and the target is then unregistered |
| Registry.WithoutUserKeepsUniqueIds | pie_graph.py:522 | removing a user keeps ids unique |
| Registry.WithoutUserAppend | pie_graph.py:522 | the removal keeps order: removing from two parts and joining them is removing from the whole |
| Registry.KickRemovesOne | pie_graph.py:522 | with unique ids, kicking a registered id removes exactly one record |
| Registry.NotTakenIsKept | pie_graph.py:522 | removing an unregistered id changes nothing |
| Registry.WithoutEntriesOf | pie_graph.py:526 | an entry is kept exactly when it is not the target's |
| Registry.WithoutEntriesOfAppend | pie_graph.py:526 | the entry filter keeps order: it distributes over concatenation |
| Registry.WithoutEntriesOfSnoc | pie_graph.py:526 | entry by entry, an entry is appended exactly when it is not the target's |
| Registry.EntriesOf | pie_graph.py:216-217 | the session frame: exactly the logged-in user's entries |
| Registry.EntriesOfAppend | pie_graph.py:216-217 | the session frame keeps the order of the log it is drawn from: it distributes over concatenation |
| Registry.EntriesOfSnoc | pie_graph.py:216-217 | entry by entry, an entry is appended exactly when it is the user's |
| Registry.SessionKickRemovesNothing | pie_graph.py:526 | dropping another user's entries from the session frame removes nothing |
| Registry.EditedProfile | pie_graph.py:491-497 | the saved record has the new name and email, the hash of a typed new password or else the old password, and the same id, role, creation time, status, admin request and photo |
| Registry.EditedProfileLogin | pie_graph.py:495-497 | after a save the new password logs in; with none typed, login is as before |
| Registry.SameIdsSameFind | pie_graph.py:478 | record lists with the same ids find the same record |
| Registry.Registry.constructor | pie_graph.py:82-86 | the records as stored, and a session frame of the user's own entries |
| Registry.Registry.SignUp | pie_graph.py:106-139 | a valid sign-up appends a "user" record and its info row; a rejected one changes nothing; ids stay unique |
| Registry.Registry.AddUser | pie_graph.py:422-440 | the same with the chosen role and no info row |
| Registry.Registry.RegisterFirstUser | pie_graph.py:159-196 | on an empty registry, a complete form makes the one record an admin and writes its info row; ids are unique afterwards |
| Registry.Registry.ApproveAdmin | pie_graph.py:466-474 | only the super-admin approves, never for "The G.O.A.T" or an admin; the record becomes an admin with no pending request, and nothing else changes |
| Registry.Registry.KickOut | pie_graph.py:515-526 | an admin or the super-admin removes exactly the target's records and the target's session-frame entries; the stored log is untouched; unique ids stay unique, and a kick then removes exactly one record |
| Registry.Registry.KickOutWithEntries | pie_graph.py:515-526 | the same, and the target's stored entries are removed as well; unique ids stay unique, and a kick then removes exactly one record |
| Registry.Registry.UpdateProfile | pie_graph.py:490-508 | the logged-in user's record gets the new name, email and password; mismatched passwords store nothing |

## Left out

- Streamlit pages, widgets and session routing are left out. So is the
  "Request Admin Access" flag, which lives only in the session and never
  reaches a record.
- PostgreSQL access is left out. The info-table insert is modelled as a
  row appended to `info`, and a failed insert, which the source logs and
  ignores, is not modelled.
- File I/O (the users file and profile photos) is left out. Photo upload
  on the profile page and photo deletion on kick-out are not modelled.
- SHA-256 is a parameter `hash` of the operations that store or check
  passwords. The creation time is a parameter.
- Logging and all charts (pie, bar, line and heatmap rendering) are left
  out.
- pandas date parsing, the date-range filter that selects the period, and
  `day_name()` are left out. A period is a sequence of entries given to the
  frame's constructor, and dates are plain text.
- The time log is taken in the order the query returns it (`ORDER BY
  date, time`, pie_graph.py:63); the sort itself is not modelled.
- The per-day averages use float division and are left out.
- `sleep_threshold` is computed but never used, so it is left out.
- The unused `pending_admins` list is left out. Approval does not look at
  `admin_requested`.
- The dashboard's per-user summary tables (pie_graph.py:634-638 and
  744-751) are left out of the dashboard model; they only display counts
  and sums. The edit page's search and the chart viewer's zero-duration
  filter are left out too.
- Text.Lower: lower-cases ASCII letters only; Python's Unicode case
  mapping is not modelled. The same holds for `\w`, digits and `capitalize`.
  Whitespace for `strip` is Python's `str.isspace` set.
- Dashboard.SummaryLabel: the message text is reduced to the persona it
  names.
- Dashboard.GroupTotal: totals are kept per group. The descending sort of
  `activity_summary` does not affect the label and is not modelled.
- Registry.Registry.AddUser: the role comes from a select box of "user" and
  "admin", so the method requires one of them.
- Registry.Registry.constructor: ids are not required to be unique on
  load. The methods keep them unique when they were unique before.

## Findings

| source | as written | input that shows it | evidently intended | confidence | as-written member | corrected member |
|---|---|---|---|---|---|---|
| pie_graph.py:525-526 | kick-out filters `st.session_state.df`, which holds only the logged-in user's entries (pie_graph.py:216-220), so the kicked user's entries are never removed | an admin "alice" kicks "bob", who has entries in the time log: they all remain | remove the kicked user's entries from the time log, as the comment and the success message say | medium; not executed | Registry.SessionKickRemovesNothing | Registry.Registry.KickOutWithEntries |
