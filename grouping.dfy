/** The activity grouper `group_activity_meaningful_word(activity)` of the
    dashboard, with its helpers `is_eating` and `is_sleep` and its stopword
    list.  A first-match chain of keyword rules, then a fallback that looks for
    a sibling activity text sharing a meaningful word.  The siblings are the
    distinct "What I Did" texts of the dashboard's period, in first-occurrence
    order; they are an explicit parameter here, so that the dependence of a
    label on the rest of the period is visible. */
module Grouping {
  import opened Wrappers
  import opened Text

  const EatKeywords: seq<string> := ["eat", "breakfast", "lunch", "dinner", "snack", "food", "meal"]

  /** As listed by `is_sleep`.  Its last entry holds an upper-case "I", so it
      can never occur in the lower-cased text it is compared with. */
  const SleepKeywords: seq<string> := ["sleep", "nap", "bed", "rest", "slept", "sleeping", "I was sleeping"]

  /** Membership in the grouper's stopword set. */
  predicate IsStopword(w: string)
    ensures IsStopword(w) ==> w != [] && forall i :: 0 <= i < |w| ==> IsLower(w[i])
  {
    w in {
      "i", "to", "the", "a", "an", "and", "of", "in", "on", "for", "with", "at", "by", "from",
      "up", "about", "into", "over", "after", "is", "it", "my", "me", "do", "did", "am", "are",
      "was", "were", "be", "been", "being", "have", "has", "had", "will", "would", "can",
      "could", "should", "shall", "may", "might", "must", "that", "this", "these", "those",
      "as", "but", "if", "or", "because", "so", "just", "not", "no", "yes", "you", "your",
      "we", "our", "us", "they", "their", "them", "he", "she", "his", "her", "him", "its",
      "who", "whom", "which", "what", "when", "where", "why", "how"
    }
  }

  /** `is_eating(activity)`: some eating keyword occurs in the lower-cased
      text. */
  predicate IsEating(activity: string)
    ensures IsEating(activity) <==>
      exists k :: 0 <= k < |EatKeywords| && Contains(Lower(activity), EatKeywords[k])
  {
    ContainsAny(Lower(activity), EatKeywords)
  }

  /** `is_sleep(activity)`.  Five keywords decide it: "sleeping" holds
      "sleep", and "I was sleeping" never occurs in a lower-cased text. */
  predicate IsSleep(activity: string)
    ensures IsSleep(activity) <==>
      var low := Lower(activity);
      Contains(low, "sleep") || Contains(low, "nap") || Contains(low, "bed") ||
      Contains(low, "rest") || Contains(low, "slept")
  {
    var low := Lower(activity);
    assert Contains(low, "sleeping") ==> Contains(low, "sleep") by {
      if Contains(low, "sleeping") {
        ContainsPrefix(low, "sleeping", "sleep");
      }
    }
    assert !Contains(low, "I was sleeping") by {
      assert forall i :: 0 <= i < |low| ==> !IsUpper(low[i]);
      NotContainsWithoutFirstChar(low, "I was sleeping");
    }
    assert SleepKeywords[0] == "sleep" && SleepKeywords[1] == "nap" && SleepKeywords[2] == "bed" &&
      SleepKeywords[3] == "rest" && SleepKeywords[4] == "slept" && SleepKeywords[5] == "sleeping" &&
      SleepKeywords[6] == "I was sleeping";
    ContainsAny(low, SleepKeywords)
  }

  /** `re.findall(r"\w+", text.lower())` */
  function Words(text: string): (r: seq<string>)
    ensures forall k, i :: 0 <= k < |r| && 0 <= i < |r[k]| ==> IsWordChar(r[k][i]) && !IsUpper(r[k][i])
  {
    var low := Lower(text);
    var ts := Tokens(low);
    assert forall k, i :: 0 <= k < |ts| && 0 <= i < |ts[k]| ==> !IsUpper(ts[k][i]) by {
      forall k, i | 0 <= k < |ts| && 0 <= i < |ts[k]| ensures !IsUpper(ts[k][i]) {
        ContainsChars(low, ts[k]);
        var j :| 0 <= j < |low| && low[j] == ts[k][i];
      }
    }
    ts
  }

  /** The words that are not stopwords. */
  function Meaningful(ws: seq<string>): (r: seq<string>)
    ensures forall w {:trigger w in r} :: w in r <==> w in ws && !IsStopword(w)
  {
    if ws == [] then []
    else
      assert forall w :: w in ws <==> w == ws[0] || w in ws[1..];
      (if IsStopword(ws[0]) then [] else [ws[0]]) + Meaningful(ws[1..])
  }

  /** The words of `ws` that also occur in `others`: the set intersection. */
  function Common(ws: seq<string>, others: seq<string>): (r: seq<string>)
    ensures forall w :: w in r <==> w in ws && w in others
  {
    if ws == [] then []
    else
      assert forall w :: w in ws <==> w == ws[0] || w in ws[1..];
      (if ws[0] in others then [ws[0]] else []) + Common(ws[1..], others)
  }

  /** The word set the fallback compares: the meaningful words, or all words
      when every word is a stopword. */
  function KeyWords(activity: string): (r: seq<string>)
    ensures forall w :: w in r ==> w in Words(activity)
    ensures r == [] <==> Words(activity) == []
    ensures Meaningful(Words(activity)) != [] ==> r == Meaningful(Words(activity))
    ensures Meaningful(Words(activity)) == [] ==> r == Words(activity)
  {
    var m := Meaningful(Words(activity));
    if m == [] then Words(activity) else m
  }

  /** A sibling that is not the activity itself and shares a word with `ws`.
      Only the sibling's meaningful words count. */
  predicate Shares(activity: string, ws: seq<string>, other: string)
    ensures Shares(activity, ws, other) <==>
      other != activity && exists w :: w in ws && w in Meaningful(Words(other))
  {
    var c := Common(ws, Meaningful(Words(other)));
    assert c != [] ==> c[0] in c;
    other != activity && c != []
  }

  /** The index of the first sibling that shares a word, or |siblings|. */
  function FirstSharing(activity: string, ws: seq<string>, siblings: seq<string>): (k: nat)
    ensures k <= |siblings|
    ensures forall j :: 0 <= j < k ==> !Shares(activity, ws, siblings[j])
    ensures k < |siblings| ==> Shares(activity, ws, siblings[k])
  {
    if siblings == [] then 0
    else if Shares(activity, ws, siblings[0]) then 0
    else
      var k := FirstSharing(activity, ws, siblings[1..]);
      assert forall j :: 1 <= j <= k ==> siblings[j] == siblings[1..][j - 1];
      1 + k
  }

  /** The rule chain before the fallback: the label of the first keyword rule
      that fires, if any. */
  function KeywordLabel(activity: string): (r: Option<string>)
    ensures r.Some? ==> r.value in {"Eating", "Sleep", "School", "Homework"}
  {
    var low := Lower(activity);
    var words := Tokens(low);
    // a word "ate" is also a substring "ate", so one substring test covers both
    if Contains(low, "ate") then Some("Eating")
    else if IsEating(activity) then Some("Eating")
    else if IsSleep(activity) then Some("Sleep")
    else if "track" in words || "field" in words || "school" in words then Some("School")
    else if "home" in words then Some("Homework")
    else None
  }

  /** The chain is first-match: "Eating" for an "ate" substring or an eating
      keyword; "Sleep" only when no eating rule fires; and no label at all
      exactly when no rule fires. */
  lemma KeywordLabelMeaning(activity: string)
    ensures KeywordLabel(activity) == Some("Eating") <==> Contains(Lower(activity), "ate") || IsEating(activity)
    ensures KeywordLabel(activity) == Some("Sleep") <==>
      !Contains(Lower(activity), "ate") && !IsEating(activity) && IsSleep(activity)
    ensures KeywordLabel(activity).None? <==>
      !Contains(Lower(activity), "ate") && !IsEating(activity) && !IsSleep(activity) &&
      "track" !in Words(activity) && "field" !in Words(activity) && "school" !in Words(activity) &&
      "home" !in Words(activity)
  {
  }

  /** The smallest word the activity shares with the first sibling that shares
      one, if any sibling does. */
  function SharedWord(activity: string, siblings: seq<string>): (r: Option<string>)
    ensures r.Some? ==> r.value in KeyWords(activity) && r.value in Words(activity)
    ensures r.Some? <==> FirstSharing(activity, KeyWords(activity), siblings) < |siblings|
    ensures r.Some? ==>
      var k := FirstSharing(activity, KeyWords(activity), siblings);
      k < |siblings| &&
      var c := Common(KeyWords(activity), Meaningful(Words(siblings[k])));
      r.value in c && forall j :: 0 <= j < |c| ==> LexLeq(r.value, c[j])
  {
    var ws := KeyWords(activity);
    var k := FirstSharing(activity, ws, siblings);
    if k < |siblings| then Some(Smallest(Common(ws, Meaningful(Words(siblings[k])))))
    else None
  }

  /** The fallback once no keyword rule fires: the shared word, else the
      activity's own smallest key word, else the stripped text itself.  It
      never yields "Ate", and its guard against an own-word "Ate" never
      changes the label. */
  function Fallback(activity: string, siblings: seq<string>): (r: string)
    requires KeywordLabel(activity).None?
    ensures r != "Ate"
    ensures SharedWord(activity, siblings).Some? ==> r == Capitalize(SharedWord(activity, siblings).value)
    ensures SharedWord(activity, siblings).None? && KeyWords(activity) != [] ==>
      r == Capitalize(Smallest(KeyWords(activity)))
    ensures KeyWords(activity) == [] ==> r == Capitalize(Strip(activity))
  {
    match SharedWord(activity, siblings)
    case Some(w) =>
      assert Capitalize(w) != "Ate" by {
        if Capitalize(w) == "Ate" {
          AteLabel();
          WordCapitalizedAs(activity, w, "ate");
          WordIsContained(activity, w);
        }
      }
      Capitalize(w)
    case None =>
      var ws := KeyWords(activity);
      if ws != [] then
        AteGuardUnreachable(activity);
        var first := Capitalize(Smallest(ws));
        if first == "Ate" then "Eating" else first
      else
        NoWordsNoLetters(activity);
        Capitalize(Strip(activity))
  }

  /** `group_activity_meaningful_word(activity)` against the given siblings:
      never the label "Ate". */
  function Group(activity: string, siblings: seq<string>): (r: string)
    ensures r != "Ate"
  {
    match KeywordLabel(activity)
    case Some(name) => name
    case None => Fallback(activity, siblings)
  }

  // ---------------------------------------------------------------------------
  // Where a label comes from

  /** The words of a text are lower-case. */
  lemma WordIsLowercase(text: string, w: string)
    requires w in Words(text)
    ensures forall i :: 0 <= i < |w| ==> !IsUpper(w[i])
  {
    var low := Lower(text);
    ContainsChars(low, w);
    forall i | 0 <= i < |w| ensures !IsUpper(w[i]) {
      var j :| 0 <= j < |low| && low[j] == w[i];
    }
  }

  /** A text without words fires no keyword rule (every keyword starts with
      a letter) and shares no word, so its label is the stripped text,
      capitalised. */
  lemma NoWordsLabel(activity: string, siblings: seq<string>)
    requires Words(activity) == []
    ensures Group(activity, siblings) == Capitalize(Strip(activity))
  {
    var low := Lower(activity);
    TokensEmptyIff(low);
    assert forall k :: 0 <= k < |EatKeywords| ==> EatKeywords[k] != [] && IsLetter(EatKeywords[k][0]);
    assert forall k :: 0 <= k < |SleepKeywords| ==> SleepKeywords[k] != [] && IsLetter(SleepKeywords[k][0]);
    NotContainsWithoutFirstChar(low, "ate");
    NoKeywordStartsIn(low, EatKeywords);
    NoKeywordStartsIn(low, SleepKeywords);
    KeywordLabelMeaning(activity);
  }

  /** A text without words holds no letter, so the label made from it does
      not start with one. */
  lemma NoWordsNoLetters(activity: string)
    requires Words(activity) == []
    ensures var r := Capitalize(Strip(activity)); r == [] || !IsLetter(r[0])
  {
    var low := Lower(activity);
    TokensEmptyIff(low);
    var r := Strip(activity);
    if r != [] {
      assert r[0] in activity;
      var j :| 0 <= j < |activity| && activity[j] == r[0];
      assert !IsWordChar(low[j]);
    }
  }

  /** A word that capitalises to `Capitalize(target)`, for a lower-case target,
      is the target itself. */
  lemma WordCapitalizedAs(activity: string, w: string, target: string)
    requires w in Words(activity)
    requires forall i :: 0 <= i < |target| ==> !IsUpper(target[i])
    requires Capitalize(w) == Capitalize(target)
    ensures w == target
  {
    WordIsLowercase(activity, w);
    CapitalizeInjective(w, target);
  }

  /** Each word occurs in the lower-cased text. */
  lemma WordIsContained(activity: string, w: string)
    requires w in Words(activity)
    ensures Contains(Lower(activity), w)
  {
    var ts := Words(activity);
    var k :| 0 <= k < |ts| && ts[k] == w;
  }

  /** A fallback label `Capitalize(target)`, for a lower-case target that
      starts with a letter, comes from the word `target` of the activity. */
  lemma FallbackLabelAs(activity: string, siblings: seq<string>, target: string)
    requires KeywordLabel(activity).None?
    requires LabelOf(target, Fallback(activity, siblings))
    ensures target in Words(activity)
  {
    match SharedWord(activity, siblings)
    case Some(w) =>
      WordCapitalizedAs(activity, w, target);
    case None =>
      var ws := KeyWords(activity);
      if ws != [] {
        WordCapitalizedAs(activity, Smallest(ws), target);
      } else {
        NoWordsNoLetters(activity);
        assert IsLetter(Capitalize(target)[0]);
      }
  }

  /** A lower-case word, starting with a letter, whose capitalised form is
      `name`. */
  predicate LabelOf(target: string, name: string)
  {
    target != [] && IsLetter(target[0])
    && (forall i :: 0 <= i < |target| ==> !IsUpper(target[i]))
    && Capitalize(target) == name
  }

  lemma AteLabel() ensures LabelOf("ate", "Ate") { }
  lemma EatingWord() ensures LabelOf("eating", "Eating") { }
  lemma SleepWord() ensures LabelOf("sleep", "Sleep") { }
  lemma SchoolWord() ensures LabelOf("school", "School") { }

  /** A text with the word "eating" contains the eating keyword "eat". */
  lemma EatingWordIsEating(activity: string)
    requires "eating" in Words(activity)
    ensures IsEating(activity)
  {
    WordIsContained(activity, "eating");
    ContainsPrefix(Lower(activity), "eating", "eat");
    assert EatKeywords[0] == "eat";
  }

  /** A text with the word "sleep" contains the sleep keyword "sleep". */
  lemma SleepWordIsSleep(activity: string)
    requires "sleep" in Words(activity)
    ensures IsSleep(activity)
  {
    WordIsContained(activity, "sleep");
    assert SleepKeywords[0] == "sleep";
  }

  /** The fallback never yields the label of a keyword rule it follows: a
      word "eating", "sleep" or "school" would have fired that rule. */
  lemma FallbackAvoidsRuleLabels(activity: string, siblings: seq<string>)
    requires KeywordLabel(activity).None?
    ensures var r := Fallback(activity, siblings); r != "Eating" && r != "Sleep" && r != "School"
  {
    var r := Fallback(activity, siblings);
    if r == "Eating" {
      EatingWord();
      FallbackLabelAs(activity, siblings, "eating");
      EatingWordIsEating(activity);
    } else if r == "Sleep" {
      SleepWord();
      FallbackLabelAs(activity, siblings, "sleep");
      SleepWordIsSleep(activity);
    } else if r == "School" {
      SchoolWord();
      FallbackLabelAs(activity, siblings, "school");
    }
  }

  // ---------------------------------------------------------------------------
  // What the labels mean

  /** "Eating" is the label exactly when the text contains "ate" or an eating
      keyword, whatever the siblings. */
  lemma EatingLabel(activity: string, siblings: seq<string>)
    ensures Group(activity, siblings) == "Eating" <==>
      Contains(Lower(activity), "ate") || IsEating(activity)
  {
    match KeywordLabel(activity)
    case Some(_) =>
    case None =>
      FallbackAvoidsRuleLabels(activity, siblings);
  }

  /** "Sleep" is the label exactly when no eating rule fires and the text
      contains a sleep keyword, whatever the siblings. */
  lemma SleepLabel(activity: string, siblings: seq<string>)
    ensures Group(activity, siblings) == "Sleep" <==>
      !Contains(Lower(activity), "ate") && !IsEating(activity) && IsSleep(activity)
  {
    match KeywordLabel(activity)
    case Some(_) =>
    case None =>
      FallbackAvoidsRuleLabels(activity, siblings);
  }

  /** "School" is the label exactly when no eating or sleep rule fires and one
      of the words is "track", "field" or "school", whatever the siblings. */
  lemma SchoolLabel(activity: string, siblings: seq<string>)
    ensures Group(activity, siblings) == "School" <==>
      !Contains(Lower(activity), "ate") && !IsEating(activity) && !IsSleep(activity)
      && ("track" in Words(activity) || "field" in Words(activity) || "school" in Words(activity))
  {
    match KeywordLabel(activity)
    case Some(_) =>
    case None =>
      FallbackAvoidsRuleLabels(activity, siblings);
  }

  /** "home" as a word gives "Homework" once no earlier rule fires. */
  lemma HomeworkLabel(activity: string, siblings: seq<string>)
    requires !Contains(Lower(activity), "ate") && !IsEating(activity) && !IsSleep(activity)
    requires "track" !in Words(activity) && "field" !in Words(activity) && "school" !in Words(activity)
    requires "home" in Words(activity)
    ensures Group(activity, siblings) == "Homework"
  {
  }

  /** The guard against an own-word label "Ate" never fires: a text with the
      word "ate" is caught by the first rule. */
  lemma AteGuardUnreachable(activity: string)
    requires KeywordLabel(activity).None? && KeyWords(activity) != []
    ensures Capitalize(Smallest(KeyWords(activity))) != "Ate"
  {
    var w := Smallest(KeyWords(activity));
    if Capitalize(w) == "Ate" {
      AteLabel();
      WordCapitalizedAs(activity, w, "ate");
      WordIsContained(activity, w);
    }
  }

  // ---------------------------------------------------------------------------
  // How the siblings matter

  /** Siblings are scanned in order and the first that shares a word decides:
      the ones after it are never looked at. */
  lemma {:induction false} FirstSharingAppend(activity: string, ws: seq<string>, s: seq<string>, t: seq<string>)
    ensures FirstSharing(activity, ws, s + t) ==
      if FirstSharing(activity, ws, s) < |s| then FirstSharing(activity, ws, s)
      else |s| + FirstSharing(activity, ws, t)
    decreases |s|
  {
    if s == [] {
      assert s + t == t;
    } else {
      assert (s + t)[0] == s[0] && (s + t)[1..] == s[1..] + t;
      FirstSharingAppend(activity, ws, s[1..], t);
    }
  }

  /** The siblings matter to a label only through the shared word. */
  lemma SameSharedWordSameGroup(activity: string, s: seq<string>, t: seq<string>)
    requires SharedWord(activity, s) == SharedWord(activity, t)
    ensures Group(activity, s) == Group(activity, t)
  {
  }

  /** Once a sibling shares a word, later siblings change nothing. */
  lemma LaterSiblingsIgnored(activity: string, s: seq<string>, t: seq<string>)
    requires FirstSharing(activity, KeyWords(activity), s) < |s|
    ensures SharedWord(activity, s + t) == SharedWord(activity, s)
  {
    var ws := KeyWords(activity);
    FirstSharingAppend(activity, ws, s, t);
    var k := FirstSharing(activity, ws, s);
    assert (s + t)[k] == s[k];
  }

  /** Siblings that share nothing can be dropped. */
  lemma NonSharingSiblingsIgnored(activity: string, s: seq<string>, t: seq<string>)
    requires FirstSharing(activity, KeyWords(activity), s) == |s|
    ensures SharedWord(activity, s + t) == SharedWord(activity, t)
  {
    var ws := KeyWords(activity);
    FirstSharingAppend(activity, ws, s, t);
    var k' := FirstSharing(activity, ws, t);
    assert k' < |t| ==> (s + t)[|s| + k'] == t[k'];
  }

  /** The first sibling that shares a word decides the label: later siblings
      change nothing, and siblings before it that share nothing can be
      dropped. */
  lemma FirstSharingSiblingDecidesGroup(activity: string, s: seq<string>, t: seq<string>)
    ensures FirstSharing(activity, KeyWords(activity), s) < |s| ==>
      Group(activity, s + t) == Group(activity, s)
    ensures FirstSharing(activity, KeyWords(activity), s) == |s| ==>
      Group(activity, s + t) == Group(activity, t)
  {
    if FirstSharing(activity, KeyWords(activity), s) < |s| {
      LaterSiblingsIgnored(activity, s, t);
      SameSharedWordSameGroup(activity, s + t, s);
    } else {
      NonSharingSiblingsIgnored(activity, s, t);
      SameSharedWordSameGroup(activity, s + t, t);
    }
  }

  /** The siblings without the activity's own text. */
  function Others(activity: string, siblings: seq<string>): (r: seq<string>)
    ensures forall x :: x in r <==> x in siblings && x != activity
  {
    if siblings == [] then []
    else
      assert forall x :: x in siblings <==> x == siblings[0] || x in siblings[1..];
      (if siblings[0] == activity then [] else [siblings[0]]) + Others(activity, siblings[1..])
  }

  lemma {:induction false} FirstSharingOthers(activity: string, ws: seq<string>, siblings: seq<string>)
    ensures var k, o := FirstSharing(activity, ws, siblings), Others(activity, siblings);
      var k' := FirstSharing(activity, ws, o);
      (k < |siblings| <==> k' < |o|) && (k < |siblings| ==> siblings[k] == o[k'])
    decreases |siblings|
  {
    if siblings != [] {
      FirstSharingOthers(activity, ws, siblings[1..]);
      var rest := Others(activity, siblings[1..]);
      if siblings[0] != activity {
        var o := [siblings[0]] + rest;
        assert Others(activity, siblings) == o;
        assert o[0] == siblings[0] && o[1..] == rest;
      } else {
        assert Others(activity, siblings) == rest;
      }
    }
  }

  /** The activity's own text among the siblings is skipped: removing it
      changes no label. */
  lemma OwnTextIgnored(activity: string, siblings: seq<string>)
    ensures Group(activity, siblings) == Group(activity, Others(activity, siblings))
  {
    FirstSharingOthers(activity, KeyWords(activity), siblings);
  }

  /** A text made of stopwords only is never grouped with a sibling: siblings
      are compared by their meaningful words, which no stopword is. */
  lemma StopwordTextIgnoresSiblings(activity: string, siblings: seq<string>)
    requires Meaningful(Words(activity)) == []
    ensures Group(activity, siblings) == Group(activity, [])
  {
    var ws := KeyWords(activity);
    forall j | 0 <= j < |siblings| ensures !Shares(activity, ws, siblings[j]) {
      var c := Common(ws, Meaningful(Words(siblings[j])));
      NonEmptyHasHead(c);
    }
    assert FirstSharing(activity, ws, siblings) == |siblings|;
  }
}
