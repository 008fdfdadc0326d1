/** Worked instances of the grouper: a label depends on the other activity
    texts of the period, and among those only the first that shares a word
    counts. */
module GroupingExamples {
  import opened Wrappers
  import opened Text
  import opened Grouping

  /** Two runs of word characters around one space are two tokens. */
  lemma TwoTokens(u: string, v: string)
    requires u != [] && forall i :: 0 <= i < |u| ==> IsWordChar(u[i])
    requires v != [] && forall i :: 0 <= i < |v| ==> IsWordChar(v[i])
    ensures Tokens(u + " " + v) == [u, v]
  {
    var s := u + " " + v;
    WordRunPrefix(u, " " + v);
    assert s[..|u|] == u && s[|u|..] == " " + v;
    SingleToken(v);
    assert (" " + v)[1..] == v;
  }

  lemma {:induction false} WordRunPrefix(u: string, t: string)
    requires forall i :: 0 <= i < |u| ==> IsWordChar(u[i])
    requires t != [] && !IsWordChar(t[0])
    ensures WordRun(u + t) == |u|
  {
    if u == [] {
      assert u + t == t;
    } else {
      assert (u + t)[0] == u[0] && (u + t)[1..] == u[1..] + t;
      WordRunPrefix(u[1..], t);
    }
  }

  lemma Words2(u: string, v: string)
    requires u != [] && forall i :: 0 <= i < |u| ==> IsLower(u[i])
    requires v != [] && forall i :: 0 <= i < |v| ==> IsLower(v[i])
    ensures Words(u + " " + v) == [u, v]
  {
    LowerWithoutUpper(u + " " + v);
    TwoTokens(u, v);
  }

  lemma Words1(u: string)
    requires u != [] && forall i :: 0 <= i < |u| ==> IsLower(u[i])
    ensures Words(u) == [u]
  {
    LowerWithoutUpper(u);
    SingleToken(u);
  }

  lemma NoAte(s: string)
    requires 'a' !in s
    ensures !Contains(s, "ate")
  {
    NoKeywordStartsIn(s, ["ate"]);
  }

  lemma NoEatKeyword(s: string)
    requires 'e' !in s && 'b' !in s && 'l' !in s && 'd' !in s && 's' !in s && 'f' !in s && 'm' !in s
    ensures !ContainsAny(s, EatKeywords)
  {
    NoKeywordStartsIn(s, EatKeywords);
  }

  lemma NoSleepKeyword(s: string)
    requires 's' !in s && 'n' !in s && 'b' !in s && 'r' !in s && 'I' !in s
    ensures !ContainsAny(s, SleepKeywords)
  {
    NoKeywordStartsIn(s, SleepKeywords);
  }

  lemma MeaningfulPair(u: string, v: string)
    requires !IsStopword(u) && !IsStopword(v)
    ensures Meaningful([u, v]) == [u, v]
  {
    assert [u, v][1..] == [v];
    assert Meaningful([v]) == [v];
  }

  /** The smaller of two words, first characters deciding. */
  lemma SmallestOfTwo(u: string, v: string)
    requires u != [] && v != [] && u[0] < v[0]
    ensures Smallest([u, v]) == u
  {
  }

  lemma ExampleWordsAreMeaningful()
    ensures !IsStopword("go") && !IsStopword("jog") && !IsStopword("club") && !IsStopword("kart")
  {
  }

  lemma GoJogWords()
    ensures Words("go jog") == ["go", "jog"]
  {
    Words2("go", "jog");
    assert "go" + " " + "jog" == "go jog";
  }

  /** No keyword rule fires on a lower-case text that avoids the first letters
      of all keywords and has none of the school or home words. */
  lemma NoRuleFires(activity: string)
    requires forall i :: 0 <= i < |activity| ==> !IsUpper(activity[i])
    requires 'a' !in activity && 'e' !in activity && 'b' !in activity && 'l' !in activity
    requires 'd' !in activity && 's' !in activity && 'f' !in activity && 'm' !in activity
    requires 'n' !in activity && 'r' !in activity
    requires "track" !in Words(activity) && "field" !in Words(activity)
    requires "school" !in Words(activity) && "home" !in Words(activity)
    ensures KeywordLabel(activity).None?
  {
    LowerWithoutUpper(activity);
    NoAte(activity);
    NoEatKeyword(activity);
    NoSleepKeyword(activity);
  }

  lemma GoJogLetters()
    ensures forall i :: 0 <= i < |"go jog"| ==> !IsUpper("go jog"[i])
    ensures 'a' !in "go jog" && 'e' !in "go jog" && 'b' !in "go jog" && 'l' !in "go jog"
    ensures 'd' !in "go jog" && 's' !in "go jog" && 'f' !in "go jog" && 'm' !in "go jog"
    ensures 'n' !in "go jog" && 'r' !in "go jog"
  {
  }

  lemma GoJogNoPlaceWord()
    ensures "track" !in Words("go jog") && "field" !in Words("go jog")
    ensures "school" !in Words("go jog") && "home" !in Words("go jog")
  {
    GoJogWords();
    var ws: seq<string> := ["go", "jog"];
    assert "track" !in ws && "field" !in ws && "school" !in ws && "home" !in ws;
  }

  /** No keyword rule fires on "go jog". */
  lemma GoJogHasNoKeyword()
    ensures KeywordLabel("go jog").None?
  {
    GoJogLetters();
    GoJogNoPlaceWord();
    NoRuleFires("go jog");
  }

  lemma GoJogKeyWords()
    ensures KeyWords("go jog") == ["go", "jog"]
  {
    GoJogWords();
    ExampleWordsAreMeaningful();
    MeaningfulPair("go", "jog");
  }

  lemma JogClub()
    ensures Meaningful(Words("jog club")) == ["jog", "club"]
  {
    Words2("jog", "club");
    assert "jog" + " " + "club" == "jog club";
    ExampleWordsAreMeaningful();
    MeaningfulPair("jog", "club");
  }

  lemma GoKart()
    ensures Meaningful(Words("go kart")) == ["go", "kart"]
  {
    Words2("go", "kart");
    assert "go" + " " + "kart" == "go kart";
    ExampleWordsAreMeaningful();
    MeaningfulPair("go", "kart");
  }

  lemma Capitalized()
    ensures Capitalize("go") == "Go" && Capitalize("jog") == "Jog"
  {
  }

  /** With no keyword rule firing and no sibling, the label is the
      activity's smallest key word. */
  lemma AloneLabel(activity: string, w: string)
    requires KeywordLabel(activity).None? && KeyWords(activity) != []
    requires Smallest(KeyWords(activity)) == w
    ensures Group(activity, []) == Capitalize(w)
  {
    assert SharedWord(activity, []).None?;
  }

  /** With no keyword rule firing, a shared word gives the label. */
  lemma SharedLabel(activity: string, siblings: seq<string>, w: string)
    requires KeywordLabel(activity).None? && SharedWord(activity, siblings) == Some(w)
    ensures Group(activity, siblings) == Capitalize(w)
  {
  }

  /** Logged alone, "go jog" is labelled by its own smallest word. */
  lemma GoJogAlone()
    ensures Group("go jog", []) == "Go"
  {
    GoJogHasNoKeyword();
    GoJogKeyWords();
    SmallestOfTwo("go", "jog");
    AloneLabel("go jog", "go");
    Capitalized();
  }

  lemma CommonWithJogClub()
    ensures Common(["go", "jog"], ["jog", "club"]) == ["jog"]
  {
    assert ["go", "jog"][1..] == ["jog"];
  }

  lemma CommonWithGoKart()
    ensures Common(["go", "jog"], ["go", "kart"]) == ["go"]
  {
    assert ["go", "jog"][1..] == ["jog"];
  }

  lemma SharedWithJogClub()
    ensures SharedWord("go jog", ["jog club"]) == Some("jog")
  {
    GoJogKeyWords();
    JogClub();
    CommonWithJogClub();
  }

  lemma SharedWithGoKart()
    ensures SharedWord("go jog", ["go kart"]) == Some("go")
  {
    GoJogKeyWords();
    GoKart();
    CommonWithGoKart();
  }

  /** Beside "jog club", the same text is labelled by the shared word. */
  lemma GoJogBesideJogClub()
    ensures Group("go jog", ["jog club"]) == "Jog"
  {
    GoJogHasNoKeyword();
    SharedWithJogClub();
    SharedLabel("go jog", ["jog club"], "jog");
    Capitalized();
  }

  /** Beside "go kart", it is labelled by the other shared word. */
  lemma GoJogBesideGoKart()
    ensures Group("go jog", ["go kart"]) == "Go"
  {
    GoJogHasNoKeyword();
    SharedWithGoKart();
    SharedLabel("go jog", ["go kart"], "go");
    Capitalized();
  }

  /** Both siblings share a word, and the label follows whichever of them
      comes first, not the smallest shared word overall. */
  lemma JogClubFirst()
    ensures Group("go jog", ["jog club", "go kart"]) == "Jog"
  {
    GoJogBesideJogClub();
    SharedWithJogClub();
    FirstSharingSiblingDecidesGroup("go jog", ["jog club"], ["go kart"]);
    assert ["jog club"] + ["go kart"] == ["jog club", "go kart"];
  }

  lemma GoKartFirst()
    ensures Group("go jog", ["go kart", "jog club"]) == "Go"
  {
    GoJogBesideGoKart();
    SharedWithGoKart();
    FirstSharingSiblingDecidesGroup("go jog", ["go kart"], ["jog club"]);
    assert ["go kart"] + ["jog club"] == ["go kart", "jog club"];
  }
}
