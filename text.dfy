/** The string operations the time-log application relies on, with the
    semantics of the Python built-ins it calls: `str.lower`, `str.strip`,
    `str.capitalize`, `str.split`, the `in` substring test, `re.findall(r"\w+")`
    and `sorted(...)[0]` (code-point order).  Letters, case and `\w` are ASCII
    here; whitespace for `strip` is the full set Python's `str.isspace` accepts. */
module Text {

  // ---------------------------------------------------------------------------
  // Characters

  predicate IsUpper(c: char) { 'A' <= c <= 'Z' }
  predicate IsLower(c: char) { 'a' <= c <= 'z' }
  predicate IsLetter(c: char) { IsUpper(c) || IsLower(c) }
  predicate IsDigit(c: char) { '0' <= c <= '9' }

  /** `\w` of Python's `re`, restricted to ASCII. */
  predicate IsWordChar(c: char) { IsLetter(c) || IsDigit(c) || c == '_' }

  /** The characters for which Python's `str.isspace()` holds, which are the
      ones `str.strip()` removes. */
  predicate IsSpace(c: char)
  {
    var n := c as int;
    (9 <= n <= 13) || (28 <= n <= 32) || n == 0x85 || n == 0xA0 || n == 0x1680
    || (0x2000 <= n <= 0x200A) || n == 0x2028 || n == 0x2029 || n == 0x202F
    || n == 0x205F || n == 0x3000
  }

  function LowerChar(c: char): (r: char)
    ensures !IsUpper(r)
    ensures IsUpper(c) || r == c
  {
    if IsUpper(c) then (c as int + 32) as char else c
  }

  function UpperChar(c: char): (r: char)
    ensures !IsLower(r)
    ensures IsLower(c) || r == c
  {
    if IsLower(c) then (c as int - 32) as char else c
  }

  // ---------------------------------------------------------------------------
  // Whole strings

  /** `s.lower()` */
  function Lower(s: string): (r: string)
    ensures |r| == |s|
    ensures forall i :: 0 <= i < |s| ==> r[i] == LowerChar(s[i])
  {
    seq(|s|, i requires 0 <= i < |s| => LowerChar(s[i]))
  }

  /** `s.capitalize()`: the first character upper-cased, the rest lower-cased. */
  function Capitalize(s: string): (r: string)
    ensures |r| == |s|
    ensures s != [] ==> r[0] == UpperChar(s[0]) && r[1..] == Lower(s[1..])
  {
    if s == [] then [] else [UpperChar(s[0])] + Lower(s[1..])
  }

  /** Upper-casing is one-to-one on characters that are not upper-case. */
  lemma UpperCharInjective(a: char, b: char)
    requires !IsUpper(a) && !IsUpper(b) && UpperChar(a) == UpperChar(b)
    ensures a == b
  {
  }

  /** Lower-casing leaves a string without upper-case letters as it is. */
  lemma LowerWithoutUpper(s: string)
    requires forall i :: 0 <= i < |s| ==> !IsUpper(s[i])
    ensures Lower(s) == s
  {
  }

  /** Capitalising loses nothing on strings without upper-case letters. */
  lemma CapitalizeInjective(w: string, v: string)
    requires forall i :: 0 <= i < |w| ==> !IsUpper(w[i])
    requires forall i :: 0 <= i < |v| ==> !IsUpper(v[i])
    requires Capitalize(w) == Capitalize(v)
    ensures w == v
  {
    if w != [] {
      var cw, cv := Capitalize(w), Capitalize(v);
      assert cw[0] == UpperChar(w[0]) && cv[0] == UpperChar(v[0]);
      UpperCharInjective(w[0], v[0]);
      LowerWithoutUpper(w[1..]);
      LowerWithoutUpper(v[1..]);
      assert w == [w[0]] + w[1..] && v == [v[0]] + v[1..];
    }
  }

  lemma NonEmptyHasHead<T>(s: seq<T>)
    ensures s != [] ==> s[0] in s
  {
  }

  predicate StartsWith(s: string, prefix: string)
  {
    |prefix| <= |s| && s[..|prefix|] == prefix
  }

  /** Python's `sub in s`. */
  predicate Contains(s: string, sub: string)
    decreases |s|
  {
    StartsWith(s, sub) || (s != [] && Contains(s[1..], sub))
  }

  /** Python's `any(kw in s for kw in keywords)`. */
  predicate ContainsAny(s: string, keywords: seq<string>)
    ensures ContainsAny(s, keywords) <==> exists k :: 0 <= k < |keywords| && Contains(s, keywords[k])
    decreases |keywords|
  {
    keywords != [] &&
    (assert forall k :: 1 <= k < |keywords| ==> keywords[1..][k - 1] == keywords[k];
     Contains(s, keywords[0]) || ContainsAny(s, keywords[1..]))
  }

  /** A text in which no keyword's first character occurs contains none of them. */
  lemma {:induction false} NoKeywordStartsIn(s: string, keywords: seq<string>)
    requires forall k :: 0 <= k < |keywords| ==> keywords[k] != [] && keywords[k][0] !in s
    ensures !ContainsAny(s, keywords)
    decreases |keywords|
  {
    if keywords != [] {
      NotContainsWithoutFirstChar(s, keywords[0]);
      NoKeywordStartsIn(s, keywords[1..]);
    }
  }

  /** Whatever contains `sub` contains every prefix of it. */
  lemma {:induction false} ContainsPrefix(s: string, sub: string, prefix: string)
    requires Contains(s, sub) && StartsWith(sub, prefix)
    ensures Contains(s, prefix)
    decreases |s|
  {
    if !StartsWith(s, sub) {
      ContainsPrefix(s[1..], sub, prefix);
    } else {
      assert s[..|prefix|] == sub[..|prefix|];
    }
  }

  /** Whatever contains `sub` contains every suffix of it. */
  lemma {:induction false} ContainsInfix(s: string, sub: string, n: nat)
    requires Contains(s, sub) && n <= |sub|
    ensures Contains(s, sub[n..])
    decreases |s|
  {
    if StartsWith(s, sub) {
      assert s[n..][..|sub| - n] == sub[n..];
      ContainsSuffix(s, n, sub[n..]);
    } else {
      ContainsInfix(s[1..], sub, n);
    }
  }

  /** Lower-casing keeps containment. */
  lemma {:induction false} LowerContains(s: string, sub: string)
    requires Contains(s, sub)
    ensures Contains(Lower(s), Lower(sub))
    decreases |s|
  {
    if StartsWith(s, sub) {
      assert Lower(s)[..|sub|] == Lower(sub);
    } else {
      assert Lower(s)[1..] == Lower(s[1..]);
      LowerContains(s[1..], sub);
    }
  }

  /** Every character of a contained text occurs in the text. */
  lemma {:induction false} ContainsChars(s: string, sub: string)
    requires Contains(s, sub)
    ensures forall i :: 0 <= i < |sub| ==> sub[i] in s
    decreases |s|
  {
    if StartsWith(s, sub) {
      forall i | 0 <= i < |sub| ensures sub[i] in s {
        assert sub[i] == s[i];
      }
    } else {
      ContainsChars(s[1..], sub);
      forall i | 0 <= i < |sub| ensures sub[i] in s {
        var j :| 0 <= j < |s[1..]| && s[1..][j] == sub[i];
        assert s[j + 1] == sub[i];
      }
    }
  }

  // ---------------------------------------------------------------------------
  // strip

  function LeadingSpaces(s: string): (n: nat)
    ensures n <= |s|
    ensures forall i :: 0 <= i < n ==> IsSpace(s[i])
    ensures n < |s| ==> !IsSpace(s[n])
  {
    if s != [] && IsSpace(s[0]) then 1 + LeadingSpaces(s[1..]) else 0
  }

  function TrailingSpaces(s: string): (n: nat)
    ensures n <= |s|
    ensures forall i :: |s| - n <= i < |s| ==> IsSpace(s[i])
    ensures n < |s| ==> !IsSpace(s[|s| - 1 - n])
  {
    if s != [] && IsSpace(s[|s| - 1]) then 1 + TrailingSpaces(s[..|s| - 1]) else 0
  }

  /** `s.strip()` */
  function Strip(s: string): (r: string)
    ensures r == [] || (!IsSpace(r[0]) && !IsSpace(r[|r| - 1]))
    ensures forall i :: 0 <= i < |s| ==> IsSpace(s[i]) || s[i] in r
    ensures forall c :: c in r ==> c in s
    ensures exists lo, hi :: (0 <= lo <= hi <= |s| && r == s[lo..hi] &&
      (forall i :: 0 <= i < lo ==> IsSpace(s[i])) && (forall i :: hi <= i < |s| ==> IsSpace(s[i])))
  {
    var lo := LeadingSpaces(s);
    var hi := if lo == |s| then lo else |s| - TrailingSpaces(s);
    assert lo < |s| ==> !IsSpace(s[lo]);
    assert lo <= hi;
    assert forall i :: lo <= i < hi ==> s[i] == s[lo..hi][i - lo];
    assert forall i :: hi <= i < |s| ==> IsSpace(s[i]);
    s[lo..hi]
  }

  /** The stripped text occurs in the text. */
  lemma StripContained(s: string)
    ensures Contains(s, Strip(s))
  {
    var r := Strip(s);
    var lo, hi :| 0 <= lo <= hi <= |s| && r == s[lo..hi];
    assert s[lo..][..|r|] == r;
    assert Contains(s[lo..], r);
    ContainsSuffix(s, lo, r);
  }

  lemma StripWithoutSpaces(s: string)
    requires forall i :: 0 <= i < |s| ==> !IsSpace(s[i])
    ensures Strip(s) == s
  {
    assert s != [] ==> LeadingSpaces(s) == 0 && TrailingSpaces(s) == 0;
  }

  // ---------------------------------------------------------------------------
  // split

  /** `s.split(sep)` for a one-character separator: the pieces between the
      occurrences of `sep`, so one more piece than there are separators. */
  function Split(s: string, sep: char): (parts: seq<string>)
    ensures |parts| >= 1
    ensures forall k :: 0 <= k < |parts| ==> sep !in parts[k]
  {
    if sep !in s then [s]
    else
      var i := IndexOf(s, sep);
      [s[..i]] + Split(s[i + 1..], sep)
  }

  function IndexOf(s: string, c: char): (i: nat)
    requires c in s
    ensures i < |s| && s[i] == c && c !in s[..i]
  {
    if s[0] == c then 0 else 1 + IndexOf(s[1..], c)
  }

  function Join(parts: seq<string>, sep: char): string
  {
    if |parts| <= 1 then (if parts == [] then "" else parts[0])
    else parts[0] + [sep] + Join(parts[1..], sep)
  }

  function Count(s: string, c: char): nat
  {
    if s == [] then 0 else (if s[0] == c then 1 else 0) + Count(s[1..], c)
  }

  lemma {:induction false} CountAppend(a: string, b: string, c: char)
    ensures Count(a + b, c) == Count(a, c) + Count(b, c)
    decreases |a|
  {
    if a != [] {
      assert (a + b)[0] == a[0] && (a + b)[1..] == a[1..] + b;
      CountAppend(a[1..], b, c);
    } else {
      assert a + b == b;
    }
  }

  lemma {:induction false} CountAbsent(s: string, c: char)
    requires c !in s
    ensures Count(s, c) == 0
    decreases |s|
  {
    if s != [] { CountAbsent(s[1..], c); }
  }

  /** Splitting loses nothing: joining the pieces with the separator gives the
      text back, and there is one piece more than there are separators. */
  lemma {:induction false} SplitJoin(s: string, sep: char)
    ensures Join(Split(s, sep), sep) == s
    ensures |Split(s, sep)| == Count(s, sep) + 1
    decreases |s|
  {
    if sep !in s {
      CountAbsent(s, sep);
    } else {
      var i := IndexOf(s, sep);
      SplitJoin(s[i + 1..], sep);
      var rest := Split(s[i + 1..], sep);
      assert Split(s, sep) == [s[..i]] + rest;
      assert ([s[..i]] + rest)[1..] == rest;
      AroundIndex(s, i);
      CountAtFirst(s, sep);
    }
  }

  lemma AroundIndex(s: string, i: nat)
    requires i < |s|
    ensures s == s[..i] + [s[i]] + s[i + 1..]
  {
  }

  /** The separators of a text: the first one, then those after it. */
  lemma CountAtFirst(s: string, sep: char)
    requires sep in s
    ensures Count(s, sep) == 1 + Count(s[IndexOf(s, sep) + 1..], sep)
  {
    var i := IndexOf(s, sep);
    var t := s[i + 1..];
    AroundIndex(s, i);
    ConcatAssoc(s[..i], [sep], t);
    CountAbsent(s[..i], sep);
    CountAppend(s[..i], [sep] + t, sep);
    assert ([sep] + t)[1..] == t;
  }

  // ---------------------------------------------------------------------------
  // re.findall(r"\w+", s)

  function WordRun(s: string): (n: nat)
    ensures n <= |s|
    ensures forall i :: 0 <= i < n ==> IsWordChar(s[i])
    ensures n < |s| ==> !IsWordChar(s[n])
  {
    if s != [] && IsWordChar(s[0]) then 1 + WordRun(s[1..]) else 0
  }

  /** The maximal runs of word characters, left to right. */
  function Tokens(s: string): (ts: seq<string>)
    ensures forall k :: 0 <= k < |ts| ==> ts[k] != [] && Contains(s, ts[k])
    ensures forall k, i :: 0 <= k < |ts| && 0 <= i < |ts[k]| ==> IsWordChar(ts[k][i])
    decreases |s|
  {
    if s == [] then []
    else if !IsWordChar(s[0]) then
      var rest := Tokens(s[1..]);
      assert forall k :: 0 <= k < |rest| ==> Contains(s, rest[k]);
      rest
    else
      var n := WordRun(s);
      var rest := Tokens(s[n..]);
      forall k | 0 <= k < |rest| ensures Contains(s, rest[k]) {
        ContainsSuffix(s, n, rest[k]);
      }
      [s[..n]] + rest
  }

  /** A run of word characters is one token. */
  lemma SingleToken(w: string)
    requires w != [] && forall i :: 0 <= i < |w| ==> IsWordChar(w[i])
    ensures Tokens(w) == [w]
  {
    var n := WordRun(w);
    assert n == |w|;
    assert w[n..] == [] && w[..n] == w;
  }

  /** A character that is not a word character separates the tokens: those
      of the text before it, then those of the text after it.  With
      `SingleToken` and `TokensEmptyIff` this fixes the tokens of every
      text. */
  lemma {:induction false} TokensSplit(a: string, c: char, b: string)
    requires !IsWordChar(c)
    ensures Tokens(a + [c] + b) == Tokens(a) + Tokens(b)
    decreases |a|
  {
    if a == [] {
      var s := a + [c] + b;
      TokensSkip(s);
      assert s[1..] == b;
    } else if !IsWordChar(a[0]) {
      TokensSplit(a[1..], c, b);
      TokensSplitSkip(a, c, b);
    } else {
      TokensRun(a);
      TokensSplit(a[WordRun(a)..], c, b);
      TokensSplitRun(a, c, b);
    }
  }

  lemma TokensSplitSkip(a: string, c: char, b: string)
    requires a != [] && !IsWordChar(a[0])
    requires Tokens(a[1..] + [c] + b) == Tokens(a[1..]) + Tokens(b)
    ensures Tokens(a + [c] + b) == Tokens(a) + Tokens(b)
  {
    TokensSkip(a);
    TokensSkip(a + [c] + b);
    SlicesAround(a, c, b, 1);
  }

  lemma TokensSplitRun(a: string, c: char, b: string)
    requires !IsWordChar(c) && a != [] && IsWordChar(a[0])
    requires WordRun(a) <= |a|
    requires Tokens(a[WordRun(a)..] + [c] + b) == Tokens(a[WordRun(a)..]) + Tokens(b)
    ensures Tokens(a + [c] + b) == Tokens(a) + Tokens(b)
  {
    var n := WordRun(a);
    WordRunStops(a, c, b);
    TokensRun(a);
    TokensRun(a + [c] + b);
    SlicesAround(a, c, b, n);
    ConcatAssoc([a[..n]], Tokens(a[n..]), Tokens(b));
  }

  lemma ConcatAssoc<T>(p: seq<T>, q: seq<T>, r: seq<T>)
    ensures p + (q + r) == (p + q) + r
  {
  }

  lemma SlicesAround(a: string, c: char, b: string, n: nat)
    requires n <= |a|
    ensures (a + [c] + b)[..n] == a[..n] && (a + [c] + b)[n..] == a[n..] + [c] + b
  {
  }

  /** A leading character that is not a word character is skipped. */
  lemma TokensSkip(s: string)
    requires s != [] && !IsWordChar(s[0])
    ensures Tokens(s) == Tokens(s[1..])
  {
  }

  /** A leading run of word characters is the first token. */
  lemma TokensRun(s: string)
    requires s != [] && IsWordChar(s[0])
    ensures 0 < WordRun(s) && Tokens(s) == [s[..WordRun(s)]] + Tokens(s[WordRun(s)..])
  {
  }

  /** A run of word characters ends at a separator at the latest. */
  lemma {:induction false} WordRunStops(a: string, c: char, b: string)
    requires !IsWordChar(c)
    ensures WordRun(a + [c] + b) == WordRun(a)
    decreases |a|
  {
    var s := a + [c] + b;
    if a != [] && IsWordChar(a[0]) {
      assert s[0] == a[0] && s[1..] == a[1..] + [c] + b;
      WordRunStops(a[1..], c, b);
    }
  }

  lemma {:induction false} ContainsSuffix(s: string, n: nat, sub: string)
    requires n <= |s| && Contains(s[n..], sub)
    ensures Contains(s, sub)
    decreases n
  {
    if n > 0 {
      assert s[1..][n - 1..] == s[n..];
      ContainsSuffix(s[1..], n - 1, sub);
    }
  }

  /** A string none of whose characters can start `sub` does not contain it. */
  lemma {:induction false} NotContainsWithoutFirstChar(s: string, sub: string)
    requires sub != [] && sub[0] !in s
    ensures !Contains(s, sub)
    decreases |s|
  {
    if s != [] {
      NotContainsWithoutFirstChar(s[1..], sub);
    }
  }

  /** A text with no word character has no tokens, and the converse. */
  lemma {:induction false} TokensEmptyIff(s: string)
    ensures Tokens(s) == [] <==> forall i :: 0 <= i < |s| ==> !IsWordChar(s[i])
    decreases |s|
  {
    if s != [] {
      if IsWordChar(s[0]) {
        assert Tokens(s) != [];
      } else {
        TokensEmptyIff(s[1..]);
        assert forall i :: 1 <= i < |s| ==> s[i] == s[1..][i - 1];
      }
    }
  }

  // ---------------------------------------------------------------------------
  // Code-point order on strings, as Python compares `str` values

  predicate LexLeq(a: string, b: string)
    decreases |a|
  {
    a == [] || (b != [] && (a[0] < b[0] || (a[0] == b[0] && LexLeq(a[1..], b[1..]))))
  }

  lemma {:induction false} LexLeqRefl(a: string)
    ensures LexLeq(a, a)
    decreases |a|
  {
    if a != [] { LexLeqRefl(a[1..]); }
  }

  lemma {:induction false} LexLeqTotal(a: string, b: string)
    ensures LexLeq(a, b) || LexLeq(b, a)
    decreases |a|
  {
    if a != [] && b != [] && a[0] == b[0] { LexLeqTotal(a[1..], b[1..]); }
  }

  lemma {:induction false} LexLeqTrans(a: string, b: string, c: string)
    requires LexLeq(a, b) && LexLeq(b, c)
    ensures LexLeq(a, c)
    decreases |a|
  {
    if a != [] && a[0] == b[0] && b[0] == c[0] { LexLeqTrans(a[1..], b[1..], c[1..]); }
  }

  lemma {:induction false} LexLeqAntisym(a: string, b: string)
    requires LexLeq(a, b) && LexLeq(b, a)
    ensures a == b
    decreases |a|
  {
    if a != [] {
      LexLeqAntisym(a[1..], b[1..]);
      assert a == [a[0]] + a[1..] && b == [b[0]] + b[1..];
    }
  }

  /** `sorted(ws)[0]`: the least element in code-point order. */
  function Smallest(ws: seq<string>): (r: string)
    requires ws != []
    ensures r in ws
    ensures forall k :: 0 <= k < |ws| ==> LexLeq(r, ws[k])
  {
    if |ws| == 1 then
      LexLeqRefl(ws[0]);
      ws[0]
    else
      var m := Smallest(ws[1..]);
      assert forall k :: 1 <= k < |ws| ==> ws[k] == ws[1..][k - 1];
      if LexLeq(ws[0], m) then
        LexLeqRefl(ws[0]);
        forall k | 1 <= k < |ws| ensures LexLeq(ws[0], ws[k]) {
          LexLeqTrans(ws[0], m, ws[k]);
        }
        ws[0]
      else
        LexLeqTotal(ws[0], m);
        m
  }

  /** The least element is determined by the elements alone, not by their
      order or repetitions: this is why the sequences of this model may stand
      for the Python sets whose minimum the application takes. */
  lemma SmallestBySet(ws: seq<string>, vs: seq<string>)
    requires ws != [] && vs != []
    requires forall w :: w in ws <==> w in vs
    ensures Smallest(ws) == Smallest(vs)
  {
    var a, b := Smallest(ws), Smallest(vs);
    var i :| 0 <= i < |vs| && vs[i] == a;
    var j :| 0 <= j < |ws| && ws[j] == b;
    LexLeqAntisym(a, b);
  }
}
