/**
 * The business-name checker: the simulated Wyoming availability rule, the
 * alternative names it suggests, the cleaning of legal-form words out of the
 * typed name, and the widget's validation and state sequence.
 */
module NameChecker {
  import opened Text
  import opened Wrappers

  /** Substrings that make a (lower-cased) name count as taken. */
  const Forbidden: seq<string> := ["test", "admin", "llc", "corp"]

  /** The simulated availability verdict: no forbidden substring, ignoring case. */
  predicate IsAvailable(name: string)
  {
    forall k :: 0 <= k < |Forbidden| ==> !Contains(Lower(name), Forbidden[k])
  }

  /** The words appended to a taken name, in the order they are offered. */
  const SuggestionWords: seq<string> := ["Group", "Ventures", "Holdings", "Global", "Solutions"]

  /** `wyoming` is the verdict (or null when unknown); `suggestions` the alternatives. */
  datatype Availability = Availability(wyoming: Option<bool>, suggestions: seq<string>)

  /**
   * `checkNameAvailability`: the verdict is always known, and a taken name
   * comes with five alternatives, the name followed by each suggestion word.
   */
  function CheckNameAvailability(name: string): (r: Availability)
    ensures r.wyoming == Some(IsAvailable(name))
    ensures r.suggestions == [] <==> IsAvailable(name)
    ensures !IsAvailable(name) ==>
      |r.suggestions| == |SuggestionWords|
      && forall i :: 0 <= i < |r.suggestions| ==> r.suggestions[i] == name + " " + SuggestionWords[i]
  {
    var available := IsAvailable(name);
    var suggestions :=
      if !available then
        [name + " Group", name + " Ventures", name + " Holdings", name + " Global", name + " Solutions"]
      else [];
    Availability(Some(available), suggestions)
  }

  /** A string containing `sub` still contains it with anything appended. */
  lemma ContainsExtend(s: string, sub: string, t: string)
    requires Contains(s, sub)
    ensures Contains(s + t, sub)
  {
    var i :| 0 <= i <= |s| && StartsWith(s[i..], sub);
    assert (s + t)[i..][..|sub|] == s[i..][..|sub|];
  }

  /**
   * Every alternative offered for a taken name is itself taken by the same
   * rule: it starts with the name, so it holds the same forbidden substring.
   */
  lemma SuggestionsAreTaken(name: string)
    requires !IsAvailable(name)
    ensures forall i :: 0 <= i < |CheckNameAvailability(name).suggestions| ==>
      !IsAvailable(CheckNameAvailability(name).suggestions[i])
  {
    var r := CheckNameAvailability(name);
    var k :| 0 <= k < |Forbidden| && Contains(Lower(name), Forbidden[k]);
    forall i | 0 <= i < |r.suggestions| ensures !IsAvailable(r.suggestions[i]) {
      var tail := " " + SuggestionWords[i];
      assert r.suggestions[i] == name + tail;
      LowerAppend(name, tail);
      ContainsExtend(Lower(name), Forbidden[k], Lower(tail));
    }
  }

  // Cleaning: a global, case-insensitive replace of whole legal-form words by nothing.

  /** The legal-form words removed before the check, in the regex's order. */
  const LegalWords: seq<string> := ["LLC", "Inc", "Corp", "Corporation", "Ltd", "Limited", "SARL"]

  /** A regex word character: ASCII letter, digit or underscore. */
  predicate IsWordChar(c: char)
  {
    ('a' <= c <= 'z') || ('A' <= c <= 'Z') || ('0' <= c <= '9') || c == '_'
  }

  /** Position `k` holds a word character (outside the string counts as not). */
  predicate WordAt(s: string, k: int)
  {
    0 <= k < |s| && IsWordChar(s[k])
  }

  /** The regex `\b` at position `k`: a word character on exactly one side. */
  predicate Boundary(s: string, k: int)
  {
    WordAt(s, k - 1) != WordAt(s, k)
  }

  /** `w` occurs at `i` when ASCII letter case is ignored. */
  predicate FoldedAt(s: string, i: nat, w: string)
  {
    i + |w| <= |s| && forall j :: 0 <= j < |w| ==> LowerChar(s[i + j]) == LowerChar(w[j])
  }

  /** Word `w` occurs at `i`, ignoring ASCII case, with a word boundary on both sides. */
  predicate WordMatchesAt(s: string, i: nat, w: string)
  {
    FoldedAt(s, i, w) && Boundary(s, i) && Boundary(s, i + |w|)
  }

  /** Length of the first of `words` that matches at `i`, or 0 when none does. */
  function FirstMatchLength(s: string, i: nat, words: seq<string>): nat
  {
    if words == [] then 0
    else if WordMatchesAt(s, i, words[0]) then |words[0]|
    else FirstMatchLength(s, i, words[1..])
  }

  /**
   * A positive length is the length of a word that matches at `i`; 0 means
   * that none of the (non-empty) words does.
   */
  lemma {:induction false} FirstMatchLengthSpec(s: string, i: nat, words: seq<string>)
    requires forall k :: 0 <= k < |words| ==> words[k] != []
    ensures var n := FirstMatchLength(s, i, words);
      (n > 0 ==> exists k :: 0 <= k < |words| && WordMatchesAt(s, i, words[k]) && n == |words[k]|)
      && (n == 0 <==> forall k :: 0 <= k < |words| ==> !WordMatchesAt(s, i, words[k]))
  {
    if words != [] && !WordMatchesAt(s, i, words[0]) {
      assert forall k :: 1 <= k < |words| ==> words[k] == words[1..][k - 1];
      FirstMatchLengthSpec(s, i, words[1..]);
    }
  }

  /** Every word is non-empty and made of word characters only. */
  predicate WordList(words: seq<string>)
  {
    forall k :: 0 <= k < |words| ==> words[k] != [] && forall j :: 0 <= j < |words[k]| ==> IsWordChar(words[k][j])
  }

  lemma LegalWordsAreWords()
    ensures WordList(LegalWords)
  {
    var w := LegalWords;
    assert w[0] == "LLC" && w[1] == "Inc" && w[2] == "Corp" && w[3] == "Corporation";
    assert w[4] == "Ltd" && w[5] == "Limited" && w[6] == "SARL";
  }

  /**
   * The global replace from position `i` on: a match is dropped and the scan
   * resumes after it; any other character is kept. Boundaries are judged on
   * the original string, as the regex does.
   */
  function StripFrom(s: string, i: nat, words: seq<string>): (r: string)
    requires i <= |s| && WordList(words)
    ensures |r| <= |s| - i
    decreases |s| - i
  {
    if i == |s| then []
    else
      var n := FirstMatchLength(s, i, words);
      if n > 0 && i + n <= |s| then StripFrom(s, i + n, words) else [s[i]] + StripFrom(s, i + 1, words)
  }

  function StripLegalWords(s: string): string
  {
    LegalWordsAreWords();
    StripFrom(s, 0, LegalWords)
  }

  /** The name that is actually checked: legal-form words removed, then trimmed. */
  function CleanName(s: string): string
  {
    Trim(StripLegalWords(s))
  }

  /** Where none of the words occurs as a whole word, nothing is removed. */
  lemma {:induction false} StripWithoutMatch(s: string, i: nat, words: seq<string>)
    requires i <= |s| && WordList(words)
    requires forall j, k :: i <= j < |s| && 0 <= k < |words| ==> !WordMatchesAt(s, j, words[k])
    ensures StripFrom(s, i, words) == s[i..]
    decreases |s| - i
  {
    if i < |s| {
      FirstMatchLengthSpec(s, i, words);
      StripWithoutMatch(s, i + 1, words);
      assert s[i..] == [s[i]] + s[i + 1..];
    }
  }

  lemma LowerCharWord(c: char)
    ensures IsWordChar(LowerChar(c)) == IsWordChar(c)
  {
  }

  /** A word boundary does not depend on letter case. */
  lemma BoundaryIgnoresCase(s: string, k: int)
    ensures Boundary(Lower(s), k) == Boundary(s, k)
  {
    if 0 <= k - 1 < |s| { LowerCharWord(s[k - 1]); }
    if 0 <= k < |s| { LowerCharWord(s[k]); }
  }

  /** Whether a word matches at `i` does not depend on letter case. */
  lemma WordMatchIgnoresCase(s: string, i: nat, w: string)
    ensures WordMatchesAt(Lower(s), i, w) == WordMatchesAt(s, i, w)
  {
    var l := Lower(s);
    forall p | 0 <= p < |s| ensures LowerChar(l[p]) == LowerChar(s[p]) {
    }
    assert FoldedAt(l, i, w) == FoldedAt(s, i, w);
    BoundaryIgnoresCase(s, i);
    BoundaryIgnoresCase(s, i + |w|);
  }

  /** Which of the words matches first at `i` does not depend on letter case. */
  lemma {:induction false} MatchIgnoresCase(s: string, i: nat, words: seq<string>)
    requires WordList(words)
    ensures FirstMatchLength(Lower(s), i, words) == FirstMatchLength(s, i, words)
  {
    if words != [] {
      WordMatchIgnoresCase(s, i, words[0]);
      assert WordList(words[1..]) by {
        forall k | 0 <= k < |words[1..]| ensures words[1..][k] == words[k + 1] { }
      }
      MatchIgnoresCase(s, i, words[1..]);
    }
  }

  /**
   * Removal is case-insensitive: stripping the lower-cased name removes the
   * same positions as stripping the name, so the results agree up to case.
   */
  lemma {:induction false} StripIgnoresCase(s: string, i: nat, words: seq<string>)
    requires i <= |s| && WordList(words)
    ensures StripFrom(Lower(s), i, words) == Lower(StripFrom(s, i, words))
    decreases |s| - i
  {
    if i < |s| {
      var l := Lower(s);
      MatchIgnoresCase(s, i, words);
      var n := FirstMatchLength(s, i, words);
      if n > 0 && i + n <= |s| {
        StripIgnoresCase(s, i + n, words);
        StripSkips(s, i, words);
        StripSkips(l, i, words);
      } else {
        StripIgnoresCase(s, i + 1, words);
        StripKeeps(s, i, words);
        StripKeeps(l, i, words);
        LowerAppend([s[i]], StripFrom(s, i + 1, words));
      }
    }
  }

  /** A match at `i` is dropped and the scan resumes after it. */
  lemma StripSkips(s: string, i: nat, words: seq<string>)
    requires i < |s| && WordList(words)
    requires FirstMatchLength(s, i, words) > 0 && i + FirstMatchLength(s, i, words) <= |s|
    ensures StripFrom(s, i, words) == StripFrom(s, i + FirstMatchLength(s, i, words), words)
  {
  }

  /** Without a match at `i`, the character there is kept. */
  lemma StripKeeps(s: string, i: nat, words: seq<string>)
    requires i < |s| && WordList(words)
    requires !(FirstMatchLength(s, i, words) > 0 && i + FirstMatchLength(s, i, words) <= |s|)
    ensures StripFrom(s, i, words) == [s[i]] + StripFrom(s, i + 1, words)
  {
  }

  /** Cleaning commutes with lower-casing: legal-form words are matched in any case. */
  lemma StripLegalWordsIgnoresCase(s: string)
    ensures StripLegalWords(Lower(s)) == Lower(StripLegalWords(s))
  {
    LegalWordsAreWords();
    StripIgnoresCase(s, 0, LegalWords);
  }

  /** A string of word characters has no boundary strictly inside it. */
  lemma NoInnerBoundary(s: string, k: int)
    requires forall j :: 0 <= j < |s| ==> IsWordChar(s[j])
    requires 0 < k < |s|
    ensures !Boundary(s, k)
  {
  }

  /** A string that is one of the words, in any letter case, is removed entirely. */
  lemma WordAloneIsRemoved(s: string, words: seq<string>, k: nat)
    requires WordList(words) && k < |words| && Lower(s) == Lower(words[k])
    ensures StripFrom(s, 0, words) == []
  {
    forall j | 0 <= j < |s| ensures IsWordChar(s[j]) && LowerChar(s[j]) == LowerChar(words[k][j]) {
      LowerCharWord(s[j]);
      LowerCharWord(words[k][j]);
    }
    assert WordMatchesAt(s, 0, words[k]);
    var n := FirstMatchLength(s, 0, words);
    FirstMatchLengthSpec(s, 0, words);
    var m :| 0 <= m < |words| && WordMatchesAt(s, 0, words[m]) && n == |words[m]|;
    if n < |s| {
      NoInnerBoundary(s, n);
      assert false;
    }
  }

  // Stripping piece by piece

  /**
   * `m` is a place no whole-word match can straddle: an end of `s`, or a
   * position with a non-word character on one side.
   */
  predicate Cut(s: string, m: int)
  {
    0 <= m <= |s| && (m == 0 || m == |s| || !IsWordChar(s[m - 1]) || !IsWordChar(s[m]))
  }

  /** What follows the first word of a word list is a word list. */
  lemma WordListTail(words: seq<string>)
    requires WordList(words) && words != []
    ensures WordList(words[1..])
  {
    forall k | 0 <= k < |words[1..]| ensures words[1..][k] == words[k + 1] { }
  }

  /** Under a case-insensitive occurrence of a word there are only word characters. */
  lemma FoldedWordChar(s: string, i: nat, w: string, j: int)
    requires FoldedAt(s, i, w) && forall p :: 0 <= p < |w| ==> IsWordChar(w[p])
    requires i <= j < i + |w|
    ensures IsWordChar(s[j])
  {
    assert LowerChar(s[i + (j - i)]) == LowerChar(w[j - i]);
    LowerCharWord(s[j]);
    LowerCharWord(w[j - i]);
  }

  /** Before a cut, a word matches in `s` exactly where it matches in `s[..m]`. */
  lemma WordMatchLeftOfCut(s: string, m: int, i: nat, w: string)
    requires Cut(s, m) && i < m && w != [] && forall p :: 0 <= p < |w| ==> IsWordChar(w[p])
    requires WordMatchesAt(s, i, w) || WordMatchesAt(s[..m], i, w)
    ensures WordMatchesAt(s, i, w) && WordMatchesAt(s[..m], i, w)
  {
    var t := s[..m];
    if FoldedAt(s, i, w) && i + |w| > m {
      FoldedWordChar(s, i, w, m - 1);
      FoldedWordChar(s, i, w, m);
    }
    assert i + |w| <= m;
    assert FoldedAt(t, i, w) && FoldedAt(s, i, w);
    FoldedWordChar(s, i, w, i + |w| - 1);
    assert Boundary(t, i) == Boundary(s, i);
    assert Boundary(t, i + |w|) == Boundary(s, i + |w|);
  }

  /** Before a cut, the first matching word is the same in `s` and in `s[..m]`. */
  lemma {:induction false} MatchLeftOfCut(s: string, m: int, i: nat, words: seq<string>)
    requires Cut(s, m) && i < m && WordList(words)
    ensures FirstMatchLength(s[..m], i, words) == FirstMatchLength(s, i, words)
  {
    if words != [] {
      if WordMatchesAt(s, i, words[0]) || WordMatchesAt(s[..m], i, words[0]) {
        WordMatchLeftOfCut(s, m, i, words[0]);
      } else {
        WordListTail(words);
        MatchLeftOfCut(s, m, i, words[1..]);
      }
    }
  }

  /** After a cut, a word matches in `s` exactly where it matches in `s[m..]`. */
  lemma WordMatchRightOfCut(s: string, m: int, i: nat, w: string)
    requires Cut(s, m) && m <= i && w != [] && forall p :: 0 <= p < |w| ==> IsWordChar(w[p])
    ensures WordMatchesAt(s[m..], i - m, w) == WordMatchesAt(s, i, w)
  {
    var t := s[m..];
    if i + |w| <= |s| {
      assert FoldedAt(t, i - m, w) == FoldedAt(s, i, w);
      assert Boundary(t, i - m + |w|) == Boundary(s, i + |w|);
      if i > m {
        assert Boundary(t, i - m) == Boundary(s, i);
      } else if FoldedAt(s, i, w) {
        FoldedWordChar(s, i, w, i);
        assert Boundary(t, 0) == Boundary(s, m);
      }
    }
  }

  /** After a cut, the first matching word is the same in `s` and in `s[m..]`. */
  lemma {:induction false} MatchRightOfCut(s: string, m: int, i: nat, words: seq<string>)
    requires Cut(s, m) && m <= i && WordList(words)
    ensures FirstMatchLength(s[m..], i - m, words) == FirstMatchLength(s, i, words)
  {
    if words != [] {
      WordMatchRightOfCut(s, m, i, words[0]);
      WordListTail(words);
      MatchRightOfCut(s, m, i, words[1..]);
    }
  }

  /** A word that matches at `i` fits in the string. */
  lemma {:induction false} MatchFits(s: string, i: nat, words: seq<string>)
    requires WordList(words) && FirstMatchLength(s, i, words) > 0
    ensures i + FirstMatchLength(s, i, words) <= |s|
  {
    if !WordMatchesAt(s, i, words[0]) {
      WordListTail(words);
      MatchFits(s, i, words[1..]);
    }
  }

  /** One step of `StripLeftOfCut` over a match at `i`. */
  lemma LeftSkip(s: string, m: int, i: nat, words: seq<string>)
    requires Cut(s, m) && i < m && WordList(words)
    requires FirstMatchLength(s[..m], i, words) == FirstMatchLength(s, i, words) > 0
    requires i + FirstMatchLength(s, i, words) <= m
    requires var n := FirstMatchLength(s, i, words);
      StripFrom(s, i + n, words) == StripFrom(s[..m], i + n, words) + StripFrom(s, m, words)
    ensures StripFrom(s, i, words) == StripFrom(s[..m], i, words) + StripFrom(s, m, words)
  {
    StripSkips(s, i, words);
    StripSkips(s[..m], i, words);
  }

  /** One step of `StripLeftOfCut` over a kept character at `i`. */
  lemma LeftKeep(s: string, m: int, i: nat, words: seq<string>)
    requires Cut(s, m) && i < m && WordList(words)
    requires FirstMatchLength(s[..m], i, words) == FirstMatchLength(s, i, words) == 0
    requires StripFrom(s, i + 1, words) == StripFrom(s[..m], i + 1, words) + StripFrom(s, m, words)
    ensures StripFrom(s, i, words) == StripFrom(s[..m], i, words) + StripFrom(s, m, words)
  {
    var t := s[..m];
    StripKeeps(s, i, words);
    StripKeeps(t, i, words);
    assert t[i] == s[i];
    ConsAppend(s[i], StripFrom(t, i + 1, words), StripFrom(s, m, words));
  }

  lemma ConsAppend(c: char, a: string, b: string)
    ensures [c] + (a + b) == ([c] + a) + b
  {
  }

  /** Stripping from `i` up to a cut depends only on the text before the cut. */
  lemma {:induction false} StripLeftOfCut(s: string, m: int, i: nat, words: seq<string>)
    requires Cut(s, m) && i <= m && WordList(words)
    ensures StripFrom(s, i, words) == StripFrom(s[..m], i, words) + StripFrom(s, m, words)
    decreases m - i
  {
    if i == m {
      assert StripFrom(s[..m], i, words) == [];
    } else {
      MatchLeftOfCut(s, m, i, words);
      var n := FirstMatchLength(s, i, words);
      if n > 0 {
        MatchFits(s[..m], i, words);
        StripLeftOfCut(s, m, i + n, words);
        LeftSkip(s, m, i, words);
      } else {
        StripLeftOfCut(s, m, i + 1, words);
        LeftKeep(s, m, i, words);
      }
    }
  }

  /** One step of `StripRightOfCut` over a match at `i`. */
  lemma RightSkip(s: string, m: int, i: nat, words: seq<string>)
    requires Cut(s, m) && m <= i < |s| && WordList(words)
    requires FirstMatchLength(s[m..], i - m, words) == FirstMatchLength(s, i, words) > 0
    requires var n := FirstMatchLength(s, i, words);
      i + n <= |s| && StripFrom(s, i + n, words) == StripFrom(s[m..], i + n - m, words)
    ensures StripFrom(s, i, words) == StripFrom(s[m..], i - m, words)
  {
    StripSkips(s, i, words);
    StripSkips(s[m..], i - m, words);
  }

  /** One step of `StripRightOfCut` over a kept character at `i`. */
  lemma RightKeep(s: string, m: int, i: nat, words: seq<string>)
    requires Cut(s, m) && m <= i < |s| && WordList(words)
    requires FirstMatchLength(s[m..], i - m, words) == FirstMatchLength(s, i, words)
    requires var n := FirstMatchLength(s, i, words); !(n > 0 && i + n <= |s|)
    requires StripFrom(s, i + 1, words) == StripFrom(s[m..], i + 1 - m, words)
    ensures StripFrom(s, i, words) == StripFrom(s[m..], i - m, words)
  {
    StripKeeps(s, i, words);
    StripKeeps(s[m..], i - m, words);
    assert s[m..][i - m] == s[i];
  }

  /** Stripping from a position after a cut depends only on the text after it. */
  lemma {:induction false} StripRightOfCut(s: string, m: int, i: nat, words: seq<string>)
    requires Cut(s, m) && m <= i <= |s| && WordList(words)
    ensures StripFrom(s, i, words) == StripFrom(s[m..], i - m, words)
    decreases |s| - i
  {
    if i < |s| {
      MatchRightOfCut(s, m, i, words);
      var n := FirstMatchLength(s, i, words);
      if n > 0 && i + n <= |s| {
        StripRightOfCut(s, m, i + n, words);
        RightSkip(s, m, i, words);
      } else {
        StripRightOfCut(s, m, i + 1, words);
        RightKeep(s, m, i, words);
      }
    }
  }

  /**
   * The replace works piece by piece: cut at an end of the name or next to a
   * non-word character, the name is stripped as its two parts are, and the
   * results are joined.
   */
  lemma StripAtCut(s: string, m: int, words: seq<string>)
    requires WordList(words) && Cut(s, m)
    ensures StripFrom(s, 0, words) == StripFrom(s[..m], 0, words) + StripFrom(s[m..], 0, words)
  {
    StripLeftOfCut(s, m, 0, words);
    StripRightOfCut(s, m, m, words);
  }

  /**
   * A legal-form word closing a name, after a non-word character such as a
   * space, is removed, and the rest of the name is cleaned as on its own.
   */
  lemma LegalSuffixRemoved(a: string, w: string, k: nat)
    requires k < |LegalWords| && Lower(w) == Lower(LegalWords[k])
    requires a == [] || !IsWordChar(a[|a| - 1])
    ensures StripLegalWords(a + w) == StripLegalWords(a)
  {
    LegalWordsAreWords();
    var s := a + w;
    assert s[..|a|] == a && s[|a|..] == w;
    StripAtCut(s, |a|, LegalWords);
    WordAloneIsRemoved(w, LegalWords, k);
  }

  /**
   * A legal-form word opening a name, before a non-word character, is
   * removed, and the rest of the name is cleaned as on its own.
   */
  lemma LegalPrefixRemoved(w: string, b: string, k: nat)
    requires k < |LegalWords| && Lower(w) == Lower(LegalWords[k])
    requires b == [] || !IsWordChar(b[0])
    ensures StripLegalWords(w + b) == StripLegalWords(b)
  {
    LegalWordsAreWords();
    var s := w + b;
    assert s[..|w|] == w && s[|w|..] == b;
    StripAtCut(s, |w|, LegalWords);
    WordAloneIsRemoved(w, LegalWords, k);
  }

  /** A name that is just a legal-form word, in any letter case, is cleaned down to "". */
  lemma LegalWordAloneIsRemoved(s: string, k: nat)
    requires k < |LegalWords| && Lower(s) == Lower(LegalWords[k])
    ensures CleanName(s) == []
  {
    LegalWordsAreWords();
    WordAloneIsRemoved(s, LegalWords, k);
  }

  // The widget

  /** The line under the input: nothing, or one of the two validation messages. */
  datatype ErrorLine = NoError | EnterName | TooShort

  /** The text of an error line in the widget's locale; only "no error" is blank. */
  function ErrorText(e: ErrorLine, locale: string): (t: string)
    ensures t == [] <==> e == NoError
    ensures e == EnterName && locale == "fr" ==> t == "Veuillez entrer un nom"
    ensures e == EnterName && locale != "fr" ==> t == "Please enter a name"
    ensures e == TooShort && locale == "fr" ==> t == "Le nom doit contenir au moins 3 caractères"
    ensures e == TooShort && locale != "fr" ==> t == "Name must be at least 3 characters"
  {
    match e
    case NoError => ""
    case EnterName =>
      if locale == "fr" then "Veuillez entrer un nom" else "Please enter a name"
    case TooShort =>
      if locale == "fr" then "Le nom doit contenir au moins 3 caractères" else "Name must be at least 3 characters"
  }

  datatype Validation = Rejected(problem: ErrorLine) | Accepted(name: string)

  /**
   * The checks `handleCheck` makes before asking for availability: a blank
   * name, then a trimmed name shorter than 3 characters, is rejected with its
   * error line; any other name is accepted, cleaned of its legal-form words.
   */
  function Validate(businessName: string): Validation
  {
    var trimmed := Trim(businessName);
    if trimmed == [] then Rejected(EnterName)
    else if |trimmed| < 3 then Rejected(TooShort)
    else Accepted(CleanName(businessName))
  }

  /** A name is accepted exactly when its trimmed form has 3 characters or more. */
  lemma ValidateRules(businessName: string)
    ensures var v := Validate(businessName);
      && (v.Accepted? <==> |Trim(businessName)| >= 3)
      && (v.Rejected? ==> v.problem != NoError)
      && (Trim(businessName) == [] ==> v == Rejected(EnterName))
      && (0 < |Trim(businessName)| < 3 ==> v == Rejected(TooShort))
      && (v.Accepted? ==> v.name == CleanName(businessName))
  {
  }

  /** The checker's state: the typed name, the busy flag, the last result and the error line. */
  class Checker {
    const locale: string
    var businessName: string
    var isChecking: bool
    var results: Option<Availability>
    var error: ErrorLine

    /** An absent locale parameter means "fr". */
    constructor (localeParam: string)
      ensures locale == (if localeParam == "" then "fr" else localeParam)
      ensures businessName == "" && !isChecking && results == None && error == NoError
    {
      locale := if localeParam == "" then "fr" else localeParam;
      businessName := "";
      isChecking := false;
      results := None;
      error := NoError;
    }

    /** Typing replaces the name and clears the error. */
    method OnNameInput(value: string)
      modifies this
      ensures businessName == value && error == NoError
      ensures isChecking == old(isChecking) && results == old(results)
    {
      businessName := value;
      error := NoError;
    }

    /** Clicking a suggestion puts it in the input and hides the results. */
    method PickSuggestion(suggestion: string)
      modifies this
      ensures businessName == suggestion && results == None
      ensures isChecking == old(isChecking) && error == old(error)
    {
      businessName := suggestion;
      results := None;
    }

    /**
     * The synchronous half of `handleCheck`, given the outcome of `Validate`:
     * a rejected name shows its error line and nothing else changes; for an
     * accepted one the error is cleared, the busy flag goes up, the old
     * results are dropped and the cleaned name is returned for checking.
     */
    method StartCheck(v: Validation) returns (clean: Option<string>)
      modifies this
      ensures businessName == old(businessName)
      ensures v.Rejected? ==>
        clean == None && error == v.problem
        && isChecking == old(isChecking) && results == old(results)
      ensures v.Accepted? ==>
        clean == Some(v.name) && error == NoError && isChecking && results == None
    {
      if v.Rejected? {
        error := v.problem;
        clean := None;
      } else {
        error := NoError;
        isChecking := true;
        results := None;
        clean := Some(v.name);
      }
    }

    /** The half after the simulated request: the result is shown and the busy flag drops. */
    method FinishCheck(cleanName: string)
      modifies this
      ensures results == Some(CheckNameAvailability(cleanName)) && !isChecking
      ensures businessName == old(businessName) && error == old(error)
    {
      var availability := CheckNameAvailability(cleanName);
      results := Some(availability);
      isChecking := false;
    }

    /** `handleCheck` as one step: validate, clean, check, show. */
    method HandleCheck()
      modifies this
      ensures businessName == old(businessName)
      ensures var v := Validate(old(businessName));
        && (v.Rejected? ==>
              error == v.problem
              && isChecking == old(isChecking) && results == old(results))
        && (v.Accepted? ==>
              error == NoError && !isChecking
              && results == Some(CheckNameAvailability(v.name)))
    {
      var v := Validate(businessName);
      var clean := StartCheck(v);
      if clean.Some? {
        FinishCheck(clean.value);
      }
    }
  }

  /** The empty name contains no forbidden word, so it is reported available. */
  lemma EmptyNameAvailable()
    ensures CheckNameAvailability([]) == Availability(Some(true), [])
  {
    assert Lower([]) == [];
    forall k | 0 <= k < |Forbidden| ensures !Contains(Lower([]), Forbidden[k]) {
    }
  }

  /** Every legal-form word has at least three characters. */
  lemma LegalWordsLong(k: nat)
    requires k < |LegalWords|
    ensures |LegalWords[k]| >= 3
  {
    assert k == 0 || k == 1 || k == 2 || k == 3 || k == 4 || k == 5 || k == 6;
  }

  /** A non-empty string of word characters has no space to trim. */
  lemma WordIsTrimmed(w: string)
    requires w != [] && forall j :: 0 <= j < |w| ==> IsWordChar(w[j])
    ensures Trim(w) == w
  {
    assert IsWordChar(w[0]) && IsWordChar(w[|w| - 1]);
    TrimUnspaced(w);
  }

  /**
   * Length is validated before cleaning: a legal word on its own, such as
   * "LLC", passes validation (at least three characters), is cleaned to ""
   * and the empty name is reported available.
   */
  lemma LegalWordAloneReportedAvailable(k: nat)
    requires k < |LegalWords|
    ensures |Trim(LegalWords[k])| >= 3
    ensures CleanName(LegalWords[k]) == []
    ensures CheckNameAvailability(CleanName(LegalWords[k])) == Availability(Some(true), [])
  {
    LegalWordsLong(k);
    LegalWordsAreWords();
    WordIsTrimmed(LegalWords[k]);
    LegalWordAloneIsRemoved(LegalWords[k], k);
    EmptyNameAvailable();
  }
}
