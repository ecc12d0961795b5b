/** The wildcard filter of the test runner, `wildcmp` (third-party/doctest/doctest.h:3481-3518). */
module WildcardMatch {

  /** A C string: the characters before the terminating NUL. */
  type CString = s: string | '\0' !in s

  /** The character that a cursor into s points to. */
  function At(s: CString, cursor: nat): char
    requires cursor <= |s|
  {
    if cursor < |s| then s[cursor] else '\0'
  }

  /** tolower in the "C" locale. */
  function ToLower(c: char): char {
    if 'A' <= c <= 'Z' then c - 'A' + 'a' else c
  }

  predicate SameChar(a: char, b: char, caseSensitive: bool) {
    if caseSensitive then a == b else ToLower(a) == ToLower(b)
  }

  // What a pattern means: every pattern character stands for a piece of the string.

  predicate Stands(wild: char, piece: string, caseSensitive: bool) {
    wild == '*' || (|piece| == 1 && (wild == '?' || SameChar(wild, piece[0], caseSensitive)))
  }

  function Joined(pieces: seq<string>): string {
    if pieces == [] then "" else pieces[0] + Joined(pieces[1..])
  }

  ghost predicate Explains(pieces: seq<string>, str: string, wild: string, caseSensitive: bool) {
    && |pieces| == |wild|
    && (forall i :: 0 <= i < |wild| ==> Stands(wild[i], pieces[i], caseSensitive))
    && Joined(pieces) == str
  }

  /** Some substrings for the stars and characters for the question marks turn the pattern into
      the string. */
  ghost predicate Glob(str: string, wild: string, caseSensitive: bool) {
    exists pieces :: Explains(pieces, str, wild, caseSensitive)
  }

  predicate StandsForOne(wild: char, c: char, caseSensitive: bool) {
    SameChar(wild, c, caseSensitive) || wild == '?'
  }

  /** The same, by recursion on pattern and string. */
  ghost predicate Matches(str: string, wild: string, caseSensitive: bool)
    decreases |str| + |wild|
  {
    if wild == "" then
      str == ""
    else if wild[0] == '*' then
      Matches(str, wild[1..], caseSensitive) || (str != "" && Matches(str[1..], wild, caseSensitive))
    else
      str != "" && StandsForOne(wild[0], str[0], caseSensitive) && Matches(str[1..], wild[1..], caseSensitive)
  }

  lemma {:induction false} ExplainedMatches(pieces: seq<string>, str: string, wild: string, caseSensitive: bool)
    requires Explains(pieces, str, wild, caseSensitive)
    ensures Matches(str, wild, caseSensitive)
    decreases |wild|
  {
    if wild != "" {
      var rest := str[|pieces[0]|..];
      assert str == pieces[0] + rest && rest == Joined(pieces[1..]);
      ExplainedMatches(pieces[1..], rest, wild[1..], caseSensitive);
      if wild[0] == '*' {
        StarAbsorbs(pieces[0], rest, wild, caseSensitive);
      } else {
        assert rest == str[1..];
      }
    }
  }

  /** A star takes any prefix. */
  lemma {:induction false} StarAbsorbs(prefix: string, rest: string, wild: string, caseSensitive: bool)
    requires wild != "" && wild[0] == '*'
    requires Matches(rest, wild[1..], caseSensitive) || Matches(rest, wild, caseSensitive)
    ensures Matches(prefix + rest, wild, caseSensitive)
    decreases |prefix|
  {
    if prefix == "" {
      assert prefix + rest == rest;
    } else {
      StarAbsorbs(prefix[1..], rest, wild, caseSensitive);
      assert (prefix + rest)[1..] == prefix[1..] + rest;
    }
  }

  lemma {:induction false} MatchIsExplained(str: string, wild: string, caseSensitive: bool)
    returns (pieces: seq<string>)
    requires Matches(str, wild, caseSensitive)
    ensures Explains(pieces, str, wild, caseSensitive)
    decreases |str| + |wild|
  {
    if wild == "" {
      pieces := [];
    } else if wild[0] == '*' && Matches(str, wild[1..], caseSensitive) {
      var rest := MatchIsExplained(str, wild[1..], caseSensitive);
      pieces := [""] + rest;
      assert pieces[1..] == rest;
    } else if wild[0] == '*' {
      var longer := MatchIsExplained(str[1..], wild, caseSensitive);
      pieces := [[str[0]] + longer[0]] + longer[1..];
      assert pieces[1..] == longer[1..];
      assert str == [str[0]] + str[1..];
    } else {
      var rest := MatchIsExplained(str[1..], wild[1..], caseSensitive);
      pieces := [[str[0]]] + rest;
      assert pieces[1..] == rest;
      assert str == [str[0]] + str[1..];
    }
  }

  lemma GlobIsMatches(str: string, wild: string, caseSensitive: bool)
    ensures Glob(str, wild, caseSensitive) <==> Matches(str, wild, caseSensitive)
  {
    if Glob(str, wild, caseSensitive) {
      var pieces :| Explains(pieces, str, wild, caseSensitive);
      ExplainedMatches(pieces, str, wild, caseSensitive);
    }
    if Matches(str, wild, caseSensitive) {
      var pieces := MatchIsExplained(str, wild, caseSensitive);
    }
  }

  // What upper and lower case mean: told letter by letter, not by the comparison of the matcher.

  const UPPER := "ABCDEFGHIJKLMNOPQRSTUVWXYZ"
  const LOWER := "abcdefghijklmnopqrstuvwxyz"

  /** The two forms of one letter. */
  ghost predicate Forms(upper: char, lower: char) {
    exists k :: 0 <= k < 26 && UPPER[k] == upper && LOWER[k] == lower
  }

  ghost predicate SameLetter(a: char, b: char) {
    a == b || Forms(a, b) || Forms(b, a)
  }

  lemma LettersInOrder()
    ensures forall k :: 0 <= k < 26 ==> UPPER[k] == 'A' + k as char && LOWER[k] == 'a' + k as char
  {
  }

  lemma FormsAre(upper: char, lower: char)
    ensures Forms(upper, lower) <==> 'A' <= upper <= 'Z' && lower as int == upper as int + 32
  {
    LettersInOrder();
    if 'A' <= upper <= 'Z' && lower as int == upper as int + 32 {
      var k := upper as int - 'A' as int;
      assert UPPER[k] == upper && LOWER[k] == lower;
    }
  }

  /** Without case two characters compare equal exactly if they are the same or the two forms of
      one of the 26 letters; with case, exactly if they are the same. */
  lemma ComparedByLetter(a: char, b: char)
    ensures SameChar(a, b, false) <==> SameLetter(a, b)
    ensures SameChar(a, b, true) <==> a == b
  {
    hide Forms;
    FormsAre(a, b);
    FormsAre(b, a);
  }

  ghost predicate SameLetters(s: string, t: string) {
    |s| == |t| && forall i :: 0 <= i < |s| ==> SameLetter(s[i], t[i])
  }

  /** Letters of string and pattern may change case one by one. */
  lemma LettersCompareAlike(a: char, a': char, b: char, b': char)
    requires SameLetter(a, a') && SameLetter(b, b')
    ensures SameChar(a, b, false) <==> SameChar(a', b', false)
    ensures (a == '*' <==> a' == '*') && (a == '?' <==> a' == '?')
  {
    ComparedByLetter(a, a');
    ComparedByLetter(b, b');
  }

  lemma {:induction false} CaseChangesKeepMatch(str: string, str': string, wild: string, wild': string)
    requires SameLetters(str, str') && SameLetters(wild, wild')
    ensures Matches(str, wild, false) <==> Matches(str', wild', false)
    decreases |str| + |wild|
  {
    hide SameLetter, SameChar;
    if wild != "" {
      LettersCompareAlike(wild[0], wild'[0], 'x', 'x') by { SelfLetter('x'); }
      if wild[0] == '*' {
        CaseChangesKeepMatch(str, str', wild[1..], wild'[1..]);
        if str != "" {
          CaseChangesKeepMatch(str[1..], str'[1..], wild, wild');
        }
      } else if str != "" {
        LettersCompareAlike(wild[0], wild'[0], str[0], str'[0]);
        CaseChangesKeepMatch(str[1..], str'[1..], wild[1..], wild'[1..]);
      }
    }
  }

  lemma SelfLetter(c: char)
    ensures SameLetter(c, c)
  {
  }

  /** In the mode without case the verdict does not depend on the case of any letter, in the string
      or in the pattern. */
  lemma CaseDoesNotMatter(str: string, str': string, wild: string, wild': string)
    requires SameLetters(str, str') && SameLetters(wild, wild')
    ensures Glob(str, wild, false) <==> Glob(str', wild', false)
  {
    GlobIsMatches(str, wild, false);
    GlobIsMatches(str', wild', false);
    CaseChangesKeepMatch(str, str', wild, wild');
  }

  /** A pattern without stars and question marks matches itself alone: in the mode without case up
      to the case of letters, in the other mode exactly. */
  lemma PlainPatternIsItself(str: string, wild: string)
    requires '*' !in wild && '?' !in wild
    ensures Glob(str, wild, false) <==> SameLetters(str, wild)
    ensures Glob(str, wild, true) <==> str == wild
  {
    GlobIsMatches(str, wild, false);
    GlobIsMatches(str, wild, true);
    PlainMatches(str, wild);
  }

  lemma {:induction false} PlainMatches(str: string, wild: string)
    requires '*' !in wild && '?' !in wild
    ensures Matches(str, wild, false) <==> SameLetters(str, wild)
    ensures Matches(str, wild, true) <==> str == wild
    decreases |wild|
  {
    hide SameLetter, SameChar;
    if wild != "" && str != "" {
      PlainMatches(str[1..], wild[1..]);
      ComparedByLetter(wild[0], str[0]);
      LetterSymmetric(wild[0], str[0]);
      assert str == [str[0]] + str[1..] && wild == [wild[0]] + wild[1..];
    }
  }

  lemma LetterSymmetric(a: char, b: char)
    ensures SameLetter(a, b) <==> SameLetter(b, a)
  {
  }

  /** The part of the pattern since the last star agrees, character by character, with the
      string from `from` on. */
  ghost predicate Agrees(str: string, from: nat, wild: string, first: nat, count: nat, caseSensitive: bool) {
    && from + count <= |str| && first + count <= |wild|
    && forall k :: first <= k < first + count ==>
         wild[k] != '*' && StandsForOne(wild[k], str[from + (k - first)], caseSensitive)
  }

  /** A match of a star-free part moves both cursors. */
  lemma {:induction false} PlainPartMoves(str: string, from: nat, wild: string, first: nat, count: nat, caseSensitive: bool)
    requires from <= |str| && first + count <= |wild|
    requires forall k :: first <= k < first + count ==> wild[k] != '*'
    requires Matches(str[from..], wild[first..], caseSensitive)
    ensures from + count <= |str| && Matches(str[from + count..], wild[first + count..], caseSensitive)
    decreases count
  {
    if count > 0 {
      assert str[from..][1..] == str[from + 1..] && wild[first..][1..] == wild[first + 1..];
      PlainPartMoves(str, from + 1, wild, first + 1, count - 1, caseSensitive);
    }
  }

  /** A star matches from somewhere. */
  lemma {:induction false} StarStartsSomewhere(str: string, from: nat, wild: string, star: nat, caseSensitive: bool)
    returns (start: nat)
    requires from <= |str| && star < |wild| && wild[star] == '*'
    requires Matches(str[from..], wild[star..], caseSensitive)
    ensures from <= start <= |str| && Matches(str[start..], wild[star + 1..], caseSensitive)
    decreases |str| - from
  {
    assert wild[star..][1..] == wild[star + 1..];
    if Matches(str[from..], wild[star + 1..], caseSensitive) {
      start := from;
    } else {
      assert str[from..][1..] == str[from + 1..];
      start := StarStartsSomewhere(str, from + 1, wild, star, caseSensitive);
    }
  }

  /** Starting the part after the last star later cannot help: not if the string has ended, and
      not if the next star is reached, since that star can take what the earlier start leaves. */
  lemma LaterStartsAreUseless(str: string, cp: nat, wild: string, mp: nat, count: nat, caseSensitive: bool)
    requires 0 < cp && 0 < mp <= |wild| && wild[mp - 1] == '*'
    requires Agrees(str, cp - 1, wild, mp, count, caseSensitive)
    requires cp <= |str| && Matches(str[cp..], wild[mp - 1..], caseSensitive)
    ensures cp - 1 + count < |str|
    ensures mp + count < |wild| && wild[mp + count] == '*' ==>
              Matches(str[cp - 1 + count..], wild[mp + count..], caseSensitive)
  {
    var start := StarStartsSomewhere(str, cp, wild, mp - 1, caseSensitive);
    PlainPartMoves(str, start, wild, mp, count, caseSensitive);
    if mp + count < |wild| && wild[mp + count] == '*' {
      var here := cp - 1 + count;
      assert str[here..] == str[here..start + count] + str[start + count..];
      StarAbsorbs(str[here..start + count], str[start + count..], wild[mp + count..], caseSensitive);
    }
  }

  /** One character of the pattern, or one more try of the star. */
  lemma MatchesAt(str: string, i: nat, wild: string, w: nat, caseSensitive: bool)
    requires i <= |str| && w < |wild|
    ensures wild[w] != '*' ==>
              (Matches(str[i..], wild[w..], caseSensitive)
               <==> i < |str| && StandsForOne(wild[w], str[i], caseSensitive)
                    && Matches(str[i + 1..], wild[w + 1..], caseSensitive))
    ensures wild[w] == '*' ==>
              (Matches(str[i..], wild[w..], caseSensitive)
               <==> Matches(str[i..], wild[w + 1..], caseSensitive)
                    || (i < |str| && Matches(str[i + 1..], wild[w..], caseSensitive)))
  {
    assert wild[w..][1..] == wild[w + 1..];
    if i < |str| {
      assert str[i..][1..] == str[i + 1..];
    }
  }

  lemma AtEndOfPattern(str: string, i: nat, wild: string, caseSensitive: bool)
    requires i <= |str|
    ensures Matches(str[i..], wild[|wild|..], caseSensitive) <==> i == |str|
  {
  }

  /** A character that differs from the pattern's, or a pattern that has ended, is no match. */
  lemma NoMatchHere(str: CString, s: nat, wild: CString, w: nat, caseSensitive: bool)
    requires s < |str| && w <= |wild| && At(wild, w) != '*'
    requires !SameChar(At(wild, w), str[s], caseSensitive) && At(wild, w) != '?'
    ensures !Matches(str[s..], wild[w..], caseSensitive)
  {
    if w < |wild| {
      MatchesAt(str, s, wild, w, caseSensitive);
    } else {
      AtEndOfPattern(str, s, wild, caseSensitive);
    }
  }

  lemma FinalStar(str: string, s: nat, wild: string, caseSensitive: bool)
    requires s <= |str| && wild != "" && wild[|wild| - 1] == '*'
    ensures Matches(str[s..], wild[|wild| - 1..], caseSensitive)
  {
    var star := wild[|wild| - 1..];
    assert Matches("", star[1..], caseSensitive);
    StarAbsorbs(str[s..], "", star, caseSensitive);
    assert str[s..] + "" == str[s..];
  }

  /** The cursors of the second loop: mp follows the last star (0: none yet), and the attempt
      that started at cp - 1 has led to s and w. */
  ghost predicate OnTrack(str: string, s: nat, wild: string, w: nat, cp: nat, mp: nat, caseSensitive: bool) {
    && s <= |str| && w <= |wild|
    && (mp == 0 ==> cp == 0 && (s < |str| ==> w < |wild| && wild[w] == '*'))
    && (mp > 0 ==> mp <= w && wild[mp - 1] == '*' && 0 < cp && s == cp - 1 + (w - mp)
                   && Agrees(str, cp - 1, wild, mp, w - mp, caseSensitive))
  }

  /** Either this attempt succeeds or a later start of the part after the last star does. */
  ghost predicate Open(str: string, s: nat, wild: string, w: nat, cp: nat, mp: nat, caseSensitive: bool)
    requires OnTrack(str, s, wild, w, cp, mp, caseSensitive)
  {
    || Matches(str[s..], wild[w..], caseSensitive)
    || (0 < mp && cp <= |str| && Matches(str[cp..], wild[mp - 1..], caseSensitive))
  }

  /** At a new star, or at the end of the string, only the current attempt is left. */
  lemma OnlyThisAttempt(str: string, s: nat, wild: string, w: nat, cp: nat, mp: nat, caseSensitive: bool)
    requires OnTrack(str, s, wild, w, cp, mp, caseSensitive)
    requires s == |str| || (w < |wild| && wild[w] == '*')
    ensures Open(str, s, wild, w, cp, mp, caseSensitive) <==> Matches(str[s..], wild[w..], caseSensitive)
  {
    if 0 < mp && cp <= |str| && Matches(str[cp..], wild[mp - 1..], caseSensitive) {
      LaterStartsAreUseless(str, cp, wild, mp, w - mp, caseSensitive);
    }
  }

  lemma StarStep(str: string, s: nat, wild: string, w: nat, cp: nat, mp: nat, caseSensitive: bool)
    requires OnTrack(str, s, wild, w, cp, mp, caseSensitive)
    requires s < |str| && w < |wild| && wild[w] == '*'
    ensures OnTrack(str, s, wild, w + 1, s + 1, w + 1, caseSensitive)
    ensures Open(str, s, wild, w + 1, s + 1, w + 1, caseSensitive) <==> Open(str, s, wild, w, cp, mp, caseSensitive)
    ensures w + 1 == |wild| ==> Open(str, s, wild, w, cp, mp, caseSensitive)
  {
    OnlyThisAttempt(str, s, wild, w, cp, mp, caseSensitive);
    MatchesAt(str, s, wild, w, caseSensitive);
    if w + 1 == |wild| {
      FinalStar(str, s, wild, caseSensitive);
    }
  }

  lemma CharStep(str: string, s: nat, wild: string, w: nat, cp: nat, mp: nat, caseSensitive: bool)
    requires OnTrack(str, s, wild, w, cp, mp, caseSensitive)
    requires s < |str| && w < |wild| && wild[w] != '*' && StandsForOne(wild[w], str[s], caseSensitive)
    ensures OnTrack(str, s + 1, wild, w + 1, cp, mp, caseSensitive)
    ensures Open(str, s + 1, wild, w + 1, cp, mp, caseSensitive) <==> Open(str, s, wild, w, cp, mp, caseSensitive)
  {
    MatchesAt(str, s, wild, w, caseSensitive);
  }

  lemma RetryStep(str: CString, s: nat, wild: CString, w: nat, cp: nat, mp: nat, caseSensitive: bool)
    requires OnTrack(str, s, wild, w, cp, mp, caseSensitive)
    requires s < |str| && At(wild, w) != '*'
    requires !SameChar(At(wild, w), str[s], caseSensitive) && At(wild, w) != '?'
    ensures OnTrack(str, cp, wild, mp, cp + 1, mp, caseSensitive)
    ensures Open(str, cp, wild, mp, cp + 1, mp, caseSensitive) <==> Open(str, s, wild, w, cp, mp, caseSensitive)
  {
    NoMatchHere(str, s, wild, w, caseSensitive);
    MatchesAt(str, cp, wild, mp - 1, caseSensitive);
  }

  /** The matcher remembers only the last star. */
  method WildCmp(str: CString, wild: CString, caseSensitive: bool) returns (matched: bool)
    ensures matched <==> Glob(str, wild, caseSensitive)
  {
    hide Glob, Matches, Agrees, Open;
    GlobIsMatches(str, wild, caseSensitive);
    ghost var whole := Matches(str, wild, caseSensitive);
    var s, w := 0, 0;
    var cp, mp := 0, 0;
    assert str[0..] == str && wild[0..] == wild;

    while At(str, s) != '\0' && At(wild, w) != '*'
      invariant s <= |str| && w <= |wild|
      invariant whole <==> Matches(str[s..], wild[w..], caseSensitive)
      decreases |str| - s
    {
      if !SameChar(At(wild, w), At(str, s), caseSensitive) && At(wild, w) != '?' {
        NoMatchHere(str, s, wild, w, caseSensitive);
        return false;
      }
      MatchesAt(str, s, wild, w, caseSensitive);
      w := w + 1;
      s := s + 1;
    }

    OnlyThisAttempt(str, s, wild, w, cp, mp, caseSensitive);
    while At(str, s) != '\0'
      invariant OnTrack(str, s, wild, w, cp, mp, caseSensitive)
      invariant whole <==> Open(str, s, wild, w, cp, mp, caseSensitive)
      decreases |wild| - mp, |str| + 1 - cp, |str| - s
    {
      if At(wild, w) == '*' {
        StarStep(str, s, wild, w, cp, mp, caseSensitive);
        w := w + 1;
        if At(wild, w) == '\0' {
          return true;
        }
        mp := w;
        cp := s + 1;
      } else if SameChar(At(wild, w), At(str, s), caseSensitive) || At(wild, w) == '?' {
        CharStep(str, s, wild, w, cp, mp, caseSensitive);
        w := w + 1;
        s := s + 1;
      } else {
        RetryStep(str, s, wild, w, cp, mp, caseSensitive);
        w := mp;
        s := cp;
        cp := cp + 1;
      }
    }

    OnlyThisAttempt(str, s, wild, w, cp, mp, caseSensitive);
    while At(wild, w) == '*'
      invariant w <= |wild|
      invariant whole <==> Matches(str[|str|..], wild[w..], caseSensitive)
      decreases |wild| - w
    {
      MatchesAt(str, |str|, wild, w, caseSensitive);
      w := w + 1;
    }
    if w < |wild| {
      MatchesAt(str, |str|, wild, w, caseSensitive);
    } else {
      AtEndOfPattern(str, |str|, wild, caseSensitive);
    }
    return At(wild, w) == '\0';
  }
}
