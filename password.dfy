/** calculatePasswordStrength: a score from 0 to 100 built from length
    bonuses, character-class bonuses, a diversity bonus and penalties for
    common patterns, a level named after the score, and feedback messages. */
module Password {
  import opened Types
  import Utf8
  import Compression

  const EMPTY_FEEDBACK: string := "Introduza uma password"
  const SHORT_FEEDBACK: string := "Use pelo menos 6 caracteres"
  const REPEAT_FEEDBACK: string := "Evite caracteres repetidos"

  const WEAK: string := "fraca"
  const FAIR: string := "razoável"
  const GOOD: string := "boa"
  const STRONG: string := "forte"
  const VERY_STRONG: string := "muito forte"

  /** What calculatePasswordStrength returns. */
  datatype Strength = Strength(score: int, level: string, feedback: seq<string>)

  // ---------------------------------------------------------------------------
  // The patterns the scorer tests (regular expressions without the `u` flag,
  // so they look at UTF-16 code units)

  predicate IsLower(c: CodeUnit) { 0x61 <= c <= 0x7A }
  predicate IsUpper(c: CodeUnit) { 0x41 <= c <= 0x5A }
  predicate IsDigit(c: CodeUnit) { 0x30 <= c <= 0x39 }

  /** The 30 characters of the class `[!@#$%^&*()_+\-=\[\]{};':"\\|,.<>\/?]`. */
  const SPECIALS: seq<CodeUnit> := [
    0x21, 0x40, 0x23, 0x24, 0x25, 0x5E, 0x26, 0x2A, 0x28, 0x29,
    0x5F, 0x2B, 0x2D, 0x3D, 0x5B, 0x5D, 0x7B, 0x7D, 0x3B, 0x27,
    0x3A, 0x22, 0x5C, 0x7C, 0x2C, 0x2E, 0x3C, 0x3E, 0x2F, 0x3F]

  /** Membership in the class, read as the four ASCII ranges it covers:
      `!` to `/`, `:` to `@`, `[` to `_` and `{` to `}`. */
  predicate IsSpecial(c: CodeUnit)
  {
    0x21 <= c <= 0x2F || 0x3A <= c <= 0x40 || 0x5B <= c <= 0x5F || 0x7B <= c <= 0x7D
  }

  /** The four ranges hold exactly the 30 characters listed in the class. */
  lemma SpecialRanges(c: CodeUnit)
    ensures IsSpecial(c) <==> c in SPECIALS
  {
    if 0x21 <= c <= 0x2F {
      PunctuationListed(c);
    } else if 0x3A <= c <= 0x40 || 0x5B <= c <= 0x5F || 0x7B <= c <= 0x7D {
      SymbolsListed(c);
    }
  }

  /** `!` to `/` are all listed. */
  lemma PunctuationListed(c: CodeUnit)
    requires 0x21 <= c <= 0x2F
    ensures c in SPECIALS
  {
    var k :=
        if c == 0x21 then 0 else if c == 0x22 then 21 else if c == 0x23 then 2 else
        if c == 0x24 then 3 else if c == 0x25 then 4 else if c == 0x26 then 6 else
        if c == 0x27 then 19 else if c == 0x28 then 8 else if c == 0x29 then 9 else
        if c == 0x2A then 7 else if c == 0x2B then 11 else if c == 0x2C then 24 else
        if c == 0x2D then 12 else if c == 0x2E then 25 else 28;
    assert SPECIALS[k] == c;
  }

  /** `:` to `@`, `[` to `_` and `{` to `}` are all listed. */
  lemma SymbolsListed(c: CodeUnit)
    requires 0x3A <= c <= 0x40 || 0x5B <= c <= 0x5F || 0x7B <= c <= 0x7D
    ensures c in SPECIALS
  {
    var k :=
        if c == 0x3A then 20 else if c == 0x3B then 18 else if c == 0x3C then 26 else
        if c == 0x3D then 13 else if c == 0x3E then 27 else if c == 0x3F then 29 else
        if c == 0x40 then 1 else if c == 0x5B then 14 else if c == 0x5C then 22 else
        if c == 0x5D then 15 else if c == 0x5E then 5 else if c == 0x5F then 10 else
        if c == 0x7B then 16 else if c == 0x7C then 23 else 17;
    assert SPECIALS[k] == c;
  }

  /** `/[a-z]/.test(p)` */
  predicate HasLower(p: JsString) { exists i :: 0 <= i < |p| && IsLower(p[i]) }
  /** `/[A-Z]/.test(p)` */
  predicate HasUpper(p: JsString) { exists i :: 0 <= i < |p| && IsUpper(p[i]) }
  /** `/\d/.test(p)` */
  predicate HasDigit(p: JsString) { exists i :: 0 <= i < |p| && IsDigit(p[i]) }
  /** The special-character class test. */
  predicate HasSpecial(p: JsString) { exists i :: 0 <= i < |p| && IsSpecial(p[i]) }

  /** `/^[a-z]+$/i.test(p)`: without the `u` flag, case folding maps no
      non-ASCII code unit to an ASCII letter, so only ASCII letters match. */
  predicate AllLetters(p: JsString)
  {
    p != [] && forall i :: 0 <= i < |p| ==> IsLower(p[i]) || IsUpper(p[i])
  }

  /** `/^[0-9]+$/.test(p)` */
  predicate AllDigits(p: JsString)
  {
    p != [] && forall i :: 0 <= i < |p| ==> IsDigit(p[i])
  }

  /** `/(.)\1{2,}/.test(p)`: some code unit other than a line terminator
      occurs three times in a row. */
  predicate HasTriple(p: JsString)
  {
    exists i: nat :: i + 2 < |p| && TripleAt(p, i)
  }

  /** The code unit at i, not a line terminator, is repeated at i + 1 and i + 2. */
  predicate TripleAt(p: JsString, i: nat)
    requires i + 2 < |p|
  {
    !Compression.IsLineTerminator(p[i]) && p[i] == p[i + 1] && p[i + 1] == p[i + 2]
  }

  /** The elements a string iterator yields, as numbers: a surrogate pair is
      one supplementary code point and a lone surrogate stands for itself. */
  function CodePoints(s: JsString): (r: seq<int>)
    ensures |r| <= |s|
    decreases |s|
  {
    if s == [] then []
    else if Utf8.IsHighSurrogate(s[0]) && |s| >= 2 && Utf8.IsLowSurrogate(s[1]) then
      var hi: int, lo: int := s[0], s[1];
      [0x1_0000 + (hi - 0xD800) * 0x400 + (lo - 0xDC00)] + CodePoints(s[2..])
    else [s[0] as int] + CodePoints(s[1..])
  }

  /** `new Set(p).size` */
  function Unique(p: JsString): nat
  {
    |set x | x in CodePoints(p)|
  }

  // ---------------------------------------------------------------------------
  // The score, as a sum of its parts

  function LengthBonus(n: nat): int
  {
    (if n >= 6 then 40 else 0) + (if n >= 10 then 20 else 0) + (if n >= 14 then 20 else 0)
  }

  function ClassBonus(p: JsString): int
  {
    (if HasLower(p) then 5 else 0) + (if HasUpper(p) then 5 else 0) +
    (if HasDigit(p) then 5 else 0) + (if HasSpecial(p) then 5 else 0)
  }

  function DiversityBonus(p: JsString): int
  {
    if Unique(p) >= 10 then 10 else 0
  }

  function Penalty(p: JsString): int
  {
    (if AllLetters(p) then 10 else 0) + (if AllDigits(p) then 20 else 0) +
    (if HasTriple(p) then 10 else 0)
  }

  /** The score before it is clamped. */
  function RawScore(p: JsString): int
  {
    LengthBonus(|p|) + ClassBonus(p) + DiversityBonus(p) - Penalty(p)
  }

  /** `Math.max(0, Math.min(100, x))` */
  function Clamp(x: int): (r: int)
    ensures 0 <= r <= 100
    ensures 0 <= x <= 100 ==> r == x
    ensures x < 0 ==> r == 0
    ensures x > 100 ==> r == 100
  {
    if x > 100 then 100 else if x < 0 then 0 else x
  }

  /** The level of a score: cut points 30, 50, 70 and 90. */
  function Level(score: int): string
  {
    if score < 30 then WEAK
    else if score < 50 then FAIR
    else if score < 70 then GOOD
    else if score < 90 then STRONG
    else VERY_STRONG
  }

  /** The position of a level from weakest to strongest. */
  function LevelRank(level: string): nat
  {
    if level == WEAK then 0
    else if level == FAIR then 1
    else if level == GOOD then 2
    else if level == STRONG then 3
    else 4
  }

  /** The feedback of a non-empty password, in the order it is pushed. */
  function Feedback(p: JsString): seq<string>
  {
    (if |p| < 6 then [SHORT_FEEDBACK] else []) + (if HasTriple(p) then [REPEAT_FEEDBACK] else [])
  }

  /** The whole result. */
  function StrengthOf(p: JsString): Strength
  {
    if p == [] then Strength(0, WEAK, [EMPTY_FEEDBACK])
    else
      var score := Clamp(RawScore(p));
      Strength(score, Level(score), Feedback(p))
  }

  lemma StrengthOfNonEmpty(p: JsString, raw: int, feedback: seq<string>)
    requires p != [] && raw == RawScore(p) && feedback == Feedback(p)
    ensures StrengthOf(p) == Strength(Clamp(raw), Level(Clamp(raw)), feedback)
  {
  }

  // ---------------------------------------------------------------------------
  // The scorer

  /** calculatePasswordStrength: the score is updated test by test, feedback
      is pushed as the tests fail, then the score is clamped and named. */
  method CalculatePasswordStrength(password: JsString) returns (r: Strength)
    ensures r == StrengthOf(password)
    ensures 0 <= r.score <= 100
    ensures r.level == Level(r.score)
  {
    if |password| == 0 {
      return Strength(0, WEAK, [EMPTY_FEEDBACK]);
    }
    var score := 0;
    var feedback: seq<string> := [];

    // Length: 6 characters at least
    score := score + (if |password| >= 6 then 40 else 0);
    feedback := feedback + (if |password| >= 6 then [] else [SHORT_FEEDBACK]);
    score := score + (if |password| >= 10 then 20 else 0);
    score := score + (if |password| >= 14 then 20 else 0);
    assert score == LengthBonus(|password|);

    // Character classes, each a bonus
    score := score + (if HasLower(password) then 5 else 0);
    score := score + (if HasUpper(password) then 5 else 0);
    score := score + (if HasDigit(password) then 5 else 0);
    score := score + (if HasSpecial(password) then 5 else 0);
    assert score == LengthBonus(|password|) + ClassBonus(password);

    // Diversity
    var uniqueChars := Unique(password);
    score := score + (if uniqueChars >= 10 then 10 else 0);
    assert score == LengthBonus(|password|) + ClassBonus(password) + DiversityBonus(password);

    // Common patterns
    score := score - (if AllLetters(password) then 10 else 0);
    score := score - (if AllDigits(password) then 20 else 0);
    var repeated := HasTriple(password);
    score := score - (if repeated then 10 else 0);
    feedback := feedback + (if repeated then [REPEAT_FEEDBACK] else []);
    assert score == RawScore(password);
    assert feedback == Feedback(password);
    ghost var raw := score;

    score := if score > 100 then 100 else score;
    score := if score < 0 then 0 else score;
    assert score == Clamp(raw);

    var level: string;
    if score < 30 {
      level := WEAK;
    } else if score < 50 {
      level := FAIR;
    } else if score < 70 {
      level := GOOD;
    } else if score < 90 {
      level := STRONG;
    } else {
      level := VERY_STRONG;
    }
    StrengthOfNonEmpty(password, raw, feedback);
    return Strength(score, level, feedback);
  }

  // ---------------------------------------------------------------------------
  // Properties

  /** The empty password scores 0, is weak, and gets exactly one message. */
  lemma EmptyPassword()
    ensures StrengthOf([]) == Strength(0, WEAK, [EMPTY_FEEDBACK])
    ensures |StrengthOf([]).feedback| == 1
  {
  }

  /** A set drawn from a sequence has no more elements than the sequence. */
  lemma {:induction false} SetOfSeqSize(xs: seq<int>)
    ensures |set x | x in xs| <= |xs|
    decreases |xs|
  {
    if xs != [] {
      SetOfSeqSize(xs[1..]);
      assert (set x | x in xs) == {xs[0]} + (set x | x in xs[1..]);
    }
  }

  /** The diversity bonus needs at least ten code units. */
  lemma DiversityNeedsTenUnits(p: JsString)
    requires DiversityBonus(p) > 0
    ensures |p| >= 10
  {
    SetOfSeqSize(CodePoints(p));
  }

  /** No password is both all letters and all digits. */
  lemma LettersAndDigitsExclusive(p: JsString)
    ensures !(AllLetters(p) && AllDigits(p))
  {
    if AllLetters(p) {
      assert IsLower(p[0]) || IsUpper(p[0]);
    }
  }

  /** Before clamping, a non-empty password scores between -25 and 110; the
      penalties can take it below zero and the bonuses above 100. */
  lemma RawScoreRange(p: JsString)
    requires p != []
    ensures -25 <= RawScore(p) <= 110
  {
    LettersAndDigitsExclusive(p);
    if AllLetters(p) {
      assert HasLower(p) || HasUpper(p) by {
        assert IsLower(p[0]) || IsUpper(p[0]);
      }
    }
    if AllDigits(p) {
      assert HasDigit(p) by {
        assert IsDigit(p[0]);
      }
    }
  }

  /** "111" scores -25 before clamping, and so 0. */
  lemma RawScoreCanBeNegative()
    ensures RawScore([0x31, 0x31, 0x31]) == -25
    ensures StrengthOf([0x31, 0x31, 0x31]) == Strength(0, WEAK, [SHORT_FEEDBACK, REPEAT_FEEDBACK])
  {
    var p: JsString := [0x31, 0x31, 0x31];
    OnesClasses(p);
    OnesPatterns(p);
    OnesUnique(p);
    LettersAndDigitsExclusive(p);
  }

  lemma OnesClasses(p: JsString)
    requires p == [0x31, 0x31, 0x31]
    ensures ClassBonus(p) == 5
  {
    assert IsDigit(p[0]);
    assert !IsSpecial(0x31);
  }

  lemma OnesPatterns(p: JsString)
    requires p == [0x31, 0x31, 0x31]
    ensures HasTriple(p) && AllDigits(p)
  {
    assert TripleAt(p, 0);
  }

  lemma OnesUnique(p: JsString)
    requires p == [0x31, 0x31, 0x31]
    ensures Unique(p) == 1
  {
    forall i | 0 <= i < |p|
      ensures !Utf8.IsSurrogate(p[i])
    {
      assert i == 0 || i == 1 || i == 2;
    }
    NoSurrogateCodePoints(p);
    assert (set x | x in p) == {0x31};
  }

  /** "!1234ABCDabcde" scores 110 before clamping, and so 100. */
  lemma RawScoreCanExceed100()
    ensures RawScore([0x21, 0x31, 0x32, 0x33, 0x34, 0x41, 0x42, 0x43, 0x44,
                      0x61, 0x62, 0x63, 0x64, 0x65]) == 110
  {
    var p: JsString := [0x21, 0x31, 0x32, 0x33, 0x34, 0x41, 0x42, 0x43, 0x44,
                        0x61, 0x62, 0x63, 0x64, 0x65];
    RichClasses(p);
    RichPatterns(p);
    assert LengthBonus(|p|) == 80;
  }

  lemma RichPatterns(p: JsString)
    requires p == [0x21, 0x31, 0x32, 0x33, 0x34, 0x41, 0x42, 0x43, 0x44,
                   0x61, 0x62, 0x63, 0x64, 0x65]
    ensures Penalty(p) == 0 && DiversityBonus(p) == 10
  {
    RichIncreasing(p);
    IncreasingUnique(p);
    assert !AllLetters(p) && !AllDigits(p) by {
      assert !IsLower(p[0]) && !IsUpper(p[0]) && !IsDigit(p[0]);
    }
  }

  lemma RichClasses(p: JsString)
    requires p == [0x21, 0x31, 0x32, 0x33, 0x34, 0x41, 0x42, 0x43, 0x44,
                   0x61, 0x62, 0x63, 0x64, 0x65]
    ensures ClassBonus(p) == 20
  {
    assert IsSpecial(p[0]) && IsDigit(p[1]) && IsUpper(p[5]) && IsLower(p[9]);
  }

  lemma RichIncreasing(p: JsString)
    requires p == [0x21, 0x31, 0x32, 0x33, 0x34, 0x41, 0x42, 0x43, 0x44,
                   0x61, 0x62, 0x63, 0x64, 0x65]
    ensures forall i :: 0 <= i < |p| - 1 ==> p[i] < p[i + 1]
    ensures forall i :: 0 <= i < |p| ==> p[i] < 0xD800
  {
    forall i | 0 <= i < |p|
      ensures p[i] < 0xD800 && (i < |p| - 1 ==> p[i] < p[i + 1])
    {
      assert i == 0 || i == 1 || i == 2 || i == 3 || i == 4 || i == 5 || i == 6 ||
             i == 7 || i == 8 || i == 9 || i == 10 || i == 11 || i == 12 || i == 13;
    }
  }

  /** A string of increasing code units below the surrogates has as many
      distinct elements as code units, and no code unit three times in a row. */
  lemma IncreasingUnique(p: JsString)
    requires forall i :: 0 <= i < |p| - 1 ==> p[i] < p[i + 1]
    requires forall i :: 0 <= i < |p| ==> p[i] < 0xD800
    ensures Unique(p) == |p|
    ensures !HasTriple(p)
  {
    NoSurrogateCodePoints(p);
    Increasing(p);
    forall i: nat | i + 2 < |p|
      ensures !TripleAt(p, i)
    {
      assert p[i] < p[i + 1];
    }
    DistinctImageSize(p, |p|);
    assert (set x | x in p) == (set i | 0 <= i < |p| :: p[i]);
  }

  lemma {:induction false} Increasing(p: JsString)
    requires forall i :: 0 <= i < |p| - 1 ==> p[i] < p[i + 1]
    ensures forall i, j :: 0 <= i < j < |p| ==> p[i] < p[j]
    decreases |p|
  {
    if |p| > 1 {
      var q := p[..|p| - 1];
      Increasing(q);
      forall i, j | 0 <= i < j < |p|
        ensures p[i] < p[j]
      {
        if j < |p| - 1 {
          assert q[i] < q[j];
        } else if i < j - 1 {
          assert q[i] < q[j - 1];
        }
      }
    }
  }

  /** Without surrogates, the code points are the code units. */
  lemma {:induction false} NoSurrogateCodePoints(s: JsString)
    requires forall i :: 0 <= i < |s| ==> !Utf8.IsSurrogate(s[i])
    ensures CodePoints(s) == s
    decreases |s|
  {
    if s != [] {
      NoSurrogateCodePoints(s[1..]);
    }
  }

  lemma {:induction false} DistinctImageSize(p: JsString, n: nat)
    requires n <= |p|
    requires forall i, j :: 0 <= i < j < n ==> p[i] != p[j]
    ensures |set i | 0 <= i < n :: p[i]| == n
    decreases n
  {
    if n > 0 {
      DistinctImageSize(p, n - 1);
      assert (set i | 0 <= i < n :: p[i]) == (set i | 0 <= i < n - 1 :: p[i]) + {p[n - 1]};
    }
  }

  /** The final score is always from 0 to 100 and the level is the score's. */
  lemma ScoreInRange(p: JsString)
    ensures 0 <= StrengthOf(p).score <= 100
    ensures StrengthOf(p).level == Level(StrengthOf(p).score)
  {
  }

  /** The length bonus: nothing below 6 code units, 40 from 6, 60 from 10
      and 80 from 14. */
  lemma LengthBonusSteps(n: nat)
    ensures n < 6 ==> LengthBonus(n) == 0
    ensures 6 <= n < 10 ==> LengthBonus(n) == 40
    ensures 10 <= n < 14 ==> LengthBonus(n) == 60
    ensures 14 <= n ==> LengthBonus(n) == 80
  {
  }

  /** The penalties (10 for letters only, 20 for digits only, 10 for a code
      unit three times in a row) add up to at most 30, since at most one of
      the first two applies. */
  lemma PenaltyParts(p: JsString)
    ensures 0 <= Penalty(p) <= 30
  {
    LettersAndDigitsExclusive(p);
  }

  /** A higher score never has a lower level. */
  lemma LevelMonotone(a: int, b: int)
    requires a <= b
    ensures LevelRank(Level(a)) <= LevelRank(Level(b))
  {
  }

  /** Each level names exactly one band of scores, so the level of a score
      can be read back as its band. */
  lemma LevelBands(score: int)
    ensures Level(score) == WEAK <==> score < 30
    ensures Level(score) == FAIR <==> 30 <= score < 50
    ensures Level(score) == GOOD <==> 50 <= score < 70
    ensures Level(score) == STRONG <==> 70 <= score < 90
    ensures Level(score) == VERY_STRONG <==> 90 <= score
  {
  }

  /** "Use pelo menos 6 caracteres" is given exactly to passwords of one to
      five code units. */
  lemma ShortFeedbackIff(p: JsString)
    ensures SHORT_FEEDBACK in StrengthOf(p).feedback <==> 0 < |p| < 6
  {
  }

  /** "Evite caracteres repetidos" is given exactly when some code unit other
      than a line terminator occurs three times in a row. */
  lemma RepeatFeedbackIff(p: JsString)
    ensures REPEAT_FEEDBACK in StrengthOf(p).feedback <==> HasTriple(p)
  {
  }
}
