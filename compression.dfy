/** The run-length text compressor: compressText writes every run of four or
    more identical code units as the marker §c§n§ (n in decimal, at most 999;
    a longer run continues with a new run after the first 999), and
    decompressText expands every match of the regular expression
    /§(.)§(\d+)§/g back into n copies of c. */
module Compression {
  import opened Types

  /** The reserved delimiter §, U+00A7. */
  const SECTION: CodeUnit := 0xA7
  /** The shortest run written as a marker. */
  const MIN_RUN: nat := 4
  /** The longest run one marker counts. */
  const MAX_RUN: nat := 999

  /** The code units the regular expression `.` does not match (no `s` flag):
      line feed, carriage return, line separator and paragraph separator. */
  predicate IsLineTerminator(c: CodeUnit)
  {
    c == 0x0A || c == 0x0D || c == 0x2028 || c == 0x2029
  }

  /** `\d`: an ASCII decimal digit. */
  predicate IsDigit(c: CodeUnit)
  {
    0x30 <= c <= 0x39
  }

  // ---------------------------------------------------------------------------
  // Compression

  /** How far the inner loop of compressText counts from count on: while the
      next code unit repeats t[0] and fewer than 999 have been counted. */
  function RunFrom(t: JsString, count: nat): (r: nat)
    requires 1 <= count <= |t|
    ensures count <= r <= |t|
    decreases |t| - count
  {
    if count < |t| && t[count] == t[0] && count < MAX_RUN then RunFrom(t, count + 1) else count
  }

  /** The length of the (capped) run of t[0] at the front of t. */
  function Run(t: JsString): (r: nat)
    requires t != []
    ensures 1 <= r <= |t|
  {
    RunFrom(t, 1)
  }

  /** The run at the front of t is at most 999 long, all of it repeats t[0],
      and it ends at the end of t, at 999, or before a different code unit. */
  lemma RunIsMaximal(t: JsString)
    requires t != []
    ensures Run(t) <= MAX_RUN
    ensures forall k :: 0 <= k < Run(t) ==> t[k] == t[0]
    ensures Run(t) < |t| && Run(t) < MAX_RUN ==> t[Run(t)] != t[0]
  {
    RunIsRun(t, 1);
  }

  lemma {:induction false} RunIsRun(t: JsString, count: nat)
    requires 1 <= count <= |t| && count <= MAX_RUN
    requires forall k :: 0 <= k < count ==> t[k] == t[0]
    ensures RunFrom(t, count) <= MAX_RUN
    ensures forall k :: 0 <= k < RunFrom(t, count) ==> t[k] == t[0]
    ensures var r := RunFrom(t, count); r < |t| && r < MAX_RUN ==> t[r] != t[0]
    decreases |t| - count
  {
    if count < |t| && t[count] == t[0] && count < MAX_RUN {
      RunIsRun(t, count + 1);
    }
  }

  /** The decimal digits of n, as the template literal `${n}` writes them. */
  function Decimal(n: nat): (r: JsString)
    ensures 1 <= |r|
    ensures forall k :: 0 <= k < |r| ==> IsDigit(r[k])
  {
    if n < 10 then [0x30 + n] else Decimal(n / 10) + [0x30 + n % 10]
  }

  /** The marker §c§n§ for a run of n copies of c. */
  function Marker(c: CodeUnit, n: nat): JsString
  {
    [SECTION, c, SECTION] + Decimal(n) + [SECTION]
  }

  /** What compressText appends for a run of n copies of c: the marker for
      four or more, otherwise the copies themselves. */
  function RunBlock(c: CodeUnit, n: nat): JsString
  {
    if n >= MIN_RUN then Marker(c, n) else Repeat(c, n)
  }

  /** What compressText appends for the run at the front of t. */
  function Block(t: JsString): JsString
    requires t != []
  {
    var n := Run(t);
    if n >= MIN_RUN then Marker(t[0], n) else t[..n]
  }

  /** The output of compressText: the blocks of the successive runs. */
  function Compress(t: JsString): JsString
    decreases |t|
  {
    if t == [] then [] else Block(t) + Compress(t[Run(t)..])
  }

  /** The inner loop's count, read in place: how far the copies of t[i]
      reach from count on, stopping at the end of t or at 999. */
  function RunAt(t: JsString, i: nat, count: nat): (r: nat)
    requires i < |t| && 1 <= count <= |t| - i
    ensures count <= r <= |t| - i
    decreases |t| - i - count
  {
    if i + count < |t| && t[i + count] == t[i] && count < MAX_RUN then RunAt(t, i, count + 1) else count
  }

  /** The blocks compressText appends from index i on. */
  function CompressFrom(t: JsString, i: nat): JsString
    decreases |t| - i
  {
    if i >= |t| then []
    else RunBlock(t[i], RunAt(t, i, 1)) + CompressFrom(t, i + RunAt(t, i, 1))
  }

  /** compressText. */
  method CompressText(text: JsString) returns (result: JsString)
    ensures result == Compress(text)
  {
    if text == [] {
      return text;
    }
    result := [];
    var i := 0;
    while i < |text|
      invariant 0 <= i <= |text|
      invariant result + CompressFrom(text, i) == CompressFrom(text, 0)
    {
      var ch := text[i];
      var count := CountRun(text, i);
      var block := RunBlock(ch, count);
      ConcatAssoc(result, block, CompressFrom(text, i + count));
      result := result + block;
      i := i + count;
    }
    assert result + [] == result;
    CompressFromIs(text, 0);
    assert text[0..] == text;
  }

  /** The inner loop of compressText: counts the copies of text[i] starting
      at i, stopping at the end, at a different code unit or at 999. */
  method CountRun(text: JsString, i: nat) returns (count: nat)
    requires i < |text|
    ensures 1 <= count <= |text| - i
    ensures count == RunAt(text, i, 1)
  {
    count := 1;
    while i + count < |text| && text[i + count] == text[i] && count < MAX_RUN
      invariant 1 <= count <= |text| - i
      invariant RunAt(text, i, count) == RunAt(text, i, 1)
    {
      count := count + 1;
    }
  }

  /** Counting in place agrees with counting in the suffix. */
  lemma {:induction false} RunAtIsRunFrom(t: JsString, i: nat, count: nat)
    requires i < |t| && 1 <= count <= |t| - i
    ensures RunAt(t, i, count) == RunFrom(t[i..], count)
    decreases |t| - i - count
  {
    var s := t[i..];
    if i + count < |t| {
      assert s[count] == t[i + count] && s[0] == t[i];
    }
    if i + count < |t| && t[i + count] == t[i] && count < MAX_RUN {
      RunAtIsRunFrom(t, i, count + 1);
    }
  }

  /** The blocks from index i on are the compression of the suffix from i. */
  lemma {:induction false} CompressFromIs(t: JsString, i: nat)
    requires i <= |t|
    ensures CompressFrom(t, i) == Compress(t[i..])
    decreases |t| - i
  {
    if i < |t| {
      var n := RunAt(t, i, 1);
      CompressFromUnfold(t, i, n);
      CompressSuffixUnfold(t, i);
      CompressFromIs(t, i + n);
      assert CompressFrom(t, i + n) == Compress(t[i + n..]);
    }
  }

  lemma CompressFromUnfold(t: JsString, i: nat, n: nat)
    requires i < |t| && n == RunAt(t, i, 1)
    ensures CompressFrom(t, i) == RunBlock(t[i], n) + CompressFrom(t, i + n)
  {
    assert !(i >= |t|);
  }

  /** The compression of the suffix from i starts with the block of the run at i. */
  lemma CompressSuffixUnfold(t: JsString, i: nat)
    requires i < |t|
    ensures Compress(t[i..]) == RunBlock(t[i], RunAt(t, i, 1)) + Compress(t[i + RunAt(t, i, 1)..])
  {
    var n := RunAt(t, i, 1);
    RunAtIsRunFrom(t, i, 1);
    assert t[i..][0] == t[i];
    CompressHead(t[i..], n);
    assert t[i..][n..] == t[i + n..];
  }

  /** One iteration of the outer loop of compressText: once the inner loop has
      counted the run at the front of rest, the block for it is the head of
      Compress(rest). */
  lemma CompressHead(rest: JsString, count: nat)
    requires 1 <= count <= |rest|
    requires count == Run(rest)
    ensures Compress(rest) == RunBlock(rest[0], count) + Compress(rest[count..])
  {
    RunIsMaximal(rest);
    if count < MIN_RUN {
      assert Repeat(rest[0], count) == rest[..count];
    }
  }

  // ---------------------------------------------------------------------------
  // Decompression

  /** The number of decimal digits at the front of t (what `\d+` consumes). */
  function DigitRun(t: JsString): (r: nat)
    ensures r <= |t|
    ensures forall k :: 0 <= k < r ==> IsDigit(t[k])
    ensures r < |t| ==> !IsDigit(t[r])
  {
    if t != [] && IsDigit(t[0]) then 1 + DigitRun(t[1..]) else 0
  }

  /** `Number.parseInt(d, 10)` for a string of decimal digits. */
  function DecimalValue(d: JsString): nat
    requires forall k :: 0 <= k < |d| ==> IsDigit(d[k])
  {
    if d == [] then 0 else
      var last: int := d[|d| - 1];
      assert IsDigit(d[|d| - 1]);
      10 * DecimalValue(d[..|d| - 1]) + (last - 0x30)
  }

  /** A match of /§(.)§(\d+)§/ at the very front of t: the repeated code unit,
      the count and the length of the match. With dotAll, `.` matches every
      code unit (the `s` flag); without it, not the line terminators. */
  function MatchAt(t: JsString, dotAll: bool): (m: Option<(CodeUnit, nat, nat)>)
    ensures m.Some? ==> 5 <= m.value.2 <= |t|
  {
    if |t| >= 5 && t[0] == SECTION && (dotAll || !IsLineTerminator(t[1])) && t[2] == SECTION then
      var k := DigitRun(t[3..]);
      if k >= 1 && 3 + k < |t| && t[3 + k] == SECTION then
        Some((t[1], DecimalValue(t[3..3 + k]), 4 + k))
      else None
    else None
  }

  /** A global replace: scanning left to right, each match is replaced by its
      expansion and scanning resumes after it; other code units are copied. */
  function Expand(t: JsString, dotAll: bool): JsString
    decreases |t|
  {
    if t == [] then []
    else match MatchAt(t, dotAll)
      case Some(m) => Repeat(m.0, m.1) + Expand(t[m.2..], dotAll)
      case None => [t[0]] + Expand(t[1..], dotAll)
  }

  /** decompressText, `text.replace(/§(.)§(\d+)§/g, ...)`. */
  function Decompress(t: JsString): JsString
  {
    Expand(t, false)
  }

  /** decompressText with `.` matching every code unit, `/§([^])§(\d+)§/g`. */
  function DecompressDotAll(t: JsString): JsString
  {
    Expand(t, true)
  }

  // ---------------------------------------------------------------------------
  // Properties

  /** Text with no § in it passes through the expansion unchanged. */
  lemma {:induction false} ExpandLiteral(u: JsString, v: JsString, dotAll: bool)
    requires SECTION !in u
    ensures Expand(u + v, dotAll) == u + Expand(v, dotAll)
    decreases |u|
  {
    if u != [] {
      assert (u + v)[0] == u[0] && (u + v)[1..] == u[1..] + v;
      ExpandLiteralUnit(u + v, dotAll);
      ExpandLiteral(u[1..], v, dotAll);
      assert [u[0]] + (u[1..] + Expand(v, dotAll)) == u + Expand(v, dotAll);
    } else {
      assert u + v == v;
      assert u + Expand(v, dotAll) == Expand(v, dotAll);
    }
  }

  /** A first code unit other than § is copied as it is. */
  lemma ExpandLiteralUnit(t: JsString, dotAll: bool)
    requires t != [] && t[0] != SECTION
    ensures Expand(t, dotAll) == [t[0]] + Expand(t[1..], dotAll)
  {
  }

  /** decompressText leaves text without § as it is. */
  lemma DecompressWithoutSection(t: JsString)
    requires SECTION !in t
    ensures Decompress(t) == t
  {
    ExpandLiteral(t, [], false);
    assert t + [] == t;
  }

  lemma {:induction false} DigitRunOfDecimal(n: nat, rest: JsString)
    requires rest != [] && !IsDigit(rest[0])
    ensures DigitRun(Decimal(n) + rest) == |Decimal(n)|
    decreases |Decimal(n)|
  {
    var d := Decimal(n);
    DigitRunPrefix(d, rest);
  }

  lemma {:induction false} DigitRunPrefix(d: JsString, rest: JsString)
    requires forall k :: 0 <= k < |d| ==> IsDigit(d[k])
    requires rest != [] && !IsDigit(rest[0])
    ensures DigitRun(d + rest) == |d|
    decreases |d|
  {
    if d == [] {
      assert d + rest == rest;
    } else {
      assert (d + rest)[1..] == d[1..] + rest;
      DigitRunPrefix(d[1..], rest);
    }
  }

  /** parseInt reads back what `${n}` wrote. */
  lemma {:induction false} DecimalValueOfDecimal(n: nat)
    ensures DecimalValue(Decimal(n)) == n
  {
    if n >= 10 {
      DecimalValueOfDecimal(n / 10);
      var d := Decimal(n);
      assert d[..|d| - 1] == Decimal(n / 10);
    }
  }

  /** A marker written by compressText is a match of the pattern, unless its
      code unit is a line terminator and `.` excludes those. */
  lemma MarkerMatches(c: CodeUnit, n: nat, rest: JsString, dotAll: bool)
    requires dotAll || !IsLineTerminator(c)
    ensures MatchAt(Marker(c, n) + rest, dotAll) == Some((c, n, |Marker(c, n)|))
  {
    var d := Decimal(n);
    var t := Marker(c, n) + rest;
    assert t == [SECTION, c, SECTION] + (d + [SECTION] + rest);
    assert t[3..] == d + ([SECTION] + rest);
    DigitRunOfDecimal(n, [SECTION] + rest);
    assert t[3..3 + |d|] == d;
    DecimalValueOfDecimal(n);
  }

  /** Four copies of one line terminator start at index i. */
  predicate TerminatorRunAt(t: JsString, i: nat)
    requires i + 3 < |t|
  {
    IsLineTerminator(t[i]) && t[i + 1] == t[i] && t[i + 2] == t[i] && t[i + 3] == t[i]
  }

  /** No run of four or more copies of one line terminator. */
  predicate NoTerminatorRun(t: JsString)
  {
    forall i: nat :: i + 3 < |t| ==> !TerminatorRunAt(t, i)
  }

  /** A suffix of text with no run of four line terminators has none either. */
  lemma NoTerminatorRunSuffix(t: JsString, n: nat)
    requires n <= |t|
    requires NoTerminatorRun(t)
    ensures NoTerminatorRun(t[n..])
  {
    var rest := t[n..];
    forall i: nat | i + 3 < |rest|
      ensures !TerminatorRunAt(rest, i)
    {
      assert !TerminatorRunAt(t, n + i);
      assert rest[i] == t[n + i] && rest[i + 1] == t[n + i + 1];
      assert rest[i + 2] == t[n + i + 2] && rest[i + 3] == t[n + i + 3];
    }
  }

  /** Expanding a marker of n copies of c followed by more text. */
  lemma ExpandMarker(c: CodeUnit, n: nat, rest: JsString, dotAll: bool)
    requires dotAll || !IsLineTerminator(c)
    ensures Expand(Marker(c, n) + rest, dotAll) == Repeat(c, n) + Expand(rest, dotAll)
  {
    var whole := Marker(c, n) + rest;
    MarkerMatches(c, n, rest, dotAll);
    assert whole[|Marker(c, n)|..] == rest;
  }

  /** Expanding the block of the run at the front of t gives that run back. */
  lemma ExpandBlock(t: JsString, v: JsString, dotAll: bool)
    requires t != [] && SECTION !in t
    requires dotAll || NoTerminatorRun(t)
    ensures Expand(Block(t) + v, dotAll) == t[..Run(t)] + Expand(v, dotAll)
  {
    var n := Run(t);
    RunIsMaximal(t);
    if n >= MIN_RUN {
      assert t[1] == t[0] && t[2] == t[0] && t[3] == t[0];
      if !dotAll {
        assert !TerminatorRunAt(t, 0);
      }
      ExpandMarker(t[0], n, v, dotAll);
      assert Repeat(t[0], n) == t[..n];
    } else {
      assert SECTION !in t[..n];
      ExpandLiteral(t[..n], v, dotAll);
    }
  }

  /** Expanding the compressed text gives the text back, provided it holds no
      § and, when `.` excludes line terminators, no run of four or more
      copies of one line terminator. */
  lemma {:induction false} ExpandCompress(t: JsString, dotAll: bool)
    requires SECTION !in t
    requires dotAll || NoTerminatorRun(t)
    ensures Expand(Compress(t), dotAll) == t
    decreases |t|
  {
    if t != [] {
      var n := Run(t);
      var rest := t[n..];
      assert t == t[..n] + rest;
      assert SECTION !in rest;
      if !dotAll {
        NoTerminatorRunSuffix(t, n);
      }
      ExpandCompress(rest, dotAll);
      ExpandCompressStep(t, dotAll);
    }
  }

  /** Expanding the compressed text gives back the first run, then the
      expansion of the compressed rest. */
  lemma ExpandCompressStep(t: JsString, dotAll: bool)
    requires t != [] && SECTION !in t
    requires dotAll || NoTerminatorRun(t)
    ensures Expand(Compress(t), dotAll) == t[..Run(t)] + Expand(Compress(t[Run(t)..]), dotAll)
  {
    CompressUnfold(t);
    ExpandBlock(t, Compress(t[Run(t)..]), dotAll);
  }

  lemma CompressUnfold(t: JsString)
    requires t != []
    ensures Compress(t) == Block(t) + Compress(t[Run(t)..])
  {
  }

  /** decompressText(compressText(t)) == t for every t holding no § and no run
      of four or more copies of one line terminator. */
  lemma DecompressCompress(t: JsString)
    requires SECTION !in t
    requires NoTerminatorRun(t)
    ensures Decompress(Compress(t)) == t
  {
    ExpandCompress(t, false);
  }

  /** With `.` matching every code unit the round trip needs only the absence of §. */
  lemma DecompressDotAllCompress(t: JsString)
    requires SECTION !in t
    ensures DecompressDotAll(Compress(t)) == t
  {
    ExpandCompress(t, true);
  }

  /** Four line feeds compress to their marker (c a line feed, n = 4), which `.` does not
      match, so decompressText returns the marker itself. */
  lemma LineFeedRunSurvives()
    ensures Compress([0x0A, 0x0A, 0x0A, 0x0A]) == [SECTION, 0x0A, SECTION, 0x34, SECTION]
    ensures Decompress([SECTION, 0x0A, SECTION, 0x34, SECTION]) == [SECTION, 0x0A, SECTION, 0x34, SECTION]
    ensures DecompressDotAll([SECTION, 0x0A, SECTION, 0x34, SECTION]) == [0x0A, 0x0A, 0x0A, 0x0A]
  {
    var t: JsString := [0x0A, 0x0A, 0x0A, 0x0A];
    assert RunFrom(t, 4) == 4;
    assert Run(t) == 4;
    assert t[4..] == [];
    var m: JsString := [SECTION, 0x0A, SECTION, 0x34, SECTION];
    assert Compress(t) == m;
    assert Expand([], false) == [];
    assert [SECTION][1..] == [];
    assert Expand([SECTION], false) == [SECTION];
    assert [0x34, SECTION][1..] == [SECTION];
    assert Expand([0x34, SECTION], false) == [0x34, SECTION];
    assert [SECTION, 0x34, SECTION][1..] == [0x34, SECTION];
    assert Expand([SECTION, 0x34, SECTION], false) == [SECTION, 0x34, SECTION];
    assert [0x0A, SECTION, 0x34, SECTION][1..] == [SECTION, 0x34, SECTION];
    assert Expand([0x0A, SECTION, 0x34, SECTION], false) == [0x0A, SECTION, 0x34, SECTION];
    assert m[1..] == [0x0A, SECTION, 0x34, SECTION];
    assert MatchAt(m, false).None?;
    DecompressDotAllCompress(t);
  }

  /** One maximal run followed by other text: the run's blocks come first and
      the rest is compressed on its own. A run of 1 to 3 stays literal, 4 to
      999 becomes one marker, and a longer one a 999 marker followed by the
      blocks of the remainder. */
  lemma {:induction false} CompressRun(c: CodeUnit, n: nat, u: JsString)
    requires n >= 1
    requires u == [] || u[0] != c
    ensures Compress(Repeat(c, n) + u) == RunBlocks(c, n) + Compress(u)
    decreases n
  {
    var t := Repeat(c, n) + u;
    var m := if n < MAX_RUN then n else MAX_RUN;
    RunOfRepeat(c, n, u, 1);
    CompressUnfold(t);
    RepeatSplit(c, n, u, m);
    if n > MAX_RUN {
      CompressRun(c, n - MAX_RUN, u);
      ConcatAssoc(Marker(c, MAX_RUN), RunBlocks(c, n - MAX_RUN), Compress(u));
    }
  }

  /** Splitting n copies of c, then u, after the first m copies. */
  lemma RepeatSplit(c: CodeUnit, n: nat, u: JsString, m: nat)
    requires 1 <= m <= n
    ensures var t := Repeat(c, n) + u;
            t[0] == c && t[..m] == Repeat(c, m) && t[m..] == Repeat(c, n - m) + u &&
            (m == n ==> t[m..] == u)
  {
    var t := Repeat(c, n) + u;
    assert t[m..] == Repeat(c, n - m) + u;
  }

  lemma {:induction false} RunOfRepeat(c: CodeUnit, n: nat, u: JsString, count: nat)
    requires 1 <= count <= n && count <= MAX_RUN
    requires u == [] || u[0] != c
    ensures RunFrom(Repeat(c, n) + u, count) == if n < MAX_RUN then n else MAX_RUN
    decreases n - count
  {
    var t := Repeat(c, n) + u;
    if count < n && count < MAX_RUN {
      assert t[count] == c && t[0] == c;
      RunOfRepeat(c, n, u, count + 1);
    } else if count == n && n < MAX_RUN && u != [] {
      assert t[count] == u[0];
    }
  }

  /** The blocks compressText writes for a run of n >= 1 copies of c. */
  function RunBlocks(c: CodeUnit, n: nat): JsString
    requires n >= 1
    decreases n
  {
    if n < MIN_RUN then Repeat(c, n)
    else if n <= MAX_RUN then Marker(c, n)
    else Marker(c, MAX_RUN) + RunBlocks(c, n - MAX_RUN)
  }
}
