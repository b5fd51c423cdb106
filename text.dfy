/** The two string primitives the page script leans on: `String.prototype.trim`
    and `split(/\s+/)`. The exact Unicode classes are not fixed here; they are
    handed in as a `CharSets` value. */
module Text {

  /** `isSpace` is the class matched by `\s`, which is also the class `trim`
      removes (WhiteSpace and LineTerminator); `isLineBreak` is the class of line
      terminators, the characters the regex `.` does not match. */
  datatype CharSets = CharSets(isSpace: char -> bool, isLineBreak: char -> bool)

  /** The few facts about the two classes that concrete examples depend on. */
  predicate Conforming(cs: CharSets) {
    cs.isSpace(' ') && cs.isSpace('\t') && cs.isSpace('\n') && cs.isSpace('\r') &&
    cs.isLineBreak('\n') && cs.isLineBreak('\r') &&
    forall c: char :: '!' <= c <= '~' ==> !cs.isSpace(c) && !cs.isLineBreak(c)
  }

  /** No character of `t` is a space. */
  predicate NoSpace(t: string, isSpace: char -> bool) {
    forall k :: 0 <= k < |t| ==> !isSpace(t[k])
  }

  // ---------------------------------------------------------------- trim

  /** `s` without its leading run of spaces. */
  function TrimStart(s: string, isSpace: char -> bool): (r: string)
    ensures |r| <= |s| && r == s[|s| - |r|..]
    ensures forall k :: 0 <= k < |s| - |r| ==> isSpace(s[k])
    ensures r != [] ==> !isSpace(r[0])
  {
    if s != [] && isSpace(s[0]) then TrimStart(s[1..], isSpace) else s
  }

  /** `s` without its trailing run of spaces. */
  function TrimEnd(s: string, isSpace: char -> bool): (r: string)
    ensures |r| <= |s| && r == s[..|r|]
    ensures forall k :: |r| <= k < |s| ==> isSpace(s[k])
    ensures r != [] ==> !isSpace(r[|r| - 1])
  {
    if s != [] && isSpace(s[|s| - 1]) then TrimEnd(s[..|s| - 1], isSpace) else s
  }

  /** `s.trim()`. */
  function Trim(s: string, isSpace: char -> bool): string {
    TrimEnd(TrimStart(s, isSpace), isSpace)
  }

  /** The number of UTF-16 code units of `s[i..j]`: a character above U+FFFF is
      stored as a surrogate pair and counts twice, any other character once. */
  function Utf16Units(s: string, i: nat, j: nat): (n: nat)
    requires i <= j <= |s|
    ensures j - i <= n <= 2 * (j - i)
    decreases j - i
  {
    if i == j then 0 else (if s[i] as int > 0xFFFF then 2 else 1) + Utf16Units(s, i + 1, j)
  }

  /** `s.length`, which JavaScript counts in UTF-16 code units. */
  function Utf16Length(s: string): (n: nat)
    ensures |s| <= n <= 2 * |s|
  {
    Utf16Units(s, 0, |s|)
  }

  /** Counting code units adds up over adjacent ranges. */
  lemma {:induction false} Utf16UnitsSplit(s: string, i: nat, k: nat, j: nat)
    requires i <= k <= j <= |s|
    ensures Utf16Units(s, i, j) == Utf16Units(s, i, k) + Utf16Units(s, k, j)
    decreases k - i
  {
    if i < k {
      Utf16UnitsSplit(s, i + 1, k, j);
    }
  }

  /** A range inside another has no more code units than it. */
  lemma Utf16UnitsWithin(s: string, i: nat, x: nat, y: nat, j: nat)
    requires i <= x <= y <= j <= |s|
    ensures Utf16Units(s, x, y) <= Utf16Units(s, i, j)
  {
    Utf16UnitsSplit(s, i, x, j);
    Utf16UnitsSplit(s, x, y, j);
  }

  /** Counting in a string `t` that occurs in `s` at `p` is counting in `s`
      shifted by `p`. */
  lemma {:induction false} Utf16UnitsShift(s: string, t: string, p: nat, i: nat, j: nat)
    requires i <= j <= |t| && p + |t| <= |s| && t == s[p..p + |t|]
    ensures Utf16Units(t, i, j) == Utf16Units(s, p + i, p + j)
    decreases j - i
  {
    if i < j {
      assert t[i] == s[p + i];
      Utf16UnitsShift(s, t, p, i + 1, j);
    }
  }

  /** A string of characters up to U+FFFF has as many code units as characters. */
  lemma Utf16LengthBasic(s: string)
    requires forall k :: 0 <= k < |s| ==> s[k] as int <= 0xFFFF
    ensures Utf16Length(s) == |s|
  {
    Utf16UnitsBasic(s, 0, |s|);
  }

  lemma {:induction false} Utf16UnitsBasic(s: string, i: nat, j: nat)
    requires i <= j <= |s| && forall k :: i <= k < j ==> s[k] as int <= 0xFFFF
    ensures Utf16Units(s, i, j) == j - i
    decreases j - i
  {
    if i < j {
      Utf16UnitsBasic(s, i + 1, j);
    }
  }

  /** `s` has two non-space characters (possibly the same one) such that the
      text from the first to the second, both included, is at least `n` UTF-16
      code units long. */
  ghost predicate SpansAtLeast(s: string, n: int, isSpace: char -> bool) {
    exists i, j :: 0 <= i <= j < |s| && !isSpace(s[i]) && !isSpace(s[j]) && Utf16Units(s, i, j + 1) >= n
  }

  /** For n >= 1, `s.trim().length >= n` holds exactly when two non-space
      characters of `s` span at least `n` code units, first to last inclusive. */
  lemma TrimLength(s: string, n: int, isSpace: char -> bool)
    requires n >= 1
    ensures Utf16Length(Trim(s, isSpace)) >= n <==> SpansAtLeast(s, n, isSpace)
  {
    if Utf16Length(Trim(s, isSpace)) >= n {
      LongTrimSpans(s, n, isSpace);
    }
    if SpansAtLeast(s, n, isSpace) {
      var i, j :| 0 <= i <= j < |s| && !isSpace(s[i]) && !isSpace(s[j]) && Utf16Units(s, i, j + 1) >= n;
      SpanInTrim(s, i, j, isSpace);
    }
  }

  /** The trimmed text itself is such a span. */
  lemma LongTrimSpans(s: string, n: int, isSpace: char -> bool)
    requires n >= 1 && Utf16Length(Trim(s, isSpace)) >= n
    ensures SpansAtLeast(s, n, isSpace)
  {
    var p := TrimAt(s, isSpace);
    WholeSpan(s, Trim(s, isSpace), p, n, isSpace);
  }

  /** A string `r` that occurs in `s` at `p`, starts and ends with a non-space and
      is at least `n` code units long is a span of `s` of at least `n` units. */
  lemma WholeSpan(s: string, r: string, p: nat, n: int, isSpace: char -> bool)
    requires n >= 1 && p + |r| <= |s| && r == s[p..p + |r|] && Utf16Length(r) >= n
    requires r != [] ==> !isSpace(r[0]) && !isSpace(r[|r| - 1])
    ensures SpansAtLeast(s, n, isSpace)
  {
    Utf16UnitsShift(s, r, p, 0, |r|);
    var i, j := p, p + |r| - 1;
    assert s[i] == r[0] && s[j] == r[|r| - 1];
  }

  /** A span between two non-space characters is no longer than the trimmed text. */
  lemma SpanInTrim(s: string, i: nat, j: nat, isSpace: char -> bool)
    requires i <= j < |s| && !isSpace(s[i]) && !isSpace(s[j])
    ensures Utf16Units(s, i, j + 1) <= Utf16Length(Trim(s, isSpace))
  {
    SpanInCut(s, TrimStart(s, isSpace), Trim(s, isSpace), |s| - |TrimStart(s, isSpace)|, i, j, isSpace);
  }

  /** After cutting a run of spaces off the front of `s` (leaving `u`) and
      another off the back of `u` (leaving `r`), a span between two non-space
      characters of `s` is no longer than `r`. */
  lemma SpanInCut(s: string, u: string, r: string, p: nat, i: nat, j: nat, isSpace: char -> bool)
    requires i <= j < |s| && !isSpace(s[i]) && !isSpace(s[j])
    requires p + |u| == |s| && u == s[p..] && forall k :: 0 <= k < p ==> isSpace(s[k])
    requires |r| <= |u| && r == u[..|r|] && forall k :: |r| <= k < |u| ==> isSpace(u[k])
    ensures Utf16Units(s, i, j + 1) <= Utf16Length(r)
  {
    CutKeeps(s, u, r, p, i, j, isSpace);
    SliceOfSuffix(s, u, r, p);
    SpanWithin(s, r, p, i, j);
  }

  /** A span inside the occurrence of `r` at `p` is no longer than `r`. */
  lemma SpanWithin(s: string, r: string, p: nat, i: nat, j: nat)
    requires p <= i <= j < p + |r| <= |s| && r == s[p..p + |r|]
    ensures Utf16Units(s, i, j + 1) <= Utf16Length(r)
  {
    Utf16UnitsShift(s, r, p, 0, |r|);
    Utf16UnitsWithin(s, p, i, j + 1, p + |r|);
  }

  /** The trimmed text is the slice of `s` that starts at `p`, just after the
      leading spaces. */
  lemma TrimAt(s: string, isSpace: char -> bool) returns (p: nat)
    ensures p == |s| - |TrimStart(s, isSpace)|
    ensures p + |Trim(s, isSpace)| <= |s| && Trim(s, isSpace) == s[p..p + |Trim(s, isSpace)|]
  {
    p := |s| - |TrimStart(s, isSpace)|;
    SliceOfSuffix(s, TrimStart(s, isSpace), Trim(s, isSpace), p);
  }

  /** A prefix `r` of the suffix `u` of `s` from `p` is the slice of `s` from `p`. */
  lemma SliceOfSuffix(s: string, u: string, r: string, p: nat)
    requires p + |u| == |s| && u == s[p..] && |r| <= |u| && r == u[..|r|]
    ensures p + |r| <= |s| && r == s[p..p + |r|]
  {
  }

  /** Cutting a run of spaces off the front of `s` (leaving `u`) and another off
      the back of `u` (leaving `r`) keeps every non-space character. */
  lemma CutKeeps(s: string, u: string, r: string, p: nat, i: nat, j: nat, isSpace: char -> bool)
    requires i <= j < |s| && !isSpace(s[i]) && !isSpace(s[j])
    requires p + |u| == |s| && u == s[p..] && forall k :: 0 <= k < p ==> isSpace(s[k])
    requires |r| <= |u| && forall k :: |r| <= k < |u| ==> isSpace(u[k])
    ensures p <= i && j < p + |r|
  {
  }

  // ---------------------------------------------------------------- split

  /** Index of the first space of `s`, or |s| when there is none. */
  function FirstSpace(s: string, isSpace: char -> bool): (i: nat)
    ensures i <= |s|
    ensures forall k :: 0 <= k < i ==> !isSpace(s[k])
    ensures i < |s| ==> isSpace(s[i])
  {
    if s == [] || isSpace(s[0]) then 0 else 1 + FirstSpace(s[1..], isSpace)
  }

  /** End of the run of spaces that starts at `i`. */
  function RunEnd(s: string, i: nat, isSpace: char -> bool): (j: nat)
    requires i <= |s|
    ensures i <= j <= |s|
    ensures forall k :: i <= k < j ==> isSpace(s[k])
    ensures j < |s| ==> !isSpace(s[j])
    decreases |s| - i
  {
    if i < |s| && isSpace(s[i]) then RunEnd(s, i + 1, isSpace) else i
  }

  /** `s.split(/\s+/)`: the pieces between maximal runs of spaces. A leading or
      trailing run produces an empty first or last piece, and "" splits to [""]. */
  function Split(s: string, isSpace: char -> bool): (tokens: seq<string>)
    ensures |tokens| >= 1
    ensures forall t :: t in tokens ==> NoSpace(t, isSpace)
    decreases |s|
  {
    var i := FirstSpace(s, isSpace);
    if i == |s| then [s]
    else
      var j := RunEnd(s, i, isSpace);
      [s[..i]] + Split(s[j..], isSpace)
  }

  /** `t` stands in `s` at `a`, with a space or an end of `s` on either side. */
  ghost predicate DelimitedAt(s: string, t: string, a: int, isSpace: char -> bool) {
    0 <= a && a + |t| <= |s| && s[a..a + |t|] == t &&
    (a == 0 || isSpace(s[a - 1])) &&
    (a + |t| == |s| || isSpace(s[a + |t|]))
  }

  /** `t` is a whole word of `s`: a non-empty, space-free, delimited piece. */
  ghost predicate IsWord(s: string, t: string, isSpace: char -> bool) {
    t != [] && NoSpace(t, isSpace) && exists a :: DelimitedAt(s, t, a, isSpace)
  }

  /** A delimited occurrence in a suffix that follows a space is one in `s`. */
  lemma ShiftIn(s: string, t: string, j: nat, b: int, isSpace: char -> bool)
    requires j <= |s| && (j > 0 ==> isSpace(s[j - 1]))
    requires DelimitedAt(s[j..], t, b, isSpace)
    ensures DelimitedAt(s, t, j + b, isSpace)
  {
    var rest := s[j..];
    assert s[j + b..j + b + |t|] == rest[b..b + |t|];
    assert b > 0 ==> s[j + b - 1] == rest[b - 1];
    assert b + |t| < |rest| ==> s[j + b + |t|] == rest[b + |t|];
  }

  /** A delimited occurrence at or after `j` is one in the suffix from `j`. */
  lemma ShiftOut(s: string, t: string, j: nat, a: int, isSpace: char -> bool)
    requires j <= a && DelimitedAt(s, t, a, isSpace)
    ensures DelimitedAt(s[j..], t, a - j, isSpace)
  {
    var rest := s[j..];
    assert rest[a - j..a - j + |t|] == s[a..a + |t|];
    assert a - j > 0 ==> rest[a - j - 1] == s[a - 1];
    assert a + |t| < |s| ==> rest[a - j + |t|] == s[a + |t|];
  }

  /** The non-empty strings `Split` yields are exactly the words of `s`. */
  lemma {:induction false} SplitWords(s: string, t: string, isSpace: char -> bool)
    requires t != []
    ensures t in Split(s, isSpace) <==> IsWord(s, t, isSpace)
    decreases |s|
  {
    var i := FirstSpace(s, isSpace);
    if i == |s| {
      assert Split(s, isSpace) == [s];
      if t in Split(s, isSpace) {
        assert s[0..|t|] == t;
        assert DelimitedAt(s, t, 0, isSpace);
      }
      if IsWord(s, t, isSpace) {
        var a :| DelimitedAt(s, t, a, isSpace);
        assert t == s[0..|s|] == s;
      }
    } else {
      var j := RunEnd(s, i, isSpace);
      var rest := s[j..];
      SplitWords(rest, t, isSpace);
      assert Split(s, isSpace) == [s[..i]] + Split(rest, isSpace);
      if t in Split(s, isSpace) {
        if t == s[..i] {
          assert s[0..|t|] == t;
          assert DelimitedAt(s, t, 0, isSpace);
        } else {
          var b :| DelimitedAt(rest, t, b, isSpace);
          ShiftIn(s, t, j, b, isSpace);
        }
      }
      if IsWord(s, t, isSpace) {
        var a :| DelimitedAt(s, t, a, isSpace);
        if a < i {
          assert a == 0;
          assert |t| == i;
          assert t == s[..i];
        } else if a < j {
          assert t[0] == s[a];
        } else {
          ShiftOut(s, t, j, a, isSpace);
        }
      }
    }
  }

  /** `Split` yields the empty piece exactly when `s` is empty or starts or ends
      with a space. */
  lemma {:induction false} SplitEmpty(s: string, isSpace: char -> bool)
    ensures "" in Split(s, isSpace) <==> s == [] || isSpace(s[0]) || isSpace(s[|s| - 1])
    decreases |s|
  {
    var i := FirstSpace(s, isSpace);
    if i < |s| {
      var j := RunEnd(s, i, isSpace);
      var rest := s[j..];
      SplitEmpty(rest, isSpace);
      assert Split(s, isSpace) == [s[..i]] + Split(rest, isSpace);
      if j < |s| {
        assert rest[0] == s[j];
        assert rest[|rest| - 1] == s[|s| - 1];
      }
    }
  }
}
