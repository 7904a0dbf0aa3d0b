/** The small fixed regular expressions both scanners use to find line breaks,
    written out as functions on code units. */
module LineBreaks {
  import opened Wrappers
  import opened Strings

  /** Length of the break `\r\n|\r|\n` that starts at `i`; the alternation
      tries `\r\n` first, so a CR directly followed by LF is one break. */
  function BreakLength(s: Text, i: nat): (n: nat)
    requires i < |s| && IsNewline(s[i])
    ensures i + n <= |s|
    ensures n == 2 <==> s[i] == CR && i + 1 < |s| && s[i + 1] == LF
    ensures n == 1 || n == 2
  {
    if s[i] == CR && i + 1 < |s| && s[i + 1] == LF then 2 else 1
  }

  /** The number of matches of `/\r\n|\r|\n/g` in `s`, found left to right. */
  function CountBreaks(s: Text): nat
    decreases |s|
  {
    if |s| == 0 then 0
    else if IsNewline(s[0]) then 1 + CountBreaks(s[BreakLength(s, 0)..])
    else CountBreaks(s[1..])
  }

  /** How often `u` occurs in `s`. */
  function Occurrences(s: Text, u: Unit): nat
  {
    if |s| == 0 then 0 else (if s[0] == u then 1 else 0) + Occurrences(s[1..], u)
  }

  /** How many CR code units are directly followed by LF. */
  function CrLfPairs(s: Text): nat
  {
    if |s| < 2 then 0 else (if s[0] == CR && s[1] == LF then 1 else 0) + CrLfPairs(s[1..])
  }

  /** True when `a + b` splits a CRLF pair between its two parts. */
  predicate SplitsCrLf(a: Text, b: Text) {
    |a| > 0 && a[|a| - 1] == CR && |b| > 0 && b[0] == LF
  }

  /** Independent reading of the count: every CR and every LF is a break,
      except that a CRLF pair counts once. */
  lemma {:induction false} CountBreaksByUnits(s: Text)
    ensures CountBreaks(s) + CrLfPairs(s) == Occurrences(s, CR) + Occurrences(s, LF)
    decreases |s|
  {
    if |s| == 0 {
    } else if s[0] == CR && |s| > 1 && s[1] == LF {
      CountBreaksByUnits(s[2..]);
      assert s[1..][1..] == s[2..];
    } else {
      CountBreaksByUnits(s[1..]);
    }
  }

  lemma {:induction false} OccurrencesConcat(a: Text, b: Text, u: Unit)
    ensures Occurrences(a + b, u) == Occurrences(a, u) + Occurrences(b, u)
    decreases |a|
  {
    if |a| > 0 {
      assert (a + b)[1..] == a[1..] + b;
      OccurrencesConcat(a[1..], b, u);
    } else {
      assert a + b == b;
    }
  }

  lemma {:induction false} CrLfPairsConcat(a: Text, b: Text)
    ensures CrLfPairs(a + b) == CrLfPairs(a) + CrLfPairs(b) + (if SplitsCrLf(a, b) then 1 else 0)
    decreases |a|
  {
    if |a| == 0 {
      assert a + b == b;
    } else {
      assert (a + b)[1..] == a[1..] + b;
      CrLfPairsConcat(a[1..], b);
      if |a| >= 2 {
        assert SplitsCrLf(a[1..], b) == SplitsCrLf(a, b);
      }
    }
  }

  /** Counting the breaks of a concatenation: the parts' counts add up, except
      that a CRLF pair split between the parts is one break, not two. */
  lemma CountBreaksConcat(a: Text, b: Text)
    ensures CountBreaks(a + b) == CountBreaks(a) + CountBreaks(b) - (if SplitsCrLf(a, b) then 1 else 0)
  {
    CountBreaksByUnits(a);
    CountBreaksByUnits(b);
    CountBreaksByUnits(a + b);
    OccurrencesConcat(a, b, CR);
    OccurrencesConcat(a, b, LF);
    CrLfPairsConcat(a, b);
  }

  /** A text has no break exactly when it has no CR and no LF. */
  lemma {:induction false} CountBreaksZero(s: Text)
    ensures CountBreaks(s) == 0 <==> IndexWhere(s, 0, IsNewline) == |s|
    decreases |s|
  {
    if |s| > 0 && !IsNewline(s[0]) {
      CountBreaksZero(s[1..]);
      IndexWhereShift([s[0]], s[1..], 0, IsNewline);
      assert [s[0]] + s[1..] == s;
    }
  }

  /** Where the sticky line regex `/.*?(?:\r\n|\r|\n)/y` stops when started at
      `p`: just after the first break, provided no code unit before that break
      is a line terminator `.` refuses (LS or PS); otherwise it fails. */
  function LineEnd(s: Text, p: nat): (e: Option<nat>)
    requires p <= |s|
    ensures e.Some? ==> p < e.value <= |s|
  {
    var q := IndexWhere(s, p, IsLineTerminator);
    if q < |s| && IsNewline(s[q]) then Some(q + BreakLength(s, q)) else None
  }

  /** The line the regex finds ends just after a break, holds exactly one
      break, and does not end between the CR and the LF of a CRLF; the
      regex fails exactly when the first line terminator from `p` on is
      missing or is LS or PS. */
  lemma LineEndFacts(s: Text, p: nat)
    requires p <= |s|
    ensures var e := LineEnd(s, p);
            e.Some? ==> IsNewline(s[e.value - 1]) && CountBreaks(s[p..e.value]) == 1 &&
                        !SplitsCrLf(s[..e.value], s[e.value..])
    ensures LineEnd(s, p).None? <==>
              IndexWhere(s, p, IsLineTerminator) == |s| || !IsNewline(s[IndexWhere(s, p, IsLineTerminator)])
  {
    var q := IndexWhere(s, p, IsLineTerminator);
    if q < |s| && IsNewline(s[q]) {
      LineEndCountsOne(s, p, q, q + BreakLength(s, q));
    }
  }

  lemma LineEndCountsOne(s: Text, p: nat, q: nat, e: nat)
    requires p <= q < |s| && IsNewline(s[q])
    requires forall k :: p <= k < q ==> !IsLineTerminator(s[k])
    requires e == q + BreakLength(s, q)
    ensures CountBreaks(s[p..e]) == 1
  {
    assert s[p..e] == s[p..q] + s[q..e];
    assert IndexWhere(s[p..q], 0, IsNewline) == q - p;
    CountBreaksZero(s[p..q]);
    CountBreaksConcat(s[p..q], s[q..e]);
    var t := s[q..e];
    assert IsNewline(t[0]);
    if e == q + 2 {
      assert t[2..] == [];
    } else {
      assert t[1..] == [];
    }
  }

  /** True when the text contains a CR or an LF. */
  predicate HasNewline(s: Text) {
    IndexWhere(s, 0, IsNewline) < |s|
  }

  /** The end of the first break `\r\n|\r|\n` in a text that has one. */
  function FirstBreakEnd(s: Text): (b: nat)
    requires HasNewline(s)
    ensures 0 < b <= |s|
  {
    var i := IndexWhere(s, 0, IsNewline);
    i + BreakLength(s, i)
  }

  /** The length of `/(?:\r\n|\r|\n).*?$/m`'s match with its leading break
      removed: the code units after the FIRST break up to the next line
      terminator of ECMA-262 (multiline `$` also stops before LS and PS) or the
      end of the text. */
  function SegmentAfterFirstBreak(s: Text): (n: nat)
    requires HasNewline(s)
    ensures FirstBreakEnd(s) + n <= |s|
    ensures forall k :: FirstBreakEnd(s) <= k < FirstBreakEnd(s) + n ==> !IsLineTerminator(s[k])
    ensures FirstBreakEnd(s) + n == |s| || IsLineTerminator(s[FirstBreakEnd(s) + n])
  {
    var b := FirstBreakEnd(s);
    IndexWhere(s, b, IsLineTerminator) - b
  }

  /** The end of the last CR or LF in a text, or 0 when it has none: every
      unit from there on is on the text's last line. */
  function LastBreakEnd(s: Text): (e: nat)
    ensures e <= |s|
    ensures e > 0 ==> IsNewline(s[e - 1])
    ensures forall k :: e <= k < |s| ==> !IsNewline(s[k])
    ensures e == 0 <==> !HasNewline(s)
    decreases |s|
  {
    if |s| == 0 then 0
    else if IsNewline(s[|s| - 1]) then |s|
    else LastBreakEnd(s[..|s| - 1])
  }

  lemma {:induction false} LastBreakEndConcat(a: Text, b: Text)
    ensures LastBreakEnd(a + b) == if HasNewline(b) then |a| + LastBreakEnd(b) else LastBreakEnd(a)
  {
    var e := LastBreakEnd(a + b);
    var ab := a + b;
    if HasNewline(b) {
      var f := |a| + LastBreakEnd(b);
      assert ab[f - 1] == b[LastBreakEnd(b) - 1];
      forall k | f <= k < |ab| ensures !IsNewline(ab[k]) { assert ab[k] == b[k - |a|]; }
    } else {
      var f := LastBreakEnd(a);
      forall k | |a| <= k < |ab| ensures !IsNewline(ab[k]) {
        assert ab[k] == b[k - |a|];
      }
      forall k | f <= k < |a| ensures !IsNewline(ab[k]) { assert ab[k] == a[k]; }
      if f > 0 { assert ab[f - 1] == a[f - 1]; }
    }
  }

  /** `LineEnd` only looks forward from its start. */
  lemma LineEndShift(a: Text, b: Text, q: nat)
    requires q <= |b|
    ensures LineEnd(a + b, |a| + q) == if LineEnd(b, q).Some? then Some(|a| + LineEnd(b, q).value) else None
  {
    IndexWhereShift(a, b, q, IsLineTerminator);
    var i := IndexWhere(b, q, IsLineTerminator);
    if i < |b| && IsNewline(b[i]) {
      assert (a + b)[|a| + i] == b[i];
      if i + 1 < |b| { assert (a + b)[|a| + i + 1] == b[i + 1]; }
    }
  }

  /** A line found inside `a` is found in `a + b` as well, unless `b` would
      complete its final CR into a CRLF. */
  lemma LineEndExtend(a: Text, b: Text, p: nat)
    requires p <= |a| && LineEnd(a, p).Some? && !SplitsCrLf(a, b)
    ensures LineEnd(a + b, p) == LineEnd(a, p)
  {
    var i := IndexWhere(a, p, IsLineTerminator);
    IndexWhereExtend(a, b, p, IsLineTerminator);
    assert (a + b)[i] == a[i];
    if i + 1 < |a| { assert (a + b)[i + 1] == a[i + 1]; }
    if i + 1 == |a| && |b| > 0 { assert (a + b)[i + 1] == b[0]; }
  }

  /** When the rest of `a` holds no line terminator at all, the line search
      continues into `b`. */
  lemma LineEndAcross(a: Text, b: Text, p: nat)
    requires p <= |a| && IndexWhere(a, p, IsLineTerminator) == |a|
    ensures LineEnd(a + b, p) == if LineEnd(b, 0).Some? then Some(|a| + LineEnd(b, 0).value) else None
  {
    IndexWhereAcross(a, b, p, IsLineTerminator);
    LineEndShift(a, b, 0);
    IndexWhereShift(a, b, 0, IsLineTerminator);
  }

  /** Without LS or PS ahead, the line search fails only when no CR or LF is
      left: the rest then holds no break. */
  lemma LineEndNoneNoBreaks(s: Text, p: nat)
    requires p <= |s| && NoSeparators(s[p..]) && LineEnd(s, p).None?
    ensures IndexWhere(s, p, IsLineTerminator) == |s|
    ensures CountBreaks(s[p..]) == 0
  {
    forall k | p <= k < |s| ensures !IsSeparator(s[k]) {
      assert s[p..][k - p] == s[k];
    }
    forall k | 0 <= k < |s| - p ensures !IsNewline(s[p..][k]) {
      assert s[p..][k] == s[p + k];
    }
    CountBreaksZero(s[p..]);
  }
}
