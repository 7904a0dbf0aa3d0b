/** JavaScript strings as sequences of UTF-16 code units, and the code units the
    scanners treat specially. */
module Strings {

  /** One UTF-16 code unit, as returned by `String.prototype.charCodeAt`. */
  newtype Unit = x: int | 0 <= x < 0x1_0000

  /** A JavaScript string. */
  type Text = seq<Unit>

  const LF: Unit := 0x0A
  const CR: Unit := 0x0D
  const Quote: Unit := 0x27
  const Backslash: Unit := 0x5C
  /** LINE SEPARATOR and PARAGRAPH SEPARATOR. */
  const LS: Unit := 0x2028
  const PS: Unit := 0x2029

  /** The code units the alternation `\r\n|\r|\n` can start with. */
  predicate IsNewline(u: Unit) {
    u == CR || u == LF
  }

  /** The LineTerminator code points of ECMA-262 (section 12.3, 2022 edition):
      what the regex atom `.` refuses and what a multiline `$` stops before. */
  predicate IsLineTerminator(u: Unit) {
    u == CR || u == LF || u == LS || u == PS
  }

  /** The two line terminators that are not CR or LF. */
  predicate IsSeparator(u: Unit) {
    u == LS || u == PS
  }

  /** A text without LINE SEPARATOR or PARAGRAPH SEPARATOR. */
  predicate NoSeparators(s: Text) {
    forall k :: 0 <= k < |s| ==> !IsSeparator(s[k])
  }

  /** The code-unit sequence of an ASCII literal (every character of the
      literals used in this model is below 0x80). */
  function Lit(s: string): (t: Text)
    ensures |t| == |s|
  {
    seq(|s|, i requires 0 <= i < |s| => (s[i] as int % 0x1_0000) as Unit)
  }

  /** The first index at or after `p` whose code unit satisfies `P`, or `|s|`
      when there is none: the position a lazy `.*?` or a global search stops at. */
  function IndexWhere(s: Text, p: nat, P: Unit -> bool): (q: nat)
    requires p <= |s|
    ensures p <= q <= |s|
    ensures forall k :: p <= k < q ==> !P(s[k])
    ensures q < |s| ==> P(s[q])
    decreases |s| - p
  {
    if p == |s| || P(s[p]) then p else IndexWhere(s, p + 1, P)
  }

  /** `IndexWhere` only looks forward: a prefix before the search start does
      not change where it stops. */
  lemma {:induction false} IndexWhereShift(a: Text, b: Text, p: nat, P: Unit -> bool)
    requires p <= |b|
    ensures IndexWhere(a + b, |a| + p, P) == |a| + IndexWhere(b, p, P)
    decreases |b| - p
  {
    assert (a + b)[|a| + p..] == b[p..];
    if p < |b| && !P(b[p]) {
      IndexWhereShift(a, b, p + 1, P);
    }
  }

  /** A search that stops inside `a` stops at the same place in `a + b`. */
  lemma {:induction false} IndexWhereExtend(a: Text, b: Text, p: nat, P: Unit -> bool)
    requires p <= |a|
    requires IndexWhere(a, p, P) < |a|
    ensures IndexWhere(a + b, p, P) == IndexWhere(a, p, P)
    decreases |a| - p
  {
    if !P(a[p]) {
      IndexWhereExtend(a, b, p + 1, P);
    }
  }

  /** A search that runs off the end of `a` continues into `b`. */
  lemma {:induction false} IndexWhereAcross(a: Text, b: Text, p: nat, P: Unit -> bool)
    requires p <= |a|
    requires IndexWhere(a, p, P) == |a|
    ensures IndexWhere(a + b, p, P) == |a| + IndexWhere(b, 0, P)
    decreases |a| - p
  {
    if p == |a| {
      IndexWhereShift(a, b, 0, P);
    } else {
      IndexWhereAcross(a, b, p + 1, P);
    }
  }
}
