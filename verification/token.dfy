/** `Token`: a definition, an optional explicit type and a `[start, end)`
    range of its scanner's subject, with getters derived from them and a
    one-line `toString`. */
module Tokens {
  import opened Wrappers
  import opened Strings
  import opened TokenDefinitions

  /** The scanner a token reads through: its subject and its answers for the
      line and column of an offset. */
  datatype Owner = Owner(subject: Text, lineNumberForOffset: int -> int, columnNumberForOffset: int -> int)

  /** The constructor's fields. `tokenType` is `None` when no type was given. */
  datatype Token = Token(scanner: Owner, definition: TokenDefinition, tokenType: Option<Identifier>, start: int, end: int)

  /** Truthiness of an identifier: every symbol is truthy, a string only when
      it is not empty. */
  predicate Truthy(id: Identifier) {
    id.SymbolId? || |id.text| > 0
  }

  /** `type`: the explicit type when it is truthy, otherwise the definition's
      identifier. */
  function Type(t: Token): (r: Identifier)
    ensures t.tokenType.Some? && Truthy(t.tokenType.value) ==> r == t.tokenType.value
    ensures !(t.tokenType.Some? && Truthy(t.tokenType.value)) ==> r == t.definition.identifier
  {
    if t.tokenType.Some? && Truthy(t.tokenType.value) then t.tokenType.value else t.definition.identifier
  }

  // ---------------------------------------------------------------------------
  // value

  /** How `String.prototype.slice` reads an index: a negative one counts
      back from the end; both are then clamped to `[0, |s|]`. */
  function SliceIndex(len: nat, x: int): (r: nat)
    ensures r <= len
    ensures 0 <= x <= len ==> r == x
  {
    if x < 0 then (if len + x < 0 then 0 else len + x)
    else if x > len then len else x
  }

  /** `s.slice(start, end)`. */
  function Slice(s: Text, start: int, end: int): (r: Text)
    ensures 0 <= start <= end <= |s| ==> r == s[start..end]
    ensures |r| == if SliceIndex(|s|, start) < SliceIndex(|s|, end) then SliceIndex(|s|, end) - SliceIndex(|s|, start) else 0
    ensures |r| > 0 ==> r == s[SliceIndex(|s|, start)..SliceIndex(|s|, end)]
  {
    var from := SliceIndex(|s|, start);
    var to := SliceIndex(|s|, end);
    if from < to then s[from..to] else []
  }

  /** Two adjacent in-range slices join into one, and the full range gives
      the whole string back: slicing loses and repeats nothing. */
  lemma SliceJoin(s: Text, a: int, b: int, c: int)
    requires 0 <= a <= b <= c <= |s|
    ensures Slice(s, a, b) + Slice(s, b, c) == Slice(s, a, c)
    ensures Slice(s, 0, |s|) == s
  {
  }

  /** `value`: the token's range of its scanner's subject. */
  function Value(t: Token): (r: Text)
    ensures 0 <= t.start <= t.end <= |t.scanner.subject| ==> r == t.scanner.subject[t.start..t.end] && |r| == t.end - t.start
    ensures t.end <= t.start && t.start >= 0 && t.end >= 0 ==> r == []
  {
    Slice(t.scanner.subject, t.start, t.end)
  }

  // ---------------------------------------------------------------------------
  // Escaping

  const LowerR: Unit := 0x72
  const LowerN: Unit := 0x6E

  /** `s.replace(/c/g, rep)`: every occurrence of `c` replaced by `rep`. */
  function ReplaceAll(s: Text, c: Unit, rep: Text): (r: Text)
    ensures (forall k :: 0 <= k < |s| ==> s[k] != c) ==> r == s
  {
    if |s| == 0 then [] else (if s[0] == c then rep else [s[0]]) + ReplaceAll(s[1..], c, rep)
  }

  lemma {:induction false} ReplaceAllConcat(a: Text, b: Text, c: Unit, rep: Text)
    ensures ReplaceAll(a + b, c, rep) == ReplaceAll(a, c, rep) + ReplaceAll(b, c, rep)
    decreases |a|
  {
    if |a| == 0 {
      assert a + b == b;
    } else {
      assert (a + b)[1..] == a[1..] + b;
      ReplaceAllConcat(a[1..], b, c, rep);
    }
  }

  /** The value as `toString` shows it: three global replacements, CR by
      `\r`, then LF by `\n`, then `'` by `\'`. */
  function Escape(s: Text): Text
  {
    ReplaceAll(ReplaceAll(ReplaceAll(s, CR, [Backslash, LowerR]), LF, [Backslash, LowerN]), Quote, [Backslash, Quote])
  }

  /** Reference reading: each unit on its own, in a single pass. */
  function EscapeUnit(u: Unit): Text
  {
    if u == CR then [Backslash, LowerR]
    else if u == LF then [Backslash, LowerN]
    else if u == Quote then [Backslash, Quote]
    else [u]
  }

  function EscapeEach(s: Text): Text
  {
    if |s| == 0 then [] else EscapeUnit(s[0]) + EscapeEach(s[1..])
  }

  /** The three passes do not interfere (no replacement introduces a unit a
      later pass replaces), so they act as one pass over the units. */
  lemma {:induction false} EscapeIsOnePass(s: Text)
    ensures Escape(s) == EscapeEach(s)
    decreases |s|
  {
    if |s| > 0 {
      var head, tail := [s[0]], s[1..];
      assert s == head + tail;
      ReplaceAllConcat(head, tail, CR, [Backslash, LowerR]);
      var a1, a2 := ReplaceAll(head, CR, [Backslash, LowerR]), ReplaceAll(tail, CR, [Backslash, LowerR]);
      ReplaceAllConcat(a1, a2, LF, [Backslash, LowerN]);
      var b1, b2 := ReplaceAll(a1, LF, [Backslash, LowerN]), ReplaceAll(a2, LF, [Backslash, LowerN]);
      ReplaceAllConcat(b1, b2, Quote, [Backslash, Quote]);
      assert ReplaceAll(b1, Quote, [Backslash, Quote]) == EscapeUnit(s[0]);
      EscapeIsOnePass(tail);
    }
  }

  /** The escaped value holds no CR and no LF, so `toString` is one line. */
  lemma {:induction false} EscapedHasNoNewline(s: Text)
    ensures OneLine(Escape(s))
  {
    EscapeIsOnePass(s);
    EachHasNoNewline(s);
  }

  lemma {:induction false} EachHasNoNewline(s: Text)
    ensures OneLine(EscapeEach(s))
    decreases |s|
  {
    if |s| > 0 {
      EachHasNoNewline(s[1..]);
      var e := EscapeEach(s);
      forall k | 0 <= k < |e| ensures !IsNewline(e[k]) {
        if k >= |EscapeUnit(s[0])| {
          assert e[k] == EscapeEach(s[1..])[k - |EscapeUnit(s[0])|];
        }
      }
    }
  }

  /** Reading an escaped text back: `\r`, `\n` and `\'` stand for CR, LF and
      `'`; every other unit stands for itself. */
  function Unescape(s: Text): Text
  {
    if |s| >= 2 && s[0] == Backslash && s[1] == LowerR then [CR] + Unescape(s[2..])
    else if |s| >= 2 && s[0] == Backslash && s[1] == LowerN then [LF] + Unescape(s[2..])
    else if |s| >= 2 && s[0] == Backslash && s[1] == Quote then [Quote] + Unescape(s[2..])
    else if |s| == 0 then []
    else [s[0]] + Unescape(s[1..])
  }

  predicate NoBackslash(s: Text) {
    forall k :: 0 <= k < |s| ==> s[k] != Backslash
  }

  /** For a value without backslashes the escaping loses nothing: reading it
      back gives the value. */
  lemma {:induction false} UnescapeEscape(s: Text)
    requires NoBackslash(s)
    ensures Unescape(Escape(s)) == s
  {
    EscapeIsOnePass(s);
    UnescapeEach(s);
  }

  lemma {:induction false} UnescapeEach(s: Text)
    requires NoBackslash(s)
    ensures Unescape(EscapeEach(s)) == s
    decreases |s|
  {
    if |s| > 0 {
      UnescapeEach(s[1..]);
      var e := EscapeEach(s);
      var u := EscapeUnit(s[0]);
      assert e == u + EscapeEach(s[1..]);
      if |u| == 2 {
        assert e[2..] == EscapeEach(s[1..]);
      } else {
        assert e[1..] == EscapeEach(s[1..]);
      }
      assert s == [s[0]] + s[1..];
    }
  }

  /** With backslashes allowed the escaping is not injective: a CR and the
      two units `\r` print the same. */
  lemma EscapeNotInjective()
    ensures Escape([CR]) == Escape([Backslash, LowerR]) && [CR] != [Backslash, LowerR]
  {
    EscapeIsOnePass([CR]);
    EscapeIsOnePass([Backslash, LowerR]);
    assert EscapeEach([Backslash, LowerR]) == [Backslash] + EscapeEach([LowerR]);
  }

  // ---------------------------------------------------------------------------
  // toString

  const Zero: Unit := 0x30
  const Minus: Unit := 0x2D

  /** The decimal digits of a natural number, most significant first. */
  function Digits(n: nat): (r: Text)
    ensures |r| >= 1
    ensures forall k :: 0 <= k < |r| ==> Zero <= r[k] <= Zero + 9
    ensures |r| > 1 ==> r[0] != Zero
    decreases n
  {
    if n < 10 then [Zero + n as Unit] else Digits(n / 10) + [Zero + (n % 10) as Unit]
  }

  /** The number a sequence of decimal digits spells. */
  function DigitsValue(ds: Text): nat
    requires forall k :: 0 <= k < |ds| ==> Zero <= ds[k] <= Zero + 9
  {
    if |ds| == 0 then 0 else DigitsValue(ds[..|ds| - 1]) * 10 + (ds[|ds| - 1] - Zero) as nat
  }

  /** Reading the digits back gives the number. */
  lemma {:induction false} DigitsRoundTrip(n: nat)
    ensures DigitsValue(Digits(n)) == n
    decreases n
  {
    if n >= 10 {
      DigitsRoundTrip(n / 10);
      var ds := Digits(n);
      assert ds[..|ds| - 1] == Digits(n / 10);
    }
  }

  /** `${n}` for an integer. */
  function Decimal(n: int): Text
  {
    if n < 0 then [Minus] + Digits(-n) else Digits(n)
  }

  /** `toString()`: type, start, end, line, column and the escaped value, in
      that order. */
  function ToString(t: Token): Text
  {
    Fields(t) + Escape(Value(t)) + Lit("' }")
  }

  /** The part of `toString` before the escaped value. */
  function Fields(t: Token): Text
  {
    Lit("{ type: ") + Render(Type(t)) +
    Lit(", start: ") + Decimal(t.start) +
    Lit(", end: ") + Decimal(t.end) +
    Lit(", line: ") + Decimal(t.scanner.lineNumberForOffset(t.start)) +
    Lit(", column: ") + Decimal(t.scanner.columnNumberForOffset(t.start)) +
    Lit(", value: '")
  }

  /** A text without CR or LF. */
  predicate OneLine(s: Text) {
    forall k :: 0 <= k < |s| ==> !IsNewline(s[k])
  }

  lemma OneLineConcat(a: Text, b: Text)
    requires OneLine(a) && OneLine(b)
    ensures OneLine(a + b)
  {
    forall k | 0 <= k < |a + b| ensures !IsNewline((a + b)[k]) {
      if k >= |a| {
        assert (a + b)[k] == b[k - |a|];
      }
    }
  }

  /** A printable ASCII literal has no line break. */
  lemma LitOneLine(s: string)
    requires forall k :: 0 <= k < |s| ==> ' ' <= s[k] <= '~'
    ensures OneLine(Lit(s))
  {
  }

  lemma DecimalOneLine(n: int)
    ensures OneLine(Decimal(n))
  {
  }

  /** The fields before the value have no line break when the type's
      rendering has none. */
  lemma FieldsOneLine(t: Token)
    requires OneLine(Render(Type(t)))
    ensures OneLine(Fields(t))
  {
    var line := t.scanner.lineNumberForOffset(t.start);
    var column := t.scanner.columnNumberForOffset(t.start);
    LitOneLine("{ type: ");
    LitOneLine(", start: ");
    LitOneLine(", end: ");
    LitOneLine(", line: ");
    LitOneLine(", column: ");
    LitOneLine(", value: '");
    DecimalOneLine(t.start);
    DecimalOneLine(t.end);
    DecimalOneLine(line);
    DecimalOneLine(column);
    var acc := Lit("{ type: ");
    OneLineConcat(acc, Render(Type(t)));
    acc := acc + Render(Type(t));
    OneLineConcat(acc, Lit(", start: "));
    acc := acc + Lit(", start: ");
    OneLineConcat(acc, Decimal(t.start));
    acc := acc + Decimal(t.start);
    OneLineConcat(acc, Lit(", end: "));
    acc := acc + Lit(", end: ");
    OneLineConcat(acc, Decimal(t.end));
    acc := acc + Decimal(t.end);
    OneLineConcat(acc, Lit(", line: "));
    acc := acc + Lit(", line: ");
    OneLineConcat(acc, Decimal(line));
    acc := acc + Decimal(line);
    OneLineConcat(acc, Lit(", column: "));
    acc := acc + Lit(", column: ");
    OneLineConcat(acc, Decimal(column));
    acc := acc + Decimal(column);
    OneLineConcat(acc, Lit(", value: '"));
    acc := acc + Lit(", value: '");
    assert acc == Fields(t);
  }

  /** The value part of `toString` is the escaped value, closed by `' }`, and
      when the type's rendering has no line break neither has the string. */
  lemma ToStringLayout(t: Token)
    requires OneLine(Render(Type(t)))
    ensures var s := ToString(t);
            var v := Escape(Value(t));
            |s| >= |v| + 3 && s[|s| - |v| - 3..|s| - 3] == v && s[|s| - 3..] == Lit("' }")
    ensures OneLine(ToString(t))
  {
    var f := Fields(t);
    var v := Escape(Value(t));
    var close := Lit("' }");
    FieldsOneLine(t);
    EscapedHasNoNewline(Value(t));
    LitOneLine("' }");
    OneLineConcat(f, v);
    OneLineConcat(f + v, close);
    var s := ToString(t);
    assert |close| == 3;
    assert s[|s| - |v| - 3..|s| - 3] == v by {
      assert s == f + v + close;
      assert s[|f|..|f| + |v|] == v;
    }
  }
}
