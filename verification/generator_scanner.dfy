/** The newer `Scanner` base class: a subject, a position, and the generator
    `generateTokensUsingDialect`, which asks the subclass for the next token
    and advances the position by the token's length. */
module GeneratorScanner {
  import opened Wrappers
  import opened Strings

  datatype Scanner = Scanner(subject: Text, position: nat)

  /** The `TypeError`s: a falsy subject, a falsy dialect, a dialect argument
      that is not a `Dialect`. */
  datatype ScanError = SubjectMissing | DialectMissing | NotADialect

  /** `new Scanner(subject)`: `undefined`, `null` and the empty string are
      falsy and refused; any other string is kept, with the position at 0. */
  function NewScanner(subject: Option<Text>): (r: Result<Scanner, ScanError>)
    ensures r.Success? <==> subject.Some? && |subject.value| > 0
    ensures r.Failure? ==> r.error == SubjectMissing
    ensures r.Success? ==> r.value.subject == subject.value && r.value.position == 0
  {
    if subject.None? || |subject.value| == 0 then Failure(SubjectMissing)
    else Success(Scanner(subject.value, 0))
  }

  /** The dialect argument: falsy, an object that is not a `Dialect`, or a
      `Dialect` (by identity). */
  datatype DialectArg = Falsy | NotDialect | IsDialect(dialect: nat)

  /** The generator object: created but not yet pulled (its body, argument
      checks included, has not run), suspended inside the loop, or finished
      (by returning or by throwing). */
  datatype Generator = Fresh(arg: DialectArg) | Looping | Finished

  /** `determineNextTokenUsingDialect` for the generator's dialect, as a
      function of the subject and position: a token, or `None` for any falsy
      answer. */
  type Determine<T> = (Text, nat) -> Option<T>

  /** What one `next()` produces: the scanner and generator after it, and
      `Success(Some(t))` for a yielded token, `Success(None)` for `done`, or
      the error thrown. */
  datatype Pulled<T> = Pulled(scanner: Scanner, gen: Generator, result: Result<Option<T>, ScanError>)

  /** Whether the generator will ask for a token on its next pull. */
  predicate Asks(g: Generator) {
    g.Looping? || (g.Fresh? && g.arg.IsDialect?)
  }

  /** One `next()` on the generator. The first pull checks the argument; each
      pull then asks for a token, ends the loop on a falsy answer, or adds the
      token's value length to the position and yields the token. */
  function Next<T>(s: Scanner, g: Generator, determine: Determine<T>, len: T -> nat): (r: Pulled<T>)
    ensures r.scanner.subject == s.subject
    ensures s.position <= r.scanner.position
    ensures g.Fresh? && g.arg.Falsy? ==> r == Pulled(s, Finished, Failure(DialectMissing))
    ensures g.Fresh? && g.arg.NotDialect? ==> r == Pulled(s, Finished, Failure(NotADialect))
    ensures g.Finished? ==> r == Pulled(s, Finished, Success(None))
    ensures Asks(g) ==> r.result.Success? && (r.result.value.Some? <==> determine(s.subject, s.position).Some?)
    ensures r.result.Success? && r.result.value.Some? ==>
              Asks(g) && r.result.value == determine(s.subject, s.position) && r.gen.Looping? &&
              r.scanner.position == s.position + len(r.result.value.value)
    ensures r.result.Success? && r.result.value.None? ==> r.gen.Finished? && r.scanner == s
  {
    match g
    case Fresh(Falsy) => Pulled(s, Finished, Failure(DialectMissing))
    case Fresh(NotDialect) => Pulled(s, Finished, Failure(NotADialect))
    case Finished => Pulled(s, Finished, Success(None))
    case _ =>
      match determine(s.subject, s.position)
      case None => Pulled(s, Finished, Success(None))
      case Some(t) => Pulled(s.(position := s.position + len(t)), Looping, Success(Some(t)))
  }

  /** `k` pulls: the scanner and generator after them, the tokens yielded
      and the error thrown, if any. */
  datatype Trace<T> = Trace(scanner: Scanner, gen: Generator, tokens: seq<T>, error: Option<ScanError>)

  function Run<T>(s: Scanner, g: Generator, determine: Determine<T>, len: T -> nat, k: nat): Trace<T>
  {
    if k == 0 then Trace(s, g, [], None)
    else
      var before := Run(s, g, determine, len, k - 1);
      var p := Next(before.scanner, before.gen, determine, len);
      match p.result
      case Failure(e) => Trace(p.scanner, p.gen, before.tokens, Some(e))
      case Success(None) => Trace(p.scanner, p.gen, before.tokens, before.error)
      case Success(Some(t)) => Trace(p.scanner, p.gen, before.tokens + [t], before.error)
  }

  /** The total value length of a list of tokens. */
  function TotalLength<T>(tokens: seq<T>, len: T -> nat): nat
  {
    if |tokens| == 0 then 0 else TotalLength(tokens[..|tokens| - 1], len) + len(tokens[|tokens| - 1])
  }

  /** After any number of pulls the position is the starting position plus
      the lengths of the tokens yielded, so it never decreases; the subject
      never changes. */
  lemma {:induction false} PositionIsTotalLength<T>(s: Scanner, g: Generator, determine: Determine<T>, len: T -> nat, k: nat)
    ensures Run(s, g, determine, len, k).scanner.position == s.position + TotalLength(Run(s, g, determine, len, k).tokens, len)
    ensures Run(s, g, determine, len, k).scanner.subject == s.subject
  {
    if k > 0 {
      PositionIsTotalLength(s, g, determine, len, k - 1);
      var before := Run(s, g, determine, len, k - 1);
      var p := Next(before.scanner, before.gen, determine, len);
      if p.result.Success? && p.result.value.Some? {
        var ts := before.tokens + [p.result.value.value];
        assert ts[..|ts| - 1] == before.tokens;
      }
    }
  }

  /** Once finished, the generator stays finished: no further pull yields a
      token or moves the position. */
  lemma {:induction false} FinishedStaysFinished<T>(s: Scanner, determine: Determine<T>, len: T -> nat, k: nat)
    ensures Run(s, Finished, determine, len, k) == Trace(s, Finished, [], None)
  {
    if k > 0 {
      FinishedStaysFinished(s, determine, len, k - 1);
    }
  }

  /** A zero-length token is the generator's undoing: the position does not
      move, so the same token is yielded on every pull and the stream never
      ends. */
  lemma {:induction false} ZeroLengthRepeats<T>(s: Scanner, g: Generator, determine: Determine<T>, len: T -> nat, t: T, k: nat)
    requires Asks(g)
    requires determine(s.subject, s.position) == Some(t) && len(t) == 0
    ensures Run(s, g, determine, len, k).scanner == s
    ensures Run(s, g, determine, len, k).tokens == seq(k, _ => t)
    ensures Run(s, g, determine, len, k).error.None?
    ensures k > 0 ==> Run(s, g, determine, len, k).gen.Looping?
  {
    if k > 0 {
      ZeroLengthRepeats(s, g, determine, len, t, k - 1);
      assert seq(k - 1, _ => t) + [t] == seq(k, _ => t);
    }
  }

  /** A bad dialect argument is only reported when the generator is first
      pulled; from then on the stream is over. */
  lemma BadDialectThrowsOnFirstPull<T>(s: Scanner, arg: DialectArg, determine: Determine<T>, len: T -> nat, k: nat)
    requires !arg.IsDialect? && k > 0
    ensures Run(s, Fresh(arg), determine, len, 0).error.None?
    ensures Run(s, Fresh(arg), determine, len, k).error == Some(if arg.Falsy? then DialectMissing else NotADialect)
    ensures Run(s, Fresh(arg), determine, len, k).tokens == [] && Run(s, Fresh(arg), determine, len, k).scanner == s
  {
    if k > 1 {
      BadDialectThrowsOnFirstPull(s, arg, determine, len, k - 1);
    }
  }
}
