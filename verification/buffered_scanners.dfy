/** `BufferedScanner` and `BufferedRegExpScanner`: each picks, at the current
    position, the longest of the candidates its cached tokenizer reports. */
module BufferedScanners {
  import opened Wrappers
  import opened Strings
  import opened RegExps
  import opened Tokenizers
  import opened TokenizerCaches
  import opened TokenDefinitions
  import Tokens

  /** `maxBy(xs, key)`: an element with the greatest key, `None` (JavaScript
      `undefined`) for an empty list. */
  function MaxBy<T>(xs: seq<T>, key: T -> int): (r: Option<T>)
    ensures r.None? <==> |xs| == 0
    ensures r.Some? ==> r.value in xs
    ensures r.Some? ==> forall k :: 0 <= k < |xs| ==> key(xs[k]) <= key(r.value)
  {
    if |xs| == 0 then None
    else
      var best := MaxBy(xs[..|xs| - 1], key);
      var last := xs[|xs| - 1];
      assert forall k :: 0 <= k < |xs| - 1 ==> xs[..|xs| - 1][k] == xs[k];
      if best.None? || key(last) > key(best.value) then Some(last) else best
  }

  /** The answer of `determineNextTokenUsingDialect`: the end-of-input value
      (`null` for `BufferedScanner`, the list `[EOF]` for
      `BufferedRegExpScanner`), `undefined` when no definition matches, or
      the chosen candidate. */
  datatype Next = EndOfInput | NoCandidate | Chosen(candidate: Candidate)

  /** The answer together with the cache it leaves behind; creating a
      tokenizer can throw. */
  datatype Determined<T> = Determined(cache: Cache<T>, next: Result<Next, TokenizerError>)

  /** The longest candidate; every candidate starts at `position`, so its
      length is `end - position`. */
  function Longest(cands: seq<Candidate>, position: nat): (r: Next)
    ensures r.NoCandidate? <==> |cands| == 0
    ensures r.Chosen? ==> r.candidate in cands
    ensures r.Chosen? ==> forall k :: 0 <= k < |cands| ==> cands[k].end - position <= r.candidate.end - position
    ensures !r.EndOfInput?
  {
    match MaxBy(cands, (c: Candidate) => c.end - position)
    case None => NoCandidate
    case Some(c) => Chosen(c)
  }

  /** The `TypeError` the key `tok => tok.value.length` throws: a candidate
      is an `[identifier, lastIndex]` pair, whose `value` is `undefined`. */
  datatype KeyError = ValueOfPair

  /** `maxBy(candidateTokens, tok => tok.value.length)` as written: `maxBy`
      returns `undefined` for an empty list without calling the key, and
      throws on the first candidate of any other list. */
  function LongestAsWritten(cands: seq<Candidate>): (r: Result<Next, KeyError>)
    ensures r.Success? <==> |cands| == 0
    ensures r.Success? ==> r.value == NoCandidate
  {
    if |cands| == 0 then Success(NoCandidate) else Failure(ValueOfPair)
  }

  /** One candidate is enough to tell the two apart: the key as written
      throws, the length key chooses that candidate. */
  lemma LengthKeyCounterexample(c: Candidate, position: nat)
    ensures LongestAsWritten([c]) == Failure(ValueOfPair)
    ensures Longest([c], position) == Chosen(c)
  {
  }

  // ---------------------------------------------------------------------------
  // BufferedScanner

  /** Every tokenizer the cache holds is one `new BufferedTokenizer` built:
      a truthy object whose regexes are sticky. */
  predicate BufferedCacheOk(c: Cache<BufferedTokenizer>) {
    forall d :: d in c.entries ==> c.entries[d].Truthy? && AllSticky(c.entries[d].tokenizer.entries)
  }

  /** The module-level creator: `dialect => new BufferedTokenizer(...)`, with
      the argument each dialect supplies. */
  function BufferedCreator(definitionsOf: DialectRef -> DefinitionsArg): Creator<BufferedTokenizer, TokenizerError>
  {
    (d: DialectRef) =>
      var t := NewBufferedTokenizer(definitionsOf(d));
      if t.Success? then Success(Truthy(t.value)) else Failure(t.error)
  }

  /** The cache keeps holding only built tokenizers across a request, and the
      request hands one back unless the creator throws. */
  lemma BufferedLookupOk(c: Cache<BufferedTokenizer>, definitionsOf: DialectRef -> DefinitionsArg, dialect: DialectRef)
    requires BufferedCacheOk(c)
    ensures var look := TokenizerForDialect(c, BufferedCreator(definitionsOf), dialect);
            BufferedCacheOk(look.cache) &&
            (look.result.Success? ==> look.result.value.Truthy? && AllSticky(look.result.value.tokenizer.entries))
  {
  }

  /** The shared tokenizer object gets the scanner's subject, and the
      longest of its candidates at `position` is the answer. */
  function ServeBuffered(m: Matcher, c: Cache<BufferedTokenizer>, tk: BufferedTokenizer, subject: Text,
                         position: nat, dialect: DialectRef): (r: Determined<BufferedTokenizer>)
    requires BufferedCacheOk(c) && AllSticky(tk.entries)
    ensures r.cache.entries == c.entries[dialect := Truthy(tk.(subject := Some(subject)))]
    ensures BufferedCacheOk(r.cache)
    ensures r.next.Success? && !r.next.value.EndOfInput?
    ensures var cands := BufferedFindTokensAt(m, tk.(subject := Some(subject)), position);
            (r.next.value.NoCandidate? <==> |cands| == 0) &&
            (r.next.value.Chosen? ==>
               r.next.value.candidate in cands &&
               forall k :: 0 <= k < |cands| ==> cands[k].end - position <= r.next.value.candidate.end - position)
  {
    var t := tk.(subject := Some(subject));
    Determined(Cache(c.entries[dialect := Truthy(t)]), Success(Longest(BufferedFindTokensAt(m, t, position), position)))
  }

  /** `BufferedScanner.determineNextTokenUsingDialect(dialect)`: `null` at or
      past the end without touching the cache; otherwise the dialect's cached
      tokenizer gets the scanner's subject (a change the cache keeps, since
      the tokenizer object is shared) and the longest of its candidates at
      `position` is returned, the length being the match's (`Longest`). */
  function BufferedNext(m: Matcher, c: Cache<BufferedTokenizer>, definitionsOf: DialectRef -> DefinitionsArg,
                        subject: Text, position: nat, dialect: DialectRef): (r: Determined<BufferedTokenizer>)
    requires BufferedCacheOk(c)
    ensures BufferedCacheOk(r.cache)
    ensures position >= |subject| ==> r == Determined(c, Success(EndOfInput))
    ensures forall d :: d != dialect ==> Get(r.cache, d) == Get(c, d)
    ensures r.next.Success? && !r.next.value.EndOfInput? ==>
              dialect in r.cache.entries && r.cache.entries[dialect].tokenizer.subject == Some(subject) &&
              var cands := BufferedFindTokensAt(m, r.cache.entries[dialect].tokenizer, position);
              (r.next.value.NoCandidate? <==> |cands| == 0) &&
              (r.next.value.Chosen? ==>
                 r.next.value.candidate in cands &&
                 forall k :: 0 <= k < |cands| ==> cands[k].end - position <= r.next.value.candidate.end - position)
  {
    if position >= |subject| then Determined(c, Success(EndOfInput))
    else
      var look := TokenizerForDialect(c, BufferedCreator(definitionsOf), dialect);
      BufferedLookupOk(c, definitionsOf, dialect);
      if look.result.Failure? then Determined(look.cache, Failure(look.result.error))
      else ServeBuffered(m, look.cache, look.result.value.tokenizer, subject, position, dialect)
  }

  /** Once the dialect has a tokenizer, a request before the end reuses it
      (with the new subject) and cannot throw. */
  lemma BufferedNextReuses(m: Matcher, c: Cache<BufferedTokenizer>, definitionsOf: DialectRef -> DefinitionsArg,
                           subject: Text, position: nat, dialect: DialectRef)
    requires BufferedCacheOk(c)
    requires position < |subject| && Get(c, dialect).Truthy?
    ensures var r := BufferedNext(m, c, definitionsOf, subject, position, dialect);
            r.next.Success? && dialect in r.cache.entries &&
            r.cache.entries[dialect].tokenizer == c.entries[dialect].tokenizer.(subject := Some(subject))
  {
  }

  /** A dialect whose `tokenDefinitions` property is `undefined` (the
      `Dialect` class defines none) makes the first request before the end
      throw the missing-argument error, and nothing is cached for it. */
  lemma UndefinedDefinitionsThrow(m: Matcher, c: Cache<BufferedTokenizer>, definitionsOf: DialectRef -> DefinitionsArg,
                                  subject: Text, position: nat, dialect: DialectRef)
    requires BufferedCacheOk(c)
    requires position < |subject| && Get(c, dialect).Falsy? && definitionsOf(dialect) == Missing
    ensures BufferedNext(m, c, definitionsOf, subject, position, dialect) == Determined(c, Failure(MissingDefinitions))
  {
  }

  // ---------------------------------------------------------------------------
  // BufferedRegExpScanner

  /** Every entry list the cache holds is one `new BufferedRegExpTokenizer`
      built: truthy, with sticky regexes. */
  predicate RegExpCacheOk(c: Cache<seq<Entry>>) {
    forall d :: d in c.entries ==> c.entries[d].Truthy? && AllSticky(c.entries[d].tokenizer)
  }

  /** The module-level creator: `dialect => new BufferedRegExpTokenizer(...)`. */
  function RegExpCreator(definitionsOf: DialectRef -> DefinitionsArg, unicodeSyntax: SyntaxCheck): Creator<seq<Entry>, TokenizerError>
  {
    (d: DialectRef) =>
      var t := NewRegExpTokenizer(unicodeSyntax, definitionsOf(d));
      if t.Success? then Success(Truthy(t.value)) else Failure(t.error)
  }

  /** The same two facts for the `BufferedRegExpTokenizer` cache. */
  lemma RegExpLookupOk(c: Cache<seq<Entry>>, definitionsOf: DialectRef -> DefinitionsArg, unicodeSyntax: SyntaxCheck, dialect: DialectRef)
    requires RegExpCacheOk(c)
    ensures var look := TokenizerForDialect(c, RegExpCreator(definitionsOf, unicodeSyntax), dialect);
            RegExpCacheOk(look.cache) &&
            (look.result.Success? ==> look.result.value.Truthy? && AllSticky(look.result.value.tokenizer))
  {
  }

  /** What `BufferedRegExpScanner.determineNextTokenUsingDialect` does once
      it knows which text and offset it hands the tokenizer: `[EOF]` at or
      past the end of the subject; otherwise the candidate with the greatest
      end among those the dialect's cached tokenizer reports for `text` at
      `offset`. */
  function RegExpDetermine(m: Matcher, c: Cache<seq<Entry>>, definitionsOf: DialectRef -> DefinitionsArg, unicodeSyntax: SyntaxCheck,
                           subject: Text, position: nat, dialect: DialectRef, text: Text, offset: int)
    : (r: Determined<seq<Entry>>)
    requires RegExpCacheOk(c)
    ensures RegExpCacheOk(r.cache)
    ensures position >= |subject| ==> r == Determined(c, Success(EndOfInput))
    ensures position < |subject| && Get(c, dialect).Truthy? ==> r.cache == c && r.next.Success?
    ensures forall d :: d != dialect ==> Get(r.cache, d) == Get(c, d)
    ensures r.next.Success? && !r.next.value.EndOfInput? ==>
              dialect in r.cache.entries &&
              var cands := FindTokensAt(m, r.cache.entries[dialect].tokenizer, text, offset);
              (r.next.value.NoCandidate? <==> |cands| == 0) &&
              (r.next.value.Chosen? ==>
                 r.next.value.candidate in cands &&
                 LastIndex(offset) <= r.next.value.candidate.end <= |text| &&
                 forall k :: 0 <= k < |cands| ==> cands[k].end <= r.next.value.candidate.end)
  {
    if position >= |subject| then Determined(c, Success(EndOfInput))
    else
      var look := TokenizerForDialect(c, RegExpCreator(definitionsOf, unicodeSyntax), dialect);
      RegExpLookupOk(c, definitionsOf, unicodeSyntax, dialect);
      if look.result.Failure? then Determined(look.cache, Failure(look.result.error))
      else
        var cands := FindTokensAt(m, look.result.value.tokenizer, text, offset);
        var next := match MaxBy(cands, (c: Candidate) => c.end) case None => NoCandidate case Some(x) => Chosen(x);
        Determined(look.cache, Success(next))
  }

  /** `BufferedRegExpScanner.determineNextTokenUsingDialect(dialect)` as
      written: `findTokensAt(this.position)` passes the position where the
      subject belongs and leaves the offset `undefined` (read as 0), so the
      regexes run on the decimal digits of the position. Only that line is
      taken as written: the tokenizer comes from the corrected constructor,
      since the constructor as written throws for any non-empty dialect
      before this line is reached. */
  function RegExpNextAsWritten(m: Matcher, c: Cache<seq<Entry>>, definitionsOf: DialectRef -> DefinitionsArg, unicodeSyntax: SyntaxCheck,
                               subject: Text, position: nat, dialect: DialectRef): (r: Determined<seq<Entry>>)
    requires RegExpCacheOk(c)
    ensures RegExpCacheOk(r.cache)
    ensures position >= |subject| ==> r == Determined(c, Success(EndOfInput))
    ensures r.next.Success? && !r.next.value.EndOfInput? ==>
              dialect in r.cache.entries &&
              (r.next.value.NoCandidate? <==>
                 |FindTokensAt(m, r.cache.entries[dialect].tokenizer, Tokens.Decimal(position), 0)| == 0)
  {
    RegExpDetermine(m, c, definitionsOf, unicodeSyntax, subject, position, dialect, Tokens.Decimal(position), 0)
  }

  /** As written, the answer does not depend on the subject at all: two
      subjects that both extend past the position get the same answer. */
  lemma RegExpNextAsWrittenIgnoresSubject(m: Matcher, c: Cache<seq<Entry>>, definitionsOf: DialectRef -> DefinitionsArg, unicodeSyntax: SyntaxCheck,
                                          a: Text, b: Text, position: nat, dialect: DialectRef)
    requires RegExpCacheOk(c) && position < |a| && position < |b|
    ensures RegExpNextAsWritten(m, c, definitionsOf, unicodeSyntax, a, position, dialect) ==
            RegExpNextAsWritten(m, c, definitionsOf, unicodeSyntax, b, position, dialect)
  {
  }

  /** `BufferedRegExpScanner.determineNextTokenUsingDialect(dialect)` with
      the tokenizer given the subject and the position: `[EOF]` at or past
      the end; otherwise the candidate with the greatest end among those the
      dialect's cached tokenizer reports for the subject at `position`. */
  function RegExpNext(m: Matcher, c: Cache<seq<Entry>>, definitionsOf: DialectRef -> DefinitionsArg, unicodeSyntax: SyntaxCheck,
                      subject: Text, position: nat, dialect: DialectRef): (r: Determined<seq<Entry>>)
    requires RegExpCacheOk(c)
    ensures RegExpCacheOk(r.cache)
    ensures position >= |subject| ==> r == Determined(c, Success(EndOfInput))
    ensures position < |subject| && Get(c, dialect).Truthy? ==> r.cache == c && r.next.Success?
    ensures forall d :: d != dialect ==> Get(r.cache, d) == Get(c, d)
    ensures r.next.Success? && !r.next.value.EndOfInput? ==>
              dialect in r.cache.entries &&
              var cands := FindTokensAt(m, r.cache.entries[dialect].tokenizer, subject, position);
              (r.next.value.NoCandidate? <==> |cands| == 0) &&
              (r.next.value.Chosen? ==>
                 r.next.value.candidate in cands &&
                 position <= r.next.value.candidate.end <= |subject| &&
                 forall k :: 0 <= k < |cands| ==> cands[k].end <= r.next.value.candidate.end)
  {
    RegExpDetermine(m, c, definitionsOf, unicodeSyntax, subject, position, dialect, subject, position)
  }

  /** Keying on the end offset and keying on the match length pick from the
      same candidates: whatever one of them may return, the other may too. */
  lemma EndKeyIsLengthKey(cands: seq<Candidate>, position: nat, x: Candidate)
    requires forall k :: 0 <= k < |cands| ==> position <= cands[k].end
    ensures (forall k :: 0 <= k < |cands| ==> cands[k].end <= x.end) <==>
            (forall k :: 0 <= k < |cands| ==> cands[k].end - position <= x.end - position)
  {
  }
}
