/** `TokenDefinition`: an identifier, a pattern source and an ignore-case
    flag, validated by the constructor. */
module TokenDefinitions {
  import opened Wrappers
  import opened Strings

  /** A token identifier: a string, or a `Symbol` (identity `key`, with the
      description it was created with). */
  datatype Identifier = StringId(text: Text) | SymbolId(key: nat, description: Text)

  /** `identifier.toString()`: a string is itself, a symbol renders as
      `Symbol(description)`. */
  function Render(id: Identifier): (s: Text)
    ensures id.StringId? ==> s == id.text
    ensures id.SymbolId? ==> |s| == |id.description| + 8
    ensures id.SymbolId? ==> s[..7] == Lit("Symbol(") && s[7..|s| - 1] == id.description && s[|s| - 1] == Lit(")")[0]
  {
    match id
    case StringId(t) => t
    case SymbolId(_, d) => Lit("Symbol(") + d + Lit(")")
  }

  /** The JavaScript values a caller can pass where the constructor expects a
      pattern string or an `ignoreCase` boolean. `Other` stands for every
      number, object, regex, symbol and function. */
  datatype Value = Undefined | Null | Boolean(b: bool) | String(s: Text) | Other

  /** The `flags` argument: left out (the default `{}`), an object whose
      `ignoreCase` key is absent (`None`) or holds a value, or a primitive,
      on which the `in` operator throws. */
  datatype FlagsArg = NoFlags | FlagsObject(ignoreCase: Option<Value>) | Primitive

  datatype TokenDefinition = TokenDefinition(identifier: Identifier, pattern: Text, ignoreCase: bool)

  /** What the constructor throws: `TypeError`s for a non-string pattern, a
      non-boolean `ignoreCase` and a primitive flags argument; an `Error`
      carrying the message for a pattern that does not compile. */
  datatype DefinitionError =
    | PatternNotString
    | PatternInvalid(message: Text)
    | IgnoreCaseNotBoolean
    | FlagsNotObject

  /** The regex engine's verdict on a pattern source: `None` when it compiles,
      otherwise the engine's error message. */
  type SyntaxCheck = Text -> Option<Text>

  /** The message of the error for a pattern that does not compile: the
      identifier's rendering, then the engine's message. */
  function InvalidMessage(id: Identifier, engineMessage: Text): Text
  {
    Lit("Token definition ") + Render(id) + Lit(" pattern: ") + engineMessage
  }

  /** The `ignoreCase` entry the checks see: none for a missing flags argument
      or a missing key. */
  function IgnoreCaseEntry(flags: FlagsArg): Option<Value>
    requires !flags.Primitive?
  {
    if flags.FlagsObject? then flags.ignoreCase else None
  }

  /** `new TokenDefinition(identifier, pattern, flags)`. The checks run in
      order (pattern type, pattern syntax, flag type) and the first that
      fails decides the error. */
  function NewDefinition(syntax: SyntaxCheck, identifier: Identifier, pattern: Value, flags: FlagsArg)
    : (r: Result<TokenDefinition, DefinitionError>)
    ensures !pattern.String? ==> r == Failure(PatternNotString)
    ensures pattern.String? && syntax(pattern.s).Some? ==>
              r == Failure(PatternInvalid(InvalidMessage(identifier, syntax(pattern.s).value)))
    ensures pattern.String? && syntax(pattern.s).None? && flags.Primitive? ==> r == Failure(FlagsNotObject)
    ensures r == Failure(IgnoreCaseNotBoolean) <==>
              pattern.String? && syntax(pattern.s).None? && flags.FlagsObject? &&
              flags.ignoreCase.Some? && !flags.ignoreCase.value.Boolean?
    ensures r.Success? <==>
              pattern.String? && syntax(pattern.s).None? && !flags.Primitive? &&
              (IgnoreCaseEntry(flags).Some? ==> IgnoreCaseEntry(flags).value.Boolean?)
    ensures r.Success? ==> r.value.identifier == identifier && r.value.pattern == pattern.s
    ensures r.Success? ==> (r.value.ignoreCase <==> IgnoreCaseEntry(flags) == Some(Boolean(true)))
  {
    if !pattern.String? then Failure(PatternNotString)
    else if syntax(pattern.s).Some? then
      Failure(PatternInvalid(InvalidMessage(identifier, syntax(pattern.s).value)))
    else if flags.Primitive? then Failure(FlagsNotObject)
    else
      var entry := IgnoreCaseEntry(flags);
      if entry.Some? && !entry.value.Boolean? then Failure(IgnoreCaseNotBoolean)
      else Success(TokenDefinition(identifier, pattern.s, entry.Some? && entry.value.b))
  }

  /** A stored definition is a fixed point of the constructor: passing its
      own fields back, with its flag spelled out, rebuilds it unchanged. */
  lemma Rebuild(syntax: SyntaxCheck, id: Identifier, pattern: Value, flags: FlagsArg)
    requires NewDefinition(syntax, id, pattern, flags).Success?
    ensures var d := NewDefinition(syntax, id, pattern, flags).value;
            NewDefinition(syntax, d.identifier, String(d.pattern), FlagsObject(Some(Boolean(d.ignoreCase)))) == Success(d)
            && NewDefinition(syntax, d.identifier, String(d.pattern), NoFlags).value.ignoreCase == false
  {
  }

  /** The invalid-pattern message holds the identifier's rendering and then
      the engine's message, in that order. */
  lemma InvalidMessageNamesIdentifier(id: Identifier, engineMessage: Text)
    ensures var m := InvalidMessage(id, engineMessage);
            var k := |Lit("Token definition ")|;
            m[k..k + |Render(id)|] == Render(id) && m[|m| - |engineMessage|..] == engineMessage
  {
  }
}
