/** The two candidate collectors, `BufferedTokenizer` and
    `BufferedRegExpTokenizer`: each compiles a list of token definitions into
    sticky regexes and reports every definition that matches exactly at an
    offset, with the offset its match ends at. */
module Tokenizers {
  import opened Wrappers
  import opened Strings
  import opened RegExps
  import opened TokenDefinitions

  /** A `TokenDefinition` object. `key` is its identity: two references to
      one object are equal values, two objects built from equal arguments
      differ in `key`. */
  datatype DefObject = DefObject(key: nat, definition: TokenDefinition)

  /** An element of the array handed to a constructor. */
  datatype Element = Def(obj: DefObject) | NotDefinition

  /** The constructor's argument: `undefined`, some non-array value, or an
      array. */
  datatype DefinitionsArg = Missing | NotArray | Array(elements: seq<Element>)

  /** The errors a constructor throws. `FlagsUndefined` is the `TypeError` of
      reading `ignoreCase` from the `flags` property, which a
      `TokenDefinition` does not have; `UnicodeSyntax` is the `SyntaxError`
      of compiling a pattern with the `u` flag, under which the engine
      refuses patterns it accepts without it. */
  datatype TokenizerError = MissingDefinitions | ExpectedArray | ExpectedDefinition | FlagsUndefined | UnicodeSyntax(message: Text)

  /** One entry of the tokenizer's `Map` from definition to compiled regex. */
  datatype Entry = Entry(obj: DefObject, regex: RegExp)

  /** A reported candidate: the `[identifier, lastIndex]` pair. */
  datatype Candidate = Candidate(identifier: Identifier, end: nat)

  // ---------------------------------------------------------------------------
  // The definitions `Map`: one entry per object, at its first position

  /** Distinct elements. */
  predicate Distinct<T(==)>(xs: seq<T>) {
    forall i, j :: 0 <= i < j < |xs| ==> xs[i] != xs[j]
  }

  /** The keys of a `Map` after `set` is called with `ds` in order: a key
      already present keeps its place, a new key goes to the end. */
  function MapKeys(ds: seq<DefObject>): (r: seq<DefObject>)
    ensures Distinct(r)
    ensures forall x :: x in r <==> x in ds
    ensures |r| <= |ds|
  {
    if |ds| == 0 then []
    else
      var acc := MapKeys(ds[..|ds| - 1]);
      var d := ds[|ds| - 1];
      if d in acc then acc else acc + [d]
  }

  /** Reference reading: the elements of `ds` that do not occur earlier in
      `ds`, in the order of `ds`. */
  function FirstOccurrences(ds: seq<DefObject>): seq<DefObject>
  {
    if |ds| == 0 then []
    else
      var d := ds[|ds| - 1];
      FirstOccurrences(ds[..|ds| - 1]) + if d in ds[..|ds| - 1] then [] else [d]
  }

  /** The `Map` keeps exactly the first occurrence of each object, in order:
      a repeated object yields one entry, at its first position. */
  lemma {:induction false} MapKeysAreFirstOccurrences(ds: seq<DefObject>)
    ensures MapKeys(ds) == FirstOccurrences(ds)
    decreases |ds|
  {
    if |ds| > 0 {
      MapKeysAreFirstOccurrences(ds[..|ds| - 1]);
      var d := ds[|ds| - 1];
      assert d in MapKeys(ds[..|ds| - 1]) <==> d in ds[..|ds| - 1];
    }
  }

  // ---------------------------------------------------------------------------
  // Construction

  /** The regex flags each tokenizer compiles a definition with, or the
      error reading them or compiling the pattern with them throws. */
  type FlagsFor = TokenDefinition -> Result<set<Flag>, TokenizerError>

  /** `BufferedTokenizer`: `gmy`, plus `i` when the definition ignores case.
      The pattern already compiled without flags when the definition was
      built, and these flags do not change what compiles. */
  function BufferedFlags(d: TokenDefinition): Result<set<Flag>, TokenizerError>
  {
    Success({Global, Multiline, Sticky} + if d.ignoreCase then {IgnoreCase} else {})
  }

  /** `BufferedRegExpTokenizer` as written: `tokenDef.flags.ignoreCase`
      reads a property of `undefined` and throws. */
  function RegExpFlagsAsWritten(d: TokenDefinition): Result<set<Flag>, TokenizerError>
  {
    Failure(FlagsUndefined)
  }

  /** `BufferedRegExpTokenizer` reading the definition's own `ignoreCase`:
      `gumy`, plus `i` when the definition ignores case; `unicodeSyntax` is
      the engine's verdict on a pattern in unicode mode. */
  function RegExpFlags(unicodeSyntax: SyntaxCheck): FlagsFor
  {
    (d: TokenDefinition) =>
      if unicodeSyntax(d.pattern).Some? then Failure(UnicodeSyntax(unicodeSyntax(d.pattern).value))
      else Success({Global, Unicode, Multiline, Sticky} + if d.ignoreCase then {IgnoreCase} else {})
  }

  /** The definition objects of an array whose elements all are definitions. */
  function Objects(els: seq<Element>): (ds: seq<DefObject>)
    requires forall k :: 0 <= k < |els| ==> els[k].Def?
    ensures |ds| == |els|
    ensures forall k :: 0 <= k < |els| ==> ds[k] == els[k].obj
  {
    seq(|els|, k requires 0 <= k < |els| => els[k].obj)
  }

  /** Whether element `k` passes the loop body: it is a definition and its
      flags can be read. */
  predicate Accepted(flagsFor: FlagsFor, e: Element) {
    e.Def? && flagsFor(e.obj.definition).Success?
  }

  /** The error the loop body throws for a rejected element. */
  function Rejection(flagsFor: FlagsFor, e: Element): TokenizerError
    requires !Accepted(flagsFor, e)
  {
    if !e.Def? then ExpectedDefinition else flagsFor(e.obj.definition).error
  }

  /** The index of the first element the loop rejects, or `|els|` when it
      accepts them all. */
  function FirstRejected(flagsFor: FlagsFor, els: seq<Element>): (f: nat)
    ensures f <= |els|
    ensures forall j :: 0 <= j < f ==> Accepted(flagsFor, els[j])
    ensures f < |els| ==> !Accepted(flagsFor, els[f])
  {
    if |els| == 0 then 0
    else
      var init := els[..|els| - 1];
      var f := FirstRejected(flagsFor, init);
      assert forall j :: 0 <= j < |init| ==> init[j] == els[j];
      if f < |init| then f
      else if Accepted(flagsFor, els[|els| - 1]) then |els|
      else |els| - 1
  }

  /** The compiled regex of an accepted definition: its pattern with the
      tokenizer's flags. */
  function Compiled(flagsFor: FlagsFor, d: DefObject): RegExp
    requires flagsFor(d.definition).Success?
  {
    RegExp(d.definition.pattern, flagsFor(d.definition).value)
  }

  /** The constructor's loop over the array: the first rejected element
      throws; otherwise every object is entered in the `Map`. */
  function Collect(flagsFor: FlagsFor, els: seq<Element>): (r: Result<seq<Entry>, TokenizerError>)
    ensures r.Success? <==> forall k :: 0 <= k < |els| ==> Accepted(flagsFor, els[k])
    ensures r.Failure? ==>
              FirstRejected(flagsFor, els) < |els| && r.error == Rejection(flagsFor, els[FirstRejected(flagsFor, els)])
    ensures r.Success? ==> |r.value| <= |els|
    decreases |els|
  {
    if |els| == 0 then Success([])
    else
      var init := els[..|els| - 1];
      var last := els[|els| - 1];
      var prefix := Collect(flagsFor, init);
      if prefix.Failure? then
        assert init[FirstRejected(flagsFor, init)] == els[FirstRejected(flagsFor, init)];
        prefix
      else if !Accepted(flagsFor, last) then
        Failure(Rejection(flagsFor, last))
      else
        var entries := prefix.value;
        if last.obj in MapKeys(Objects(init)) then Success(entries)
        else Success(entries + [Entry(last.obj, Compiled(flagsFor, last.obj))])
  }

  /** What an accepted array compiles to: one entry per object, in `Map`
      order (each object at its first position), holding that object's
      pattern compiled with the tokenizer's flags. */
  lemma {:induction false} CollectEntries(flagsFor: FlagsFor, els: seq<Element>)
    requires Collect(flagsFor, els).Success?
    ensures var es := Collect(flagsFor, els).value;
            |es| == |MapKeys(Objects(els))| &&
            forall k :: 0 <= k < |es| ==>
              es[k].obj == MapKeys(Objects(els))[k] && flagsFor(es[k].obj.definition).Success? &&
              es[k].regex == Compiled(flagsFor, es[k].obj)
    decreases |els|
  {
    if |els| > 0 {
      var init := els[..|els| - 1];
      assert forall j :: 0 <= j < |init| ==> init[j] == els[j];
      CollectEntries(flagsFor, init);
      assert Objects(els)[..|els| - 1] == Objects(init);
    }
  }

  /** Both constructors: `undefined` and non-arrays are refused before the
      elements are looked at. */
  function NewEntries(flagsFor: FlagsFor, arg: DefinitionsArg): (r: Result<seq<Entry>, TokenizerError>)
    ensures arg.Missing? ==> r == Failure(MissingDefinitions)
    ensures arg.NotArray? ==> r == Failure(ExpectedArray)
    ensures arg.Array? ==> r == Collect(flagsFor, arg.elements)
  {
    match arg
    case Missing => Failure(MissingDefinitions)
    case NotArray => Failure(ExpectedArray)
    case Array(els) => Collect(flagsFor, els)
  }

  /** Every entry's regex is sticky: a match is only tried at the offset. */
  predicate AllSticky(entries: seq<Entry>) {
    forall k :: 0 <= k < |entries| ==> Sticky in entries[k].regex.flags
  }

  /** A `BufferedTokenizer`: its entries, and the `subject` property, which
      starts as `null`. */
  datatype BufferedTokenizer = BufferedTokenizer(entries: seq<Entry>, subject: Option<Text>)

  /** `new BufferedTokenizer(tokenDefinitions)`. */
  function NewBufferedTokenizer(arg: DefinitionsArg): (r: Result<BufferedTokenizer, TokenizerError>)
    ensures r.Success? <==> arg.Array? && forall k :: 0 <= k < |arg.elements| ==> arg.elements[k].Def?
    ensures r.Success? ==> r.value.subject.None? && AllSticky(r.value.entries)
    ensures r.Success? ==>
              var keys := MapKeys(Objects(arg.elements));
              |r.value.entries| == |keys| &&
              forall k :: 0 <= k < |keys| ==> r.value.entries[k].obj == keys[k]
    ensures r.Success? ==> forall k :: 0 <= k < |r.value.entries| ==>
              var e := r.value.entries[k];
              e.regex.source == e.obj.definition.pattern &&
              e.regex.flags == {Global, Multiline, Sticky} + (if e.obj.definition.ignoreCase then {IgnoreCase} else {})
  {
    var entries :- NewEntries(BufferedFlags, arg);
    CollectEntries(BufferedFlags, arg.elements);
    Success(BufferedTokenizer(entries, None))
  }

  /** `new BufferedRegExpTokenizer(tokenDefinitions)` as written: any array
      holding at least one element throws, either because its first element
      is no definition or because reading `flags.ignoreCase` fails on it. */
  function NewRegExpTokenizerAsWritten(arg: DefinitionsArg): (r: Result<seq<Entry>, TokenizerError>)
    ensures r.Success? <==> arg.Array? && |arg.elements| == 0
    ensures arg.Array? && |arg.elements| > 0 ==>
              r == Failure(if arg.elements[0].Def? then FlagsUndefined else ExpectedDefinition)
  {
    NewEntries(RegExpFlagsAsWritten, arg)
  }

  /** `new BufferedRegExpTokenizer(tokenDefinitions)`, reading the
      definition's own `ignoreCase` as `BufferedTokenizer` does. A pattern
      the engine refuses in unicode mode throws, at the first such element. */
  function NewRegExpTokenizer(unicodeSyntax: SyntaxCheck, arg: DefinitionsArg): (r: Result<seq<Entry>, TokenizerError>)
    ensures r.Success? <==>
              arg.Array? &&
              forall k :: 0 <= k < |arg.elements| ==>
                arg.elements[k].Def? && unicodeSyntax(arg.elements[k].obj.definition.pattern).None?
    ensures arg.Array? && r.Failure? ==>
              var f := FirstRejected(RegExpFlags(unicodeSyntax), arg.elements);
              f < |arg.elements| &&
              (forall j :: 0 <= j < f ==> unicodeSyntax(arg.elements[j].obj.definition.pattern).None?) &&
              (!arg.elements[f].Def? ==> r.error == ExpectedDefinition) &&
              (arg.elements[f].Def? ==>
                 r.error == UnicodeSyntax(unicodeSyntax(arg.elements[f].obj.definition.pattern).value))
    ensures r.Success? ==> AllSticky(r.value)
    ensures r.Success? ==>
              var keys := MapKeys(Objects(arg.elements));
              |r.value| == |keys| && forall k :: 0 <= k < |keys| ==> r.value[k].obj == keys[k]
    ensures r.Success? ==> forall k :: 0 <= k < |r.value| ==>
              var e := r.value[k];
              e.regex.source == e.obj.definition.pattern &&
              e.regex.flags == {Global, Unicode, Multiline, Sticky} + (if e.obj.definition.ignoreCase then {IgnoreCase} else {})
  {
    var entries :- NewEntries(RegExpFlags(unicodeSyntax), arg);
    CollectEntries(RegExpFlags(unicodeSyntax), arg.elements);
    Success(entries)
  }

  /** A one-definition array: the constructor as written throws, the corrected
      one compiles it whenever its pattern compiles in unicode mode. */
  lemma RegExpTokenizerCounterexample(unicodeSyntax: SyntaxCheck, d: DefObject)
    ensures NewRegExpTokenizerAsWritten(Array([Def(d)])) == Failure(FlagsUndefined)
    ensures unicodeSyntax(d.definition.pattern).None? ==>
              NewRegExpTokenizer(unicodeSyntax, Array([Def(d)])).Success? &&
              |NewRegExpTokenizer(unicodeSyntax, Array([Def(d)])).value| == 1
    ensures unicodeSyntax(d.definition.pattern).Some? ==>
              NewRegExpTokenizer(unicodeSyntax, Array([Def(d)])) ==
              Failure(UnicodeSyntax(unicodeSyntax(d.definition.pattern).value))
  {
    var els := [Def(d)];
    assert Objects(els) == [d];
    assert MapKeys([d]) == [d] by { assert [d][..0] == []; }
  }

  // ---------------------------------------------------------------------------
  // Candidates

  /** `ToLength(offset)`: the `lastIndex` a regex reads back (a negative
      offset reads as 0). */
  function LastIndex(offset: int): nat {
    if offset < 0 then 0 else offset
  }

  /** The match end a sticky entry reports at `offset`, or `None`. */
  function MatchEnd(m: Matcher, e: Entry, subject: Text, offset: int): Option<nat>
  {
    var res := Exec(m, e.regex, subject, LastIndex(offset));
    if res.Some? then Some(res.value.end) else None
  }

  /** `findTokensAt`: for each entry in `Map` order, `regex.lastIndex =
      offset`; when `regex.test(subject)` succeeds, the pair of the
      definition's identifier and the new `lastIndex`. */
  function FindTokensAt(m: Matcher, entries: seq<Entry>, subject: Text, offset: int): (r: seq<Candidate>)
    requires AllSticky(entries)
    ensures |r| <= |entries|
    ensures forall k :: 0 <= k < |r| ==> LastIndex(offset) <= r[k].end <= |subject|
    ensures forall k :: 0 <= k < |r| ==>
              exists j :: 0 <= j < |entries| && m(entries[j].regex, subject, LastIndex(offset)).Some? &&
                r[k] == Candidate(entries[j].obj.definition.identifier, m(entries[j].regex, subject, LastIndex(offset)).value)
    ensures forall j :: 0 <= j < |entries| && LastIndex(offset) <= |subject| && m(entries[j].regex, subject, LastIndex(offset)).Some? ==>
              Candidate(entries[j].obj.definition.identifier, m(entries[j].regex, subject, LastIndex(offset)).value) in r
    ensures |r| == 0 <==>
              (LastIndex(offset) > |subject| || forall j :: 0 <= j < |entries| ==> m(entries[j].regex, subject, LastIndex(offset)).None?)
    decreases |entries|
  {
    if |entries| == 0 then []
    else
      ExecSticky(m, entries[0].regex, subject, LastIndex(offset));
      var rest := FindTokensAt(m, entries[1..], subject, offset);
      assert forall j :: 1 <= j < |entries| ==> entries[1..][j - 1] == entries[j];
      var end := MatchEnd(m, entries[0], subject, offset);
      if end.Some? then [Candidate(entries[0].obj.definition.identifier, end.value)] + rest
      else rest
  }

  /** Candidates come out in entry order: the list for `a + b` is the list
      for `a` followed by the list for `b`. */
  lemma {:induction false} FindTokensAtConcat(m: Matcher, a: seq<Entry>, b: seq<Entry>, subject: Text, offset: int)
    requires AllSticky(a) && AllSticky(b)
    ensures AllSticky(a + b)
    ensures FindTokensAt(m, a + b, subject, offset) == FindTokensAt(m, a, subject, offset) + FindTokensAt(m, b, subject, offset)
    decreases |a|
  {
    if |a| > 0 {
      assert (a + b)[1..] == a[1..] + b;
      FindTokensAtConcat(m, a[1..], b, subject, offset);
    } else {
      assert a + b == b;
    }
  }

  /** The `BufferedTokenizer` query reads the stored subject; `null`
      stringifies to `"null"`. */
  function SubjectText(t: BufferedTokenizer): Text {
    if t.subject.Some? then t.subject.value else Lit("null")
  }

  /** `BufferedTokenizer.findTokensAt(offset)`. */
  function BufferedFindTokensAt(m: Matcher, t: BufferedTokenizer, offset: int): (r: seq<Candidate>)
    requires AllSticky(t.entries)
    ensures t.subject.Some? ==> r == FindTokensAt(m, t.entries, t.subject.value, offset)
    ensures forall k :: 0 <= k < |r| ==> LastIndex(offset) <= r[k].end
  {
    FindTokensAt(m, t.entries, SubjectText(t), offset)
  }
}
