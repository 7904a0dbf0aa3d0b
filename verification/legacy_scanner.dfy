/** The legacy `Scanner` class: a registry of named dialects, the dialect in
    use, a stack of dialect names, and a cursor (`pos`, `line`, `column`) over
    a source string. Each operation is a pure function from the scanner's
    state to its next state and what the call returned or threw; a mutation
    the source makes before it throws is kept in the next state. */
module LegacyScanner {
  import opened Wrappers
  import opened Strings
  import opened RegExps
  import opened Dialects
  import opened LineBreaks

  datatype Scanner = Scanner(
    dialect: Option<Dialect>,
    dialectStack: seq<Name>,
    dialects: map<Name, Dialect>,
    source: Option<Text>,
    pos: nat,
    line: nat,
    column: nat)

  datatype ErrorKind =
    | DialectExists(name: Name)
    | NoSuchDialect(name: Name)
    | MoreThanOnePair
    | DuplicateType(tokenType: Name)
    | DialectNotSet
    | SourceNotSet
    | UnknownDescriptor(tokenType: Name)
    | UnexpectedCharacter

  /** A `ScannerError`: what went wrong, and a snapshot of the scanner's
      source, position, line and column when it was thrown. */
  datatype ScannerError = ScannerError(kind: ErrorKind, sourceString: Option<Text>, index: nat, line: nat, column: nat)

  function Raise(s: Scanner, kind: ErrorKind): ScannerError {
    ScannerError(kind, s.source, s.pos, s.line, s.column)
  }

  /** The legacy `Token`: type, matched text, start index, line and column. */
  datatype Token = Token(tokenType: Name, value: Text, index: nat, line: nat, column: nat)

  /** A caller's descriptor object such as `{"ident": /\w+/}`: its own
      enumerable entries in enumeration order. */
  type DescriptorObject = seq<(Name, RegExp)>

  /** The constructor's argument: nothing, one list of descriptor objects, or
      an object mapping dialect names to such lists. */
  datatype Descriptions =
    | NoDescriptions
    | List(descriptors: seq<DescriptorObject>)
    | ByName(entries: seq<(Name, seq<DescriptorObject>)>)

  /** The scanner after a call, and what the call returned or threw. */
  datatype Outcome<T> = Outcome(scanner: Scanner, result: Result<T, ScannerError>)

  /** The state the constructor starts from. */
  const Initial: Scanner := Scanner(None, [], map[], None, 0, 0, 0)

  /** The name a single list of descriptors is registered under. */
  const MainName: Name := Lit("main")

  predicate DistinctNames(ns: seq<Name>) {
    forall i, j :: 0 <= i < j < |ns| ==> ns[i] != ns[j]
  }

  predicate DistinctTypes(ds: seq<Descriptor>) {
    forall i, j :: 0 <= i < j < |ds| ==> ds[i].tokenType != ds[j].tokenType
  }

  /** What the scanner keeps true between calls: the current dialect is the
      registered one of its name, stacked names are registered, every
      registered dialect carries its key as name and distinct types, and the
      cursor stays inside the source. */
  ghost predicate Valid(s: Scanner) {
    && (s.dialect.Some? ==> s.dialect.value.name in s.dialects && s.dialects[s.dialect.value.name] == s.dialect.value)
    && (forall i :: 0 <= i < |s.dialectStack| ==> s.dialectStack[i] in s.dialects)
    && (forall n :: n in s.dialects ==> s.dialects[n].name == n && DistinctTypes(s.dialects[n].descriptors))
    && (s.source.Some? ==> s.pos <= |s.source.value|)
  }

  // ---------------------------------------------------------------------
  // Dialect registry

  /** `currentDialect()`: the name of the dialect in use, or `null`. On a
      well-formed scanner the name looks that very dialect up. */
  function CurrentDialect(s: Scanner): (r: Option<Name>)
    ensures r.Some? <==> s.dialect.Some?
    ensures Valid(s) && r.Some? ==> r.value in s.dialects && s.dialects[r.value] == s.dialect.value
  {
    if s.dialect.Some? then Some(s.dialect.value.name) else None
  }

  /** `dialects()`: the registered dialect names. */
  function DialectNames(s: Scanner): set<Name> {
    s.dialects.Keys
  }

  /** `dialects()` lists exactly the registered names; on a well-formed
      scanner each is the name of the dialect it registers, and the current
      dialect is among them. */
  lemma DialectNamesListRegistry(s: Scanner)
    ensures forall n :: n in DialectNames(s) <==> n in s.dialects
    ensures Valid(s) ==> forall n :: n in DialectNames(s) ==> s.dialects[n].name == n
    ensures Valid(s) && s.dialect.Some? ==> CurrentDialect(s).value in DialectNames(s)
  {
  }

  /** All entries of a list of descriptor objects, in order. */
  function Pairs(objs: seq<DescriptorObject>): seq<(Name, RegExp)>
  {
    if |objs| == 0 then [] else objs[0] + Pairs(objs[1..])
  }

  /** The names heading a list of pairs: the types of descriptor pairs, or
      the dialect names of the constructor's argument. */
  function NamesOf<V>(ps: seq<(Name, V)>): (ns: seq<Name>)
    ensures |ns| == |ps| && forall i :: 0 <= i < |ps| ==> ns[i] == ps[i].0
  {
    seq(|ps|, i requires 0 <= i < |ps| => ps[i].0)
  }

  function Normalised(ps: seq<(Name, RegExp)>): (ds: seq<Descriptor>)
    ensures |ds| == |ps| && forall i :: 0 <= i < |ps| ==> ds[i] == NewDescriptor(ps[i].0, ps[i].1)
  {
    seq(|ps|, i requires 0 <= i < |ps| => NewDescriptor(ps[i].0, ps[i].1))
  }

  predicate Singular(objs: seq<DescriptorObject>) {
    forall i :: 0 <= i < |objs| ==> |objs[i]| <= 1
  }

  /** What `createDialect` accepts: at most one type/regex pair per object,
      and no type twice. */
  predicate WellFormed(objs: seq<DescriptorObject>) {
    Singular(objs) && DistinctNames(NamesOf(Pairs(objs)))
  }

  lemma DistinctNamesCons(t: Name, ts: seq<Name>)
    ensures DistinctNames([t] + ts) <==> t !in ts && DistinctNames(ts)
  {
    var all := [t] + ts;
    if t !in ts && DistinctNames(ts) {
      forall i, j | 0 <= i < j < |all| ensures all[i] != all[j] {
        if i > 0 {
          assert all[i] == ts[i - 1] && all[j] == ts[j - 1];
        } else {
          assert all[j] == ts[j - 1];
        }
      }
    }
    if DistinctNames(all) {
      forall k | 0 <= k < |ts| ensures ts[k] != t {
        assert all[0] == t && all[k + 1] == ts[k];
      }
      forall i, j | 0 <= i < j < |ts| ensures ts[i] != ts[j] {
        assert all[i + 1] == ts[i] && all[j + 1] == ts[j];
      }
    }
  }

  /** The types the loop of `createDialect` has recorded before reaching
      object `i`. */
  function TypesBefore(objs: seq<DescriptorObject>, i: nat): set<Name>
    requires i <= |objs|
  {
    NameSet(NamesOf(Pairs(objs[..i])))
  }

  /** Whether the loop gets past object `i` without throwing: it is empty,
      or its one type was not recorded before. */
  predicate Admits(objs: seq<DescriptorObject>, seen: set<Name>, i: nat)
    requires i < |objs|
  {
    |objs[i]| == 0 || (|objs[i]| == 1 && objs[i][0].0 !in seen + TypesBefore(objs, i))
  }

  /** The index of the first object the loop throws on, or `|objs|` when it
      gets through them all. */
  function FirstOffending(objs: seq<DescriptorObject>, seen: set<Name>): (f: nat)
    ensures f <= |objs|
    ensures forall j :: 0 <= j < f ==> Admits(objs, seen, j)
    ensures f < |objs| ==> !Admits(objs, seen, f)
    decreases |objs|
  {
    if |objs| == 0 then 0
    else if !Admits(objs, seen, 0) then 0
    else
      var g := FirstOffending(objs[1..], seen + NameSet(NamesOf(objs[0])));
      AdmitsShift(objs, seen, g);
      1 + g
  }

  /** The error thrown on an offending object: its first type's pair is
      checked for a duplicate before a second pair is looked at. */
  function Offence(objs: seq<DescriptorObject>, seen: set<Name>, f: nat): ErrorKind
    requires f < |objs| && !Admits(objs, seen, f)
  {
    if objs[f][0].0 in seen + TypesBefore(objs, f) then DuplicateType(objs[f][0].0) else MoreThanOnePair
  }

  /** Dropping the first object moves its types into the recorded ones. */
  lemma TypesBeforeShift(objs: seq<DescriptorObject>, seen: set<Name>, j: nat)
    requires j < |objs|
    ensures seen + TypesBefore(objs, j + 1) == seen + NameSet(NamesOf(objs[0])) + TypesBefore(objs[1..], j)
  {
    assert objs[..j + 1] == [objs[0]] + objs[1..][..j];
    assert Pairs(objs[..j + 1]) == objs[0] + Pairs(objs[1..][..j]);
    assert NamesOf(objs[0] + Pairs(objs[1..][..j])) == NamesOf(objs[0]) + NamesOf(Pairs(objs[1..][..j]));
  }

  lemma AdmitsShift(objs: seq<DescriptorObject>, seen: set<Name>, g: nat)
    requires 0 < |objs| && g <= |objs| - 1
    requires forall j :: 0 <= j < g ==> Admits(objs[1..], seen + NameSet(NamesOf(objs[0])), j)
    ensures forall j :: 1 <= j < g + 1 ==> Admits(objs, seen, j) == Admits(objs[1..], seen + NameSet(NamesOf(objs[0])), j - 1)
    ensures g < |objs| - 1 ==> Admits(objs, seen, g + 1) == Admits(objs[1..], seen + NameSet(NamesOf(objs[0])), g)
  {
    forall j | 1 <= j < |objs|
      ensures Admits(objs, seen, j) == Admits(objs[1..], seen + NameSet(NamesOf(objs[0])), j - 1)
    {
      TypesBeforeShift(objs, seen, j - 1);
    }
  }

  /** Past an admitted first object, the offending index and its error are
      those of the rest with the first object's types recorded. */
  lemma OffendingShift(objs: seq<DescriptorObject>, seen: set<Name>)
    requires 0 < |objs| && Admits(objs, seen, 0)
    ensures var seen' := seen + NameSet(NamesOf(objs[0]));
            var g := FirstOffending(objs[1..], seen');
            FirstOffending(objs, seen) == 1 + g &&
            (g < |objs| - 1 ==> Offence(objs, seen, 1 + g) == Offence(objs[1..], seen', g))
  {
    var seen' := seen + NameSet(NamesOf(objs[0]));
    var g := FirstOffending(objs[1..], seen');
    if g < |objs| - 1 {
      TypesBeforeShift(objs, seen, g);
      assert objs[1 + g] == objs[1..][g];
    }
  }

  /** The loop of `createDialect` from the `i`-th descriptor object on, with
      the types seen so far and the descriptors collected so far. */
  function CollectDescriptors(s: Scanner, objs: seq<DescriptorObject>, seen: set<Name>, acc: seq<Descriptor>)
    : (r: Result<seq<Descriptor>, ScannerError>)
    ensures r.Success? <==> Collectable(objs, seen)
    ensures r.Success? ==> r.value == acc + Normalised(Pairs(objs))
    ensures r.Failure? ==>
              FirstOffending(objs, seen) < |objs| &&
              r.error == Raise(s, Offence(objs, seen, FirstOffending(objs, seen)))
    decreases |objs|
  {
    if |objs| == 0 then Success(acc)
    else
      var obj := objs[0];
      if |obj| == 0 then
        EmptyHead(objs, seen);
        CollectDescriptors(s, objs[1..], seen, acc)
      else if obj[0].0 in seen then
        BadHead(objs, seen);
        Failure(Raise(s, DuplicateType(obj[0].0)))
      else if |obj| > 1 then
        BadHead(objs, seen);
        Failure(Raise(s, MoreThanOnePair))
      else
        SingleHead(objs, seen);
        CollectDescriptors(s, objs[1..], seen + {obj[0].0}, acc + [NewDescriptor(obj[0].0, obj[0].1)])
  }

  /** What the loop of `createDialect` gets through without throwing: at most
      one pair per object, and no type twice or among those seen before. */
  predicate Collectable(objs: seq<DescriptorObject>, seen: set<Name>) {
    Singular(objs) && DistinctNames(NamesOf(Pairs(objs))) && forall t :: t in NamesOf(Pairs(objs)) ==> t !in seen
  }

  /** An empty first object is skipped. */
  lemma EmptyHead(objs: seq<DescriptorObject>, seen: set<Name>)
    requires 0 < |objs| && |objs[0]| == 0
    ensures Pairs(objs) == Pairs(objs[1..])
    ensures Collectable(objs, seen) <==> Collectable(objs[1..], seen)
    ensures Admits(objs, seen, 0)
    ensures var g := FirstOffending(objs[1..], seen);
            FirstOffending(objs, seen) == 1 + g &&
            (g < |objs| - 1 ==> Offence(objs, seen, 1 + g) == Offence(objs[1..], seen, g))
  {
    assert objs == [objs[0]] + objs[1..];
    assert Pairs(objs) == objs[0] + Pairs(objs[1..]);
    AllCons(objs, (o: DescriptorObject) => |o| <= 1);
    assert NameSet(NamesOf(objs[0])) == {};
    assert seen + {} == seen;
    OffendingShift(objs, seen);
  }

  /** A first object whose type was seen, or with a second pair, throws. */
  lemma BadHead(objs: seq<DescriptorObject>, seen: set<Name>)
    requires 0 < |objs| && 0 < |objs[0]| && (objs[0][0].0 in seen || |objs[0]| > 1)
    ensures !Collectable(objs, seen)
    ensures FirstOffending(objs, seen) == 0
    ensures Offence(objs, seen, 0) == if objs[0][0].0 in seen then DuplicateType(objs[0][0].0) else MoreThanOnePair
  {
    assert objs == [objs[0]] + objs[1..];
    assert Pairs(objs) == objs[0] + Pairs(objs[1..]);
    assert Pairs(objs)[0] == objs[0][0];
    assert objs[..0] == [];
    assert TypesBefore(objs, 0) == {};
  }

  /** A first object with one pair of a new type is collected, and its type
      is recorded. */
  lemma SingleHead(objs: seq<DescriptorObject>, seen: set<Name>)
    requires 0 < |objs| && |objs[0]| == 1 && objs[0][0].0 !in seen
    ensures var t := objs[0][0].0;
            && (Collectable(objs, seen) <==> Collectable(objs[1..], seen + {t}))
            && Normalised(Pairs(objs)) == [NewDescriptor(t, objs[0][0].1)] + Normalised(Pairs(objs[1..]))
    ensures Admits(objs, seen, 0)
    ensures var seen' := seen + {objs[0][0].0};
            var g := FirstOffending(objs[1..], seen');
            FirstOffending(objs, seen) == 1 + g &&
            (g < |objs| - 1 ==> Offence(objs, seen, 1 + g) == Offence(objs[1..], seen', g))
  {
    SingleHeadCollects(objs, seen);
    assert objs[..0] == [];
    assert TypesBefore(objs, 0) == {};
    assert NameSet(NamesOf(objs[0])) == {objs[0][0].0};
    OffendingShift(objs, seen);
  }

  lemma SingleHeadCollects(objs: seq<DescriptorObject>, seen: set<Name>)
    requires 0 < |objs| && |objs[0]| == 1 && objs[0][0].0 !in seen
    ensures var t := objs[0][0].0;
            && (Collectable(objs, seen) <==> Collectable(objs[1..], seen + {t}))
            && Normalised(Pairs(objs)) == [NewDescriptor(t, objs[0][0].1)] + Normalised(Pairs(objs[1..]))
  {
    var obj := objs[0];
    var t := obj[0].0;
    assert objs == [obj] + objs[1..];
    assert Pairs(objs) == obj + Pairs(objs[1..]);
    AllCons(objs, (o: DescriptorObject) => |o| <= 1);
    var rest := Pairs(objs[1..]);
    var ns := NamesOf(rest);
    assert NamesOf(obj + rest) == [t] + ns;
    assert Normalised(obj + rest) == [NewDescriptor(t, obj[0].1)] + Normalised(rest);
    DistinctNamesCons(t, ns);
    assert (forall u :: u in [t] + ns ==> u !in seen) <==> (forall u :: u in ns ==> u !in seen);
    assert DistinctNames([t] + ns) ==> forall u :: u in ns ==> u != t;
  }

  /** `createDialect(name, descriptors)`: one normalised descriptor per
      non-empty descriptor object, in order; an object with two or more pairs,
      or a type seen before, throws; an empty object is skipped. */
  function CreateDialect(s: Scanner, name: Name, objs: seq<DescriptorObject>): (r: Result<Dialect, ScannerError>)
    ensures r.Success? <==> WellFormed(objs)
    ensures r.Success? ==> r.value.name == name && r.value.descriptors == Normalised(Pairs(objs))
    ensures r.Success? ==> DistinctTypes(r.value.descriptors)
    ensures r.Failure? ==>
              FirstOffending(objs, {}) < |objs| &&
              r.error == Raise(s, Offence(objs, {}, FirstOffending(objs, {})))
  {
    match CollectDescriptors(s, objs, {}, [])
    case Failure(e) => Failure(e)
    case Success(ds) =>
      NormalisedDistinct(Pairs(objs));
      Success(Dialect(name, ds))
  }

  /** The duplicate check on an object's first type runs before its second
      pair is noticed: a repeated type followed by a second pair names the
      type, while a fresh type followed by a second pair complains of the
      pair. */
  lemma CreateDialectErrorOrder(s: Scanner, name: Name, a: Name, b: Name, x: RegExp, y: RegExp)
    requires a != b
    ensures CreateDialect(s, name, [[(a, x)], [(a, x), (b, y)]]) == Failure(Raise(s, DuplicateType(a)))
    ensures CreateDialect(s, name, [[(a, x)], [(b, y), (a, x)]]) == Failure(Raise(s, MoreThanOnePair))
  {
    var dup: seq<DescriptorObject> := [[(a, x)], [(a, x), (b, y)]];
    var two: seq<DescriptorObject> := [[(a, x)], [(b, y), (a, x)]];
    assert Pairs(dup) == [(a, x), (a, x), (b, y)] by {
      assert Pairs(dup[1..]) == dup[1] + Pairs(dup[2..]);
    }
    assert NamesOf(Pairs(dup))[0] == NamesOf(Pairs(dup))[1];
    assert |two[1]| > 1;
    assert dup[..1] == [[(a, x)]] && two[..1] == [[(a, x)]];
    assert Pairs([[(a, x)]]) == [(a, x)];
    assert TypesBefore(dup, 1) == {a} && TypesBefore(two, 1) == {a};
    assert Admits(dup, {}, 0) && Admits(two, {}, 0);
  }

  /** Distinct types give descriptors of distinct types. */
  lemma NormalisedDistinct(ps: seq<(Name, RegExp)>)
    requires DistinctNames(NamesOf(ps))
    ensures DistinctTypes(Normalised(ps))
  {
    var ds := Normalised(ps);
    forall i, j | 0 <= i < j < |ds| ensures ds[i].tokenType != ds[j].tokenType {
      assert ds[i].tokenType == NamesOf(ps)[i] && ds[j].tokenType == NamesOf(ps)[j];
    }
  }

  /** `addDialect(name, descriptors)`: registers a new dialect under a name
      not yet in use. */
  function AddDialect(s: Scanner, name: Name, objs: seq<DescriptorObject>): (r: Outcome<()>)
    ensures r.result.Success? <==> name !in s.dialects && WellFormed(objs)
    ensures r.result.Failure? ==> r.scanner == s && r.result.error == Raise(s, r.result.error.kind)
    ensures name in s.dialects ==> r.result == Failure(Raise(s, DialectExists(name)))
    ensures r.result.Success? ==>
      && r.scanner.dialects.Keys == s.dialects.Keys + {name}
      && r.scanner.dialects[name] == Dialect(name, Normalised(Pairs(objs)))
      && (forall n :: n in s.dialects ==> r.scanner.dialects[n] == s.dialects[n])
      && r.scanner == s.(dialects := r.scanner.dialects)
    ensures Valid(s) ==> Valid(r.scanner)
  {
    if name in s.dialects then Outcome(s, Failure(Raise(s, DialectExists(name))))
    else match CreateDialect(s, name, objs)
      case Failure(e) => Outcome(s, Failure(e))
      case Success(d) => Outcome(s.(dialects := s.dialects[name := d]), Success(()))
  }

  /** `setDialect(name)`: `null` deselects; an unregistered name throws and
      changes nothing; a registered name selects that dialect. */
  function SetDialect(s: Scanner, name: Option<Name>): (r: Outcome<()>)
    ensures name.None? ==> r == Outcome(s.(dialect := None), Success(()))
    ensures name.Some? ==> (r.result.Success? <==> name.value in s.dialects)
    ensures r.result.Success? && name.Some? ==> r.scanner.dialect == Some(s.dialects[name.value])
    ensures r.result.Success? && Valid(s) ==> CurrentDialect(r.scanner) == name
    ensures r.result.Failure? ==> r.scanner == s && r.result.error == Raise(s, NoSuchDialect(name.value))
    ensures r.scanner == s.(dialect := r.scanner.dialect)
    ensures Valid(s) ==> Valid(r.scanner)
  {
    if name.None? then Outcome(s.(dialect := None), Success(()))
    else if name.value !in s.dialects then Outcome(s, Failure(Raise(s, NoSuchDialect(name.value))))
    else Outcome(s.(dialect := Some(s.dialects[name.value])), Success(()))
  }

  /** `pushDialect(name)`: stacks the current dialect's name (only when one
      is selected), then selects `name`. The push is kept even when `name` is
      unknown and the selection throws. */
  function PushDialect(s: Scanner, name: Name): (r: Outcome<()>)
    ensures r.scanner.dialectStack == s.dialectStack + (if s.dialect.Some? then [s.dialect.value.name] else [])
    ensures r.result.Success? <==> name in s.dialects
    ensures r.result.Success? && Valid(s) ==> CurrentDialect(r.scanner) == Some(name)
    ensures r.result.Failure? ==> r.scanner.dialect == s.dialect && r.result.error.kind == NoSuchDialect(name)
    ensures r.scanner == s.(dialect := r.scanner.dialect, dialectStack := r.scanner.dialectStack)
    ensures Valid(s) ==> Valid(r.scanner)
  {
    var pushed := if s.dialect.Some? then s.(dialectStack := s.dialectStack + [s.dialect.value.name]) else s;
    SetDialect(pushed, Some(name))
  }

  /** `popDialect()`: selects the name on top of the stack and removes it;
      an empty stack, or an empty name (falsy in `pop() || null`), selects
      none. */
  function PopDialect(s: Scanner): (r: Outcome<()>)
    ensures |s.dialectStack| == 0 ==> r == Outcome(s.(dialect := None), Success(()))
    ensures |s.dialectStack| > 0 ==> r.scanner.dialectStack == s.dialectStack[..|s.dialectStack| - 1]
    ensures |s.dialectStack| > 0 && s.dialectStack[|s.dialectStack| - 1] == [] ==> r.scanner.dialect.None?
    ensures Valid(s) ==> r.result.Success? && Valid(r.scanner)
    ensures Valid(s) && |s.dialectStack| > 0 && s.dialectStack[|s.dialectStack| - 1] != [] ==>
      CurrentDialect(r.scanner) == Some(s.dialectStack[|s.dialectStack| - 1])
    ensures r.scanner == s.(dialect := r.scanner.dialect, dialectStack := r.scanner.dialectStack)
  {
    if |s.dialectStack| == 0 then SetDialect(s, None)
    else
      var top := s.dialectStack[|s.dialectStack| - 1];
      var popped := s.(dialectStack := s.dialectStack[..|s.dialectStack| - 1]);
      SetDialect(popped, if top == [] then None else Some(top))
  }

  /** `setSource(str)`: rewinds the cursor to index 0, line 1, column 1,
      empties the dialect stack, and deselects the dialect only when more
      than one dialect is registered. */
  function SetSource(s: Scanner, src: Text): (r: Scanner)
    ensures r.source == Some(src) && r.pos == 0 && r.line == 1 && r.column == 1
    ensures r.dialectStack == []
    ensures r.dialects == s.dialects
    ensures |s.dialects| > 1 ==> r.dialect.None?
    ensures |s.dialects| <= 1 ==> r.dialect == s.dialect
    ensures Valid(s) ==> Valid(r)
  {
    var s1 := if |DialectNames(s)| > 1 then SetDialect(s, None).scanner else s;
    s1.(source := Some(src), pos := 0, line := 1, column := 1, dialectStack := [])
  }

  // ---------------------------------------------------------------------
  // Construction

  function NameSet(ns: seq<Name>): set<Name> {
    set n | n in ns
  }

  /** What registering `entries` on top of the names `keys` needs: distinct
      new names and well-formed descriptor lists. */
  predicate Admissible(keys: set<Name>, entries: seq<(Name, seq<DescriptorObject>)>) {
    && DistinctNames(NamesOf(entries))
    && (forall i :: 0 <= i < |entries| ==> entries[i].0 !in keys)
    && (forall i :: 0 <= i < |entries| ==> WellFormed(entries[i].1))
  }

  lemma AllCons<T>(xs: seq<T>, P: T -> bool)
    requires |xs| > 0
    ensures (forall i :: 0 <= i < |xs| ==> P(xs[i])) <==> P(xs[0]) && forall i :: 0 <= i < |xs| - 1 ==> P(xs[1..][i])
  {
    if forall i :: 0 <= i < |xs| - 1 ==> P(xs[1..][i]) {
      forall i | 1 <= i < |xs| ensures P(xs[i]) { assert xs[1..][i - 1] == xs[i]; }
    }
  }

  lemma AdmissibleCons(keys: set<Name>, entries: seq<(Name, seq<DescriptorObject>)>)
    requires |entries| > 0
    ensures Admissible(keys, entries) <==>
      entries[0].0 !in keys && WellFormed(entries[0].1) && Admissible(keys + {entries[0].0}, entries[1..])
    ensures NameSet(NamesOf(entries)) == {entries[0].0} + NameSet(NamesOf(entries[1..]))
  {
    NamesCons(keys, entries);
    NameSetCons(entries);
    WellFormedCons(entries);
  }

  lemma NamesCons(keys: set<Name>, entries: seq<(Name, seq<DescriptorObject>)>)
    requires |entries| > 0
    ensures var rest := entries[1..];
            (DistinctNames(NamesOf(entries)) && forall i :: 0 <= i < |entries| ==> entries[i].0 !in keys) <==>
            (entries[0].0 !in keys && DistinctNames(NamesOf(rest)) &&
             forall i :: 0 <= i < |rest| ==> rest[i].0 !in keys + {entries[0].0})
  {
    var rest := entries[1..];
    var n := entries[0].0;
    var rs := NamesOf(rest);
    assert NamesOf(entries) == [n] + rs;
    DistinctNamesCons(n, rs);
    assert (forall i :: 0 <= i < |entries| ==> entries[i].0 !in keys) <==>
           n !in keys && forall i :: 0 <= i < |rest| ==> rest[i].0 !in keys by {
      forall i | 0 < i < |entries| ensures entries[i] == rest[i - 1] { }
    }
    assert n !in rs <==> forall i :: 0 <= i < |rest| ==> rest[i].0 != n;
  }

  lemma NameSetCons(entries: seq<(Name, seq<DescriptorObject>)>)
    requires |entries| > 0
    ensures NameSet(NamesOf(entries)) == {entries[0].0} + NameSet(NamesOf(entries[1..]))
  {
    assert NamesOf(entries) == [entries[0].0] + NamesOf(entries[1..]);
  }

  lemma WellFormedCons(entries: seq<(Name, seq<DescriptorObject>)>)
    requires |entries| > 0
    ensures (forall i :: 0 <= i < |entries| ==> WellFormed(entries[i].1)) <==>
            WellFormed(entries[0].1) && forall i :: 0 <= i < |entries[1..]| ==> WellFormed(entries[1..][i].1)
  {
    forall i | 0 < i < |entries| ensures entries[i] == entries[1..][i - 1] { }
  }

  /** The constructor's `forEach` over the dialect descriptions: `addDialect`
      for each in turn, stopping at the first that throws. */
  function AddAll(s: Scanner, entries: seq<(Name, seq<DescriptorObject>)>): (r: Result<Scanner, ScannerError>)
    ensures r.Success? <==> Admissible(s.dialects.Keys, entries)
    ensures r.Success? ==> r.value.dialects.Keys == s.dialects.Keys + NameSet(NamesOf(entries))
    ensures r.Success? ==> forall n :: n in s.dialects ==> r.value.dialects[n] == s.dialects[n]
    ensures r.Success? ==> r.value == s.(dialects := r.value.dialects)
    ensures r.Success? && Valid(s) ==> Valid(r.value)
    ensures r.Failure? ==> r.error == Raise(s, r.error.kind)
    decreases |entries|
  {
    if |entries| == 0 then Success(s)
    else
      AdmissibleCons(s.dialects.Keys, entries);
      var o := AddDialect(s, entries[0].0, entries[0].1);
      if o.result.Failure? then Failure(o.result.error)
      else AddAll(o.scanner, entries[1..])
  }

  /** `new Scanner(descriptors)`: a single list becomes the dialect "main";
      every description is registered; the dialect is selected only when
      exactly one was given. Nothing is set yet: no source, index, line and
      column 0, an empty stack. */
  function New(arg: Descriptions): (r: Result<Scanner, ScannerError>)
    ensures arg.NoDescriptions? ==> r == Success(Initial)
    ensures arg.List? ==> (r.Success? <==> WellFormed(arg.descriptors))
    ensures arg.List? && r.Success? ==> DialectNames(r.value) == {MainName} && CurrentDialect(r.value) == Some(MainName)
    ensures arg.ByName? ==> (r.Success? <==> Admissible({}, arg.entries))
    ensures arg.ByName? && r.Success? ==> DialectNames(r.value) == NameSet(NamesOf(arg.entries))
    ensures arg.ByName? && |arg.entries| == 1 && r.Success? ==> CurrentDialect(r.value) == Some(arg.entries[0].0)
    ensures arg.ByName? && |arg.entries| != 1 && r.Success? ==> CurrentDialect(r.value).None?
    ensures r.Success? ==> Valid(r.value) && r.value.source.None? && r.value.dialectStack == []
    ensures r.Success? ==> r.value.pos == 0 && r.value.line == 0 && r.value.column == 0
    ensures r.Failure? ==> r.error.sourceString.None? && r.error.index == 0 && r.error.line == 0 && r.error.column == 0
  {
    match arg
    case NoDescriptions => Success(Initial)
    case List(objs) => NewByName([(MainName, objs)])
    case ByName(entries) => NewByName(entries)
  }

  function NewByName(entries: seq<(Name, seq<DescriptorObject>)>): (r: Result<Scanner, ScannerError>)
    ensures r.Success? <==> Admissible({}, entries)
    ensures r.Success? ==> DialectNames(r.value) == NameSet(NamesOf(entries))
    ensures |entries| == 1 && r.Success? ==> CurrentDialect(r.value) == Some(entries[0].0)
    ensures |entries| != 1 && r.Success? ==> CurrentDialect(r.value).None?
    ensures r.Success? ==> Valid(r.value) && r.value == Initial.(dialects := r.value.dialects, dialect := r.value.dialect)
    ensures r.Failure? ==> r.error == Raise(Initial, r.error.kind)
  {
    if |entries| == 0 then Success(Initial)
    else match AddAll(Initial, entries)
      case Failure(e) => Failure(e)
      case Success(s) =>
        if |entries| == 1 then Success(SetDialect(s, Some(entries[0].0)).scanner) else Success(s)
  }

  // ---------------------------------------------------------------------
  // Scanning

  /** The descriptors named by `expectedTokens`, in that order, or the index
      of the first name the dialect does not know. */
  function Resolve(d: Dialect, expected: seq<Name>): (r: Result<seq<Descriptor>, nat>)
    ensures r.Success? <==> forall i :: 0 <= i < |expected| ==> GetDescriptor(d, expected[i]).Some?
    ensures r.Success? ==> |r.value| == |expected|
    ensures r.Success? ==> forall i :: 0 <= i < |expected| ==> GetDescriptor(d, expected[i]) == Some(r.value[i])
    ensures r.Failure? ==> r.error < |expected| && GetDescriptor(d, expected[r.error]).None?
    ensures r.Failure? ==> forall j :: 0 <= j < r.error ==> GetDescriptor(d, expected[j]).Some?
    decreases |expected|
  {
    if |expected| == 0 then Success([])
    else match GetDescriptor(d, expected[0])
      case None => Failure(0)
      case Some(first) =>
        match Resolve(d, expected[1..])
        case Failure(k) => Failure(k + 1)
        case Success(rest) => Success([first] + rest)
  }

  /** The list `nextToken` tries: the dialect's own descriptors, or those
      named by `expectedTokens` (any array, even an empty one, replaces the
      dialect's list). */
  function Searched(d: Dialect, expected: Option<seq<Name>>): Result<seq<Descriptor>, nat> {
    if expected.None? then Success(d.descriptors) else Resolve(d, expected.value)
  }

  /** The loop of `nextToken` from the `i`-th descriptor on: `exec` from `pos`,
      skip a match found further down the string, stop at the first match that
      starts at `pos`. Yields the winner's index and match end. */
  function FirstMatch(m: Matcher, ds: seq<Descriptor>, src: Text, pos: nat, i: nat): (r: Option<(nat, nat)>)
    requires i <= |ds|
    ensures r.Some? ==> i <= r.value.0 < |ds| && m(ds[r.value.0].regex, src, pos) == Some(r.value.1)
    ensures r.Some? ==> forall j :: i <= j < r.value.0 ==> m(ds[j].regex, src, pos).None?
    ensures r.None? <==> forall j :: i <= j < |ds| ==> m(ds[j].regex, src, pos).None?
    decreases |ds| - i
  {
    if i == |ds| then None
    else match Exec(m, ds[i].regex, src, pos)
      case Some(found) =>
        if found.index != pos then FirstMatch(m, ds, src, pos, i + 1) else Some((i, found.end))
      case None => FirstMatch(m, ds, src, pos, i + 1)
  }

  /** The column update of `nextToken` as written: after a match with a
      break, one plus the length of the text that follows the FIRST break, up
      to the next line terminator; otherwise the old column plus the match's
      length. */
  function ColumnAfterAsWritten(column: nat, value: Text): (c: nat)
    ensures !HasNewline(value) ==> c == column + |value|
    // with a break: c - 1 units follow the first break, none of them ends a
    // line, and the next unit (if any) does
    ensures HasNewline(value) ==>
      && 1 <= c && FirstBreakEnd(value) + (c - 1) <= |value|
      && (forall k :: FirstBreakEnd(value) <= k < FirstBreakEnd(value) + (c - 1) ==> !IsLineTerminator(value[k]))
      && (FirstBreakEnd(value) + (c - 1) == |value| || IsLineTerminator(value[FirstBreakEnd(value) + (c - 1)]))
  {
    CountBreaksZero(value);
    if CountBreaks(value) > 0 then 1 + SegmentAfterFirstBreak(value) else column + |value|
  }

  /** The column update as intended: a match with a break leaves the cursor
      on the line of its LAST break, one past the units that follow it. */
  function ColumnAfter(column: nat, value: Text): (c: nat)
    ensures !HasNewline(value) ==> c == column + |value|
    ensures HasNewline(value) ==> c == 1 + (|value| - LastBreakEnd(value))
  {
    if HasNewline(value) then 1 + (|value| - LastBreakEnd(value)) else column + |value|
  }

  /** Tracking the column match by match agrees with tracking it over the
      matches' concatenation, so the column does not depend on how the text
      was cut into tokens. */
  lemma ColumnAfterConcat(column: nat, a: Text, b: Text)
    ensures ColumnAfter(ColumnAfter(column, a), b) == ColumnAfter(column, a + b)
  {
    LastBreakEndConcat(a, b);
  }

  /** As written, a match holding two breaks reports the column from the
      first of them: after "\n \n  " the next unit is on column 3, but the
      scanner says 2. Split into the matches "\n " and "\n  ", the same text
      gives 3. */
  lemma ColumnAfterAsWrittenCounterexample()
    ensures ColumnAfterAsWritten(1, [LF, 0x20, LF, 0x20, 0x20]) == 2
    ensures ColumnAfter(1, [LF, 0x20, LF, 0x20, 0x20]) == 3
    ensures ColumnAfterAsWritten(ColumnAfterAsWritten(1, [LF, 0x20]), [LF, 0x20, 0x20]) == 3
  {
    var v: Text := [LF, 0x20, LF, 0x20, 0x20];
    assert IndexWhere(v, 0, IsNewline) == 0;
    assert BreakLength(v, 0) == 1;
    assert IndexWhere(v, 1, IsLineTerminator) == 2;
    assert LastBreakEnd(v[..4]) == 3 by { assert LastBreakEnd(v[..3]) == 3; }
    var w: Text := [LF, 0x20, 0x20];
    assert IndexWhere(w, 0, IsNewline) == 0;
    assert BreakLength(w, 0) == 1;
    assert IndexWhere(w, 1, IsLineTerminator) == 3;
    var u: Text := [LF, 0x20];
    assert IndexWhere(u, 0, IsNewline) == 0;
    assert BreakLength(u, 0) == 1;
    assert IndexWhere(u, 1, IsLineTerminator) == 2;
  }

  /** The two updates agree on a match in which nothing after the first break
      ends a line: a match with at most one break, and no LINE SEPARATOR or
      PARAGRAPH SEPARATOR after it. */
  lemma ColumnRulesAgree(column: nat, value: Text)
    requires HasNewline(value) ==> forall k :: FirstBreakEnd(value) <= k < |value| ==> !IsLineTerminator(value[k])
    ensures ColumnAfterAsWritten(column, value) == ColumnAfter(column, value)
  {
    if HasNewline(value) {
      var b := FirstBreakEnd(value);
      var e := LastBreakEnd(value);
      assert IsNewline(value[b - 1]);
      assert e == b;
    }
  }

  /** Which column update `nextToken` applies: the source's (`AsWritten`) or
      the intended one (`Corrected`). */
  datatype ColumnRule = AsWritten | Corrected

  function NewColumn(rule: ColumnRule, column: nat, value: Text): nat {
    match rule
    case AsWritten => ColumnAfterAsWritten(column, value)
    case Corrected => ColumnAfter(column, value)
  }

  /** Where the cursor goes after a token: past its text, one further on an
      empty match; lines grow by its breaks; the column follows the rule.
      Nothing else changes. */
  ghost predicate Advanced(from: Scanner, t: Token, to: Scanner, rule: ColumnRule) {
    && from.source.Some?
    && t.index == from.pos && from.pos + |t.value| <= |from.source.value|
    && t.value == from.source.value[from.pos..from.pos + |t.value|]
    && to.pos == from.pos + |t.value| + (if |t.value| == 0 then 1 else 0)
    && t.line == from.line + CountBreaks(t.value) == to.line
    && t.column == from.column
    && to.column == NewColumn(rule, from.column, t.value)
    && to == from.(pos := to.pos, line := to.line, column := to.column)
  }

  /** `nextToken(expectedTokens)`, with the column updated by `rule`:
      `AsWritten` is lib/Scanner.js as it stands, `Corrected` the scanner with
      the intended column update. */
  function NextToken(s: Scanner, m: Matcher, expected: Option<seq<Name>>, rule: ColumnRule): (r: Outcome<Option<Token>>)
    ensures s.dialect.None? ==> r == Outcome(s, Failure(Raise(s, DialectNotSet)))
    ensures s.dialect.Some? && s.source.None? ==> r == Outcome(s, Failure(Raise(s, SourceNotSet)))
    ensures r.result.Failure? ==> r.scanner == s && r.result.error == Raise(s, r.result.error.kind)
    ensures s.dialect.Some? && s.source.Some? ==> (r.result == Success(None) <==> s.pos == |s.source.value|)
    ensures r.result == Success(None) ==> r.scanner == s
    // an unknown expected name is reported, unless the source is exhausted
    ensures s.dialect.Some? && s.source.Some? && s.pos != |s.source.value| && Searched(s.dialect.value, expected).Failure? ==>
      r.result.Failure? && r.result.error.kind == UnknownDescriptor(expected.value[Searched(s.dialect.value, expected).error])
    // a token: the line grows by the match's breaks before it is built
    ensures r.result.Success? && r.result.value.Some? ==>
      && s.dialect.Some? && s.source.Some? && Searched(s.dialect.value, expected).Success?
      && Advanced(s, r.result.value.value, r.scanner, rule)
      && s.pos < r.scanner.pos <= |s.source.value|
  {
    if s.dialect.None? then Outcome(s, Failure(Raise(s, DialectNotSet)))
    else if s.source.None? then Outcome(s, Failure(Raise(s, SourceNotSet)))
    else if s.pos == |s.source.value| then Outcome(s, Success(None))
    else match Searched(s.dialect.value, expected)
      case Failure(k) => Outcome(s, Failure(Raise(s, UnknownDescriptor(expected.value[k]))))
      case Success(ds) =>
        var src := s.source.value;
        match FirstMatch(m, ds, src, s.pos, 0)
        case None => Outcome(s, Failure(Raise(s, UnexpectedCharacter)))
        case Some(winner) =>
          var end := winner.1;
          var value := src[s.pos..end];
          var line := s.line + CountBreaks(value);
          var token := Token(ds[winner.0].tokenType, value, s.pos, line, s.column);
          var pos := end + if |value| == 0 then 1 else 0;
          Outcome(s.(pos := pos, line := line, column := NewColumn(rule, s.column, value)), Success(Some(token)))
  }

  /** With the searched list resolved, `nextToken` is decided by the first
      descriptor whose match starts at `pos`: none gives the positioned
      error, one gives a token of its type holding that match. */
  lemma NextTokenFirstMatch(s: Scanner, m: Matcher, expected: Option<seq<Name>>, rule: ColumnRule)
    requires s.dialect.Some? && s.source.Some? && s.pos != |s.source.value|
    requires Searched(s.dialect.value, expected).Success?
    ensures var w := FirstMatch(m, Searched(s.dialect.value, expected).value, s.source.value, s.pos, 0);
            var r := NextToken(s, m, expected, rule);
            (w.None? ==> r.result == Failure(Raise(s, UnexpectedCharacter))) &&
            (w.Some? ==>
               (r.result.Success? && r.result.value.Some? &&
                r.result.value.value.tokenType == Searched(s.dialect.value, expected).value[w.value.0].tokenType &&
                s.pos + |r.result.value.value.value| == w.value.1))
  {
  }

  /** When nothing matches at `pos` the positioned error is thrown with the
      cursor untouched, and only then. */
  lemma NextTokenUnmatched(s: Scanner, m: Matcher, expected: Option<seq<Name>>, rule: ColumnRule)
    requires s.dialect.Some? && s.source.Some? && s.pos != |s.source.value|
    requires Searched(s.dialect.value, expected).Success?
    ensures var ds := Searched(s.dialect.value, expected).value;
            (forall j :: 0 <= j < |ds| ==> m(ds[j].regex, s.source.value, s.pos).None?)
            <==> NextToken(s, m, expected, rule).result == Failure(Raise(s, UnexpectedCharacter))
  {
    NextTokenFirstMatch(s, m, expected, rule);
  }

  /** A token comes from the first descriptor whose match starts exactly at
      `pos`, and its value is that match. */
  lemma NextTokenWinner(s: Scanner, m: Matcher, expected: Option<seq<Name>>, rule: ColumnRule)
    requires s.dialect.Some? && s.source.Some? && s.pos != |s.source.value|
    requires Searched(s.dialect.value, expected).Success?
    ensures var r := NextToken(s, m, expected, rule);
            var ds := Searched(s.dialect.value, expected).value;
            r.result.Success? ==>
              r.result.value.Some? &&
              exists k :: 0 <= k < |ds| && r.result.value.value.tokenType == ds[k].tokenType
                && m(ds[k].regex, s.source.value, s.pos) == Some(s.pos + |r.result.value.value.value|)
                && forall j :: 0 <= j < k ==> m(ds[j].regex, s.source.value, s.pos).None?
  {
    var r := NextToken(s, m, expected, rule);
    var ds := Searched(s.dialect.value, expected).value;
    var w := FirstMatch(m, ds, s.source.value, s.pos, 0);
    if r.result.Success? {
      NextTokenFirstMatch(s, m, expected, rule);
      var k := w.value.0;
      assert m(ds[k].regex, s.source.value, s.pos) == Some(s.pos + |r.result.value.value.value|);
    }
  }

  /** A token leaves a well-formed scanner well-formed: only the cursor
      moves. */
  lemma NextTokenKeepsValid(s: Scanner, m: Matcher, expected: Option<seq<Name>>, rule: ColumnRule)
    requires Valid(s)
    ensures Valid(NextToken(s, m, expected, rule).scanner)
  {
  }

  // ---------------------------------------------------------------------
  // Dialect stack

  /** Pushing a dialect and popping it again restores the scanner, provided a
      dialect with a non-empty name was selected (a popped empty name reads as
      `null`), or none was selected and the stack was empty. */
  lemma PushPopRoundTrip(s: Scanner, name: Name)
    requires Valid(s) && name in s.dialects
    requires (s.dialect.Some? && s.dialect.value.name != []) || (s.dialect.None? && s.dialectStack == [])
    ensures PushDialect(s, name).result.Success?
    ensures PopDialect(PushDialect(s, name).scanner) == Outcome(s, Success(()))
  {
    var p := PushDialect(s, name).scanner;
    if s.dialect.Some? {
      assert p.dialectStack[..|p.dialectStack| - 1] == s.dialectStack;
    }
  }

  /** Without a selected dialect nothing is pushed, so popping returns to
      whatever was stacked before rather than to "no dialect". */
  lemma PushWithoutDialectForgets(s: Scanner, name: Name, under: Name)
    requires Valid(s) && name in s.dialects && under in s.dialects && under != []
    requires s.dialect.None? && s.dialectStack == [under]
    ensures CurrentDialect(PopDialect(PushDialect(s, name).scanner).scanner) == Some(under)
  {
  }

  // ---------------------------------------------------------------------
  // Draining the scanner

  /** The concatenated values of a list of tokens. */
  function Values(ts: seq<Token>): Text {
    if |ts| == 0 then [] else Values(ts[..|ts| - 1]) + ts[|ts| - 1].value
  }

  /** The line breaks counted token by token. */
  function BreaksIn(ts: seq<Token>): nat {
    if |ts| == 0 then 0 else BreaksIn(ts[..|ts| - 1]) + CountBreaks(ts[|ts| - 1].value)
  }

  /** Where the scanner resumes after a token. */
  function Resume(t: Token): nat {
    t.index + |t.value| + (if |t.value| == 0 then 1 else 0)
  }

  /** Each token is the source's text at its index. */
  ghost predicate InSource(ts: seq<Token>, src: Text) {
    forall i :: 0 <= i < |ts| ==>
      ts[i].index + |ts[i].value| <= |src| && ts[i].value == src[ts[i].index..ts[i].index + |ts[i].value|]
  }

  /** The tokens start at `start` and each starts where the previous one
      left the cursor. */
  ghost predicate Chained(ts: seq<Token>, start: nat) {
    && (|ts| > 0 ==> ts[0].index == start)
    && (forall i :: 0 < i < |ts| ==> ts[i].index == Resume(ts[i - 1]))
  }

  /** Each token carries the line reached after the breaks up to its end. */
  ghost predicate Numbered(ts: seq<Token>, line: nat) {
    forall i :: 0 <= i < |ts| ==> ts[i].line == line + BreaksIn(ts[..i + 1])
  }

  predicate NonEmpty(ts: seq<Token>) {
    forall i :: 0 <= i < |ts| ==> |ts[i].value| > 0
  }

  /** Where the cursor stands after `ts`, when it started at `start`. */
  function Cursor(ts: seq<Token>, start: nat): nat {
    if |ts| == 0 then start else Resume(ts[|ts| - 1])
  }

  lemma AppendInSource(ts: seq<Token>, t: Token, src: Text)
    requires InSource(ts, src)
    requires t.index + |t.value| <= |src| && t.value == src[t.index..t.index + |t.value|]
    ensures InSource(ts + [t], src)
  {
    var u := ts + [t];
    forall i | 0 <= i < |u|
      ensures u[i].index + |u[i].value| <= |src| && u[i].value == src[u[i].index..u[i].index + |u[i].value|]
    {
      if i < |ts| { assert u[i] == ts[i]; }
    }
  }

  lemma AppendChained(ts: seq<Token>, t: Token, start: nat)
    requires Chained(ts, start) && t.index == Cursor(ts, start)
    ensures Chained(ts + [t], start)
  {
    var u := ts + [t];
    forall i | 0 < i < |u| ensures u[i].index == Resume(u[i - 1]) {
      if i < |ts| { assert u[i] == ts[i] && u[i - 1] == ts[i - 1]; }
    }
  }

  lemma {:induction false} AppendNumbered(ts: seq<Token>, t: Token, line: nat)
    requires Numbered(ts, line)
    requires t.line == line + BreaksIn(ts) + CountBreaks(t.value)
    ensures BreaksIn(ts + [t]) == BreaksIn(ts) + CountBreaks(t.value)
    ensures Numbered(ts + [t], line)
  {
    var u := ts + [t];
    assert u[..|ts|] == ts;
    forall i | 0 <= i < |u| ensures u[i].line == line + BreaksIn(u[..i + 1]) {
      if i < |ts| {
        assert u[..i + 1] == ts[..i + 1];
      } else {
        assert u[..i + 1] == u;
      }
    }
  }

  lemma AppendValues(ts: seq<Token>, t: Token)
    ensures Values(ts + [t]) == Values(ts) + t.value
    ensures NonEmpty(ts + [t]) <==> NonEmpty(ts) && |t.value| > 0
  {
    var u := ts + [t];
    assert u[..|ts|] == ts;
    if NonEmpty(u) {
      forall i | 0 <= i < |ts| ensures |ts[i].value| > 0 { assert u[i] == ts[i]; }
    }
  }

  /** Without empty matches the tokens spell the source from `start` to
      `pos`. With the corrected update, or over text without breaks, `column`
      is the column reached over that text; the source's update depends on
      where the text was cut into tokens once it holds breaks. */
  ghost predicate Covers(ts: seq<Token>, src: Text, start: nat, pos: nat, column0: nat, column: nat, rule: ColumnRule) {
    NonEmpty(ts) ==>
      && start <= pos <= |src| && Values(ts) == src[start..pos]
      && (rule.Corrected? || !HasNewline(src[start..pos]) ==> column == ColumnAfter(column0, src[start..pos]))
  }

  lemma AppendCovers(ts: seq<Token>, t: Token, src: Text, start: nat, pos: nat, column0: nat, column: nat, rule: ColumnRule)
    requires Covers(ts, src, start, pos, column0, column, rule)
    requires t.index == pos && pos + |t.value| <= |src| && t.value == src[pos..pos + |t.value|]
    ensures Covers(ts + [t], src, start, pos + |t.value| + (if |t.value| == 0 then 1 else 0), column0, NewColumn(rule, column, t.value), rule)
  {
    if NonEmpty(ts + [t]) {
      AppendValuesCover(ts, t, src, start, pos);
      var before, whole := src[start..pos], src[start..pos + |t.value|];
      if rule.Corrected? || !HasNewline(whole) {
        HasNewlineConcat(before, t.value);
        ColumnAfterStep(column0, column, before, t.value, whole);
      }
    }
  }

  /** A concatenation has a break exactly when one of its parts has. */
  lemma HasNewlineConcat(a: Text, b: Text)
    ensures HasNewline(a + b) <==> HasNewline(a) || HasNewline(b)
  {
    LastBreakEndConcat(a, b);
  }

  /** Appending the text at `pos` to tokens that spell `start..pos` spells
      `start..` its end. */
  lemma AppendValuesCover(ts: seq<Token>, t: Token, src: Text, start: nat, pos: nat)
    requires NonEmpty(ts + [t])
    requires NonEmpty(ts) ==> start <= pos <= |src| && Values(ts) == src[start..pos]
    requires pos + |t.value| <= |src| && t.value == src[pos..pos + |t.value|]
    ensures NonEmpty(ts) && |t.value| > 0
    ensures start <= pos && Values(ts + [t]) == src[start..pos + |t.value|]
    ensures src[start..pos + |t.value|] == src[start..pos] + t.value
  {
    AppendValues(ts, t);
    assert src[start..pos + |t.value|] == src[start..pos] + t.value;
  }

  /** The column after a text, from the column reached after its first
      part. */
  lemma ColumnAfterStep(column0: nat, column: nat, before: Text, v: Text, whole: Text)
    requires column == ColumnAfter(column0, before) && whole == before + v
    ensures ColumnAfter(column, v) == ColumnAfter(column0, whole)
  {
    ColumnAfterConcat(column0, before, v);
  }

  /** One call of `nextToken()` before the end of the source: it yields a
      token and advances, or throws the unexpected-character error in place. */
  lemma NextTokenStep(s: Scanner, m: Matcher, rule: ColumnRule)
    requires Valid(s) && s.dialect.Some? && s.source.Some? && s.pos < |s.source.value|
    ensures NextToken(s, m, None, rule).result.Failure? ==>
      NextToken(s, m, None, rule) == Outcome(s, Failure(Raise(s, UnexpectedCharacter)))
    ensures NextToken(s, m, None, rule).result.Success? ==>
      && NextToken(s, m, None, rule).result.value.Some?
      && Advanced(s, NextToken(s, m, None, rule).result.value.value, NextToken(s, m, None, rule).scanner, rule)
      && Valid(NextToken(s, m, None, rule).scanner)
  {
    assert Searched(s.dialect.value, None).Success?;
    NextTokenUnmatched(s, m, None, rule);
    NextTokenKeepsValid(s, m, None, rule);
  }

  /** One `nextToken()` of the draining loop, with just the facts the loop
      needs about it. */
  method Pull(s: Scanner, m: Matcher, rule: ColumnRule) returns (o: Outcome<Option<Token>>)
    requires Valid(s) && s.dialect.Some? && s.source.Some? && s.pos < |s.source.value|
    ensures o.result.Failure? ==> o == Outcome(s, Failure(Raise(s, UnexpectedCharacter)))
    ensures o.result.Success? ==> o.result.value.Some? && Advanced(s, o.result.value.value, o.scanner, rule) && Valid(o.scanner)
  {
    o := NextToken(s, m, None, rule);
    NextTokenStep(s, m, rule);
  }

  /** What holds after draining `tokens` from `s` up to `last`. */
  ghost predicate Drained(s: Scanner, tokens: seq<Token>, last: Scanner, rule: ColumnRule) {
    && s.source.Some?
    && last == s.(pos := last.pos, line := last.line, column := last.column)
    && last.pos <= |s.source.value|
    && InSource(tokens, s.source.value) && Chained(tokens, s.pos) && last.pos == Cursor(tokens, s.pos)
    && Numbered(tokens, s.line) && last.line == s.line + BreaksIn(tokens)
    && Covers(tokens, s.source.value, s.pos, last.pos, s.column, last.column, rule)
  }

  lemma DrainStart(s: Scanner, rule: ColumnRule)
    requires Valid(s) && s.source.Some?
    ensures Drained(s, [], s, rule)
  {
  }

  lemma DrainStep(s: Scanner, tokens: seq<Token>, last: Scanner, t: Token, next: Scanner, rule: ColumnRule)
    requires Drained(s, tokens, last, rule) && last.pos < |s.source.value| && Advanced(last, t, next, rule)
    ensures Drained(s, tokens + [t], next, rule)
  {
    var src := s.source.value;
    var u := tokens + [t];
    assert last.source == s.source;
    assert InSource(u, src) by { AppendInSource(tokens, t, src); }
    assert Chained(u, s.pos) && Cursor(u, s.pos) == next.pos by { AppendChained(tokens, t, s.pos); }
    assert Numbered(u, s.line) && next.line == s.line + BreaksIn(u) by { AppendNumbered(tokens, t, s.line); }
    assert Covers(u, src, s.pos, next.pos, s.column, next.column, rule) by {
      AppendCovers(tokens, t, src, s.pos, last.pos, s.column, last.column, rule);
    }
    assert next == s.(pos := next.pos, line := next.line, column := next.column) by {
      assert next == last.(pos := next.pos, line := next.line, column := next.column);
    }
    assert next.pos <= |src|;
  }

  /** `while (tok = scanner.nextToken()) ...`: calls `nextToken` until it
      returns `null` or throws. The tokens lie in order inside the source;
      without empty matches they cover it exactly and the line is that of the
      covered text. So is the column with the corrected update, while the
      source's update gets it right only as long as no break was crossed. */
  method Tokenize(s: Scanner, m: Matcher, rule: ColumnRule) returns (tokens: seq<Token>, last: Scanner, error: Option<ScannerError>)
    requires Valid(s) && s.dialect.Some? && s.source.Some?
    ensures Drained(s, tokens, last, rule) && Valid(last)
    ensures error.None? ==> last.pos == |s.source.value|
    ensures error.Some? ==> error.value == Raise(last, UnexpectedCharacter) && last.pos < |s.source.value|
  {
    var src := s.source.value;
    tokens := [];
    last := s;
    error := None;
    DrainStart(s, rule);
    while last.pos < |src| && error.None?
      invariant Drained(s, tokens, last, rule) && Valid(last)
      invariant error.Some? ==> error.value == Raise(last, UnexpectedCharacter) && last.pos < |src|
      decreases |src| - last.pos + (if error.None? then 1 else 0)
    {
      var o := Pull(last, m, rule);
      if o.result.Failure? {
        error := Some(o.result.error);
      } else {
        DrainStep(s, tokens, last, o.result.value.value, o.scanner, rule);
        tokens := tokens + [o.result.value.value];
        last := o.scanner;
      }
    }
  }
}
