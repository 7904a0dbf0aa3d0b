/** The legacy scanner's inner `TokenDescriptor` and `Dialect` classes (the
    `Dialect` class is shared verbatim with the newer code). */
module Dialects {
  import opened Wrappers
  import opened Strings
  import opened RegExps

  /** Dialect names and descriptor types are plain strings. */
  type Name = Text

  /** A `TokenDescriptor`: a token type and the regex that recognises it. */
  datatype Descriptor = Descriptor(tokenType: Name, regex: RegExp)

  /** `new TokenDescriptor(type, regex)`: recompiles the caller's regex from its
      source with the flags normalised to `g` and `m`, plus `i` when the
      caller's regex ignored case. */
  function NewDescriptor(tokenType: Name, regex: RegExp): (d: Descriptor)
    ensures d.tokenType == tokenType
    ensures d.regex.source == regex.source
    ensures Global in d.regex.flags && Multiline in d.regex.flags
    ensures IgnoreCase in d.regex.flags <==> IgnoreCase in regex.flags
    ensures forall f :: f in d.regex.flags ==> f == Global || f == Multiline || f == IgnoreCase
  {
    var flags := {Global, Multiline} + if IgnoreCase in regex.flags then {IgnoreCase} else {};
    Descriptor(tokenType, RegExp(regex.source, flags))
  }

  /** The normalisation is idempotent: a descriptor rebuilt from its own type
      and regex is unchanged. */
  lemma NewDescriptorIdempotent(tokenType: Name, regex: RegExp)
    ensures var d := NewDescriptor(tokenType, regex);
            NewDescriptor(d.tokenType, d.regex) == d
  {
  }

  /** Only the source and the ignore-case flag of the caller's regex survive:
      two regexes give the same descriptor exactly when they agree on both. */
  lemma NewDescriptorForgetsOtherFlags(tokenType: Name, r1: RegExp, r2: RegExp)
    ensures NewDescriptor(tokenType, r1) == NewDescriptor(tokenType, r2) <==>
              r1.source == r2.source && (IgnoreCase in r1.flags <==> IgnoreCase in r2.flags)
  {
  }

  /** A `Dialect`: a name and an ordered list of descriptors. `name()` and
      `descriptors()` read the two fields back unchanged. */
  datatype Dialect = Dialect(name: Name, descriptors: seq<Descriptor>)

  /** The `_descriptorsHash` that `getDescriptor` builds on first use: every
      descriptor stored under its type, in list order, so that a later
      descriptor overwrites an earlier one of the same type. */
  function DescriptorsHash(ds: seq<Descriptor>): map<Name, Descriptor>
  {
    if |ds| == 0 then map[]
    else DescriptorsHash(ds[..|ds| - 1])[ds[|ds| - 1].tokenType := ds[|ds| - 1]]
  }

  /** Reference reading of a lookup by type: scan the list from the back for
      the last descriptor of that type. */
  function LastOfType(ds: seq<Descriptor>, t: Name): (r: Option<nat>)
    ensures r.Some? ==> r.value < |ds| && ds[r.value].tokenType == t
    ensures r.Some? ==> forall j :: r.value < j < |ds| ==> ds[j].tokenType != t
    ensures r.None? ==> forall j :: 0 <= j < |ds| ==> ds[j].tokenType != t
  {
    if |ds| == 0 then None
    else if ds[|ds| - 1].tokenType == t then Some(|ds| - 1)
    else LastOfType(ds[..|ds| - 1], t)
  }

  /** Building the hash changes no answer: looking a type up in it gives
      exactly what the scan from the back gives. */
  lemma {:induction false} HashAgreesWithScan(ds: seq<Descriptor>, t: Name)
    ensures t in DescriptorsHash(ds) <==> LastOfType(ds, t).Some?
    ensures t in DescriptorsHash(ds) ==> DescriptorsHash(ds)[t] == ds[LastOfType(ds, t).value]
    decreases |ds|
  {
    if |ds| > 0 {
      HashAgreesWithScan(ds[..|ds| - 1], t);
    }
  }

  /** `getDescriptor(type)`: the descriptor of that type, the last one when
      several share it, or `null` when none has it. */
  function GetDescriptor(d: Dialect, tokenType: Name): (r: Option<Descriptor>)
    ensures r.Some? ==> r.value.tokenType == tokenType
    ensures r.None? <==> forall j :: 0 <= j < |d.descriptors| ==> d.descriptors[j].tokenType != tokenType
    ensures r.Some? <==> LastOfType(d.descriptors, tokenType).Some?
    ensures r.Some? ==> r.value == d.descriptors[LastOfType(d.descriptors, tokenType).value]
  {
    var hash := DescriptorsHash(d.descriptors);
    HashAgreesWithScan(d.descriptors, tokenType);
    if tokenType in hash then Some(hash[tokenType]) else None
  }

  /** With distinct types (which the legacy scanner's `createDialect`
      enforces) the lookup finds the one descriptor of that type. */
  lemma GetDescriptorUnique(d: Dialect, k: nat)
    requires k < |d.descriptors|
    requires forall i, j :: 0 <= i < j < |d.descriptors| ==> d.descriptors[i].tokenType != d.descriptors[j].tokenType
    ensures GetDescriptor(d, d.descriptors[k].tokenType) == Some(d.descriptors[k])
  {
  }
}
