/** Regular expressions as data, and the engine that runs them as an abstract
    anchored matcher. */
module RegExps {
  import opened Wrappers
  import opened Strings

  datatype Flag = Global | IgnoreCase | Multiline | DotAll | Unicode | Sticky | HasIndices

  /** A compiled `RegExp`: its pattern source and its flags. */
  datatype RegExp = RegExp(source: Text, flags: set<Flag>)

  /** The one thing every match end satisfies: it lies between the offset the
      match starts at and the end of the subject. */
  ghost predicate WithinSubject(end: Option<nat>, subject: Text, offset: nat) {
    end.Some? ==> offset <= end.value <= |subject|
  }

  /** The regular-expression engine. `m(r, s, o)` is the end of the match of
      `r` that starts exactly at offset `o` of `s`, or `None` when `r` has no
      match starting there. What the pattern and its flags mean (including
      case-insensitivity) is left to the engine. */
  type Matcher = m: (RegExp, Text, nat) -> Option<nat> | forall r, s, o :: WithinSubject(m(r, s, o), s, o)
    witness (r: RegExp, s: Text, o: nat) => None

  /** The `index` and end (`index + match[0].length`) of an `exec` result. */
  datatype Match = Match(index: nat, end: nat)

  /** `r.lastIndex = lastIndex; r.exec(s)`: a sticky regex only tries
      `lastIndex`; any other regex searches forward for the leftmost offset at
      or after `lastIndex` where it matches. */
  function Exec(m: Matcher, r: RegExp, s: Text, lastIndex: nat): (res: Option<Match>)
    ensures res.Some? ==> lastIndex <= res.value.index <= res.value.end <= |s|
    ensures res.Some? ==> m(r, s, res.value.index) == Some(res.value.end)
    ensures res.Some? ==> forall q :: lastIndex <= q < res.value.index ==> m(r, s, q).None?
    ensures (res.Some? && res.value.index == lastIndex) <==> m(r, s, lastIndex).Some?
    ensures Sticky !in r.flags && res.None? ==> forall q :: lastIndex <= q ==> m(r, s, q).None?
    decreases |s| + 1 - lastIndex
  {
    if lastIndex > |s| then None
    else match m(r, s, lastIndex)
      case Some(e) => Some(Match(lastIndex, e))
      case None => if Sticky in r.flags then None else Exec(m, r, s, lastIndex + 1)
  }

  /** With the sticky flag, `exec` (and so `test`) only tries `lastIndex`:
      it succeeds exactly when the pattern matches there. */
  lemma ExecSticky(m: Matcher, r: RegExp, s: Text, lastIndex: nat)
    requires Sticky in r.flags
    ensures Exec(m, r, s, lastIndex).Some? <==> lastIndex <= |s| && m(r, s, lastIndex).Some?
    ensures Exec(m, r, s, lastIndex).Some? ==>
              Exec(m, r, s, lastIndex).value == Match(lastIndex, m(r, s, lastIndex).value)
  {
  }
}
