/** `TokenizerCache`: one tokenizer per dialect, created on first request by
    a creator function and kept in a `WeakMap` keyed by the dialect object. */
module TokenizerCaches {
  import opened Wrappers

  /** A dialect object, known by its identity. */
  type DialectRef = nat

  /** What the creator returned: a falsy value (`null`, `undefined`, …) or a
      tokenizer object. A `WeakMap` miss reads as falsy too. */
  datatype Slot<T> = Falsy | Truthy(tokenizer: T)

  /** The `WeakMap`: the value stored for each dialect that has one. */
  datatype Cache<T> = Cache(entries: map<DialectRef, Slot<T>>)

  /** The creator; it may throw an `E`. */
  type Creator<T, E> = DialectRef -> Result<Slot<T>, E>

  /** The state after a request, what it returned, and whether the creator
      ran. */
  datatype Lookup<T, E> = Lookup(cache: Cache<T>, result: Result<Slot<T>, E>, created: bool)

  /** `cache.get(dialect)`: the stored value, falsy on a miss. */
  function Get<T>(c: Cache<T>, d: DialectRef): Slot<T> {
    if d in c.entries then c.entries[d] else Falsy
  }

  /** `tokenizerForDialect(dialect)`: a truthy stored value is returned as it
      is; otherwise the creator runs, its result is stored (even a falsy
      one) and returned. A creator that throws leaves the cache as it was. */
  function TokenizerForDialect<T, E>(c: Cache<T>, create: Creator<T, E>, d: DialectRef): (r: Lookup<T, E>)
    ensures r.created <==> Get(c, d).Falsy?
    ensures !r.created ==> r.cache == c && r.result == Success(c.entries[d])
    ensures r.created ==> r.result == create(d)
    ensures r.created && r.result.Success? ==> r.cache.entries == c.entries[d := r.result.value]
    ensures r.created && r.result.Failure? ==> r.cache == c
    ensures forall e :: e != d ==> Get(r.cache, e) == Get(c, e)
    ensures r.result.Success? ==> Get(r.cache, d) == r.result.value
  {
    var stored := Get(c, d);
    if stored.Truthy? then Lookup(c, Success(stored), false)
    else
      match create(d)
      case Success(t) => Lookup(Cache(c.entries[d := t]), Success(t), true)
      case Failure(e) => Lookup(c, Failure(e), true)
  }

  /** After a request that produced a tokenizer, the next request for the
      same dialect returns that same tokenizer without calling the creator,
      whatever the creator would now do. */
  lemma SecondRequestIsCached<T, E>(c: Cache<T>, create: Creator<T, E>, again: Creator<T, E>, d: DialectRef)
    requires TokenizerForDialect(c, create, d).result.Success?
    requires TokenizerForDialect(c, create, d).result.value.Truthy?
    ensures var first := TokenizerForDialect(c, create, d);
            var second := TokenizerForDialect(first.cache, again, d);
            !second.created && second.cache == first.cache && second.result == first.result
  {
  }

  /** A falsy creator result is stored but does not count as cached: the
      next request for that dialect runs the creator again. */
  lemma FalsyIsRecreated<T, E>(c: Cache<T>, create: Creator<T, E>, again: Creator<T, E>, d: DialectRef)
    requires Get(c, d).Falsy? && create(d) == Success(Falsy)
    ensures var first := TokenizerForDialect(c, create, d);
            first.result == Success(Falsy) &&
            TokenizerForDialect(first.cache, again, d).created &&
            TokenizerForDialect(first.cache, again, d).result == again(d)
  {
  }

  /** Requests for different dialects do not disturb each other: serving `a`
      first changes neither what a request for `b` returns nor whether it
      creates, and serving `b` leaves `a`'s entry as it was. */
  lemma RequestsAreIndependent<T, E>(c: Cache<T>, create: Creator<T, E>, a: DialectRef, b: DialectRef)
    requires a != b
    ensures var first := TokenizerForDialect(c, create, a);
            var second := TokenizerForDialect(first.cache, create, b);
            var alone := TokenizerForDialect(c, create, b);
            Get(second.cache, a) == Get(first.cache, a) &&
            second.result == alone.result && second.created == alone.created
  {
  }
}
