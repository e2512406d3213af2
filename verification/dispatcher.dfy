/** The argument dispatcher of lib/dispatcher.js: a façade over one trie that
    speaks of handlers and arguments instead of values and features.  Both
    operations are defined as the corresponding trie operation, so the lemmas
    here are the trie's guarantees restated in the dispatcher's vocabulary. */
module Dispatch {
  import opened Wrappers
  import Trie
  import TrieLemmas

  datatype Dispatcher<P, H> = Dispatcher(trie: Trie.Trie<P, H>)

  /** A dispatcher owns a fresh, empty trie. */
  function New<P, H>(): Dispatcher<P, H> {
    Dispatcher(Trie.Empty())
  }

  /** The handler registered for the arguments, if any (`getHandler`). */
  function GetHandler<P, H, A>(d: Dispatcher<P, H>, args: seq<A>, accepts: (P, A) -> bool): (r: Option<H>)
    ensures |args| == 0 ==> r == Trie.Stored(d.trie, [])
    ensures d == New() ==> r == None
  {
    Trie.GetValue(d.trie, args, accepts)
  }

  /** Registers `handler` under `predicates` (`setHandler`). */
  function SetHandler<P(==), H>(d: Dispatcher<P, H>, predicates: seq<P>, handler: H): (r: Dispatcher<P, H>)
    ensures Trie.Stored(r.trie, predicates) == Some(handler)
  {
    Dispatcher(Trie.SetValue(d.trie, predicates, handler))
  }

  /** A fresh dispatcher has no handler for any arguments. */
  lemma NewHasNoHandler<P, H, A>(args: seq<A>, accepts: (P, A) -> bool)
    ensures GetHandler(New<P, H>(), args, accepts) == None
  {
    TrieLemmas.EmptyTrieMatchesNothing<P, H, A>(args, accepts);
  }

  /** `setHandler` has the effect of the trie's `setValue`: the handler is
      registered under exactly `predicates`, every other registration is kept. */
  lemma SetHandlerRegisters<P, H>(d: Dispatcher<P, H>, predicates: seq<P>, handler: H, qs: seq<P>)
    ensures Trie.Stored(SetHandler(d, predicates, handler).trie, qs) ==
            if qs == predicates then Some(handler) else Trie.Stored(d.trie, qs)
  {
    TrieLemmas.InsertUpdatesStored(d.trie.root, predicates, handler, qs);
  }

  /** Round trip: after one `setHandler` on a fresh dispatcher, `getHandler`
      returns the handler exactly for the argument lists that have one argument
      per predicate, each accepted by its predicate. */
  lemma SetHandlerThenGetHandler<P, H, A>(predicates: seq<P>, handler: H, args: seq<A>, accepts: (P, A) -> bool)
    ensures GetHandler(SetHandler(New(), predicates, handler), args, accepts) ==
            if Trie.AcceptsAll(predicates, args, accepts) then Some(handler) else None
  {
    TrieLemmas.FreshInsertLookup(predicates, handler, args, accepts);
  }

  /** Registering twice under the same predicates leaves the dispatcher the
      second registration alone would have produced. */
  lemma SetHandlerOverwrites<P, H>(d: Dispatcher<P, H>, predicates: seq<P>, h1: H, h2: H)
    ensures SetHandler(SetHandler(d, predicates, h1), predicates, h2) == SetHandler(d, predicates, h2)
  {
    TrieLemmas.InsertOverwrites(d.trie.root, predicates, h1, h2);
  }
}
