# Predicate dispatch (mire) in Dafny

This project models the core of *mire*, a JavaScript library for
predicate-based multiple dispatch. A generic function is extended with
handlers, each registered under one predicate per dispatched argument. A call
runs each leading argument through the predicate at its position and picks the
handler whose whole predicate tuple accepts. The model has three layers, each a
Dafny module that follows one source file:

- `Trie` (`trie.dfy`, lemmas in `trie_lemmas.dfy`, lib/trie.js). An immutable
  tree `Node(value: Option<V>, edges: seq<Edge>)`. Each `Edge(pred, node)` owns
  its child. Predicates are values of a type parameter `P` and are compared by
  equality, which stands for JavaScript's `===` identity. Whether a predicate
  accepts a feature is a parameter `accepts: (P, F) -> bool`.
  `setValue` becomes `SetValue`/`Insert`, which returns the new tree.
  `getValue` becomes `GetValue`/`LookupAt`, which walks with `Walk` and
  `FindTraversableEdge`. `addEdge` becomes `AddEdge`, which returns the updated
  parent and the position of the edge to follow. `StoredAt` is the registration
  view: the value stored under exactly a predicate sequence. Registration is
  proved to be a map update on that view.
- `Dispatch` (`dispatcher.dfy`, lib/dispatcher.js). A `Dispatcher` wraps one
  trie. `GetHandler` and `SetHandler` are defined as the trie's `GetValue` and
  `SetValue`, so the delegation holds by construction. Its lemmas restate the
  trie's guarantees in handler/argument terms.
- `Generic` (`generic.dfy`, lemmas in `generic_lemmas.dfy`, lib/generic.js).
  JavaScript values are a datatype `Value`. It tells apart exactly what the
  layer inspects: functions (`util.isFunction`), arrays (`Array.isArray`) and
  truthiness (the `||` chain of a call). A `GenericFunction` record holds the
  name, the length, the default handler and the dispatcher. `Create`, `Of` and
  `When` return the TypeError kinds the source throws. `Call` returns the
  selected handler and the full argument list it would be invoked with, or the
  `NoMatchingError` (generic function and all arguments) that the throwing
  handler raises. `WellFormed` is the invariant that `Create`/`Of` establish
  and `When` preserves.

Four behaviours of the code are easy to misread, so the model states them
explicitly:

- A value does not end the walk. getValue consumes every feature and returns
  `undefined` as soon as no edge of the current node accepts the next one
  (lib/trie.js:39-43). A node holding a value can still carry edges, when a
  longer registration extends its path (lib/trie.js:26-29, 85-86), and the walk
  then continues into that registration (`PastDepthContinues`). Features past a
  registration's depth give no value only when nothing longer is registered
  below it: for a single registration (`FreshInsertLookup`), or when every
  registration has the same length, as in a generic function (`Leveled`,
  `LeveledMissesOtherLengths`).
- Lookup never backtracks. At every node the walk commits to the most recently
  added accepting edge (lib/trie.js:40-44, 97-103) and does not return to try
  an earlier one when the rest of the path fails. A registration whose
  predicates all accept the arguments can therefore be missed, although the
  comment at lib/trie.js:35 describes the result as "the first value whose
  predicates are satisfied". `LookupDoesNotBacktrack` exhibits such a trie.
- A call only slices the arguments to the first `length` (lib/generic.js:58).
  It never pads them, so fewer arguments give a shorter dispatch key
  (`DispatchKey`), which a well-formed trie never matches.
- `fallback` is not an option the code reads. `create` reads only `name`,
  `length` and `defaultHandler` (lib/generic.js:17).

## Model

| member | source | states |
|---|---|---|
| Trie.FindEdge | lib/trie.js:79-83 | the position of the first edge whose predicate is identical to the given one, and none exactly when no edge carries it |
| Trie.AddEdge | lib/trie.js:79-88 | an edge with an identical predicate is reused and the parent is left as it was; otherwise one edge to an empty child is appended after all existing edges; either way the returned position is the first edge with that predicate and the parent's value is kept |
| Trie.FindTraversableEdge | lib/trie.js:97-103 | the chosen edge accepts the feature and no later edge does (the most recently added accepting edge); none exactly when no edge accepts |
| Trie.Insert | lib/trie.js:24-30 | after setValue below a node the value is stored under exactly the predicate sequence; a node's value changes only when the sequence is empty; the node gains at most one edge and its existing edges keep their predicates and order |
| Trie.SetValue | lib/trie.js:24-30 | after setValue the trie's registration view maps the predicates to the value |
| Trie.Walk | lib/trie.js:37-45 | with no features the walk stays at the starting node; with features left, a node without edges ends it with nothing (`WalkAppend` and `MissStops` state how steps compose and where the walk stops) |
| Trie.LookupAt | lib/trie.js:37-47 | with no features the result is the starting node's value; below an empty node every lookup finds nothing (`FreshInsertLookup`, `LookupSound` and `LookupReturnsStored` relate it to the registrations) |
| Trie.GetValue | lib/trie.js:37-47 | getValue of no features is what is registered under no predicates; a fresh trie returns no value |
| TrieLemmas.InsertBelowExisting | lib/trie.js:79-83 | registering under a predicate the node already has descends into that edge's child and changes nothing else at the node |
| TrieLemmas.InsertBelowNew | lib/trie.js:85-87 | registering under a new predicate appends one edge at the end, leading to a fresh path for the remaining predicates |
| TrieLemmas.StoredEmpty | lib/trie.js:67-70 | a new node, with no value and no edges, stores nothing under any predicate sequence |
| TrieLemmas.InsertUpdatesStored | lib/trie.js:24-30 | setValue is a map update of the registration view: the given sequence now holds the value and every other sequence, including the empty one, keeps its value |
| TrieLemmas.InsertOverwrites | lib/trie.js:29 | last write wins: registering v1 then v2 under the same predicates gives the same trie as registering v2 alone |
| TrieLemmas.InsertPreservesNoDuplicates | lib/trie.js:79-88 | if no node has two edges with the same predicate before setValue, none has after |
| TrieLemmas.InsertGrows | lib/trie.js:85-86 | setValue only appends edges: at every node the existing edges keep their predicates and order, and no node is removed |
| TrieLemmas.WalkAppend | lib/trie.js:38-45 | walking a concatenation of features is walking the first part and then the rest from the node reached |
| TrieLemmas.MissStops | lib/trie.js:40-43 | once no edge of the node reached accepts the next feature, getValue returns no value, whatever is stored deeper |
| TrieLemmas.FreshInsertLookup | lib/trie.js:24-47 | in a trie with one registration, getValue returns the value if and only if there are as many features as predicates and each predicate accepts its feature; fewer or more features, or a rejected feature, return no value |
| TrieLemmas.LastAcceptingEdgeWins | lib/trie.js:97-103 | when an edge accepts the feature and no later edge does, lookup continues below that edge and earlier edges are not consulted |
| TrieLemmas.RecentRegistrationShadows | lib/trie.js:97-103 | with two distinct predicates that both accept a feature, lookup resolves through the one registered later, and the earlier registration stays stored |
| TrieLemmas.PrefixSharingShape | lib/trie.js:79-88 | registering [p1, p2] then [p1, p3] shares the p1 edge and puts p2 and p3 below it in registration order |
| TrieLemmas.PrefixSharing | lib/trie.js:79-103 | after [p1, p2] and [p1, p3] the root has one edge; features satisfying [p1, p2] but rejected by p3 still find the first value, and features satisfying [p1, p3] find the second |
| TrieLemmas.LookupDoesNotBacktrack | lib/trie.js:35-47 | lookup never backtracks: with [p1, p2] then [p3, p4] registered, features that [p1, p2] accepts position by position find nothing when p3 accepts the first and p4 rejects the second, although [p1, p2] stays registered |
| TrieLemmas.PastDepthContinues | lib/trie.js:24-47 | after registering [p] and then [p, q], the node holding the first value also carries the edge q; one feature accepted by p finds the first value and a second feature accepted by q walks on to the second |
| TrieLemmas.EmptyTrieMatchesNothing | lib/trie.js:15-17 | a fresh trie returns no value for every feature sequence |
| TrieLemmas.EmptyPathAddressesRoot | lib/trie.js:24-46 | getValue of no features returns what is registered under no predicates (the root's value); setValue with no predicates stores on the root and keeps its edges |
| TrieLemmas.InsertKeepsLeveled | lib/trie.js:24-30 | registering only sequences of length d keeps every value at depth d with no edges below it |
| TrieLemmas.LeveledMissesOtherLengths | lib/trie.js:39-46 | when every value sits at depth d, getValue with a different number of features returns no value |
| TrieLemmas.InsertKeepsAllStored | lib/trie.js:24-30 | if every stored value satisfies a property and the new value does too, every stored value still does after setValue |
| TrieLemmas.LookupReturnsStored | lib/trie.js:37-47 | getValue only returns a value that is stored in the trie |
| TrieLemmas.LookupSound | lib/trie.js:37-47 | without duplicate edges, a value getValue finds is the one registered under a predicate sequence that accepts the features position by position |
| Dispatch.SetHandler | lib/dispatcher.js:33-35 | after setHandler the handler is registered under the predicates |
| Dispatch.GetHandler | lib/dispatcher.js:24-26 | getHandler of no arguments is the handler registered under no predicates; a fresh dispatcher has no handler (`SetHandlerThenGetHandler` gives the full answer after one registration) |
| Dispatch.NewHasNoHandler | lib/dispatcher.js:15-17 | a fresh dispatcher (`Dispatch.New`) holds an empty trie and has no handler for any arguments |
| Dispatch.SetHandlerRegisters | lib/dispatcher.js:33-35 | setHandler has the trie's setValue effect: the predicates now map to the handler and every other registration is kept |
| Dispatch.SetHandlerThenGetHandler | lib/dispatcher.js:24-35 | after one setHandler on a fresh dispatcher, getHandler returns the handler if and only if each predicate accepts the argument at its position and the counts agree |
| Dispatch.SetHandlerOverwrites | lib/dispatcher.js:33-35 | setting a handler twice under the same predicates leaves the dispatcher as setting the second one alone |
| Generic.CreateValidated | lib/generic.js:53-56 | a new generic function owns a fresh dispatcher and satisfies the well-formedness invariant |
| Generic.Create | lib/generic.js:16-26 | fails with a default-handler TypeError exactly when the default handler is truthy and not a function; otherwise the name defaults to '' and the length to 0, the default handler is kept, and the result is well formed with an empty dispatcher |
| Generic.Of | lib/generic.js:33-42 | fails with a TypeError exactly when the argument is not a function; otherwise uses the function's name, its length and the function itself as default handler |
| Generic.FirstNonFunction | lib/generic.js:67-73 | the position of the first element that is not a function, with all elements before it functions; none exactly when every element is a function |
| Generic.When | lib/generic.js:62-80 | registers exactly when the predicates are an array of `length` functions and the handler is a function, and then equals setHandler on the dispatcher; a non-array or wrong-length first argument is reported first, then the first non-function predicate with its position, then a non-function handler; a rejected call leaves the generic function unchanged |
| Generic.DispatchKey | lib/generic.js:58 | the dispatch key is a prefix of the arguments of length `length`, or all of them when there are fewer |
| Generic.Fallback | lib/generic.js:94-98 | without a match, a truthy default handler is selected with all arguments; otherwise the failure is a NoMatchingError carrying the generic function and all arguments |
| Generic.Call | lib/generic.js:57-60 | the selected handler is truthy and receives all the arguments; a call fails only when there is no truthy default handler, and then with a NoMatchingError carrying the generic function and all arguments |
| GenericLemmas.WhenPreservesWellFormed | lib/generic.js:62-80 | when keeps a well-formed generic function well formed: no duplicate edges, every handler a function and at depth `length` |
| GenericLemmas.WhenRegisters | lib/generic.js:79 | a successful when registers the handler under exactly its predicates and keeps every other registration |
| GenericLemmas.WhenTwiceOverrides | lib/generic.js:79 | extending twice with the same predicates equals extending with the second handler only, so calls use the second handler |
| GenericLemmas.CallIgnoresExtraArguments | lib/generic.js:57-59 | with at least `length` arguments, extra trailing arguments do not change the selection but are all passed to the handler |
| GenericLemmas.ShortCallFallsBack | lib/generic.js:58 | on a well-formed generic function, fewer than `length` arguments never match a registration and the call falls back |
| GenericLemmas.UnextendedCallFallsBack | lib/generic.js:58 | a generic function never extended selects its default handler, or fails with a NoMatchingError carrying all arguments |
| GenericLemmas.CallAfterRegistration | lib/generic.js:57-79 | after one successful when on a fresh generic function, a call selects that handler if and only if there are at least `length` arguments and each predicate accepts its argument; otherwise it falls back |
| GenericLemmas.CallSound | lib/generic.js:58 | on a well-formed generic function the selected handler is a function, and it is either the default handler or registered under predicates that accept the first `length` arguments; a failure happens only when the trie lookup finds no handler for them (lookup does not backtrack, see `LookupDoesNotBacktrack`) |
| GenericLemmas.CallPrefersRegistration | lib/generic.js:58 | on a well-formed generic function a handler found by the trie lookup is invoked before any default handler; only when the lookup finds none does the call fall back to the default handler or the throwing handler |
| GenericLemmas.TwoRegistrationsState | lib/generic.js:16-79 | creating a 2-ary generic function and extending it with [num, num] and [arr, arr] gives that trie with name '' and no default handler |
| GenericLemmas.OlderRegistrationSelected | lib/generic.js:58 | arguments accepted by the older pair of predicates and rejected by the newer first predicate reach the older handler |
| GenericLemmas.NewerRegistrationSelected | lib/generic.js:58 | arguments accepted by the newer pair of predicates reach the newer handler |
| GenericLemmas.TwoRegistrationsDispatch | lib/generic.js:57-79 | the two-handler example of test/generic.test.js:84-96 end to end: number-like arguments reach the first handler and array-like arguments reach the second |

The inductions above rest on step lemmas that have no row of their own:
`AcceptsAllCons`, `LookupSingleEdge`, `FreshPath`, `FreshPathOfTwo`,
`TwoPathsShape`, `TwoPathsMiss`, and the one-step lemmas for reusing an edge
(`StoredReplaceChild`, `NoDuplicatesReplaceChild`, `LeveledReplaceChild`),
appending one (`StoredAppendChild`, `NoDuplicatesAppendChild`,
`LeveledAppendChild`) and descending into a child (`LeveledChild`).

## Left out

- Invoking handlers and predicates. A call returns the selected handler and its arguments instead of calling it. Predicate acceptance is the parameter `accepts`, so truthiness coercion of a predicate's result and exceptions thrown by predicates are not modelled.
- JavaScript spread/rest calling conventions. Arguments and predicates are explicit sequences.
- Error message text (`util.inspect`), `Error.captureStackTrace` and the `Reflect.defineProperty` plumbing. The name and length are plain record fields, and each error keeps only its kind and payload.
- Generic.Create: models `name` as an optional string and `length` as an optional natural number. `name || ''` and `length || 0` on other JavaScript values (non-string names, negative or non-integer lengths, loose `!=` against a string length) are not modelled. A `null` or non-object options argument is not modelled either.
- Generic.When: models "is an array" by the `Array` constructor of `Value`. Array-likes and sparse arrays are not distinguished.
- Object identity is modelled by structural equality of `Value`. Two function values are the same function exactly when they are equal, so two distinct functions must differ in `id`.
- Mutation and aliasing. Each operation returns the new trie, dispatcher or generic function. This is faithful because the trie is a strictly owned tree.
- Concurrency. The source is single-threaded and synchronous.
- Trie.Insert: a value is stored as `Some(v)` for every `v`, so registering JavaScript's `undefined` is a present value, while in the source it cannot be told apart from no value (lib/trie.js:29, 46). The generic layer only registers functions, so calls are unaffected.
