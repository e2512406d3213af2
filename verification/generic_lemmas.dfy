/** Properties of the generic-function layer of lib/generic.js: `when` keeps a
    generic function well formed and updates its registrations, calls dispatch
    on the first `length` arguments only, and a call selects a registered
    handler whose predicates accept the arguments, else the default handler,
    else fails with a `NoMatchingError` carrying every argument. */
module GenericLemmas {
  import opened Wrappers
  import Trie
  import TrieLemmas
  import Dispatch
  import opened Generic

  /** A successful `when` keeps a well-formed generic function well formed. */
  lemma WhenPreservesWellFormed(g: GenericFunction, predicates: Value, handler: Value)
    requires WellFormed(g)
    ensures WellFormed(When(g, predicates, handler).generic)
  {
    if ValidRegistration(g.length, predicates, handler) {
      var root := g.dispatcher.trie.root;
      var ps := predicates.items;
      TrieLemmas.InsertPreservesNoDuplicates(root, ps, handler);
      TrieLemmas.InsertKeepsLeveled(root, ps, handler);
      TrieLemmas.InsertKeepsAllStored(root, ps, handler, IsFunction);
    }
  }

  /** A successful `when` registers the handler under exactly its predicates
      and keeps every other registration. */
  lemma WhenRegisters(g: GenericFunction, predicates: Value, handler: Value, qs: seq<Value>)
    requires When(g, predicates, handler).thrown.None?
    ensures Trie.Stored(When(g, predicates, handler).generic.dispatcher.trie, qs) ==
            if qs == predicates.items then Some(handler) else Trie.Stored(g.dispatcher.trie, qs)
  {
    Dispatch.SetHandlerRegisters(g.dispatcher, predicates.items, handler, qs);
  }

  /** Extending a generic function twice with the same predicates is the same
      as extending it with the second handler only. */
  lemma WhenTwiceOverrides(g: GenericFunction, predicates: Value, h1: Value, h2: Value)
    requires When(g, predicates, h1).thrown.None?
    requires IsFunction(h2)
    ensures When(When(g, predicates, h1).generic, predicates, h2) == When(g, predicates, h2)
  {
    Dispatch.SetHandlerOverwrites(g.dispatcher, predicates.items, h1, h2);
  }

  /** Arguments beyond the declared length do not take part in selection but
      are all passed on to the selected handler. */
  lemma CallIgnoresExtraArguments(g: GenericFunction, args: seq<Value>, extra: seq<Value>, accepts: (Value, Value) -> bool)
    requires |args| >= g.length
    ensures Call(g, args + extra, accepts).Success? == Call(g, args, accepts).Success?
    ensures Call(g, args + extra, accepts).Success? ==>
            Call(g, args + extra, accepts).value == Invocation(Call(g, args, accepts).value.handler, args + extra)
  {
    assert DispatchKey(g, args + extra) == DispatchKey(g, args);
  }

  /** With fewer arguments than the declared length no registered handler can
      match, so the call falls back. */
  lemma ShortCallFallsBack(g: GenericFunction, args: seq<Value>, accepts: (Value, Value) -> bool)
    requires WellFormed(g)
    requires |args| < g.length
    ensures Call(g, args, accepts) == Fallback(g, args)
  {
    TrieLemmas.LeveledMissesOtherLengths(g.dispatcher.trie.root, g.length, DispatchKey(g, args), accepts);
  }

  /** A generic function nothing was registered on always falls back: to its
      default handler, or to a `NoMatchingError` with all the arguments. */
  lemma UnextendedCallFallsBack(g: GenericFunction, args: seq<Value>, accepts: (Value, Value) -> bool)
    requires g.dispatcher == Dispatch.New()
    ensures Call(g, args, accepts) == Fallback(g, args)
  {
    Dispatch.NewHasNoHandler<Value, Value, Value>(DispatchKey(g, args), accepts);
  }

  /** Round trip through the generic layer: after one successful `when` on a
      fresh generic function, a call selects the handler exactly when there are
      at least `length` arguments and each predicate accepts the argument at its
      position; otherwise it falls back. */
  lemma CallAfterRegistration(g: GenericFunction, predicates: Value, handler: Value, args: seq<Value>,
                              accepts: (Value, Value) -> bool)
    requires g.dispatcher == Dispatch.New()
    requires When(g, predicates, handler).thrown.None?
    ensures var g' := When(g, predicates, handler).generic;
            Call(g', args, accepts) ==
            if |args| >= g.length && Trie.AcceptsAll(predicates.items, args[..g.length], accepts)
            then Success(Invocation(handler, args))
            else Fallback(g', args)
  {
    Dispatch.SetHandlerThenGetHandler(predicates.items, handler, DispatchKey(g, args), accepts);
  }

  /** `h` is registered under predicates that accept the first `length`
      arguments, position by position. */
  ghost predicate RegisteredFor(g: GenericFunction, args: seq<Value>, h: Value, accepts: (Value, Value) -> bool) {
    exists ps :: Trie.Stored(g.dispatcher.trie, ps) == Some(h) && Trie.AcceptsAll(ps, DispatchKey(g, args), accepts)
  }

  /** Soundness of a call on a well-formed generic function: the handler it
      invokes is a function, and it is either registered under predicates that
      accept the first `length` arguments or the default handler; a failure
      happens only when the trie lookup finds no handler for the arguments and
      there is no default handler.  Lookup does not backtrack, so a handler
      registered under predicates that accept the arguments can still be
      missed (`TrieLemmas.LookupDoesNotBacktrack`). */
  lemma CallSound(g: GenericFunction, args: seq<Value>, accepts: (Value, Value) -> bool)
    requires WellFormed(g)
    ensures Call(g, args, accepts).Success? ==> IsFunction(Call(g, args, accepts).value.handler)
    ensures Call(g, args, accepts).Success? ==>
            || Call(g, args, accepts).value.handler == g.defaultHandler
            || (|args| >= g.length && RegisteredFor(g, args, Call(g, args, accepts).value.handler, accepts))
    ensures Call(g, args, accepts).Failure? ==>
            Dispatch.GetHandler(g.dispatcher, DispatchKey(g, args), accepts) == None
  {
    var root := g.dispatcher.trie.root;
    var key := DispatchKey(g, args);
    TrieLemmas.LookupReturnsStored(root, key, accepts, IsFunction);
    var found := Trie.LookupAt(root, key, accepts);
    if found.Some? {
      var ps := TrieLemmas.LookupSound(root, key, accepts);
      if |key| != g.length {
        TrieLemmas.LeveledMissesOtherLengths(root, g.length, key, accepts);
      }
    }
  }

  /** Selection order of a call on a well-formed generic function: a handler
      found by the trie lookup on the first `length` arguments is invoked; only
      when the lookup finds none does the call fall back to the default
      handler or the throwing handler. */
  lemma CallPrefersRegistration(g: GenericFunction, args: seq<Value>, accepts: (Value, Value) -> bool)
    requires WellFormed(g)
    ensures var found := Dispatch.GetHandler(g.dispatcher, DispatchKey(g, args), accepts);
            found.Some? ==> Call(g, args, accepts) == Success(Invocation(found.value, args))
    ensures var found := Dispatch.GetHandler(g.dispatcher, DispatchKey(g, args), accepts);
            found.None? ==> Call(g, args, accepts) == Fallback(g, args)
  {
    TrieLemmas.LookupReturnsStored(g.dispatcher.trie.root, DispatchKey(g, args), accepts, IsFunction);
  }

  /** The generic function of the two-handler example of
      test/generic.test.js:84-96: created with length 2 and no default
      handler, then extended with `[num, num]` and `[arr, arr]`; its trie has
      the shape above. */
  lemma TwoRegistrationsState(num: Value, arr: Value, hNum: Value, hArr: Value)
    requires IsFunction(num) && IsFunction(arr) && IsFunction(hNum) && IsFunction(hArr)
    requires num != arr
    ensures var g := Create(Options(None, Some(2), Undefined)).value;
            var g1 := When(g, Array([num, num]), hNum).generic;
            When(g1, Array([arr, arr]), hArr).generic ==
            GenericFunction("", 2, Undefined, Dispatch.Dispatcher(Trie.Trie(
              Trie.Insert(Trie.Insert(Trie.EmptyNode(), [num, num], hNum), [arr, arr], hArr))))
  {
    var g := Create(Options(None, Some(2), Undefined)).value;
    assert g == GenericFunction("", 2, Undefined, Dispatch.New());
    var g1 := g.(dispatcher := Dispatch.SetHandler(g.dispatcher, [num, num], hNum));
    assert When(g, Array([num, num]), hNum).generic == g1 by {
      assert ValidRegistration(2, Array([num, num]), hNum);
    }
    var g2 := g1.(dispatcher := Dispatch.SetHandler(g1.dispatcher, [arr, arr], hArr));
    assert When(g1, Array([arr, arr]), hArr).generic == g2 by {
      assert ValidRegistration(2, Array([arr, arr]), hArr);
    }
    assert g2.dispatcher.trie.root ==
           Trie.Insert(Trie.Insert(Trie.EmptyNode(), [num, num], hNum), [arr, arr], hArr);
  }

  /** A 2-ary generic function without default handler whose trie holds the
      two registrations of the example of test/generic.test.js:84-96. */
  function TwoRegistrations(num: Value, arr: Value, hNum: Value, hArr: Value): GenericFunction {
    GenericFunction("", 2, Undefined, Dispatch.Dispatcher(Trie.Trie(TrieLemmas.TwoPaths(num, num, arr, arr, hNum, hArr))))
  }

  /** Arguments accepted by the older registration's predicates and rejected by
      the newer one's first predicate reach the older handler. */
  lemma OlderRegistrationSelected(num: Value, arr: Value, hNum: Value, hArr: Value, x: Value, y: Value,
                                  accepts: (Value, Value) -> bool)
    requires IsFunction(hNum)
    requires accepts(num, x) && accepts(num, y) && !accepts(arr, x)
    ensures Call(TwoRegistrations(num, arr, hNum, hArr), [x, y], accepts) == Success(Invocation(hNum, [x, y]))
  {
    var g := TwoRegistrations(num, arr, hNum, hArr);
    var root := g.dispatcher.trie.root;
    var numPath := root.edges[0].node;
    assert [x, y] == [x] + [y] && [y] == [y] + [];
    TrieLemmas.LastAcceptingEdgeWins(root, 0, x, [y], accepts);
    TrieLemmas.LastAcceptingEdgeWins(numPath, 0, y, [], accepts);
    assert Trie.LookupAt(numPath.edges[0].node, [], accepts) == Some(hNum);
    assert DispatchKey(g, [x, y]) == [x, y];
  }

  /** Arguments accepted by the newer registration's predicates reach the newer
      handler. */
  lemma NewerRegistrationSelected(num: Value, arr: Value, hNum: Value, hArr: Value, xs: Value, ys: Value,
                                  accepts: (Value, Value) -> bool)
    requires IsFunction(hArr)
    requires accepts(arr, xs) && accepts(arr, ys)
    ensures Call(TwoRegistrations(num, arr, hNum, hArr), [xs, ys], accepts) == Success(Invocation(hArr, [xs, ys]))
  {
    var g := TwoRegistrations(num, arr, hNum, hArr);
    var root := g.dispatcher.trie.root;
    var arrPath := root.edges[1].node;
    assert [xs, ys] == [xs] + [ys] && [ys] == [ys] + [];
    TrieLemmas.LastAcceptingEdgeWins(root, 1, xs, [ys], accepts);
    TrieLemmas.LastAcceptingEdgeWins(arrPath, 0, ys, [], accepts);
    assert Trie.LookupAt(arrPath.edges[0].node, [], accepts) == Some(hArr);
    assert DispatchKey(g, [xs, ys]) == [xs, ys];
  }

  /** The two-handler example of test/generic.test.js:84-96: two
      registrations on a 2-ary generic function with distinct predicates;
      arguments accepted only by the first pair of predicates reach the first
      handler, arguments accepted by the second pair reach the second handler,
      the more recent registration. */
  lemma TwoRegistrationsDispatch(num: Value, arr: Value, hNum: Value, hArr: Value,
                                 x: Value, y: Value, xs: Value, ys: Value, accepts: (Value, Value) -> bool)
    requires IsFunction(num) && IsFunction(arr) && IsFunction(hNum) && IsFunction(hArr)
    requires num != arr
    requires accepts(num, x) && accepts(num, y) && !accepts(arr, x)
    requires accepts(arr, xs) && accepts(arr, ys)
    ensures var g := Create(Options(None, Some(2), Undefined)).value;
            var g1 := When(g, Array([num, num]), hNum).generic;
            var g2 := When(g1, Array([arr, arr]), hArr).generic;
            && Call(g2, [x, y], accepts) == Success(Invocation(hNum, [x, y]))
            && Call(g2, [xs, ys], accepts) == Success(Invocation(hArr, [xs, ys]))
  {
    TwoRegistrationsState(num, arr, hNum, hArr);
    TrieLemmas.TwoPathsShape(num, num, arr, arr, hNum, hArr);
    OlderRegistrationSelected(num, arr, hNum, hArr, x, y, accepts);
    NewerRegistrationSelected(num, arr, hNum, hArr, xs, ys, accepts);
  }
}
