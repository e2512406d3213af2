/** The generic-function layer of lib/generic.js.

    A generic function has a name, a declared length (the number of leading
    arguments it dispatches on), a default handler and its own dispatcher.
    JavaScript values are modelled only as far as this layer tells them apart:
    whether a value is a function (`util.isFunction`), whether it is an array
    (`Array.isArray`), and whether it is truthy (for `a || b`).  Calling the
    generic function returns the handler it would invoke together with the
    arguments it would pass, or the `NoMatchingError` it would throw; nothing is
    invoked. */
module Generic {
  import opened Wrappers
  import Trie
  import Dispatch

  /** A JavaScript value.  Two function values are the same function exactly
      when they are equal, so `id` stands for object identity. */
  datatype Value =
    | Function(id: nat, name: string, arity: nat)
    | Array(items: seq<Value>)
    | Object(id: nat)
    | Primitive(id: nat, truthy: bool)
    | Undefined

  /** `util.isFunction`. */
  predicate IsFunction(v: Value) {
    v.Function?
  }

  /** JavaScript truthiness: functions, arrays and objects are truthy,
      `undefined` is falsy, and each primitive carries its own truthiness. */
  predicate Truthy(v: Value) {
    match v
    case Primitive(_, t) => t
    case Undefined => false
    case _ => true
  }

  /** The options object given to `create`; an absent `defaultHandler` is
      `Undefined`. */
  datatype Options = Options(name: Option<string>, length: Option<nat>, defaultHandler: Value)

  /** A generic function: the properties it is given by `createValidated` and
      the dispatcher it closes over. */
  datatype GenericFunction = GenericFunction(
    name: string,
    length: nat,
    defaultHandler: Value,
    dispatcher: Dispatch.Dispatcher<Value, Value>)

  /** The `TypeError`s the layer throws, each with the offending value. */
  datatype TypeError =
    | DefaultHandlerNotAFunction(defaultHandler: Value)
    | PromotingNotAFunction(fn: Value)
    | NotAnArrayOfPredicates(predicates: Value, length: nat)
    | NotAPredicate(found: Value, pos: nat)
    | HandlerNotAFunction(handler: Value)

  /** `NoMatchingError`: the generic function and all the arguments it was
      called with. */
  datatype NoMatchingError = NoMatchingError(generic: GenericFunction, args: seq<Value>)

  /** The handler a call invokes and the arguments it passes to it. */
  datatype Invocation = Invocation(handler: Value, args: seq<Value>)

  /** The outcome of `when`: the generic function afterwards and the error
      thrown, if any. */
  datatype Registration = Registration(generic: GenericFunction, thrown: Option<TypeError>)

  /** The state every generic function built by `create` or `of` and extended
      only through `when` is in: a truthy default handler is a function, no node
      of the trie has two edges with the same predicate, every handler sits at
      depth `length`, and every registered handler is a function. */
  ghost predicate WellFormed(g: GenericFunction) {
    && (Truthy(g.defaultHandler) ==> IsFunction(g.defaultHandler))
    && Trie.NoDuplicateEdges(g.dispatcher.trie.root)
    && Trie.Leveled(g.dispatcher.trie.root, g.length)
    && Trie.AllStored(g.dispatcher.trie.root, IsFunction)
  }

  /** `createValidated`: a generic function with a fresh dispatcher. */
  function CreateValidated(name: string, length: nat, defaultHandler: Value): (g: GenericFunction)
    requires Truthy(defaultHandler) ==> IsFunction(defaultHandler)
    ensures WellFormed(g)
    ensures g.dispatcher == Dispatch.New()
  {
    GenericFunction(name, length, defaultHandler, Dispatch.New())
  }

  /** `create`: rejects a truthy default handler that is not a function, and
      otherwise defaults the name to `''` and the length to `0`. */
  function Create(opt: Options): (r: Result<GenericFunction, TypeError>)
    ensures r.Failure? <==> Truthy(opt.defaultHandler) && !IsFunction(opt.defaultHandler)
    ensures r.Failure? ==> r.error == DefaultHandlerNotAFunction(opt.defaultHandler)
    ensures r.Success? ==> WellFormed(r.value) && r.value.dispatcher == Dispatch.New()
    ensures r.Success? ==> r.value.defaultHandler == opt.defaultHandler
    ensures r.Success? && opt.name.None? ==> r.value.name == ""
    ensures r.Success? && opt.length.None? ==> r.value.length == 0
    ensures r.Success? && opt.name.Some? ==> r.value.name == opt.name.value
    ensures r.Success? && opt.length.Some? ==> r.value.length == opt.length.value
  {
    if Truthy(opt.defaultHandler) && !IsFunction(opt.defaultHandler) then
      Failure(DefaultHandlerNotAFunction(opt.defaultHandler))
    else
      Success(CreateValidated(opt.name.GetOr(""), opt.length.GetOr(0), opt.defaultHandler))
  }

  /** `of`: promotes a function to a generic function named like it, with its
      length, and with the function itself as default handler. */
  function Of(fn: Value): (r: Result<GenericFunction, TypeError>)
    ensures r.Failure? <==> !IsFunction(fn)
    ensures r.Failure? ==> r.error == PromotingNotAFunction(fn)
    ensures r.Success? ==> WellFormed(r.value) && r.value.dispatcher == Dispatch.New()
    ensures r.Success? ==> r.value.name == fn.name && r.value.length == fn.arity
    ensures r.Success? ==> r.value.defaultHandler == fn
  {
    if !IsFunction(fn) then Failure(PromotingNotAFunction(fn))
    else Success(CreateValidated(fn.name, fn.arity, fn))
  }

  /** The position of the first element that is not a function, as the
      validation loop of `when` counts it. */
  function FirstNonFunction(items: seq<Value>): (r: Option<nat>)
    ensures r.Some? ==> r.value < |items| && !IsFunction(items[r.value])
    ensures r.Some? ==> forall j :: 0 <= j < r.value ==> IsFunction(items[j])
    ensures r.None? <==> forall j :: 0 <= j < |items| ==> IsFunction(items[j])
  {
    if |items| == 0 then None
    else if !IsFunction(items[0]) then Some(0)
    else match FirstNonFunction(items[1..])
      case None => None
      case Some(i) => Some(i + 1)
  }

  /** What `when` accepts: an array of exactly `length` functions and a
      function as handler. */
  predicate ValidRegistration(length: nat, predicates: Value, handler: Value) {
    && predicates.Array?
    && |predicates.items| == length
    && (forall j :: 0 <= j < |predicates.items| ==> IsFunction(predicates.items[j]))
    && IsFunction(handler)
  }

  /** `generic.when`: validates the predicates' shape, then each predicate in
      order, then the handler, and registers only when all checks pass. */
  function When(g: GenericFunction, predicates: Value, handler: Value): (r: Registration)
    ensures r.thrown.None? <==> ValidRegistration(g.length, predicates, handler)
    ensures r.thrown.Some? ==> r.generic == g
    ensures r.thrown.None? ==>
              r.generic == g.(dispatcher := Dispatch.SetHandler(g.dispatcher, predicates.items, handler))
    ensures (r.thrown.Some? && r.thrown.value.NotAnArrayOfPredicates?) <==>
              !(predicates.Array? && |predicates.items| == g.length)
    ensures r.thrown.Some? && r.thrown.value.NotAnArrayOfPredicates? ==>
              r.thrown.value == NotAnArrayOfPredicates(predicates, g.length)
    ensures r.thrown.Some? ==>
              r.thrown.value.NotAnArrayOfPredicates? || r.thrown.value.NotAPredicate? || r.thrown.value.HandlerNotAFunction?
    ensures (r.thrown.Some? && r.thrown.value.NotAPredicate?) <==>
              && predicates.Array? && |predicates.items| == g.length
              && exists j :: 0 <= j < |predicates.items| && !IsFunction(predicates.items[j])
    ensures r.thrown.Some? && r.thrown.value.NotAPredicate? ==>
              && predicates.Array? && |predicates.items| == g.length
              && r.thrown.value.pos < |predicates.items|
              && r.thrown.value.found == predicates.items[r.thrown.value.pos]
              && !IsFunction(r.thrown.value.found)
              && forall j :: 0 <= j < r.thrown.value.pos ==> IsFunction(predicates.items[j])
    ensures (r.thrown.Some? && r.thrown.value.HandlerNotAFunction?) <==>
              && predicates.Array? && |predicates.items| == g.length
              && (forall j :: 0 <= j < |predicates.items| ==> IsFunction(predicates.items[j]))
              && !IsFunction(handler)
    ensures r.thrown.Some? && r.thrown.value.HandlerNotAFunction? ==>
              r.thrown.value == HandlerNotAFunction(handler)
  {
    if !predicates.Array? || |predicates.items| != g.length then
      Registration(g, Some(NotAnArrayOfPredicates(predicates, g.length)))
    else match FirstNonFunction(predicates.items)
      case Some(pos) => Registration(g, Some(NotAPredicate(predicates.items[pos], pos)))
      case None =>
        if !IsFunction(handler) then Registration(g, Some(HandlerNotAFunction(handler)))
        else Registration(g.(dispatcher := Dispatch.SetHandler(g.dispatcher, predicates.items, handler)), None)
  }

  /** The arguments a call dispatches on: the first `length` of them
      (`args.slice(0, length)`). */
  function DispatchKey(g: GenericFunction, args: seq<Value>): (key: seq<Value>)
    ensures key <= args
    ensures |key| == if |args| < g.length then |args| else g.length
  {
    if |args| < g.length then args else args[..g.length]
  }

  /** What a call falls back to when no registered handler matches: the
      default handler if it is truthy, otherwise a `NoMatchingError`. */
  function Fallback(g: GenericFunction, args: seq<Value>): (r: Result<Invocation, NoMatchingError>)
    ensures r.Success? <==> Truthy(g.defaultHandler)
    ensures r.Success? ==> r.value == Invocation(g.defaultHandler, args)
    ensures r.Failure? ==> r.error == NoMatchingError(g, args)
  {
    if Truthy(g.defaultHandler) then Success(Invocation(g.defaultHandler, args))
    else Failure(NoMatchingError(g, args))
  }

  /** Calling the generic function: the handler registered for the first
      `length` arguments, else the default handler, else the throwing handler,
      invoked with all the arguments. */
  function Call(g: GenericFunction, args: seq<Value>, accepts: (Value, Value) -> bool)
    : (r: Result<Invocation, NoMatchingError>)
    ensures r.Success? ==> r.value.args == args
    ensures r.Failure? ==> r.error == NoMatchingError(g, args)
    ensures r.Failure? ==> !Truthy(g.defaultHandler)
    ensures Truthy(g.defaultHandler) ==> r.Success?
    ensures r.Success? ==> Truthy(r.value.handler)
  {
    var found := Dispatch.GetHandler(g.dispatcher, DispatchKey(g, args), accepts);
    if found.Some? && Truthy(found.value) then Success(Invocation(found.value, args))
    else Fallback(g, args)
  }
}
