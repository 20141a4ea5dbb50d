/** `BeanCounter::Strategy`: the abstract interface every backend fills in,
    and the class-level registry of its subclasses, keyed by identifier. */
module Strategy {
  import opened Wrappers
  import opened Values
  import Text

  /** A Ruby class object: its constant name (nil for an anonymous class),
      the address Ruby prints for an anonymous one, and whether it is
      `BeanCounter::Strategy` or one of its subclasses. */
  datatype RubyClass = RubyClass(name: Option<string>, address: string, isStrategy: bool)

  /** `Class#to_s`: the name, or `#<Class:0x...>` for an anonymous class. */
  function ClassToS(c: RubyClass): string {
    match c.name
    case Some(n) => n
    case None => "#<Class:" + c.address + ">"
  }

  /** `String#[start, len]` for a start inside the string and a non-negative length. */
  function Slice(s: string, start: nat, len: nat): (r: string)
    requires start <= |s|
    ensures |r| <= len && start + |r| <= |s| && r == s[start..start + |r|]
    ensures |r| == len || start + |r| == |s|
  {
    if start + len <= |s| then s[start..start + len] else s[start..]
  }

  /** `subclass.name || subclass.to_s[8, subclass.to_s.length - 9]`: the
      name of a named class; for an anonymous class, what lies between
      `#<Class:` and the closing `>`, which is its address. */
  function IdentifierOf(c: RubyClass): (r: string)
    ensures c.name.Some? ==> r == c.name.value
    ensures c.name.None? ==> r == c.address
  {
    match c.name
    case Some(n) => n
    case None =>
      var s := ClassToS(c);
      assert s[8..|s| - 1] == c.address;
      Slice(s, 8, |s| - 9)
  }

  /** What `known_strategy?` and `materialize_strategy` accept: a class, a
      Symbol or String naming a strategy, or any other object. */
  datatype Identifier =
    | ClassIdent(c: RubyClass)
    | NameIdent(name: string, form: KeyForm)
    | OtherIdent(text: string)

  function IdentToS(id: Identifier): string {
    match id
    case ClassIdent(c) => ClassToS(c)
    case NameIdent(n, _) => n
    case OtherIdent(t) => t
  }

  /** The registry after `@@strategies[identifier.to_sym] = subclass`. */
  function Registered(m: map<string, RubyClass>, c: RubyClass): map<string, RubyClass> {
    m[IdentifierOf(c) := c]
  }

  /** Defining a new subclass adds exactly one identifier, which maps to
      that subclass, and leaves every other entry as it was. */
  lemma InheritedAddsOne(m: map<string, RubyClass>, c: RubyClass)
    requires IdentifierOf(c) !in m
    ensures Registered(m, c).Keys - m.Keys == {IdentifierOf(c)}
    ensures Registered(m, c)[IdentifierOf(c)] == c
    ensures forall id :: id in m ==> id in Registered(m, c) && Registered(m, c)[id] == m[id]
  {
  }

  /** The identifier of an anonymous subclass is its address. */
  lemma AnonymousIdentifier(address: string)
    ensures IdentifierOf(RubyClass(None, address, true)) == address
  {
  }

  /** `@@strategies`, which the `inherited` hook fills in. */
  class Registry {
    var strategies: map<string, RubyClass>

    /** Every entry is a strategy class registered under its own identifier. */
    ghost predicate Valid()
      reads this
    {
      forall id :: id in strategies ==> strategies[id].isStrategy && IdentifierOf(strategies[id]) == id
    }

    constructor()
      ensures strategies == map[] && Valid()
    {
      strategies := map[];
    }

    /** `self.inherited(subclass)`. */
    method Inherited(subclass: RubyClass)
      requires Valid() && subclass.isStrategy
      modifies this
      ensures strategies == Registered(old(strategies), subclass)
      ensures Valid()
    {
      strategies := strategies[IdentifierOf(subclass) := subclass];
    }

    /** `strategies`: a copy of the registry; a Dafny map is a value, so
        changing the copy cannot reach the registry. */
    function Strategies(): (r: map<string, RubyClass>)
      reads this
      ensures Valid() ==> forall n :: n in r ==> r[n].isStrategy && IdentifierOf(r[n]) == n
    {
      strategies
    }

    /** `known_strategy?(identifier)`. */
    predicate KnownStrategy(id: Identifier): (r: bool)
      reads this
      ensures id.OtherIdent? ==> !r
      ensures Valid() && r && id.NameIdent? ==> id.name in Strategies() && Strategies()[id.name].isStrategy
    {
      match id
      case ClassIdent(c) => c.isStrategy
      case NameIdent(n, _) => n in Strategies()
      case OtherIdent(_) => false
    }

    /** `materialize_strategy(identifier)`: a strategy class is returned
        as is, a known name gives its registry entry, and anything else
        raises ArgumentError. */
    function MaterializeStrategy(id: Identifier): (r: Result<RubyClass, RubyError>)
      reads this
      ensures r.Success? <==> KnownStrategy(id)
      ensures r.Failure? ==> r.error.ArgumentError?
      ensures r.Success? && id.ClassIdent? ==> r.value == id.c
      ensures r.Success? && id.NameIdent? ==> r.value == strategies[id.name]
      ensures Valid() && r.Success? ==> r.value.isStrategy
      ensures Valid() && r.Success? && id.NameIdent? ==> IdentifierOf(r.value) == id.name
    {
      if !KnownStrategy(id) then
        Failure(ArgumentError("Could not find " + IdentToS(id) + " among known strategies: "))
      else if id.ClassIdent? then Success(id.c)
      else Success(Strategies()[id.name])
    }

    /** A Symbol and a String with the same text materialize alike. */
    lemma NameFormsAgree(n: string)
      ensures MaterializeStrategy(NameIdent(n, Symbol)) == MaterializeStrategy(NameIdent(n, Text))
    {
    }
  }

  /** The interface methods of the abstract base class. */
  datatype InterfaceOp =
    | CollectNewJobs | DeleteJob | JobMatches | Jobs
    | PrettyPrintJob | PrettyPrintTube | TubeMatches | Tubes

  /** Calling an interface method on the base class itself: every one is
      declared without parameters, so a call with arguments raises
      ArgumentError before the body runs, and a call without any reaches
      the body, which raises NotImplementedError. */
  function BaseCall(op: InterfaceOp, argc: nat): (r: Result<(), RubyError>)
    ensures r.Failure?
    ensures r.error == NotImplementedError <==> argc == 0
    ensures argc > 0 ==> r.error == ArgumentError("wrong number of arguments (given " + Text.NatToDecimal(argc) + ", expected 0)")
  {
    if argc > 0 then Failure(ArgumentError("wrong number of arguments (given " + Text.NatToDecimal(argc) + ", expected 0)"))
    else Failure(NotImplementedError)
  }

  /** How many arguments the rest of the library passes to each interface
      method (`collect_new_jobs` takes a block, which is no argument). */
  function CallerArity(op: InterfaceOp): (r: nat)
  {
    match op
      case CollectNewJobs => 0
      case DeleteJob => 1
      case JobMatches => 2
      case Jobs => 0
      case PrettyPrintJob => 1
      case PrettyPrintTube => 1
      case TubeMatches => 2
      case Tubes => 0
  }

  /** Called as the library calls them, only the parameterless interface
      methods of the base class raise NotImplementedError; the others raise
      ArgumentError instead. */
  lemma BaseCallAsCalled(op: InterfaceOp)
    ensures BaseCall(op, CallerArity(op)) == Failure(NotImplementedError) <==> op in {CollectNewJobs, Jobs, Tubes}
    ensures BaseCall(op, CallerArity(op)).error.ArgumentError? <==> op in {DeleteJob, JobMatches, PrettyPrintJob, PrettyPrintTube, TubeMatches}
  {
  }
}
