/** A model of knatten::optional<T>: a wrapper around std::optional<T> that
    adds the combinators transform (map), transform_opt (flattening bind) and
    execute (call for a side effect only).

    The C++ class offers transform and transform_opt with the qualifiers &,
    const& and && (a const rvalue takes the const& one), and execute, value
    and operator* with &, const&, && and const&&. The overloads compute the
    same result; they differ in what happens to the source object. The value
    functions of Optional give that result for the whole overload set. The
    class OptionalVar gives the & overloads, whose operation may write into
    the held value through a modifiable reference. */
module OptionalExt {

  /** What the checked observer value() produces: the held value, or the
      std::bad_optional_access that std::optional::value throws when nothing
      is held. */
  datatype Access<T> = Ok(value: T) | BadOptionalAccess

  /** knatten::optional<T>. Its only state is the wrapped std::optional<T>,
      which holds either nothing or exactly one value. */
  datatype Optional<T> = Empty | Holding(held: T) {

    /** has_value(): true exactly when the optional is not the empty one. */
    function HasValue(): (b: bool)
      ensures b <==> this != Empty
    {
      Holding?
    }

    /** value(): the held value, or a bad_optional_access error when empty.
        The error is returned and never replaced by a default. */
    function Value(): (r: Access<T>)
      ensures r.BadOptionalAccess? <==> !HasValue()
      ensures r.Ok? ==> this == Holding(r.value)
    {
      if HasValue() then Ok(held) else BadOptionalAccess
    }

    /** operator*: the held value, with no check; calling it on an empty
        optional is undefined behaviour, so it is a precondition here. */
    function Deref(): (v: T)
      requires HasValue()
      ensures this == Holding(v)
    {
      held
    }

    /** transform(op): the functor map. The result holds a value exactly when
        this one does, and then it holds op applied to the held value. */
    function Transform<U>(op: T -> U): (r: Optional<U>)
      ensures r.HasValue() <==> HasValue()
      ensures HasValue() ==> r.Deref() == op(Deref())
    {
      if HasValue() then Holding(op(held)) else Empty
    }

    /** transform_opt(op): op itself returns an optional, and that optional
        is the result as it is, with no second layer of wrapping. An empty
        optional gives an empty result of op's return type. */
    function TransformOpt<U>(op: T -> Optional<U>): (r: Optional<U>)
      ensures !HasValue() ==> r == Empty
      ensures HasValue() ==> r == op(Deref())
      // The two clauses above, spelled out: no re-wrapping means a value in
      // the result comes only from a value that op returned.
      ensures r.HasValue() ==> HasValue() && op(Deref()).HasValue()
    {
      if HasValue() then op(held) else Empty
    }
  }

  /** The default constructor: an optional that holds nothing. */
  function Default<T>(): (o: Optional<T>)
    ensures !o.HasValue()
    ensures o.Value() == BadOptionalAccess
  {
    Empty
  }

  /** The converting constructor optional(T val): holds exactly val. */
  function Make<T>(val: T): (o: Optional<T>)
    ensures o.HasValue() && o.Deref() == val
    ensures o.Value() == Ok(val)
  {
    Holding(val)
  }

  /** A callable handed to a combinator. Its result for an argument v is
      f(v). The overloads for a non-const object pass the held value by
      modifiable reference, so an operation may also write into it: update(v)
      is what it leaves behind there (the identity for an operation that takes
      its argument by value or by const reference). Every invocation appends
      its argument to calls, which is how the model observes whether, how
      often and with what the combinators call it. */
  class Operation<T(!new), U> {
    const f: T -> U
    const update: T -> T
    var calls: seq<T>

    /** An operation that takes its argument by value or by const reference. */
    constructor (f: T -> U)
      ensures this.f == f && ReadOnly() && calls == []
    {
      this.f := f;
      this.update := x => x;
      calls := [];
    }

    /** An operation that takes its argument by modifiable reference and
        leaves update(v) in it. */
    constructor Writing(f: T -> U, update: T -> T)
      ensures this.f == f && this.update == update && calls == []
    {
      this.f := f;
      this.update := update;
      calls := [];
    }

    /** The operation never changes the value it is given. */
    ghost predicate ReadOnly() {
      forall x :: update(x) == x
    }

    /** One invocation op(v): u is what it returns and w what it leaves in
        the referenced value. */
    method Apply(v: T) returns (u: U, w: T)
      modifies this
      ensures u == f(v) && w == update(v)
      ensures calls == old(calls) + [v]
    {
      u, w := f(v), update(v);
      calls := calls + [v];
    }
  }

  /** A named, non-const knatten::optional<T> object: the receiver of the
      overloads qualified with &. Through the reference those overloads hand
      to op, and through the references value() and operator* return, the
      held value can change in place; contents is the object's value. */
  class OptionalVar<T(!new)> {
    var contents: Optional<T>

    /** Declaring the object with an initial value. */
    constructor (initial: Optional<T>)
      ensures contents == initial
    {
      contents := initial;
    }

    /** transform(op) on the object: the result is the one Transform
        describes; op is called once, with the held value, when there is one,
        and never otherwise; the held value becomes what op left in it, so a
        read-only op leaves the object as it was. */
    method Transform<U>(op: Operation<T, U>) returns (r: Optional<U>)
      modifies this, op
      ensures r == old(contents).Transform(op.f)
      ensures contents == old(contents).Transform(op.update)
      ensures op.ReadOnly() ==> contents == old(contents)
      ensures op.calls == old(op.calls) + (if old(contents).HasValue() then [old(contents).held] else [])
    {
      if contents.HasValue() {
        var u, w := op.Apply(contents.held);
        contents := Holding(w);
        r := Holding(u);
      } else {
        r := Empty;
      }
    }

    /** transform_opt(op) on the object, with the same calls and the same
        effect on the object as Transform. */
    method TransformOpt<U>(op: Operation<T, Optional<U>>) returns (r: Optional<U>)
      modifies this, op
      ensures r == old(contents).TransformOpt(op.f)
      ensures contents == old(contents).Transform(op.update)
      ensures op.ReadOnly() ==> contents == old(contents)
      ensures op.calls == old(op.calls) + (if old(contents).HasValue() then [old(contents).held] else [])
    {
      if contents.HasValue() {
        var u, w := op.Apply(contents.held);
        contents := Holding(w);
        r := u;
      } else {
        r := Empty;
      }
    }

    /** execute(op): op is called only for its side effect, exactly once with
        the held value when there is one, and not at all when empty. Whatever
        op returns is discarded; what it wrote into the held value stays. */
    method Execute<U>(op: Operation<T, U>)
      modifies this, op
      ensures contents == old(contents).Transform(op.update)
      ensures op.ReadOnly() ==> contents == old(contents)
      ensures op.calls == old(op.calls) + (if old(contents).HasValue() then [old(contents).held] else [])
    {
      if contents.HasValue() {
        var discarded, w := op.Apply(contents.held);
        contents := Holding(w);
      }
    }

    /** o.value() = x: value() throws bad_optional_access on an empty object,
        and nothing changes; otherwise x is written through the reference it
        returns and the object holds x. */
    method AssignThroughValue(x: T) returns (r: Access<T>)
      modifies this
      ensures r.BadOptionalAccess? <==> !old(contents).HasValue()
      ensures r.Ok? ==> r.value == x
      ensures contents == if old(contents).HasValue() then Make(x) else old(contents)
    {
      if contents.HasValue() {
        contents := Holding(x);
        r := Ok(x);
      } else {
        r := BadOptionalAccess;
      }
    }

    /** *o = x: operator* does no check, so the object must hold a value;
        x is written into it. */
    method AssignThroughDeref(x: T)
      requires contents.HasValue()
      modifies this
      ensures contents == Make(x)
    {
      contents := Holding(x);
    }
  }

  // ---------------------------------------------------------------------
  // Laws of the combinators

  /** transform with the identity operation changes nothing. */
  lemma TransformIdentity<T>(o: Optional<T>)
    ensures o.Transform(x => x) == o
  {
  }

  /** Two transforms in a row equal one transform by the composed operation. */
  lemma TransformFusion<T, U, V>(o: Optional<T>, f: T -> U, g: U -> V)
    ensures o.Transform(f).Transform(g) == o.Transform(x => g(f(x)))
  {
  }

  /** transform is transform_opt with an operation that always wraps. */
  lemma TransformIsWrappingTransformOpt<T, U>(o: Optional<T>, f: T -> U)
    ensures o.Transform(f) == o.TransformOpt(x => Holding(f(x)))
  {
  }

  /** transform_opt on a freshly constructed optional is the operation itself. */
  lemma TransformOptLeftIdentity<T, U>(v: T, f: T -> Optional<U>)
    ensures Make(v).TransformOpt(f) == f(v)
  {
  }

  /** transform_opt with the wrapping constructor gives back the optional. */
  lemma TransformOptRightIdentity<T>(o: Optional<T>)
    ensures o.TransformOpt(x => Make(x)) == o
  {
  }

  /** Two transform_opt steps flatten the same way in either grouping. */
  lemma TransformOptAssociative<T, U, V>(o: Optional<T>, f: T -> Optional<U>, g: U -> Optional<V>)
    ensures o.TransformOpt(f).TransformOpt(g) == o.TransformOpt(x => f(x).TransformOpt(g))
  {
  }

  /** transform_opt followed by transform holds a value exactly when the
      source holds v and the first operation returned a value w, and then it
      holds g(w); in every other case it is empty. */
  lemma TransformOptThenTransform<T, U, V>(o: Optional<T>, f: T -> Optional<U>, g: U -> V)
    ensures o.TransformOpt(f).Transform(g).HasValue()
        <==> o.HasValue() && f(o.Deref()).HasValue()
    ensures o.TransformOpt(f).Transform(g).HasValue()
        ==> o.TransformOpt(f).Transform(g).Deref() == g(f(o.Deref()).Deref())
  {
  }

  // ---------------------------------------------------------------------
  // Chains of combinators, as in o.transform(f1).transform(f2)...

  /** The optional obtained by applying transform with each step in turn.
      However long the chain, it holds a value exactly when the start does. */
  function TransformChain<T>(o: Optional<T>, steps: seq<T -> T>): (r: Optional<T>)
    ensures r.HasValue() <==> o.HasValue()
    decreases |steps|
  {
    if steps == [] then o else TransformChain(o.Transform(steps[0]), steps[1..])
  }

  /** The steps composed into one function, first step applied first. */
  function ApplyAll<T>(steps: seq<T -> T>, x: T): T
    decreases |steps|
  {
    if steps == [] then x else ApplyAll(steps[1..], steps[0](x))
  }

  /** A chain of transforms equals a single transform by the composition of
      its steps. */
  lemma {:induction false} TransformChainFusion<T>(o: Optional<T>, steps: seq<T -> T>)
    ensures TransformChain(o, steps) == o.Transform(x => ApplyAll(steps, x))
    decreases |steps|
  {
    if steps != [] {
      var f, rest := steps[0], steps[1..];
      TransformChainFusion(o.Transform(f), rest);
      TransformFusion(o, f, x => ApplyAll(rest, x));
    }
  }

  /** The optional obtained by applying transform_opt with each step in turn.
      An empty start gives an empty end: no step turns nothing into a value. */
  function TransformOptChain<T>(o: Optional<T>, steps: seq<T -> Optional<T>>): (r: Optional<T>)
    ensures !o.HasValue() ==> r == Empty
    decreases |steps|
  {
    if steps == [] then o else TransformOptChain(o.TransformOpt(steps[0]), steps[1..])
  }

  /** Each step turned into one that wraps its result. */
  function Wrapping<T(!new)>(steps: seq<T -> T>): (w: seq<T -> Optional<T>>)
    ensures |w| == |steps|
    ensures forall i, x :: 0 <= i < |steps| ==> w[i](x) == Make(steps[i](x))
    decreases |steps|
  {
    if steps == [] then [] else [x => Holding(steps[0](x))] + Wrapping(steps[1..])
  }

  /** A chain of transform_opt steps that always wrap is the chain of
      transforms by the unwrapped steps. */
  lemma {:induction false} TransformOptChainOfWrapping<T(!new)>(o: Optional<T>, steps: seq<T -> T>)
    ensures TransformOptChain(o, Wrapping(steps)) == TransformChain(o, steps)
    decreases |steps|
  {
    if steps != [] {
      var w := Wrapping(steps);
      assert w[0] == (x => Holding(steps[0](x))) && w[1..] == Wrapping(steps[1..]);
      TransformIsWrappingTransformOpt(o, steps[0]);
      TransformOptChainOfWrapping(o.Transform(steps[0]), steps[1..]);
    }
  }

  /** If some step of a transform_opt chain yields nothing for the value
      reaching it, the whole chain yields nothing. */
  lemma {:induction false} TransformOptChainStopsAtEmpty<T>(o: Optional<T>, steps: seq<T -> Optional<T>>, k: nat)
    requires k < |steps|
    requires TransformOptChain(o, steps[..k]).HasValue()
    requires !steps[k](TransformOptChain(o, steps[..k]).Deref()).HasValue()
    ensures TransformOptChain(o, steps) == Empty
    decreases k
  {
    if k == 0 {
      assert steps[..0] == [];
      assert o.TransformOpt(steps[0]) == Empty;
      assert TransformOptChain(Empty, steps[1..]) == Empty;
    } else {
      assert steps[..k][0] == steps[0] && steps[..k][1..] == steps[1..][..k - 1];
      TransformOptChainStopsAtEmpty(o.TransformOpt(steps[0]), steps[1..], k - 1);
    }
  }

  /** Conversely, when a transform_opt chain ends with a value, the start held
      a value and every step yielded a value for the value reaching it. With
      TransformOptChainStopsAtEmpty: the chain has a value exactly when every
      step yields one. */
  lemma {:induction false} TransformOptChainYieldsOnlyIfEveryStepYields<T>(o: Optional<T>, steps: seq<T -> Optional<T>>, k: nat)
    requires TransformOptChain(o, steps).HasValue()
    requires k < |steps|
    ensures TransformOptChain(o, steps[..k]).HasValue()
    ensures steps[k](TransformOptChain(o, steps[..k]).Deref()).HasValue()
    decreases k
  {
    if k == 0 {
      assert steps[..0] == [];
      assert TransformOptChain(o, steps) == TransformOptChain(o.TransformOpt(steps[0]), steps[1..]);
    } else {
      assert steps[..k][0] == steps[0] && steps[..k][1..] == steps[1..][..k - 1];
      TransformOptChainYieldsOnlyIfEveryStepYields(o.TransformOpt(steps[0]), steps[1..], k - 1);
    }
  }
}
