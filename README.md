# knatten::optional in Dafny

This project models `knatten::optional<T>`. The class wraps `std::optional<T>`
and adds three combinators to it:

- `transform` maps the held value through an operation and wraps the result.
- `transform_opt` binds: the operation returns an optional itself, and that
  optional is the result without a second layer of wrapping.
- `execute` calls an operation on the held value purely for its side effect.

The observers `has_value`, `value` and `operator*` are modelled too.

The container's value is the datatype `OptionalExt.Optional<T> = Empty |
Holding(held)`. The combinators are functions on it that take arrow-typed
operations. `transform` and `transform_opt` have three reference-qualified
overloads each: `&`, `const&` and `&&`. A const rvalue takes the `const&` one.
`execute`, `value` and `operator*` have four: `&`, `const&`, `&&` and
`const&&`. `has_value` has a single `const` overload. The overloads of one
operation compute the same result. They differ in what may happen to the
source object:

- The `&` overloads hand `op` the held value by modifiable reference.
- The `const&` and `const&&` overloads hand over a const lvalue or rvalue
  reference. Nothing can be moved from it or written through it, so the
  source keeps its value.
- The `&&` overloads hand `op` an rvalue reference. `op` may move from it,
  write through it, or leave it alone, so afterwards the source may hold a
  moved-from value, a written value, or its old value.
- `value() &&` and `operator*() &&` only return an rvalue reference. Whether
  anything moves depends on the caller.

The functions on `Optional` give the result for the whole overload set.

`value()` throws `std::bad_optional_access` on an empty optional. It is
modelled as `Value()`, which returns `Access<T>`: either `Ok(v)` or
`BadOptionalAccess`. `operator*` does no check, and calling it on an empty
optional is undefined behaviour. It is modelled as `Deref()`, which has the
precondition `HasValue()`.

An operation passed to a combinator is an `OptionalExt.Operation<T, U>`
object. It has three parts:

- `f` gives its result for an argument.
- `update` gives what it leaves in the argument when it takes a modifiable
  reference. For an operation that takes its argument by value or by const
  reference, `update` is the identity (`ReadOnly()`).
- `calls` logs the arguments it was called with.

A named, non-const optional object is the class `OptionalExt.OptionalVar<T>`.
Its field `contents` holds the object's value. Its methods `Transform`,
`TransformOpt` and `Execute` are the `&` overloads. With a read-only
`Operation`, they also give what the `const&` and `&&` overloads return, and
how often and with what those call `op`.
`OptionalExtTest.TransformWithRvalue` relies on this for
`std::move(o).transform(...)`. The methods state:

- They return the result the pure functions describe.
- Afterwards the object holds what `op` left in the held value, and it is
  unchanged when `op` is read-only.
- `op` is called once with the held value, or never when the object is empty.

`AssignThroughValue` and `AssignThroughDeref` model writing through the
references `value() &` and `operator*() &` return.

Chains of transforms, as in `o.transform(f).transform(g).transform(h)`, are
`TransformChain`. Chains of `transform_opt` steps are `TransformOptChain`. Both
are stated over sequences of steps, and lemmas relate each chain to a single
combinator call.

The module `OptionalExtTest` restates the scenarios from
`optional_ext_test.cpp` and the combined demo from `demo.cpp` as facts about
the model. It adds four scenarios of its own:

- `TransformOptDoubling` for `transform_opt`.
- `ExecuteCalls` and `ExecuteIncrements` for `execute`.
- `AssignThroughValueWrites` for assignment through `value()`.

## Model

| member | source | states |
|---|---|---|
| `OptionalExt.Optional.HasValue` | optional_ext.h:94 | true exactly when the optional is not the empty one |
| `OptionalExt.Optional.Value` | optional_ext.h:96-99 | gives bad_optional_access exactly when empty; otherwise it gives the held value |
| `OptionalExt.Optional.Deref` | optional_ext.h:101-104 | requires a held value (the unchecked operator*), and gives exactly that value |
| `OptionalExt.Default` | optional_ext.h:8 | a default-constructed optional holds nothing, and value() on it fails |
| `OptionalExt.Make` | optional_ext.h:11 | an optional constructed from val has a value, that value is val, and value() returns it |
| `OptionalExt.Optional.Transform` | optional_ext.h:15-38 | the result has a value iff the source has one, and then it holds op applied to the held value |
| `OptionalExt.Optional.TransformOpt` | optional_ext.h:40-63 | empty source gives empty; otherwise the result is op(v) itself, not re-wrapped, so it is empty when op(v) is empty |
| `OptionalExt.OptionalVar.Transform` | optional_ext.h:15-21 | returns what Transform describes; op is called once with the held value v, or never when empty; the object then holds what op left in v, and it is unchanged for a read-only op |
| `OptionalExt.OptionalVar.TransformOpt` | optional_ext.h:40-46 | returns what TransformOpt describes; op is called once with v, or never when empty; the object then holds what op left in v, and it is unchanged for a read-only op |
| `OptionalExt.OptionalVar.Execute` | optional_ext.h:65-70 | op is called exactly once with the held value, or never when empty; its result is discarded, and the object then holds what op wrote into the value |
| `OptionalExt.OptionalVar.AssignThroughValue` | optional_ext.h:97 | o.value() = x fails with bad_optional_access and changes nothing when empty; otherwise the object then holds x |
| `OptionalExt.OptionalVar.AssignThroughDeref` | optional_ext.h:102 | *o = x requires a held value, and the object then holds x |
| `OptionalExt.Operation.Apply` | optional_ext.h:68 | one call op(v): it returns f(v), leaves update(v) in the referenced value, and appends v to the call log |
| `OptionalExt.TransformIdentity` | optional_ext.h:15-21 | transform with the identity operation returns an equal optional |
| `OptionalExt.TransformFusion` | optional_ext.h:15-21 | transform(f).transform(g) equals transform(g after f) |
| `OptionalExt.TransformIsWrappingTransformOpt` | optional_ext.h:15-46 | transform(f) equals transform_opt with an operation that wraps f's result |
| `OptionalExt.TransformOptLeftIdentity` | optional_ext.h:40-46 | transform_opt on an optional constructed from v returns exactly f(v) |
| `OptionalExt.TransformOptRightIdentity` | optional_ext.h:40-46 | transform_opt with the wrapping constructor returns an equal optional |
| `OptionalExt.TransformOptAssociative` | optional_ext.h:40-46 | two transform_opt steps give the same result in either grouping |
| `OptionalExt.TransformOptThenTransform` | optional_ext.h:15-46 | transform_opt(f).transform(g) has a value iff the source holds v and f(v) holds w, and then it holds g(w) |
| `OptionalExt.TransformChain` | optional_ext.h:15-21 | a chain of any number of transforms has a value exactly when its start does |
| `OptionalExt.TransformChainFusion` | optional_ext.h:15-21 | a chain of transforms equals one transform by the composition of its steps |
| `OptionalExt.TransformOptChain` | optional_ext.h:40-46 | a chain of transform_opt steps that starts empty ends empty, however long it is |
| `OptionalExt.TransformOptChainOfWrapping` | optional_ext.h:15-46 | a transform_opt chain whose steps always wrap equals the transform chain of the unwrapped steps |
| `OptionalExt.TransformOptChainStopsAtEmpty` | optional_ext.h:40-46 | when one step of a transform_opt chain yields nothing, the whole chain yields nothing |
| `OptionalExt.TransformOptChainYieldsOnlyIfEveryStepYields` | optional_ext.h:40-46 | when a transform_opt chain ends with a value, every step yielded a value for the value that reached it |
| `OptionalExtTest.TransformWithLvalue` | optional_ext_test.cpp:4-10 | transforming an object holding 2 by v*2 gives 4, and then by v*3 gives 6; the object still holds 2, because neither operation writes |
| `OptionalExtTest.TransformWithoutValue` | optional_ext_test.cpp:18-22 | transforming an empty optional gives an empty optional, and the operation is never called |
| `OptionalExtTest.TransformWithRvalue` | optional_ext_test.cpp:24-32 | transforming optional(3) by doubling gives 6, and the operation is called once, with 3 |
| `OptionalExtTest.Demo` | optional_ext_test.cpp:42-48 | optional(2) transformed by v*2, then v+1, then v*4 holds 20, both as three calls and as a chain |
| `OptionalExtTest.TransformOptDoubling` | optional_ext.h:40-46 | transform_opt with a doubling, wrapping operation gives 6 from 3; on empty it gives empty, and the operation is called only once, with 3 |
| `OptionalExtTest.ExecuteCalls` | optional_ext.h:65-70 | execute on an object holding 7 and then on an empty one calls the operation exactly once, with 7 |
| `OptionalExtTest.ExecuteIncrements` | optional_ext.h:66-70 | execute with an operation that increments its reference argument leaves the object holding 4 instead of 3 |
| `OptionalExtTest.AssignThroughValueWrites` | optional_ext.h:97 | assigning 5 through value() makes an object holding 2 hold 5; on an empty object it fails and the object stays empty |
| `OptionalExtTest.CombinedDemo` | demo.cpp:58-77 | find_first then transform_opt(tweet_replied_to) then transform(lookup_author) gives the author "@knatten", the same as the explicit has_value checks |

## Left out

- `OptionalExt.Optional.TransformOpt`: accepts only operations that return an optional (`T -> Optional<U>`). The template accepts any operation; on an empty optional it returns the value-initialised default of `op`'s return type (optional_ext.h:42-45). For an operation returning `int`, that is 0. The model covers only the intended use, where the operation returns an optional, as in demo.cpp:38.
- `OptionalExt.Optional.Value`, `OptionalExt.Optional.Deref`: return the held value, not a reference to it. Writing through the reference that the `&` overloads return is modelled separately, by `OptionalVar.AssignThroughValue` and `OptionalVar.AssignThroughDeref`. A reference kept and used later is not modelled.
- Compile-time overload resolution on reference qualifiers is not modelled. The `&` overloads accept operations that take `T&`, and `OptionalVar` models their writes. The `const&` overloads reject such operations at compile time; the model has no types to reject them with. The commented-out lambda in optional_ext_test.cpp:12-16 returns `void`, so what rejects it is the resulting `optional<void>`, not the `int&` parameter.
- What the `&&` overloads leave in the source object is not modelled. `transform`, `transform_opt` and `execute` with `&&` (optional_ext.h:33-38, 57-63, 79-84) hand `op` an rvalue reference, and `op` may move from it, write through it, or leave it alone. `value() &&` and `operator*() &&` (optional_ext.h:98, 104) return an rvalue reference, and any move is up to the caller. The model gives the result of these overloads, and how they call `op`, only through the functions on `Optional` and through `OptionalVar`'s methods with a read-only `Operation`. The `const&&` overloads (optional_ext.h:86-91, 99, 103) cannot move, so their source keeps its value, as the model has it.
- The copy and move constructors (optional_ext.h:9-10) are not separate members. Dafny datatypes are values, so a copy is the same value.
- `operator->` (optional_ext.h:106-107) is left out. It returns a raw pointer into the container, and this model has no addresses.
- `constexpr`, `noexcept` and the internals of `std::optional` are left out.
- The classes in `supporting_types.h` only delete constructors. They have no behaviour to model.
- Operations are deterministic: both the result and what is left in the referenced value are functions of the argument alone (`f` and `update`). An operation that throws, or that depends on state outside its argument, is not modelled. Only the operation's effect on its argument is modelled; other side effects are stood for by the call log.
- Chains are stated over sequences of same-typed steps (`T -> T`), as in the chained test. A chain whose steps change the type is covered step by step by `TransformFusion`, `TransformOptAssociative` and `TransformOptThenTransform`.
- The demo's stubs (`find_first`, `lookup_author`, `tweet_replied_to`, demo.cpp:79-89) appear only as the functions of `CombinedDemo`. The test framework itself is not modelled.
