/** The scenarios of the library's test cases and of its demo, stated as
    facts about the model in OptionalExt. */
module OptionalExtTest {
  import opened OptionalExt

  /** Transforming the same object twice: it still holds 2 the second time,
      because neither operation writes into the value it is given. */
  method TransformWithLvalue() returns (p: Optional<int>, p2: Optional<int>, after: Optional<int>)
    ensures p.Value() == Ok(4) && p2.Value() == Ok(6)
    ensures after == Make(2)
  {
    var o := new OptionalVar(Make(2));
    var byValue := new Operation(v => v * 2);
    p := o.Transform(byValue);
    var byConstRef := new Operation(v => v * 3);
    p2 := o.Transform(byConstRef);
    after := o.contents;
  }

  /** Transforming an empty optional gives an empty one and never calls the
      operation. */
  method TransformWithoutValue() returns (p: Optional<int>, calls: seq<int>)
    ensures !p.HasValue()
    ensures calls == []
  {
    var op := new Operation(v => v * 2);
    var o := new OptionalVar(Default());
    p := o.Transform(op);
    calls := op.calls;
  }

  /** std::move(o).transform(op) on an optional holding 3, with an operation
      that doubles what it moves out of its argument: the result holds 6, and
      the operation is called once, with 3. The rvalue overload gives the
      same result and makes the same calls as the object's Transform with a
      read-only operation; what is left in o afterwards is not modelled. */
  method TransformWithRvalue() returns (p: Optional<int>, calls: seq<int>)
    ensures p.Value() == Ok(6)
    ensures calls == [3]
  {
    var op := new Operation(v => v * 2);
    var o := new OptionalVar(Make(3));
    p := o.Transform(op);
    calls := op.calls;
  }

  /** The chained demo: 2, doubled, plus one, times four, is 20, written
      both as three transforms and as a chain of three steps. */
  lemma Demo()
    ensures Make(2).Transform(v => v * 2).Transform(v => v + 1).Transform(v => v * 4) == Make(20)
    ensures TransformChain(Make(2), [v => v * 2, v => v + 1, v => v * 4]) == Make(20)
  {
  }

  /** transform_opt with an operation that doubles and wraps: 3 gives 6, and
      the empty optional gives an empty one without calling the operation. */
  method TransformOptDoubling() returns (p: Optional<int>, q: Optional<int>, calls: seq<int>)
    ensures p.Value() == Ok(6)
    ensures !q.HasValue()
    ensures calls == [3]
  {
    var op := new Operation((v: int) => Make(v * 2));
    var three := new OptionalVar(Make(3));
    p := three.TransformOpt(op);
    var none := new OptionalVar(Default<int>());
    q := none.TransformOpt(op);
    calls := op.calls;
  }

  /** execute calls its operation once with the held value, and not at all
      on an empty optional. */
  method ExecuteCalls() returns (calls: seq<int>)
    ensures calls == [7]
  {
    var op := new Operation((v: int) => v);
    var seven := new OptionalVar(Make(7));
    seven.Execute(op);
    var none := new OptionalVar(Default<int>());
    none.Execute(op);
    calls := op.calls;
  }

  /** execute with an operation that increments the value it is given by
      reference: the object holding 3 then holds 4. */
  method ExecuteIncrements() returns (after: Optional<int>, calls: seq<int>)
    ensures after == Make(4)
    ensures calls == [3]
  {
    var increment := new Operation.Writing((v: int) => (), (v: int) => v + 1);
    var o := new OptionalVar(Make(3));
    o.Execute(increment);
    after := o.contents;
    calls := increment.calls;
  }

  /** Assigning 5 through value(): the object holding 2 then holds 5; on an
      empty object value() fails and the object stays empty. */
  method AssignThroughValueWrites() returns (after: Optional<int>, failed: Access<int>, stillEmpty: Optional<int>)
    ensures after == Make(5)
    ensures failed == BadOptionalAccess && stillEmpty == Empty
  {
    var o := new OptionalVar(Make(2));
    var ok := o.AssignThroughValue(5);
    after := o.contents;
    var none := new OptionalVar(Default<int>());
    failed := none.AssignThroughValue(5);
    stillEmpty := none.contents;
  }

  /** The types of the demo: a tweet carries nothing, an author a name. */
  datatype Tweet = Tweet
  datatype Author = Author(name: string)

  /** The demo's stubs: a search that finds a tweet, the tweet it replies
      to, and the author of a tweet. */
  function FindFirst(search: string): Optional<Tweet> { Make(Tweet) }
  function TweetRepliedTo(t: Tweet): Optional<Tweet> { Make(Tweet) }
  function LookupAuthor(t: Tweet): Author { Author("@knatten") }

  /** The combined demo: the chain transform_opt then transform gives the same
      author as the explicit has_value checks, and that author is "@knatten". */
  lemma CombinedDemo()
    ensures FindFirst("foo").TransformOpt(TweetRepliedTo).Transform(LookupAuthor)
         == Make(Author("@knatten"))
    ensures
      var foo := FindFirst("foo");
      var repliedTo := if foo.HasValue() then TweetRepliedTo(foo.Deref()) else Default();
      var origAuthor := if repliedTo.HasValue() then Make(LookupAuthor(repliedTo.Deref())) else Default();
      origAuthor == FindFirst("foo").TransformOpt(TweetRepliedTo).Transform(LookupAuthor)
  {
  }
}
