/** The pair-collecting loop of the dataset generator
    (`QAGenerator.generate_qa_pairs`). For each text chunk, in order, the LLM
    is asked twice (a "simple" and a "complex" prompt) and each completion is
    parsed; the parsed pairs are appended, simple before complex. The LLM is
    not modelled: what each call returns is an input, and a call may fail. A
    failed call raises, which abandons the whole batch: no pairs are
    returned, only the failure.

    The functions describing a batch take the completion parser as a
    parameter: what they state about order, concatenation and failures holds
    whatever the parser does. The loop itself uses `ParseQAOutput`, so its
    result is the batch function applied to `ParseOutput`. */
module QAGenerator {
  import opened QAParser

  /** What one LLM call gives back: a completion, or the failure it raised. */
  datatype LlmReply = Reply(text: string) | CallFailed(reason: string)

  /** The two calls made for one chunk. */
  datatype ChunkReplies = ChunkReplies(simple: LlmReply, complex: LlmReply)

  datatype Result<T> = Ok(value: T) | Err(reason: string)

  /** The outcome of two steps in a row: the first failure, or both results
      one after the other. */
  function Then(first: Result<seq<QAPair>>, second: Result<seq<QAPair>>): Result<seq<QAPair>>
  {
    if first.Err? then first
    else if second.Err? then second
    else Ok(first.value + second.value)
  }

  /** The pairs parsed from one call's completion, or the call's failure. */
  function Parsed(parse: string -> seq<QAPair>, reply: LlmReply): Result<seq<QAPair>>
  {
    match reply
    case Reply(t) => Ok(parse(t))
    case CallFailed(e) => Err(e)
  }

  /** What one chunk adds to the dataset: the simple call is made first. */
  function ChunkPairs(parse: string -> seq<QAPair>, c: ChunkReplies): Result<seq<QAPair>>
  {
    Then(Parsed(parse, c.simple), Parsed(parse, c.complex))
  }

  /** The result of the loop over the chunks, one chunk at a time. */
  function Generate(parse: string -> seq<QAPair>, replies: seq<ChunkReplies>): Result<seq<QAPair>>
    decreases |replies|
  {
    if replies == [] then Ok([])
    else Then(Generate(parse, replies[..|replies| - 1]), ChunkPairs(parse, replies[|replies| - 1]))
  }

  /** Steps compose associatively, with `Ok([])` doing nothing. */
  lemma ThenAssociative(x: Result<seq<QAPair>>, y: Result<seq<QAPair>>, z: Result<seq<QAPair>>)
    ensures Then(Then(x, y), z) == Then(x, Then(y, z))
    ensures Then(Ok([]), x) == x && Then(x, Ok([])) == x
  {
    if x.Ok? && y.Ok? && z.Ok? {
      assert (x.value + y.value) + z.value == x.value + (y.value + z.value);
    }
    if x.Ok? {
      assert [] + x.value == x.value && x.value + [] == x.value;
    }
  }

  /** Once a chunk has failed, the chunks after it make no difference. */
  lemma {:induction false} FailureAbortsBatch(parse: string -> seq<QAPair>, replies: seq<ChunkReplies>, n: nat)
    requires n <= |replies| && Generate(parse, replies[..n]).Err?
    ensures Generate(parse, replies) == Generate(parse, replies[..n])
    decreases |replies|
  {
    if n < |replies| {
      var init := replies[..|replies| - 1];
      assert init[..n] == replies[..n];
      FailureAbortsBatch(parse, init, n);
    } else {
      assert replies[..n] == replies;
    }
  }

  /** One call and the `extend` after it: the call's completion is parsed
      and its pairs appended; a failed call raises instead. */
  method ExtendWithReply(qaPairs: seq<QAPair>, reply: LlmReply) returns (r: Result<seq<QAPair>>)
    ensures r == Then(Ok(qaPairs), Parsed(ParseOutput, reply))
  {
    match reply {
      case CallFailed(e) =>
        r := Err(e);
      case Reply(result) =>
        var parsed := ParseQAOutput(result);
        r := Ok(qaPairs + parsed);
    }
  }

  /** `generate_qa_pairs`: the calls are made in chunk order, simple before
      complex, and the parsed pairs are appended as they come in. */
  method GenerateQAPairs(replies: seq<ChunkReplies>) returns (r: Result<seq<QAPair>>)
    ensures r == Generate(ParseOutput, replies)
  {
    var qaPairs: seq<QAPair> := [];
    for k := 0 to |replies|
      invariant Generate(ParseOutput, replies[..k]) == Ok(qaPairs)
    {
      assert replies[..k + 1][..k] == replies[..k];
      var chunk := replies[k];
      ThenAssociative(Ok(qaPairs), Parsed(ParseOutput, chunk.simple), Parsed(ParseOutput, chunk.complex));
      var afterSimple := ExtendWithReply(qaPairs, chunk.simple);
      if afterSimple.Err? {
        FailureAbortsBatch(ParseOutput, replies, k + 1);
        return afterSimple;
      }
      var afterComplex := ExtendWithReply(afterSimple.value, chunk.complex);
      if afterComplex.Err? {
        FailureAbortsBatch(ParseOutput, replies, k + 1);
        return afterComplex;
      }
      qaPairs := afterComplex.value;
    }
    assert replies[..|replies|] == replies;
    return Ok(qaPairs);
  }

  // ---------------------------------------------------------------------------
  // The batch seen as the sequence of LLM calls it makes.

  /** Every call of every chunk returned a completion. */
  predicate AllReplied(replies: seq<ChunkReplies>)
  {
    forall k :: 0 <= k < |replies| ==> replies[k].simple.Reply? && replies[k].complex.Reply?
  }

  /** A reference for a batch without failures: the parsed simple and then
      complex completion of the first chunk, then those of the rest. */
  function AllPairs(parse: string -> seq<QAPair>, replies: seq<ChunkReplies>): seq<QAPair>
    requires AllReplied(replies)
    decreases |replies|
  {
    if replies == [] then []
    else
      parse(replies[0].simple.text) + parse(replies[0].complex.text)
      + AllPairs(parse, replies[1..])
  }

  lemma {:induction false} AllPairsSnoc(parse: string -> seq<QAPair>, replies: seq<ChunkReplies>, c: ChunkReplies)
    requires AllReplied(replies) && c.simple.Reply? && c.complex.Reply?
    ensures AllReplied(replies + [c])
    ensures AllPairs(parse, replies + [c])
            == AllPairs(parse, replies) + (parse(c.simple.text) + parse(c.complex.text))
    decreases |replies|
  {
    assert forall k :: 0 <= k < |replies| ==> replies[k] == (replies + [c])[k];
    var last := parse(c.simple.text) + parse(c.complex.text);
    if replies == [] {
      assert [c][1..] == [];
      assert last + [] == last;
    } else {
      var first := parse(replies[0].simple.text) + parse(replies[0].complex.text);
      assert (replies + [c])[1..] == replies[1..] + [c];
      assert (replies + [c])[0] == replies[0];
      assert AllReplied(replies[1..]) by {
        assert forall k :: 0 <= k < |replies[1..]| ==> replies[1..][k] == replies[k + 1];
      }
      AllPairsSnoc(parse, replies[1..], c);
      var rest := AllPairs(parse, replies[1..]);
      assert first + (rest + last) == (first + rest) + last;
    }
  }

  /** The batch succeeds exactly when every call returns a completion, and
      then it yields, chunk by chunk, the simple pairs followed by the complex
      ones. */
  lemma {:induction false} GenerateWithoutFailures(parse: string -> seq<QAPair>, replies: seq<ChunkReplies>)
    ensures Generate(parse, replies).Ok? <==> AllReplied(replies)
    ensures AllReplied(replies) ==> Generate(parse, replies) == Ok(AllPairs(parse, replies))
    decreases |replies|
  {
    if replies != [] {
      var init, last := replies[..|replies| - 1], replies[|replies| - 1];
      assert replies == init + [last];
      GenerateWithoutFailures(parse, init);
      assert AllReplied(replies) <==> AllReplied(init) && last.simple.Reply? && last.complex.Reply? by {
        assert forall k :: 0 <= k < |init| ==> init[k] == replies[k];
      }
      if AllReplied(replies) {
        AllPairsSnoc(parse, init, last);
      }
    }
  }

  /** The LLM calls in the order the loop makes them. */
  function Calls(replies: seq<ChunkReplies>): seq<LlmReply>
    decreases |replies|
  {
    if replies == [] then []
    else
      var last := replies[|replies| - 1];
      Calls(replies[..|replies| - 1]) + [last.simple, last.complex]
  }

  /** Chunk `k`'s simple call is call `2k`, its complex call is call `2k + 1`. */
  lemma {:induction false} CallsInChunkOrder(replies: seq<ChunkReplies>)
    ensures |Calls(replies)| == 2 * |replies|
    ensures forall k :: 0 <= k < |replies| ==>
              Calls(replies)[2 * k] == replies[k].simple && Calls(replies)[2 * k + 1] == replies[k].complex
    decreases |replies|
  {
    if replies != [] {
      var init := replies[..|replies| - 1];
      CallsInChunkOrder(init);
      assert forall k :: 0 <= k < |init| ==> init[k] == replies[k];
    }
  }

  /** Call `k` is the first call that failed. */
  predicate FailsFirstAt(calls: seq<LlmReply>, k: int)
  {
    0 <= k < |calls| && calls[k].CallFailed? && forall m :: 0 <= m < k ==> calls[m].Reply?
  }

  /** Every chunk replied exactly when every call replied. */
  lemma CallsAllReplied(replies: seq<ChunkReplies>)
    ensures AllReplied(replies) <==> forall m :: 0 <= m < |Calls(replies)| ==> Calls(replies)[m].Reply?
  {
    CallsInChunkOrder(replies);
    if forall m :: 0 <= m < |Calls(replies)| ==> Calls(replies)[m].Reply? {
      forall j | 0 <= j < |replies|
        ensures replies[j].simple.Reply? && replies[j].complex.Reply?
      {
        assert Calls(replies)[2 * j] == replies[j].simple;
        assert Calls(replies)[2 * j + 1] == replies[j].complex;
      }
    }
    if AllReplied(replies) {
      forall m | 0 <= m < |Calls(replies)|
        ensures Calls(replies)[m].Reply?
      {
        var j := m / 2;
        assert m == 2 * j || m == 2 * j + 1;
      }
    }
  }

  /** A failing batch reports the failure of the first call that failed. */
  lemma {:induction false} FailureIsFirstFailedCall(parse: string -> seq<QAPair>, replies: seq<ChunkReplies>, k: int)
    requires FailsFirstAt(Calls(replies), k)
    ensures Generate(parse, replies) == Err(Calls(replies)[k].reason)
    decreases |replies|
  {
    assert replies != [];
    var init, last := replies[..|replies| - 1], replies[|replies| - 1];
    var c := Calls(init);
    CallsInChunkOrder(init);
    assert Calls(replies) == c + [last.simple, last.complex];
    if k < |c| {
      assert FailsFirstAt(c, k) by {
        assert forall m :: 0 <= m <= k ==> Calls(replies)[m] == c[m];
      }
      FailureIsFirstFailedCall(parse, init, k);
    } else {
      assert forall m :: 0 <= m < |c| ==> c[m] == Calls(replies)[m];
      CallsAllReplied(init);
      GenerateWithoutFailures(parse, init);
      if k == |c| {
        assert last.simple == Calls(replies)[k];
      } else {
        assert last.simple == Calls(replies)[|c|];
        assert last.complex == Calls(replies)[k];
      }
    }
  }

  /** If some call failed, there is a first one. */
  lemma {:induction false} SomeFailureHasFirst(calls: seq<LlmReply>, j: int)
    requires 0 <= j < |calls| && calls[j].CallFailed?
    ensures exists k :: FailsFirstAt(calls, k)
    decreases j
  {
    if forall m :: 0 <= m < j ==> calls[m].Reply? {
      assert FailsFirstAt(calls, j);
    } else {
      var m :| 0 <= m < j && !calls[m].Reply?;
      SomeFailureHasFirst(calls, m);
    }
  }

  /** The batch fails exactly when some call fails, and then with the reason
      of the first failed call. */
  lemma GenerateFailsAtFirstFailedCall(parse: string -> seq<QAPair>, replies: seq<ChunkReplies>)
    ensures Generate(parse, replies).Err? <==> exists k :: FailsFirstAt(Calls(replies), k)
    ensures forall k :: FailsFirstAt(Calls(replies), k) ==>
              Generate(parse, replies) == Err(Calls(replies)[k].reason)
  {
    forall k | FailsFirstAt(Calls(replies), k)
      ensures Generate(parse, replies) == Err(Calls(replies)[k].reason)
    {
      FailureIsFirstFailedCall(parse, replies, k);
    }
    if Generate(parse, replies).Err? {
      GenerateWithoutFailures(parse, replies);
      var j :| 0 <= j < |replies| && !(replies[j].simple.Reply? && replies[j].complex.Reply?);
      CallsInChunkOrder(replies);
      if replies[j].simple.CallFailed? {
        SomeFailureHasFirst(Calls(replies), 2 * j);
      } else {
        SomeFailureHasFirst(Calls(replies), 2 * j + 1);
      }
    }
  }

  /** Chunks are processed independently and their pairs concatenated in
      order: a batch split in two gives the pairs of the first part followed
      by those of the second, and a failure in the first part wins. */
  lemma {:induction false} GenerateConcat(parse: string -> seq<QAPair>, a: seq<ChunkReplies>, b: seq<ChunkReplies>)
    ensures Generate(parse, a + b) == Then(Generate(parse, a), Generate(parse, b))
    decreases |b|
  {
    if b == [] {
      assert a + b == a;
      ThenAssociative(Generate(parse, a), Ok([]), Ok([]));
    } else {
      var init, last := b[..|b| - 1], b[|b| - 1];
      assert (a + b)[..|a + b| - 1] == a + init;
      assert (a + b)[|a + b| - 1] == last;
      GenerateConcat(parse, a, init);
      ThenAssociative(Generate(parse, a), Generate(parse, init), ChunkPairs(parse, last));
    }
  }
}
