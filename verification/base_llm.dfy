/** Prompt assembly in `BaseLLMModel`: the chat message list sent to the
    language model, and the retrieval-augmented system prompt built from the
    retrieved chunk texts. The model call itself is not modelled. */
module BaseLlm {
  import opened Outcome
  import opened Text

  datatype Role = System | User

  /** One chat message, `{"role": ..., "content": ...}`. */
  datatype Message = Message(role: Role, content: string)

  /** The fixed instructions at the head of every retrieval-augmented prompt. */
  const Preamble: string := "You are a movie recommendation assistant.\nUse the provided context to answer.\n\n"

  /** The label in front of the retrieved context. */
  const ContextHeader: string := "Context:\n"

  /** What separates two retrieved chunks in the context. */
  const ChunkSeparator: string := "\n\n"

  /** Python truthiness of the optional system prompt: neither `None` nor "". */
  predicate Present(prompt: Option<string>) {
    prompt.Some? && |prompt.value| > 0
  }

  /** The message list of `generate`: the system prompt first when one is
      given and non-empty, then the user's query, unchanged. */
  function Messages(query: string, systemPrompt: Option<string>): (r: seq<Message>)
    ensures |r| == if Present(systemPrompt) then 2 else 1
    ensures r[|r| - 1].role == User && r[|r| - 1].content == query
    ensures |r| == 2 ==> r[0].role == System && r[0].content == systemPrompt.value
    ensures forall i :: 0 <= i < |r| - 1 ==> r[i].role == System
  {
    var system := if Present(systemPrompt) then [Message(System, systemPrompt.value)] else [];
    system + [Message(User, query)]
  }

  /** `"\n\n".join(context_chunks)`. */
  function ContextText(chunks: seq<string>): (r: string)
    ensures |chunks| == 0 ==> r == ""
    ensures |chunks| == 1 ==> r == chunks[0]
  {
    Join(chunks, ChunkSeparator)
  }

  /** The context text is fixed character for character: each chunk sits at
      its offset, the "\n\n" separator follows every chunk but the last, the
      next chunk starts right after it, and nothing else is there (the length
      is the chunks' lengths plus one separator per gap). */
  lemma ContextLayout(chunks: seq<string>)
    ensures |chunks| > 0 ==>
      |ContextText(chunks)| == SumLengths(chunks) + (|chunks| - 1) * |ChunkSeparator|
    ensures forall i :: 0 <= i < |chunks| ==>
      OccursAt(chunks[i], ContextText(chunks), JoinOffset(chunks, ChunkSeparator, i))
    ensures forall i :: 0 <= i < |chunks| - 1 ==>
      OccursAt(ChunkSeparator, ContextText(chunks), JoinOffset(chunks, ChunkSeparator, i) + |chunks[i]|)
    ensures forall i :: 0 <= i < |chunks| - 1 ==>
      JoinOffset(chunks, ChunkSeparator, i + 1) == JoinOffset(chunks, ChunkSeparator, i) + |chunks[i]| + |ChunkSeparator|
  {
    JoinLength(chunks, ChunkSeparator);
    forall i | 0 <= i < |chunks|
      ensures OccursAt(chunks[i], ContextText(chunks), JoinOffset(chunks, ChunkSeparator, i))
    {
      JoinContains(chunks, ChunkSeparator, i);
    }
    forall i | 0 <= i < |chunks| - 1
      ensures OccursAt(ChunkSeparator, ContextText(chunks), JoinOffset(chunks, ChunkSeparator, i) + |chunks[i]|)
      ensures JoinOffset(chunks, ChunkSeparator, i + 1) == JoinOffset(chunks, ChunkSeparator, i) + |chunks[i]| + |ChunkSeparator|
    {
      JoinSeparatorAt(chunks, ChunkSeparator, i);
      JoinOffsetStep(chunks, ChunkSeparator, i);
    }
  }

  /** The system prompt of `generate_with_context`: the preamble, the context
      label, then the context text. */
  function SystemPrompt(chunks: seq<string>): (r: string)
    ensures |r| == |Preamble| + |ContextHeader| + |ContextText(chunks)|
    ensures r[..|Preamble|] == Preamble
    ensures r[|Preamble|..|Preamble| + |ContextHeader|] == ContextHeader
    ensures r[|r| - |ContextText(chunks)|..] == ContextText(chunks)
    ensures |r| > 0
  {
    var prompt := Preamble + ContextHeader + ContextText(chunks);
    assert prompt == Preamble + (ContextHeader + ContextText(chunks));
    prompt
  }

  /** Every retrieved chunk appears verbatim in the system prompt, after the
      preamble and label, at its place in the joined context. */
  lemma ChunkInPrompt(chunks: seq<string>, i: nat)
    requires i < |chunks|
    ensures OccursAt(chunks[i], SystemPrompt(chunks),
                     |Preamble| + |ContextHeader| + JoinOffset(chunks, ChunkSeparator, i))
  {
    JoinContains(chunks, ChunkSeparator, i);
    var head := Preamble + ContextHeader;
    OccursAfterPrefix(chunks[i], ContextText(chunks), JoinOffset(chunks, ChunkSeparator, i), head);
    assert SystemPrompt(chunks) == head + ContextText(chunks);
  }

  /** `generate_with_context`'s message list: the prompt is never empty, so
      there are always two messages, system first, the query last. */
  function MessagesWithContext(query: string, chunks: seq<string>): (r: seq<Message>)
    ensures |r| == 2
    ensures r[0] == Message(System, SystemPrompt(chunks))
    ensures r[1] == Message(User, query)
  {
    Messages(query, Some(SystemPrompt(chunks)))
  }
}
