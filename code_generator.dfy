/**
 * The deterministic parts of code generation: the early return for an error contract, the
 * bullet lines rendered into the prompt, and the post-processing of the model's reply
 * (drop a leading code-fence line and everything from the last closing fence on).
 * The chat-completion call itself is a parameter: its reply, or the text of its failure.
 */
module CodeGenerator {
  import opened Wrappers
  import opened TextOps
  import opened Standards
  import opened ContractGenerator

  const Fence := "```"

  /** `rest` cut before its right-most fence, or all of `rest` when it holds none. */
  ghost predicate CutAtLastFence(rest: string, out: string)
  {
    if Contains(rest, Fence) then
      && |out| + |Fence| <= |rest| && rest[..|out|] == out && StartsWith(rest[|out|..], Fence)
      && forall j :: |out| < j ==> !OccursAt(rest, Fence, j)
    else out == rest
  }

  /**
   * Post-processing of the stripped reply (`code.split("\n", 1)[1].rsplit("```", 1)[0]` when it
   * starts with a fence). `None` stands for the `IndexError` of a fenced reply with no newline.
   */
  function StripFences(reply: string): (r: Option<string>)
    ensures !StartsWith(reply, Fence) ==> r == Some(reply)
    ensures StartsWith(reply, Fence) ==> (r.None? <==> '\n' !in reply)
    ensures StartsWith(reply, Fence) && r.Some? ==>
      exists i :: 0 <= i < |reply| && reply[i] == '\n' && '\n' !in reply[..i] && CutAtLastFence(reply[i + 1..], r.value)
  {
    if StartsWith(reply, Fence) then
      match AfterFirst(reply, '\n')
      case None => None
      case Some(rest) => Some(BeforeLast(rest, Fence))
    else Some(reply)
  }

  /** Text followed by one fence is cut back to the text. */
  lemma CutBeforeClosingFence(body: string)
    ensures BeforeLast(body + Fence, Fence) == body
  {
    var rest := body + Fence;
    assert OccursAt(rest, Fence, |body|) by {
      assert rest[|body|..|body| + |Fence|] == Fence;
    }
    ContainsAt(rest, Fence, |body|);
    var out := BeforeLast(rest, Fence);
    assert |out| == |body|;
    assert out == rest[..|body|] == body;
  }

  /** A reply wrapped as a fenced block, with a language tag and no newline in it, comes back as its body. */
  lemma FencedBlockRoundTrip(tag: string, body: string)
    requires '\n' !in tag
    ensures StripFences(Fence + tag + "\n" + body + Fence) == Some(body)
  {
    var head := Fence + tag;
    var reply := head + "\n" + (body + Fence);
    assert reply == Fence + tag + "\n" + body + Fence;
    assert StartsWith(reply, Fence) by {
      assert reply[..|Fence|] == Fence;
    }
    assert reply[|head|] == '\n' && reply[..|head|] == head;
    assert '\n' !in head by {
      assert '\n' !in Fence;
    }
    FirstIndexAt(reply, '\n', |head|);
    assert reply[|head| + 1..] == body + Fence;
    CutBeforeClosingFence(body);
  }

  /** The reply of the chat-completion client: its content and token count, or the text of its failure. */
  datatype ClientReply = Replied(content: string, totalTokens: int) | ClientFailed(error: string)

  /** What `generate_code` returns: `{error: True, message, code: None}`, or the code with its model and token count. */
  datatype GenerationResult =
    | GenerationError(message: string)
    | Generated(code: string, model: string, tokensUsed: int)

  const ApiFailurePrefix := "API 调用失败: "

  /** `str(IndexError)` for a list index out of range. */
  const IndexErrorText := "list index out of range"

  /**
   * `generate_code`. An error contract is answered without asking the client; a client failure,
   * and a fenced reply without a newline, become the API failure record.
   * `strip` is `str.strip()`.
   */
  function GenerateCode(contract: ContractResult, model: string, strip: string -> string, reply: ClientReply): (r: GenerationResult)
    ensures contract.IsError() ==> r == GenerationError(contract.message)
    ensures !contract.IsError() && reply.ClientFailed? ==> r == GenerationError(ApiFailurePrefix + reply.error)
    ensures !contract.IsError() && reply.Replied? ==>
      (r.Generated? <==> StripFences(strip(reply.content)).Some?)
    ensures r.Generated? ==>
      (r.model == model && reply.Replied? && r.tokensUsed == reply.totalTokens
       && Some(r.code) == StripFences(strip(reply.content)))
  {
    if contract.IsError() then GenerationError(contract.message)
    else match reply
      case ClientFailed(error) => GenerationError(ApiFailurePrefix + error)
      case Replied(content, totalTokens) =>
        match StripFences(strip(content))
        case None => GenerationError(ApiFailurePrefix + IndexErrorText)
        case Some(code) => Generated(code, model, totalTokens)
  }

  /** An error contract yields the same error record whatever the client would have replied. */
  lemma ErrorContractSkipsClient(contract: ContractResult, model: string, strip: string -> string, reply: ClientReply, other: ClientReply)
    requires contract.IsError()
    ensures GenerateCode(contract, model, strip, reply) == GenerateCode(contract, model, strip, other)
  {
  }

  /** A stripped reply that opens a fence but has no newline is reported as an API failure. */
  lemma FenceWithoutNewlineFails(contract: ContractResult, model: string, strip: string -> string, content: string, tokens: int)
    requires !contract.IsError()
    requires StartsWith(strip(content), Fence) && '\n' !in strip(content)
    ensures GenerateCode(contract, model, strip, Replied(content, tokens)) == GenerationError(ApiFailurePrefix + IndexErrorText)
  {
  }

  /** `  - [id] name: description`. */
  function ImplicitLine(r: ImplicitRequirement): (line: string)
  {
    "  - [" + r.id + "] " + r.name + ": " + r.description
  }

  /** `implicit_text`: one line per implicit requirement, joined by newlines. */
  function ImplicitText(reqs: seq<ImplicitRequirement>): (text: string)
    ensures text == "" <==> reqs == []
    ensures reqs != [] ==> |ImplicitLine(reqs[0])| <= |text| && text[..|ImplicitLine(reqs[0])|] == ImplicitLine(reqs[0])
  {
    JoinLines(seq(|reqs|, i requires 0 <= i < |reqs| => ImplicitLine(reqs[i])))
  }

  /** `- hint`. */
  function HintLine(h: string): (line: string)
  {
    "- " + h
  }

  /** The generation hints of the prompt: one line per hint, joined by newlines. */
  function HintsText(hints: seq<string>): (text: string)
    ensures text == "" <==> hints == []
    ensures hints != [] ==> |HintLine(hints[0])| <= |text| && text[..|HintLine(hints[0])|] == HintLine(hints[0])
  {
    JoinLines(seq(|hints|, i requires 0 <= i < |hints| => HintLine(hints[i])))
  }

  /** No field of the requirement holds a newline. */
  predicate SingleLine(r: ImplicitRequirement)
  {
    '\n' !in r.id && '\n' !in r.name && '\n' !in r.description
  }

  /**
   * The rendered implicit requirements read back line by line: splitting on newlines gives one
   * line per requirement, in order, each `  - [id] name: description`; no requirements render as `""`.
   */
  lemma ImplicitTextLines(reqs: seq<ImplicitRequirement>)
    requires forall i :: 0 <= i < |reqs| ==> SingleLine(reqs[i])
    ensures reqs == [] ==> ImplicitText(reqs) == ""
    ensures reqs != [] ==> SplitLines(ImplicitText(reqs)) == seq(|reqs|, i requires 0 <= i < |reqs| => ImplicitLine(reqs[i]))
  {
    var lines := seq(|reqs|, i requires 0 <= i < |reqs| => ImplicitLine(reqs[i]));
    forall i | 0 <= i < |lines| ensures '\n' !in lines[i] {
      assert '\n' !in "  - [" && '\n' !in "] " && '\n' !in ": ";
    }
    if reqs != [] {
      SplitJoinLines(lines);
    }
  }

  /** The rendered hints read back line by line: one `- hint` line per hint, in order. */
  lemma HintsTextLines(hints: seq<string>)
    requires forall i :: 0 <= i < |hints| ==> '\n' !in hints[i]
    ensures hints == [] ==> HintsText(hints) == ""
    ensures hints != [] ==> SplitLines(HintsText(hints)) == seq(|hints|, i requires 0 <= i < |hints| => HintLine(hints[i]))
  {
    var lines := seq(|hints|, i requires 0 <= i < |hints| => HintLine(hints[i]));
    forall i | 0 <= i < |lines| ensures '\n' !in lines[i] {
      assert '\n' !in "- ";
    }
    if hints != [] {
      SplitJoinLines(lines);
    }
  }
}
