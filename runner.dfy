/**
  The inference runner (src/runner.cpp) around an opaque language-model library.
  Everything the library computes is an oracle in `Llm`; what the runner itself
  decides is modelled exactly: the prompt wrapper, the context budget, and the
  generation loop's bound and stop conditions.
 */
module Runner {
  import opened Text

  const USER_TAG: string := "<|user|>\n"
  const ASSISTANT_TAG: string := "\n<|assistant|>\n"
  const MAX_CONTEXT: int := 2048
  const DEFAULT_PREDICT: int := 1500
  const CONTEXT_MARGIN: int := 100
  const MIN_PREDICT: int := 200

  /**
    The library calls a run depends on, as functions of their inputs:
    the prompt's token count (the negated result of the sizing `llama_tokenize`
    call), whether the second tokenization and the context creation succeed, and,
    for the batch that starts at a given position, whether its decode succeeds and
    which token is sampled after it; `piece` is the text of a token, empty when
    `llama_token_to_piece` yields no bytes.
   */
  datatype Llm = Llm(
    promptTokens: string -> int,
    tokenizes: string -> bool,
    contextInits: int -> bool,
    decodes: (string, int) -> bool,
    sample: (string, int) -> int,
    isEog: int -> bool,
    piece: int -> string)

  /** A runner handle; all handles share one model loaded from `modelPath`. */
  datatype Handle = Handle(modelPath: string)

  function FormatPrompt(content: string): string {
    USER_TAG + content + ASSISTANT_TAG
  }

  /** The content sits between the two fixed tags, so the wrapper loses nothing. */
  lemma FormatPromptFraming(content: string)
    ensures |FormatPrompt(content)| == |USER_TAG| + |content| + |ASSISTANT_TAG|
    ensures FormatPrompt(content)[..|USER_TAG|] == USER_TAG
    ensures FormatPrompt(content)[|USER_TAG| + |content|..] == ASSISTANT_TAG
    ensures FormatPrompt(content)[|USER_TAG|..|USER_TAG| + |content|] == content
  {
  }

  lemma FormatPromptInjective(c1: string, c2: string)
    requires FormatPrompt(c1) == FormatPrompt(c2)
    ensures c1 == c2
  {
    FormatPromptFraming(c1);
    FormatPromptFraming(c2);
  }

  /** How many tokens a run may generate and the context size it asks for. */
  datatype Budget = GiveUp | Budget(nPredict: int, nCtx: int)

  /**
    The budget for a prompt of `nPrompt` tokens: 1500 new tokens when they fit in
    2048 with a margin of 100, otherwise whatever fits, and nothing at all when
    that would be fewer than 200.
   */
  function ContextBudget(nPrompt: int): (b: Budget)
    ensures b.Budget? <==> nPrompt <= MAX_CONTEXT - CONTEXT_MARGIN - MIN_PREDICT
    ensures b.Budget? ==> b.nCtx == nPrompt + b.nPredict + CONTEXT_MARGIN
    ensures b.Budget? ==> MIN_PREDICT <= b.nPredict <= DEFAULT_PREDICT && b.nCtx <= MAX_CONTEXT
    ensures nPrompt + DEFAULT_PREDICT + CONTEXT_MARGIN <= MAX_CONTEXT ==> b == Budget(DEFAULT_PREDICT, nPrompt + DEFAULT_PREDICT + CONTEXT_MARGIN)
    ensures nPrompt + DEFAULT_PREDICT + CONTEXT_MARGIN > MAX_CONTEXT && b.Budget? ==> b == Budget(MAX_CONTEXT - CONTEXT_MARGIN - nPrompt, MAX_CONTEXT)
  {
    if nPrompt + DEFAULT_PREDICT + CONTEXT_MARGIN <= MAX_CONTEXT then
      Budget(DEFAULT_PREDICT, nPrompt + DEFAULT_PREDICT + CONTEXT_MARGIN)
    else if MAX_CONTEXT - nPrompt - CONTEXT_MARGIN < MIN_PREDICT then
      GiveUp
    else
      Budget(MAX_CONTEXT - nPrompt - CONTEXT_MARGIN, MAX_CONTEXT)
  }

  /** The position at which the batch of generation step `m` starts: the prompt at 0, then one token each. */
  function StepPos(nPrompt: int, m: nat): int {
    if m == 0 then 0 else nPrompt + m - 1
  }

  /** The pieces generated from step `m` on: at most until step `nPredict`, ending early on a failed decode or an end-of-generation token. */
  function PiecesFrom(llm: Llm, prompt: string, nPrompt: int, nPredict: int, m: nat): seq<string>
    decreases nPredict - m
  {
    if m >= nPredict then []
    else
      var pos := StepPos(nPrompt, m);
      if !llm.decodes(prompt, pos) then []
      else
        var token := llm.sample(prompt, pos);
        if llm.isEog(token) then [] else [llm.piece(token)] + PiecesFrom(llm, prompt, nPrompt, nPredict, m + 1)
  }

  /** Step `m` decoded its batch, sampled a token that does not end the generation, and appended its piece. */
  predicate StepAppended(llm: Llm, prompt: string, nPrompt: int, m: nat, piece: string) {
    var pos := StepPos(nPrompt, m);
    llm.decodes(prompt, pos) && !llm.isEog(llm.sample(prompt, pos)) && piece == llm.piece(llm.sample(prompt, pos))
  }

  /** Step `m` ended the generation: its decode failed or its token is an end-of-generation token. */
  predicate StepStopped(llm: Llm, prompt: string, nPrompt: int, m: nat) {
    var pos := StepPos(nPrompt, m);
    !llm.decodes(prompt, pos) || llm.isEog(llm.sample(prompt, pos))
  }

  /**
    What the generation loop produces: step `m + i` appended the piece of the token
    sampled after its decode; no more than `nPredict - m` steps ran; and when fewer
    ran, the next step's decode failed or its token ended the generation.
   */
  lemma {:induction false} PiecesFromSteps(llm: Llm, prompt: string, nPrompt: int, nPredict: int, m: nat)
    ensures m <= nPredict ==> |PiecesFrom(llm, prompt, nPrompt, nPredict, m)| <= nPredict - m
    ensures m >= nPredict ==> PiecesFrom(llm, prompt, nPrompt, nPredict, m) == []
    ensures forall i :: 0 <= i < |PiecesFrom(llm, prompt, nPrompt, nPredict, m)| ==>
      StepAppended(llm, prompt, nPrompt, m + i, PiecesFrom(llm, prompt, nPrompt, nPredict, m)[i])
    ensures var n := |PiecesFrom(llm, prompt, nPrompt, nPredict, m)|;
      m + n < nPredict ==> StepStopped(llm, prompt, nPrompt, m + n)
    decreases nPredict - m
  {
    var ps := PiecesFrom(llm, prompt, nPrompt, nPredict, m);
    if m < nPredict {
      var pos := StepPos(nPrompt, m);
      if llm.decodes(prompt, pos) && !llm.isEog(llm.sample(prompt, pos)) {
        PiecesFromSteps(llm, prompt, nPrompt, nPredict, m + 1);
        var rest := PiecesFrom(llm, prompt, nPrompt, nPredict, m + 1);
        assert ps == [llm.piece(llm.sample(prompt, pos))] + rest;
        forall i | 0 <= i < |ps|
          ensures StepAppended(llm, prompt, nPrompt, m + i, ps[i])
        {
          if i == 0 {
            assert m + i == m;
          } else {
            assert ps[i] == rest[i - 1] && m + i == (m + 1) + (i - 1);
          }
        }
      }
    }
  }

  /**
    The generation loop of `run`: `nPos` is where the next batch starts, the first
    batch being the whole prompt and every later one the single token just sampled.
   */
  method Generate(llm: Llm, prompt: string, nPrompt: int, nPredict: int) returns (output: string)
    ensures output == Concat(PiecesFrom(llm, prompt, nPrompt, nPredict, 0))
  {
    var nPos := 0;
    var batchTokens := nPrompt;
    ghost var step: nat := 0;
    output := "";
    while nPos + batchTokens < nPrompt + nPredict
      invariant step == 0 ==> nPos == 0 && batchTokens == nPrompt
      invariant step > 0 ==> nPos == nPrompt + step - 1 && batchTokens == 1
      invariant Concat(PiecesFrom(llm, prompt, nPrompt, nPredict, 0))
        == output + Concat(PiecesFrom(llm, prompt, nPrompt, nPredict, step))
      decreases nPredict - step
    {
      assert nPos == StepPos(nPrompt, step) && step < nPredict;
      var batchPos := nPos;
      if !llm.decodes(prompt, batchPos) {
        break;
      }
      nPos := nPos + batchTokens;
      var token := llm.sample(prompt, batchPos);
      if llm.isEog(token) {
        break;
      }
      output := output + llm.piece(token);
      batchTokens := 1;
      step := step + 1;
    }
  }

  /** `Runner::run`: the answer for `content`, or "" when any stage gives up. */
  function Inference(llm: Llm, content: string): string {
    var prompt := FormatPrompt(content);
    var nPrompt := llm.promptTokens(prompt);
    if nPrompt <= 0 || !llm.tokenizes(prompt) then ""
    else
      match ContextBudget(nPrompt)
      case GiveUp => ""
      case Budget(nPredict, nCtx) =>
        if !llm.contextInits(nCtx) then "" else Concat(PiecesFrom(llm, prompt, nPrompt, nPredict, 0))
  }

  method Run(llm: Llm, content: string) returns (output: string)
    ensures output == Inference(llm, content)
  {
    var prompt := FormatPrompt(content);
    var nPrompt := llm.promptTokens(prompt);
    if nPrompt <= 0 {
      return "";
    }
    if !llm.tokenizes(prompt) {
      return "";
    }
    var nPredict := DEFAULT_PREDICT;
    var requiredContext := nPrompt + nPredict + CONTEXT_MARGIN;
    if requiredContext > MAX_CONTEXT {
      nPredict := MAX_CONTEXT - nPrompt - CONTEXT_MARGIN;
      if nPredict < MIN_PREDICT {
        return "";
      }
    }
    var nCtx := nPrompt + nPredict + CONTEXT_MARGIN;
    assert ContextBudget(nPrompt) == Budget(nPredict, nCtx);
    if !llm.contextInits(nCtx) {
      return "";
    }
    output := Generate(llm, prompt, nPrompt, nPredict);
  }

  /** A prompt the tokenizer counts as empty, or as longer than 1748 tokens, yields "". */
  lemma InferenceGivesUp(llm: Llm, content: string)
    requires var n := llm.promptTokens(FormatPrompt(content)); n <= 0 || n > MAX_CONTEXT - CONTEXT_MARGIN - MIN_PREDICT
    ensures Inference(llm, content) == ""
  {
  }

  /**
    Whenever a run reaches generation, its context holds the prompt, the budget and
    the margin within 2048 tokens, and the answer is at most `nPredict` pieces.
   */
  lemma InferenceWithinBudget(llm: Llm, content: string)
    requires Inference(llm, content) != ""
    ensures var prompt := FormatPrompt(content);
      var nPrompt := llm.promptTokens(prompt);
      && 0 < nPrompt <= MAX_CONTEXT - CONTEXT_MARGIN - MIN_PREDICT
      && var b := ContextBudget(nPrompt);
      && b.Budget? && b.nCtx <= MAX_CONTEXT && b.nPredict >= MIN_PREDICT
      && Inference(llm, content) == Concat(PiecesFrom(llm, prompt, nPrompt, b.nPredict, 0))
      && |PiecesFrom(llm, prompt, nPrompt, b.nPredict, 0)| <= b.nPredict
  {
    var prompt := FormatPrompt(content);
    var nPrompt := llm.promptTokens(prompt);
    PiecesFromSteps(llm, prompt, nPrompt, ContextBudget(nPrompt).nPredict, 0);
  }
}
