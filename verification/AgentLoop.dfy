/** The tool loop of `run_agent`, driven by an arbitrary model, arbitrary tools and arbitrary safety gates. */
module AgentLoop {
  import opened Options
  import opened Texts

  const DEFAULT_MAX_ITERATIONS: int := 5
  const NO_ANSWER := "I was unable to complete the task within the allowed steps."
  const EMPTY_ANSWER := "Agent completed execution."

  datatype Call = Call(id: string, name: string)

  /** What chat_completion does: an LLMError whose text does or does not mention tools, any other
      exception, or a reply. */
  datatype Reply = LlmError(mentionsTool: bool) | Crash | Content(text: string, calls: seq<Call>)

  /** What _execute_tool_call does: a tool message, or an exception it does not catch. */
  datatype ToolOutcome = ToolResult(content: string, isError: bool) | Raises

  datatype Msg =
    | Given(content: string)
    | AssistantCalls(text: string, calls: seq<Call>)
    | ToolMsg(callId: string, content: string)

  datatype Outcome =
    | IngressBlocked | EgressBlocked | LlmFailure
    | CompletedWithTools | CompletedNoTools | MaxIterationsExhausted

  datatype ToolEvent = ToolEvent(name: string, isError: bool)

  datatype Trace = Trace(outcome: Outcome, toolEvents: seq<ToolEvent>, iterations: nat, finalText: string)

  datatype Result = Returned(text: string) | Blocked | RaisedLlmError | RaisedOther

  /** The k-th model call gets llm(k); the k-th tool call gets tool(k). */
  datatype Env = Env(llm: nat -> Reply, tool: nat -> ToolOutcome, ingressSafe: bool, egressSafe: string -> bool)

  /** One chat_completion call: what was sent, whether with tools, and what came back. */
  datatype ModelCall = ModelCall(messages: seq<Msg>, withTools: bool, reply: Reply)

  /** max(1, min(20, cfg["max_iterations"])), or the default when it is not an integer. */
  function MaxIterations(cfg: Option<int>): (n: nat)
    ensures 1 <= n <= 20
    ensures cfg.None? ==> n == 5
    ensures cfg.Some? && 1 <= cfg.value <= 20 ==> n == cfg.value
    ensures cfg.Some? ==> (cfg.value < 1 ==> n == 1) && (cfg.value > 20 ==> n == 20)
  {
    if cfg.None? then DEFAULT_MAX_ITERATIONS
    else if cfg.value < 1 then 1
    else if cfg.value > 20 then 20
    else cfg.value
  }

  // ---------- what a sequence of model calls amounts to ----------

  function CallsOf(c: ModelCall): seq<Call> {
    if c.reply.Content? then c.reply.calls else []
  }

  /** All tool calls the model asked for, in order. */
  function AllCalls(log: seq<ModelCall>): seq<Call> {
    if log == [] then [] else AllCalls(log[..|log| - 1]) + CallsOf(log[|log| - 1])
  }

  function ReplyCount(log: seq<ModelCall>): nat {
    if log == [] then 0 else ReplyCount(log[..|log| - 1]) + if log[|log| - 1].reply.Content? then 1 else 0
  }

  /** Calls answered by a rejection of the tools, after which the loop goes on without them. */
  predicate ToolsRejected(c: ModelCall) {
    c.withTools && c.reply.LlmError? && c.reply.mentionsTool
  }

  function RetryCount(log: seq<ModelCall>): nat {
    if log == [] then 0 else RetryCount(log[..|log| - 1]) + if ToolsRejected(log[|log| - 1]) then 1 else 0
  }

  function ContentOf(o: ToolOutcome): string {
    if o.ToolResult? then o.content else ""
  }

  function IsErrorOf(o: ToolOutcome): bool {
    o.ToolResult? && o.isError
  }

  /** The tool messages for `calls`, the first of which is tool call number `from`. */
  function ToolMsgs(calls: seq<Call>, env: Env, from: nat): (r: seq<Msg>)
    ensures |r| == |calls|
    ensures forall i :: 0 <= i < |calls| ==> r[i] == ToolMsg(calls[i].id, ContentOf(env.tool(from + i)))
  {
    seq(|calls|, i requires 0 <= i < |calls| => ToolMsg(calls[i].id, ContentOf(env.tool(from + i))))
  }

  function Events(calls: seq<Call>, env: Env): (r: seq<ToolEvent>)
    ensures |r| == |calls|
    ensures forall i :: 0 <= i < |calls| ==> r[i] == ToolEvent(calls[i].name, IsErrorOf(env.tool(i)))
  {
    seq(|calls|, i requires 0 <= i < |calls| => ToolEvent(calls[i].name, IsErrorOf(env.tool(i))))
  }

  function Block(c: ModelCall, env: Env, from: nat): seq<Msg> {
    if c.reply.Content? && c.reply.calls != [] then
      [AssistantCalls(c.reply.text, c.reply.calls)] + ToolMsgs(c.reply.calls, env, from)
    else []
  }

  /** What the loop has appended to the messages after these calls. */
  function Transcript(log: seq<ModelCall>, env: Env): seq<Msg> {
    if log == [] then []
    else
      var front := log[..|log| - 1];
      Transcript(front, env) + Block(log[|log| - 1], env, |AllCalls(front)|)
  }

  /** The last non-empty text of a reply. */
  function LastContent(log: seq<ModelCall>): Option<string> {
    if log == [] then None
    else
      var last := log[|log| - 1].reply;
      if last.Content? && last.text != "" then Some(last.text) else LastContent(log[..|log| - 1])
  }

  /** The model stopped asking for tools. */
  predicate Finished(log: seq<ModelCall>) {
    log != [] && log[|log| - 1].reply.Content? && log[|log| - 1].reply.calls == []
  }

  predicate GaveLlmError(log: seq<ModelCall>) {
    log != [] && log[|log| - 1].reply.LlmError? && !ToolsRejected(log[|log| - 1])
  }

  function FinalText(log: seq<ModelCall>): string {
    if Finished(log) then
      var own := Strip(log[|log| - 1].reply.text, BLANKS);
      var earlier := if LastContent(log).Some? then Strip(LastContent(log).value, BLANKS) else "";
      if own != "" then own else if earlier != "" then earlier else EMPTY_ANSWER
    else if LastContent(log).Some? then LastContent(log).value
    else NO_ANSWER
  }

  /** How a turn that raises nothing unexpected ends, read off its model calls. */
  function OutcomeOf(log: seq<ModelCall>, env: Env, lastUser: string): Outcome {
    if lastUser != "" && !env.ingressSafe then IngressBlocked
    else if GaveLlmError(log) then LlmFailure
    else if !env.egressSafe(FinalText(log)) then EgressBlocked
    else if !Finished(log) then MaxIterationsExhausted
    else if AllCalls(log) == [] then CompletedNoTools
    else CompletedWithTools
  }

  function TraceOf(log: seq<ModelCall>, env: Env, lastUser: string): Trace {
    var outcome := OutcomeOf(log, env, lastUser);
    Trace(outcome, Events(AllCalls(log), env), ReplyCount(log),
          if outcome.IngressBlocked? || outcome.LlmFailure? then "" else FinalText(log))
  }

  function ResultOf(log: seq<ModelCall>, env: Env, lastUser: string): Result {
    match OutcomeOf(log, env, lastUser)
    case IngressBlocked => Blocked
    case EgressBlocked => Blocked
    case LlmFailure => RaisedLlmError
    case _ => Returned(FinalText(log))
  }

  // ---------- well-formed transcripts ----------

  /** Exactly the tool messages of these calls, in order and with matching ids. */
  predicate Answers(calls: seq<Call>, ms: seq<Msg>) {
    |ms| == |calls| && forall i :: 0 <= i < |ms| ==> ms[i].ToolMsg? && ms[i].callId == calls[i].id
  }

  /** Each assistant message with tool calls is followed by exactly its calls' tool messages, and nothing
      else stands in between. */
  predicate WellFormed(ms: seq<Msg>)
    decreases |ms|
  {
    ms == [] ||
    (ms[0].AssistantCalls? &&
     var n := 1 + |ms[0].calls|;
     n <= |ms| && Answers(ms[0].calls, ms[1..n]) && WellFormed(ms[n..]))
  }

  lemma {:induction false} WellFormedAppend(a: seq<Msg>, b: seq<Msg>)
    requires WellFormed(a) && WellFormed(b)
    ensures WellFormed(a + b)
    decreases |a|
  {
    hide Answers;
    if a == [] {
      assert a + b == b;
    } else {
      var n := 1 + |a[0].calls|;
      assert (a + b)[0] == a[0];
      assert (a + b)[1..n] == a[1..n];
      assert (a + b)[n..] == a[n..] + b;
      WellFormedAppend(a[n..], b);
    }
  }

  lemma BlockWellFormed(c: ModelCall, env: Env, from: nat)
    ensures WellFormed(Block(c, env, from))
  {
  }

  /** Whatever the model and the tools do, the transcript the loop builds is well formed. */
  lemma {:induction false} TranscriptWellFormed(log: seq<ModelCall>, env: Env)
    ensures WellFormed(Transcript(log, env))
    decreases |log|
  {
    if log != [] {
      var front := log[..|log| - 1];
      TranscriptWellFormed(front, env);
      BlockWellFormed(log[|log| - 1], env, |AllCalls(front)|);
      WellFormedAppend(Transcript(front, env), Block(log[|log| - 1], env, |AllCalls(front)|));
    }
  }

  /** Every tool call is answered exactly once: as many tool messages as calls. */
  function ToolMsgCount(ms: seq<Msg>): nat {
    if ms == [] then 0 else ToolMsgCount(ms[..|ms| - 1]) + if ms[|ms| - 1].ToolMsg? then 1 else 0
  }

  lemma {:induction false} ToolMsgCountAppend(a: seq<Msg>, b: seq<Msg>)
    ensures ToolMsgCount(a + b) == ToolMsgCount(a) + ToolMsgCount(b)
    decreases |b|
  {
    if b == [] {
      assert a + b == a;
    } else {
      assert (a + b)[..|a + b| - 1] == a + b[..|b| - 1];
      ToolMsgCountAppend(a, b[..|b| - 1]);
    }
  }

  lemma {:induction false} AllToolMsgs(ms: seq<Msg>)
    requires forall m :: m in ms ==> m.ToolMsg?
    ensures ToolMsgCount(ms) == |ms|
    decreases |ms|
  {
    if ms != [] {
      AllToolMsgs(ms[..|ms| - 1]);
    }
  }

  lemma {:induction false} EveryCallAnswered(log: seq<ModelCall>, env: Env)
    ensures ToolMsgCount(Transcript(log, env)) == |AllCalls(log)|
    decreases |log|
  {
    if log != [] {
      var front := log[..|log| - 1];
      var last := log[|log| - 1];
      var b := Block(last, env, |AllCalls(front)|);
      EveryCallAnswered(front, env);
      ToolMsgCountAppend(Transcript(front, env), b);
      if b != [] {
        var head := [AssistantCalls(last.reply.text, last.reply.calls)];
        var answers := ToolMsgs(last.reply.calls, env, |AllCalls(front)|);
        AllToolMsgs(answers);
        ToolMsgCountAppend(head, answers);
        assert head[..0] == [];
        assert ToolMsgCount(head) == 0;
      }
    }
  }

  // ---------- legal runs ----------

  /** Call number k was sent the given messages plus the transcript so far, with tools unless they have been
      rejected, and got the model's k-th reply; the loop went on only after tool calls or a rejection. */
  ghost predicate LegalAt(log: seq<ModelCall>, k: nat, env: Env, given: seq<Msg>, haveTools: bool)
    requires k < |log|
  {
    && log[k].reply == env.llm(k)
    && log[k].messages == given + Transcript(log[..k], env)
    && log[k].withTools == (haveTools && RetryCount(log[..k]) == 0)
    && (k < |log| - 1 ==> CallsOf(log[k]) != [] || ToolsRejected(log[k]))
  }

  ghost predicate LegalLog(log: seq<ModelCall>, env: Env, given: seq<Msg>, haveTools: bool) {
    forall k :: 0 <= k < |log| ==> LegalAt(log, k, env, given, haveTools)
  }

  lemma {:induction false} AtMostOneRetry(log: seq<ModelCall>, env: Env, given: seq<Msg>, haveTools: bool)
    requires LegalLog(log, env, given, haveTools)
    ensures RetryCount(log) <= 1
    decreases |log|
  {
    if log != [] {
      LegalPrefix(log, env, given, haveTools);
      AtMostOneRetry(log[..|log| - 1], env, given, haveTools);
      assert LegalAt(log, |log| - 1, env, given, haveTools);
    }
  }

  lemma LegalPrefix(log: seq<ModelCall>, env: Env, given: seq<Msg>, haveTools: bool)
    requires LegalLog(log, env, given, haveTools) && log != []
    ensures LegalLog(log[..|log| - 1], env, given, haveTools)
  {
    hide Transcript, RetryCount;
    var front := log[..|log| - 1];
    forall k | 0 <= k < |front|
      ensures LegalAt(front, k, env, given, haveTools)
    {
      assert LegalAt(log, k, env, given, haveTools);
      assert front[..k] == log[..k] && front[k] == log[k];
    }
  }

  lemma LegalExtend(log: seq<ModelCall>, c: ModelCall, env: Env, given: seq<Msg>, haveTools: bool)
    requires LegalLog(log, env, given, haveTools)
    requires GoesOn(log) && c.reply == env.llm(|log|) && c.messages == given + Transcript(log, env)
    requires c.withTools == (haveTools && RetryCount(log) == 0)
    ensures LegalLog(log + [c], env, given, haveTools)
  {
    hide Transcript, RetryCount;
    var t := log + [c];
    assert t[..|log|] == log;
    forall k | 0 <= k < |t|
      ensures LegalAt(t, k, env, given, haveTools)
    {
      if k < |log| {
        assert LegalAt(log, k, env, given, haveTools);
        assert t[..k] == log[..k] && t[k] == log[k];
      }
    }
  }

  lemma Extended(log: seq<ModelCall>, c: ModelCall, env: Env)
    ensures AllCalls(log + [c]) == AllCalls(log) + CallsOf(c)
    ensures ReplyCount(log + [c]) == ReplyCount(log) + if c.reply.Content? then 1 else 0
    ensures RetryCount(log + [c]) == RetryCount(log) + if ToolsRejected(c) then 1 else 0
    ensures Transcript(log + [c], env) == Transcript(log, env) + Block(c, env, |AllCalls(log)|)
    ensures LastContent(log + [c]) == if c.reply.Content? && c.reply.text != "" then Some(c.reply.text)
            else LastContent(log)
  {
  }

  /** A tool raised while the calls of the last reply were being executed. */
  ghost predicate ToolRaised(log: seq<ModelCall>, env: Env) {
    log != [] && exists i :: |AllCalls(log[..|log| - 1])| <= i < |AllCalls(log)| && env.tool(i).Raises?
  }

  ghost predicate NothingRaised(log: seq<ModelCall>, env: Env) {
    && (forall k :: 0 <= k < |log| ==> !log[k].reply.Crash?)
    && (forall i :: 0 <= i < |AllCalls(log)| ==> !env.tool(i).Raises?)
  }

  // ---------- what a turn tells, in terms of its model calls alone ----------

  predicate NoText(log: seq<ModelCall>) {
    forall k :: 0 <= k < |log| && log[k].reply.Content? ==> log[k].reply.text == ""
  }

  /** The k-th call gave the last text there is. */
  predicate LastText(log: seq<ModelCall>, k: nat) {
    && k < |log| && log[k].reply.Content? && log[k].reply.text != ""
    && forall j :: k < j < |log| && log[j].reply.Content? ==> log[j].reply.text == ""
  }

  /** The answer of a turn that ended in a reply: the reply's text without blanks at its ends; if it has
      nothing else, the last text that any reply had, treated alike; if that fails too, the fixed sentence. */
  ghost predicate IsAnswer(log: seq<ModelCall>, t: string) {
    && log != [] && log[|log| - 1].reply.Content?
    && var own := log[|log| - 1].reply.text;
       if !AllIn(own, BLANKS) then Trimmed(own, BLANKS, t)
       else
         && (NoText(log) ==> t == "Agent completed execution.")
         && forall k: nat :: LastText(log, k) ==>
           if AllIn(log[k].reply.text, BLANKS) then t == "Agent completed execution."
           else Trimmed(log[k].reply.text, BLANKS, t)
  }

  /** The answer of a turn that ran out of iterations: the last text that any reply had, as it is. */
  ghost predicate IsLeftOver(log: seq<ModelCall>, t: string) {
    && (NoText(log) ==> t == "I was unable to complete the task within the allowed steps.")
    && forall k: nat :: LastText(log, k) ==> t == log[k].reply.text
  }

  predicate AskedForTools(log: seq<ModelCall>) {
    exists k :: 0 <= k < |log| && log[k].reply.Content? && log[k].reply.calls != []
  }

  /** How many tools the first k replies asked for. */
  function CallsBefore(log: seq<ModelCall>, k: nat): nat
    requires k <= |log|
  {
    if k == 0 then 0
    else CallsBefore(log, k - 1) + if log[k - 1].reply.Content? then |log[k - 1].reply.calls| else 0
  }

  /** The event of the j-th call of the k-th reply. */
  ghost predicate EventAt(log: seq<ModelCall>, env: Env, events: seq<ToolEvent>, k: nat, j: nat)
    requires k < |log| && log[k].reply.Content? && j < |log[k].reply.calls|
  {
    var n := CallsBefore(log, k) + j;
    && n < |events| && events[n].name == log[k].reply.calls[j].name
    && (events[n].isError <==> env.tool(n).ToolResult? && env.tool(n).isError)
  }

  /** One event per tool call, in order, with the tool's name and whether it reported an error. */
  ghost predicate IsEvents(log: seq<ModelCall>, env: Env, events: seq<ToolEvent>) {
    && |events| == CallsBefore(log, |log|)
    && forall k: nat, j: nat :: k < |log| && log[k].reply.Content? && j < |log[k].reply.calls| ==>
      EventAt(log, env, events, k, j)
  }

  /** How a turn ends that raises nothing but an LLMError. */
  ghost predicate Tells(log: seq<ModelCall>, env: Env, lastUser: string, result: Result, trace: Trace) {
    if lastUser != "" && !env.ingressSafe then result == Blocked && trace == Trace(IngressBlocked, [], 0, "")
    else
      && trace.iterations == |set k | 0 <= k < |log| && log[k].reply.Content?|
      && IsEvents(log, env, trace.toolEvents)
      && var ended := log != [] && log[|log| - 1].reply.Content? && log[|log| - 1].reply.calls == [];
         if log != [] && log[|log| - 1].reply.LlmError?
            && !(log[|log| - 1].withTools && log[|log| - 1].reply.mentionsTool)
         then result == RaisedLlmError && trace.outcome == LlmFailure && trace.finalText == ""
         else
           && (if ended then IsAnswer(log, trace.finalText) else IsLeftOver(log, trace.finalText))
           && if !env.egressSafe(trace.finalText) then result == Blocked && trace.outcome == EgressBlocked
              else
                && result == Returned(trace.finalText)
                && (trace.outcome == MaxIterationsExhausted <==> !ended)
                && (trace.outcome == CompletedWithTools <==> ended && AskedForTools(log))
                && (trace.outcome == CompletedNoTools <==> ended && !AskedForTools(log))
  }

  /** From one model call to the next: after tool calls the reply and exactly its tools' answers are added to
      the messages, after a rejection of the tools they are left out, and nothing else happens. */
  ghost predicate Follows(c: ModelCall, d: ModelCall, env: Env, from: nat) {
    match c.reply
    case Crash => false
    case LlmError(mentionsTool) => mentionsTool && c.withTools && !d.withTools && d.messages == c.messages
    case Content(text, calls) =>
      && calls != [] && d.withTools == c.withTools
      && var n := |c.messages|;
         && |d.messages| == n + 1 + |calls|
         && d.messages[..n] == c.messages && d.messages[n] == AssistantCalls(text, calls)
         && forall j {:trigger calls[j]} :: 0 <= j < |calls| ==>
           && d.messages[n + 1 + j].ToolMsg? && d.messages[n + 1 + j].callId == calls[j].id
           && (env.tool(from + j).ToolResult? ==> d.messages[n + 1 + j].content == env.tool(from + j).content)
  }

  ghost predicate FollowsAll(log: seq<ModelCall>, env: Env, given: seq<Msg>, haveTools: bool) {
    && (log != [] ==> log[0].messages == given && log[0].withTools == haveTools)
    && (forall k :: 0 <= k < |log| ==> log[k].reply == env.llm(k))
    && forall k {:trigger CallsBefore(log, k)} :: 0 <= k < |log| - 1 ==>
      Follows(log[k], log[k + 1], env, CallsBefore(log, k))
  }

  lemma {:induction false} LastContentIs(log: seq<ModelCall>)
    ensures LastContent(log).None? ==> NoText(log)
    ensures forall k: nat :: LastText(log, k) ==> LastContent(log) == Some(log[k].reply.text)
    decreases |log|
  {
    if log != [] {
      var front := log[..|log| - 1];
      LastContentIs(front);
      forall k: nat | LastText(log, k)
        ensures LastContent(log) == Some(log[k].reply.text)
      {
        assert k < |log| - 1 ==> LastText(front, k);
      }
      if LastContent(log).None? {
        assert forall k :: 0 <= k < |front| ==> log[k] == front[k];
      }
    }
  }

  lemma {:induction false} SomeLastText(log: seq<ModelCall>)
    ensures LastContent(log).Some? ==> exists k: nat :: LastText(log, k)
    decreases |log|
  {
    if LastContent(log).Some? {
      var last := |log| - 1;
      if log[last].reply.Content? && log[last].reply.text != "" {
        assert LastText(log, last);
      } else {
        SomeLastText(log[..last]);
        var k: nat :| LastText(log[..last], k);
        assert LastText(log, k);
      }
    }
  }

  lemma AnswerIs(log: seq<ModelCall>)
    requires Finished(log)
    ensures IsAnswer(log, FinalText(log))
  {
    hide LastContent, Strip, LastText, NoText;
    LastContentIs(log);
    SomeLastText(log);
    NotBoth(log);
    StripTrims(log[|log| - 1].reply.text, BLANKS);
    if LastContent(log).Some? {
      StripTrims(LastContent(log).value, BLANKS);
    }
  }

  lemma NotBoth(log: seq<ModelCall>)
    ensures NoText(log) ==> forall k: nat :: !LastText(log, k)
  {
  }

  lemma LeftOverIs(log: seq<ModelCall>)
    requires !Finished(log)
    ensures IsLeftOver(log, FinalText(log))
  {
    hide LastContent, LastText, NoText;
    LastContentIs(log);
    SomeLastText(log);
    NotBoth(log);
  }

  lemma {:induction false} ReplyCountIs(log: seq<ModelCall>)
    ensures ReplyCount(log) == |set k | 0 <= k < |log| && log[k].reply.Content?|
    decreases |log|
  {
    if log != [] {
      var last := |log| - 1;
      ReplyCountIs(log[..last]);
      var before := set k | 0 <= k < last && log[..last][k].reply.Content?;
      var all := set k | 0 <= k < |log| && log[k].reply.Content?;
      assert all == before + if log[last].reply.Content? then {last} else {};
    }
  }

  lemma {:induction false} CallsBeforeIs(log: seq<ModelCall>, k: nat)
    requires k <= |log|
    ensures CallsBefore(log, k) == |AllCalls(log[..k])|
    decreases k
  {
    if k > 0 {
      CallsBeforeIs(log, k - 1);
      assert log[..k][..k - 1] == log[..k - 1];
    }
  }

  /** The j-th call of the k-th reply is the tool call with this number. */
  lemma {:induction false} CallNumber(log: seq<ModelCall>, k: nat, j: nat)
    requires k < |log| && log[k].reply.Content? && j < |log[k].reply.calls|
    ensures |AllCalls(log[..k])| + j < |AllCalls(log)|
    ensures AllCalls(log)[|AllCalls(log[..k])| + j] == log[k].reply.calls[j]
    decreases |log|
  {
    var front := log[..|log| - 1];
    if k < |front| {
      assert front[..k] == log[..k] && front[k] == log[k];
      CallNumber(front, k, j);
    }
  }

  lemma EventIsAt(log: seq<ModelCall>, env: Env, k: nat, j: nat)
    requires k < |log| && log[k].reply.Content? && j < |log[k].reply.calls|
    ensures EventAt(log, env, Events(AllCalls(log), env), k, j)
  {
    hide AllCalls, CallsBefore;
    CallsBeforeIs(log, k);
    CallNumber(log, k, j);
  }

  lemma EventsAre(log: seq<ModelCall>, env: Env)
    ensures IsEvents(log, env, Events(AllCalls(log), env))
  {
    hide AllCalls, CallsBefore, EventAt;
    CallsBeforeIs(log, |log|);
    assert log[..|log|] == log;
    forall k: nat, j: nat | k < |log| && log[k].reply.Content? && j < |log[k].reply.calls|
      ensures EventAt(log, env, Events(AllCalls(log), env), k, j)
    {
      EventIsAt(log, env, k, j);
    }
  }

  lemma {:induction false} AskedIffCalls(log: seq<ModelCall>)
    ensures AskedForTools(log) <==> AllCalls(log) != []
    decreases |log|
  {
    if log != [] {
      var last := |log| - 1;
      AskedIffCalls(log[..last]);
      if AskedForTools(log[..last]) {
        var k :| 0 <= k < last && log[..last][k].reply.Content? && log[..last][k].reply.calls != [];
        assert log[k].reply.Content? && log[k].reply.calls != [];
      }
      if AskedForTools(log) && CallsOf(log[last]) == [] {
        var k :| 0 <= k < |log| && log[k].reply.Content? && log[k].reply.calls != [];
        assert log[..last][k] == log[k];
      }
    }
  }

  lemma TraceTells(log: seq<ModelCall>, env: Env, lastUser: string)
    requires lastUser != "" && !env.ingressSafe ==> log == []
    ensures Tells(log, env, lastUser, ResultOf(log, env, lastUser), TraceOf(log, env, lastUser))
  {
    hide AllCalls, ReplyCount, FinalText, IsAnswer, IsLeftOver, IsEvents, AskedForTools;
    if lastUser != "" && !env.ingressSafe {
      NothingMade(env);
    } else {
      ReplyCountIs(log);
      EventsAre(log, env);
      AskedIffCalls(log);
      if Finished(log) {
        AnswerIs(log);
      } else {
        LeftOverIs(log);
      }
    }
  }

  lemma ExhaustedMeans(log: seq<ModelCall>, env: Env, lastUser: string)
    ensures TraceOf(log, env, lastUser).outcome.MaxIterationsExhausted? ==> !Finished(log) && !GaveLlmError(log)
  {
  }

  lemma NothingMade(env: Env)
    ensures Events(AllCalls([]), env) == [] && ReplyCount([]) == 0
  {
  }

  lemma LegalFollows(log: seq<ModelCall>, env: Env, given: seq<Msg>, haveTools: bool)
    requires LegalLog(log, env, given, haveTools)
    ensures FollowsAll(log, env, given, haveTools)
  {
    hide Follows, CallsBefore, LegalAt, Transcript, RetryCount;
    if log != [] {
      FirstCall(log, env, given, haveTools);
    }
    forall k | 0 <= k < |log|
      ensures log[k].reply == env.llm(k)
    {
      assert LegalAt(log, k, env, given, haveTools);
      GotReply(log, k, env, given, haveTools);
    }
    forall k {:trigger CallsBefore(log, k)} | 0 <= k < |log| - 1
      ensures Follows(log[k], log[k + 1], env, CallsBefore(log, k))
    {
      assert LegalAt(log, k, env, given, haveTools) && LegalAt(log, k + 1, env, given, haveTools);
      NextFollows(log, k, env, given, haveTools);
    }
  }

  lemma FirstCall(log: seq<ModelCall>, env: Env, given: seq<Msg>, haveTools: bool)
    requires log != [] && LegalLog(log, env, given, haveTools)
    ensures log[0].messages == given && log[0].withTools == haveTools
  {
    assert LegalAt(log, 0, env, given, haveTools);
    assert log[..0] == [];
  }

  lemma GotReply(log: seq<ModelCall>, k: nat, env: Env, given: seq<Msg>, haveTools: bool)
    requires k < |log| && LegalAt(log, k, env, given, haveTools)
    ensures log[k].reply == env.llm(k)
  {
  }

  lemma NextFollows(log: seq<ModelCall>, k: nat, env: Env, given: seq<Msg>, haveTools: bool)
    requires k + 1 < |log| && LegalAt(log, k, env, given, haveTools) && LegalAt(log, k + 1, env, given, haveTools)
    ensures Follows(log[k], log[k + 1], env, CallsBefore(log, k))
  {
    hide Transcript, RetryCount, AllCalls, CallsBefore, Follows, Block;
    CallsBeforeIs(log, k);
    Extended(log[..k], log[k], env);
    assert log[..k] + [log[k]] == log[..k + 1];
    var c, d := log[k], log[k + 1];
    var block := Block(c, env, CallsBefore(log, k));
    assert d.messages == c.messages + block by {
      Regroup3(given, Transcript(log[..k], env), block);
    }
    if c.reply.Content? {
      ReplyFollows(c, d, env, CallsBefore(log, k));
    } else {
      RejectionFollows(c, d, env, CallsBefore(log, k));
    }
  }

  lemma Regroup3<T>(a: seq<T>, b: seq<T>, c: seq<T>)
    ensures (a + b) + c == a + (b + c)
  {
  }

  lemma ReplyFollows(c: ModelCall, d: ModelCall, env: Env, from: nat)
    requires c.reply.Content? && c.reply.calls != [] && d.withTools == c.withTools
    requires d.messages == c.messages + Block(c, env, from)
    ensures Follows(c, d, env, from)
  {
    hide ToolMsgs;
    HeadAndTail(c.messages, AssistantCalls(c.reply.text, c.reply.calls), ToolMsgs(c.reply.calls, env, from));
  }

  lemma HeadAndTail<T>(front: seq<T>, head: T, tail: seq<T>)
    ensures var whole, n := front + ([head] + tail), |front|;
            && |whole| == n + 1 + |tail| && whole[..n] == front && whole[n] == head
            && forall j :: 0 <= j < |tail| ==> whole[n + 1 + j] == tail[j]
  {
  }

  lemma RejectionFollows(c: ModelCall, d: ModelCall, env: Env, from: nat)
    requires ToolsRejected(c) && !d.withTools && d.messages == c.messages + Block(c, env, from)
    ensures Follows(c, d, env, from)
  {
  }

  // ---------- the imperative code ----------

  /** The inner loop over the calls of one reply; `from` tool calls have been made before. */
  method ExecuteCalls(calls: seq<Call>, env: Env, from: nat)
    returns (answers: seq<Msg>, events: seq<ToolEvent>, raised: bool)
    ensures raised <==> exists i :: from <= i < from + |calls| && env.tool(i).Raises?
    ensures !raised ==> answers == ToolMsgs(calls, env, from) && EventsFrom(calls, env, from, events)
  {
    answers, events, raised := [], [], false;
    var i := 0;
    while i < |calls|
      invariant 0 <= i <= |calls| && |answers| == |events| == i
      invariant forall k :: from <= k < from + i ==> !env.tool(k).Raises?
      invariant forall k :: 0 <= k < i ==>
        && answers[k] == ToolMsg(calls[k].id, ContentOf(env.tool(from + k)))
        && events[k] == ToolEvent(calls[k].name, IsErrorOf(env.tool(from + k)))
    {
      match env.tool(from + i) {
        case Raises =>
          raised := true;
          return;
        case ToolResult(content, isError) =>
          events := events + [ToolEvent(calls[i].name, isError)];
          answers := answers + [ToolMsg(calls[i].id, content)];
      }
      i := i + 1;
    }
  }

  /** run_agent once the provider is loaded and the prompt is assembled. `log` lists the model calls made. */
  method RunAgent(env: Env, lastUser: string, given: seq<Msg>, cfg: Option<int>, haveTools: bool)
    returns (result: Result, traces: seq<Trace>, log: seq<ModelCall>)
    // Bounded: at most max_iter model calls, at most one of them a retry without tools.
    ensures |log| <= MaxIterations(cfg)
    ensures LegalLog(log, env, given, haveTools) && RetryCount(log) <= 1
    // At every model call the appended part of the messages is well formed.
    ensures forall k {:trigger log[k]} :: 0 <= k < |log| ==>
      given <= log[k].messages && WellFormed(log[k].messages[|given|..])
    // Exactly one trace, and it tells what happened, unless something other than an LLMError was raised.
    ensures result != RaisedOther ==> NothingRaised(log, env)
    ensures result == RaisedOther ==> traces == [] && log != [] && (log[|log| - 1].reply.Crash? || ToolRaised(log, env))
    ensures result != RaisedOther ==>
      && traces == [TraceOf(log, env, lastUser)]
      && result == ResultOf(log, env, lastUser)
    ensures result != RaisedOther ==> Tells(log, env, lastUser, result, traces[0])
    // Each model call follows from the one before.
    ensures FollowsAll(log, env, given, haveTools)
    // It stops early only for a reason.
    ensures result != RaisedOther && traces[0].outcome.IngressBlocked? ==> log == []
    ensures result != RaisedOther && !Finished(log) && !GaveLlmError(log) && log != [] ==> |log| == MaxIterations(cfg)
    ensures result != RaisedOther && traces[0].outcome.MaxIterationsExhausted? ==> |log| == MaxIterations(cfg)
    ensures result != RaisedOther && log == [] ==> lastUser != "" && !env.ingressSafe
  {
    hide LoopInv, Ended, LegalLog, NothingRaised, RetryCount, WellFormed, TraceOf, ResultOf, ToolRaised, FinalText;
    hide Tells, FollowsAll, OutcomeOf;
    traces, log := [], [];
    if lastUser != "" && !env.ingressSafe {
      result, traces, log := BlockedAtIngress(env, lastUser, given, haveTools);
      LegalFollows(log, env, given, haveTools);
      TraceTells(log, env, lastUser);
      return;
    }
    var maxIter := MaxIterations(cfg);
    var vars := LoopVars(given, haveTools, [], 0, None);
    StartsLegal(env, given, haveTools, vars);
    var iteration := 0;
    while iteration < maxIter
      invariant 0 <= iteration <= maxIter && |log| == iteration
      invariant LoopInv(log, env, given, haveTools, vars)
    {
      var call, stop;
      vars, call, stop := Turn(env, lastUser, iteration, vars, log, given, haveTools);
      log := log + [call];
      if stop.Some? {
        ExhaustedMeans(log, env, lastUser);
        EndedMeans(log, env, lastUser, given, haveTools, stop.value.0, stop.value.1);
        LegalFollows(log, env, given, haveTools);
        TraceTells(log, env, lastUser);
        return stop.value.0, stop.value.1, log;
      }
      iteration := iteration + 1;
    }
    LoopInvMeans(log, env, given, haveTools, vars);
    LegalFollows(log, env, given, haveTools);
    TraceTells(log, env, lastUser);
    var trace;
    result, trace := Exhaust(env, lastUser, vars, log, given);
    traces := [trace];
  }

  /** The local variables of the loop. */
  datatype LoopVars = LoopVars(messages: seq<Msg>, useTools: bool, toolEvents: seq<ToolEvent>, iterationsDone: nat,
                               lastContent: Option<string>)

  method BlockedAtIngress(env: Env, lastUser: string, given: seq<Msg>, haveTools: bool)
    returns (result: Result, traces: seq<Trace>, log: seq<ModelCall>)
    requires lastUser != "" && !env.ingressSafe
    ensures log == [] && LegalLog(log, env, given, haveTools) && RetryCount(log) <= 1 && NothingRaised(log, env)
    ensures traces == [TraceOf(log, env, lastUser)] && result == ResultOf(log, env, lastUser) == Blocked
    ensures traces[0].outcome == IngressBlocked
  {
    log := [];
    traces := [Trace(IngressBlocked, [], 0, "")];
    result := Blocked;
  }

  /** One iteration of the loop: one model call and what follows from it. */
  method Turn(env: Env, lastUser: string, iteration: nat, vars: LoopVars,
              ghost log: seq<ModelCall>, ghost given: seq<Msg>, ghost haveTools: bool)
    returns (next: LoopVars, call: ModelCall, stop: Option<(Result, seq<Trace>)>)
    requires iteration == |log| && LoopInv(log, env, given, haveTools, vars)
    requires lastUser == "" || env.ingressSafe
    ensures stop.None? ==> LoopInv(log + [call], env, given, haveTools, next)
    ensures stop.Some? ==> Ended(log + [call], env, lastUser, given, haveTools, stop.value.0, stop.value.1)
  {
    hide LegalLog, NothingRaised, RetryCount, InStep, WellFormed, TraceOf, ResultOf, AllCalls, ToolRaised, Transcript;
    hide Ended, LoopInv, GoesOn;
    var reply := env.llm(iteration);
    call := ModelCall(vars.messages, vars.useTools, reply);
    next, stop := vars, None;
    CallIsLegal(log, call, env, given, haveTools, vars);
    match reply {
      case Crash =>
        stop := Some((RaisedOther, []));
        EndsRaised(log, call, env, lastUser, given, haveTools);
      case LlmError(mentionsTool) =>
        if vars.useTools && mentionsTool {
          next := vars.(useTools := false);
          RetriesWithoutTools(log, call, env, given, haveTools, vars);
        } else {
          stop := Some((RaisedLlmError, [Trace(LlmFailure, vars.toolEvents, vars.iterationsDone, "")]));
          EndsInFailure(log, call, env, lastUser, given, haveTools, vars);
        }
      case Content(text, calls) =>
        LoopInvParts(log, env, given, haveTools, vars);
        next, stop := UseReply(env, lastUser, vars, call, log, given);
        if stop.None? {
          GoesOnAfterReply(log, call, env, given, haveTools, vars, next);
        } else if stop.value.0.RaisedOther? {
          EndsRaised(log, call, env, lastUser, given, haveTools);
        } else {
          EndsInReply(log, call, env, lastUser, given, haveTools);
        }
    }
  }

  lemma LoopInvParts(log: seq<ModelCall>, env: Env, given: seq<Msg>, haveTools: bool, vars: LoopVars)
    requires LoopInv(log, env, given, haveTools, vars)
    ensures InStep(log, env, given, vars) && NothingRaised(log, env)
  {
  }

  lemma CallIsLegal(log: seq<ModelCall>, c: ModelCall, env: Env, given: seq<Msg>, haveTools: bool, vars: LoopVars)
    requires LoopInv(log, env, given, haveTools, vars) && c == ModelCall(vars.messages, vars.useTools, env.llm(|log|))
    ensures LegalLog(log + [c], env, given, haveTools)
  {
    hide LegalLog, NothingRaised, RetryCount, Transcript;
    InStepMeans(log, env, given, vars);
    LegalExtend(log, c, env, given, haveTools);
  }

  lemma EndsRaised(log: seq<ModelCall>, c: ModelCall, env: Env, lastUser: string, given: seq<Msg>, haveTools: bool)
    requires LegalLog(log + [c], env, given, haveTools) && (c.reply.Crash? || ToolRaised(log + [c], env))
    ensures Ended(log + [c], env, lastUser, given, haveTools, RaisedOther, [])
  {
  }

  lemma EndsInReply(log: seq<ModelCall>, c: ModelCall, env: Env, lastUser: string, given: seq<Msg>, haveTools: bool)
    requires LegalLog(log + [c], env, given, haveTools) && NothingRaised(log + [c], env)
    requires c.reply.Content? && c.reply.calls == [] && (lastUser == "" || env.ingressSafe)
    requires !ResultOf(log + [c], env, lastUser).RaisedOther?
    ensures Ended(log + [c], env, lastUser, given, haveTools,
                      ResultOf(log + [c], env, lastUser), [TraceOf(log + [c], env, lastUser)])
  {
  }

  lemma RetriesWithoutTools(log: seq<ModelCall>, c: ModelCall, env: Env, given: seq<Msg>,
                            haveTools: bool, vars: LoopVars)
    requires LoopInv(log, env, given, haveTools, vars) && LegalLog(log + [c], env, given, haveTools) && ToolsRejected(c)
    ensures LoopInv(log + [c], env, given, haveTools, vars.(useTools := false))
  {
    hide LegalLog, NothingRaised, RetryCount, InStep;
    QuietCall(log, c, env, given, vars, false);
    Extended(log, c, env);
  }

  lemma EndsInFailure(log: seq<ModelCall>, c: ModelCall, env: Env, lastUser: string, given: seq<Msg>,
                      haveTools: bool, vars: LoopVars)
    requires LoopInv(log, env, given, haveTools, vars) && LegalLog(log + [c], env, given, haveTools)
    requires c.reply.LlmError? && !ToolsRejected(c) && (lastUser == "" || env.ingressSafe)
    ensures Ended(log + [c], env, lastUser, given, haveTools, RaisedLlmError,
                  [Trace(LlmFailure, vars.toolEvents, vars.iterationsDone, "")])
  {
    hide LegalLog, NothingRaised, RetryCount, InStep, ResultOf, TraceOf;
    QuietCall(log, c, env, given, vars, vars.useTools);
    FailureTrace(log + [c], env, lastUser, given, vars);
    NotIngress(log + [c], env, lastUser);
  }

  lemma GoesOnAfterReply(log: seq<ModelCall>, c: ModelCall, env: Env, given: seq<Msg>,
                         haveTools: bool, vars: LoopVars, next: LoopVars)
    requires LoopInv(log, env, given, haveTools, vars) && LegalLog(log + [c], env, given, haveTools)
    requires c.reply.Content? && c.reply.calls != [] && next.useTools == vars.useTools
    requires NothingRaised(log + [c], env) && InStep(log + [c], env, given, next)
    ensures LoopInv(log + [c], env, given, haveTools, next)
  {
    hide LegalLog, NothingRaised, RetryCount, InStep;
    Extended(log, c, env);
  }

  lemma NotIngress(log: seq<ModelCall>, env: Env, lastUser: string)
    requires lastUser == "" || env.ingressSafe
    ensures !OutcomeOf(log, env, lastUser).IngressBlocked?
  {
  }

  /** What follows from a reply: conclude, or execute its tool calls. */
  method UseReply(env: Env, lastUser: string, vars: LoopVars, call: ModelCall,
                  ghost log: seq<ModelCall>, ghost given: seq<Msg>)
    returns (next: LoopVars, stop: Option<(Result, seq<Trace>)>)
    requires call.reply.Content? && InStep(log, env, given, vars) && NothingRaised(log, env)
    requires lastUser == "" || env.ingressSafe
    ensures stop.None? ==>
      && call.reply.calls != [] && next.useTools == vars.useTools
      && NothingRaised(log + [call], env) && InStep(log + [call], env, given, next)
    ensures stop.Some? && stop.value.0.RaisedOther? ==> stop.value.1 == [] && ToolRaised(log + [call], env)
    ensures stop.Some? && !stop.value.0.RaisedOther? ==>
      && call.reply.calls == [] && NothingRaised(log + [call], env)
      && stop.value.1 == [TraceOf(log + [call], env, lastUser)]
      && stop.value.0 == ResultOf(log + [call], env, lastUser)
      && Tells(log + [call], env, lastUser, stop.value.0, stop.value.1[0])
  {
    hide Tells, NothingRaised, InStep, TraceOf, ResultOf, AllCalls, ToolRaised, Transcript;
    var text, calls := call.reply.text, call.reply.calls;
    next, stop := vars.(iterationsDone := vars.iterationsDone + 1), None;
    if text != "" {
      next := next.(lastContent := Some(text));
    }
    if calls == [] {
      QuietCall(log, call, env, given, vars, vars.useTools);
      var result, trace := Conclude(env, lastUser, text, next, log + [call], given);
      stop := Some((result, [trace]));
    } else {
      InStepMeans(log, env, given, vars);
      var answers, events, raised := ExecuteCalls(calls, env, |vars.toolEvents|);
      if raised {
        RaisedCall(log, call, env, |vars.toolEvents|);
        stop := Some((RaisedOther, []));
      } else {
        StillNothingRaised(log, call, env);
        RepliedCall(log, call, env, given, vars, answers, events);
        next := next.(messages := vars.messages + [AssistantCalls(text, calls)] + answers,
                      toolEvents := vars.toolEvents + events);
      }
    }
  }

  ghost predicate LoopInv(log: seq<ModelCall>, env: Env, given: seq<Msg>, haveTools: bool, vars: LoopVars) {
    && LegalLog(log, env, given, haveTools) && NothingRaised(log, env) && GoesOn(log)
    && vars.useTools == (haveTools && RetryCount(log) == 0)
    && InStep(log, env, given, vars)
  }

  /** The turn is over, with this result and these traces. */
  ghost predicate Ended(log: seq<ModelCall>, env: Env, lastUser: string, given: seq<Msg>, haveTools: bool,
                        result: Result, traces: seq<Trace>) {
    && LegalLog(log, env, given, haveTools) && log != []
    && if result.RaisedOther? then
         traces == [] && (log[|log| - 1].reply.Crash? || ToolRaised(log, env))
       else
         && NothingRaised(log, env) && (Finished(log) || GaveLlmError(log))
         && traces == [TraceOf(log, env, lastUser)] && result == ResultOf(log, env, lastUser)
         && !OutcomeOf(log, env, lastUser).IngressBlocked?
  }

  lemma StartsLegal(env: Env, given: seq<Msg>, haveTools: bool, vars: LoopVars)
    requires vars == LoopVars(given, haveTools, [], 0, None)
    ensures LoopInv([], env, given, haveTools, vars)
  {
  }

  lemma EndedMeans(log: seq<ModelCall>, env: Env, lastUser: string, given: seq<Msg>, haveTools: bool,
                   result: Result, traces: seq<Trace>)
    requires Ended(log, env, lastUser, given, haveTools, result, traces)
    ensures LegalLog(log, env, given, haveTools) && RetryCount(log) <= 1 && log != []
    ensures forall k {:trigger log[k]} :: 0 <= k < |log| ==>
      given <= log[k].messages && WellFormed(log[k].messages[|given|..])
    ensures result != RaisedOther ==>
      && NothingRaised(log, env) && (Finished(log) || GaveLlmError(log))
      && traces == [TraceOf(log, env, lastUser)] && result == ResultOf(log, env, lastUser)
      && !traces[0].outcome.IngressBlocked?
    ensures result == RaisedOther ==> traces == [] && (log[|log| - 1].reply.Crash? || ToolRaised(log, env))
  {
    hide RetryCount, WellFormed, LegalLog, FinalText, ToolRaised, NothingRaised;
    AllWellFormed(log, env, given, haveTools);
  }

  lemma LoopInvMeans(log: seq<ModelCall>, env: Env, given: seq<Msg>, haveTools: bool, vars: LoopVars)
    requires LoopInv(log, env, given, haveTools, vars)
    ensures LegalLog(log, env, given, haveTools) && RetryCount(log) <= 1 && NothingRaised(log, env)
    ensures GoesOn(log) && InStep(log, env, given, vars)
    ensures forall k {:trigger log[k]} :: 0 <= k < |log| ==>
      given <= log[k].messages && WellFormed(log[k].messages[|given|..])
  {
    AllWellFormed(log, env, given, haveTools);
  }

  /** The loop variables agree with the model calls made so far. */
  ghost predicate InStep(log: seq<ModelCall>, env: Env, given: seq<Msg>, vars: LoopVars) {
    && vars.messages == given + Transcript(log, env)
    && vars.toolEvents == Events(AllCalls(log), env)
    && vars.iterationsDone == ReplyCount(log) && vars.lastContent == LastContent(log)
  }

  /** The last model call neither finished nor failed the turn. */
  predicate GoesOn(log: seq<ModelCall>) {
    log != [] ==> CallsOf(log[|log| - 1]) != [] || ToolsRejected(log[|log| - 1])
  }

  lemma InStepMeans(log: seq<ModelCall>, env: Env, given: seq<Msg>, vars: LoopVars)
    requires InStep(log, env, given, vars)
    ensures vars.messages == given + Transcript(log, env) && |vars.toolEvents| == |AllCalls(log)|
  {
  }

  /** A model call without tool calls leaves messages and events as they are. */
  lemma QuietCall(log: seq<ModelCall>, c: ModelCall, env: Env, given: seq<Msg>, vars: LoopVars, useTools: bool)
    requires InStep(log, env, given, vars) && NothingRaised(log, env) && !c.reply.Crash? && CallsOf(c) == []
    ensures NothingRaised(log + [c], env)
    ensures
      InStep(log + [c], env, given, LoopVars(vars.messages, useTools, vars.toolEvents,
             vars.iterationsDone + if c.reply.Content? then 1 else 0,
             if c.reply.Content? && c.reply.text != "" then Some(c.reply.text) else vars.lastContent))
  {
    hide Transcript, AllCalls, ReplyCount, LastContent;
    Extended(log, c, env);
    StillNothingRaised(log, c, env);
    assert AllCalls(log) + [] == AllCalls(log);
    assert Transcript(log, env) + [] == Transcript(log, env);
  }

  lemma RaisedCall(log: seq<ModelCall>, c: ModelCall, env: Env, from: nat)
    requires from == |AllCalls(log)| && c.reply.Content?
    requires exists i :: from <= i < from + |c.reply.calls| && env.tool(i).Raises?
    ensures ToolRaised(log + [c], env)
  {
  }

  /** A model call with tool calls extends messages and events by what ExecuteCalls returned. */
  lemma RepliedCall(log: seq<ModelCall>, c: ModelCall, env: Env, given: seq<Msg>, vars: LoopVars,
                    answers: seq<Msg>, events: seq<ToolEvent>)
    requires InStep(log, env, given, vars) && c.reply.Content? && c.reply.calls != []
    requires answers == ToolMsgs(c.reply.calls, env, |vars.toolEvents|)
    requires EventsFrom(c.reply.calls, env, |vars.toolEvents|, events)
    ensures InStep(log + [c], env, given,
                   LoopVars(vars.messages + [AssistantCalls(c.reply.text, c.reply.calls)] + answers, vars.useTools,
                            vars.toolEvents + events, vars.iterationsDone + 1,
                            if c.reply.text != "" then Some(c.reply.text) else vars.lastContent))
  {
    hide Transcript, AllCalls, ReplyCount, LastContent, ToolMsgs, EventsFrom, Events, Block;
    Extended(log, c, env);
    RepliedMessages(log, c, env, given, vars, answers);
    RepliedEvents(log, c, env, given, vars, events);
  }

  lemma RepliedMessages(log: seq<ModelCall>, c: ModelCall, env: Env, given: seq<Msg>, vars: LoopVars, answers: seq<Msg>)
    requires InStep(log, env, given, vars) && c.reply.Content? && c.reply.calls != []
    requires answers == ToolMsgs(c.reply.calls, env, |vars.toolEvents|)
    ensures vars.messages + [AssistantCalls(c.reply.text, c.reply.calls)] + answers
            == given + Transcript(log + [c], env)
  {
    hide Transcript, AllCalls, ReplyCount, LastContent, ToolMsgs, Events;
    Extended(log, c, env);
    InStepMeans(log, env, given, vars);
    var before := Transcript(log, env);
    var head := [AssistantCalls(c.reply.text, c.reply.calls)];
    assert Transcript(log + [c], env) == before + (head + answers);
    Regroup(given, before, head, answers);
  }

  lemma Regroup<T>(a: seq<T>, b: seq<T>, c: seq<T>, d: seq<T>)
    ensures a + b + c + d == a + (b + (c + d))
  {
  }

  lemma RepliedEvents(log: seq<ModelCall>, c: ModelCall, env: Env, given: seq<Msg>, vars: LoopVars,
                      events: seq<ToolEvent>)
    requires InStep(log, env, given, vars) && c.reply.Content?
    requires EventsFrom(c.reply.calls, env, |vars.toolEvents|, events)
    ensures vars.toolEvents + events == Events(AllCalls(log + [c]), env)
  {
    hide Transcript, AllCalls, ReplyCount, LastContent, EventsFrom;
    Extended(log, c, env);
    InStepMeans(log, env, given, vars);
    EventsExtend(AllCalls(log), c.reply.calls, env, events, |vars.toolEvents|);
  }

  lemma FailureTrace(log: seq<ModelCall>, env: Env, lastUser: string, given: seq<Msg>, vars: LoopVars)
    requires InStep(log, env, given, vars) && GaveLlmError(log) && (lastUser == "" || env.ingressSafe)
    ensures TraceOf(log, env, lastUser) == Trace(LlmFailure, vars.toolEvents, vars.iterationsDone, "")
    ensures ResultOf(log, env, lastUser) == RaisedLlmError
  {
  }

  /** The turn ends with a reply that asks for no tool. */
  method Conclude(env: Env, lastUser: string, text: string, vars: LoopVars,
                  ghost log: seq<ModelCall>, ghost given: seq<Msg>)
    returns (result: Result, trace: Trace)
    requires Finished(log) && log[|log| - 1].reply.text == text
    requires InStep(log, env, given, vars) && (lastUser == "" || env.ingressSafe)
    ensures trace == TraceOf(log, env, lastUser) && result == ResultOf(log, env, lastUser) && result != RaisedOther
    ensures Tells(log, env, lastUser, result, trace)
  {
    hide Transcript, AllCalls, ReplyCount, LastContent, Strip, Tells;
    TraceTells(log, env, lastUser);
    var final := Strip(text, BLANKS);
    if final == "" && vars.lastContent.Some? {
      final := Strip(vars.lastContent.value, BLANKS);
    }
    if final == "" {
      final := EMPTY_ANSWER;
    }
    assert final == FinalText(log);
    if !env.egressSafe(final) {
      return Blocked, Trace(EgressBlocked, vars.toolEvents, vars.iterationsDone, final);
    }
    var outcome := if vars.toolEvents != [] then CompletedWithTools else CompletedNoTools;
    return Returned(final), Trace(outcome, vars.toolEvents, vars.iterationsDone, final);
  }

  /** The loop ran out of iterations. */
  method Exhaust(env: Env, lastUser: string, vars: LoopVars, ghost log: seq<ModelCall>, ghost given: seq<Msg>)
    returns (result: Result, trace: Trace)
    requires GoesOn(log) && InStep(log, env, given, vars) && (lastUser == "" || env.ingressSafe)
    ensures trace == TraceOf(log, env, lastUser) && result == ResultOf(log, env, lastUser) && result != RaisedOther
    ensures Tells(log, env, lastUser, result, trace) && !trace.outcome.IngressBlocked?
  {
    hide Transcript, AllCalls, ReplyCount, LastContent, Strip, Tells;
    TraceTells(log, env, lastUser);
    var final := if vars.lastContent.Some? then vars.lastContent.value else NO_ANSWER;
    assert final == FinalText(log);
    if !env.egressSafe(final) {
      return Blocked, Trace(EgressBlocked, vars.toolEvents, vars.iterationsDone, final);
    }
    return Returned(final), Trace(MaxIterationsExhausted, vars.toolEvents, vars.iterationsDone, final);
  }

  /** The events of `calls`, the first of which is tool call number `from`. */
  predicate EventsFrom(calls: seq<Call>, env: Env, from: nat, events: seq<ToolEvent>) {
    && |events| == |calls|
    && forall i :: 0 <= i < |calls| ==> events[i] == ToolEvent(calls[i].name, IsErrorOf(env.tool(from + i)))
  }

  lemma EventsExtend(a: seq<Call>, b: seq<Call>, env: Env, events: seq<ToolEvent>, from: nat)
    requires from == |a| && EventsFrom(b, env, from, events)
    ensures Events(a + b, env) == Events(a, env) + events
  {
  }

  lemma StillNothingRaised(log: seq<ModelCall>, c: ModelCall, env: Env)
    requires NothingRaised(log, env) && !c.reply.Crash?
    requires forall i :: |AllCalls(log)| <= i < |AllCalls(log)| + |CallsOf(c)| ==> !env.tool(i).Raises?
    ensures NothingRaised(log + [c], env)
  {
  }

  /** In a legal log every model call saw well-formed messages, and there was at most one retry. */
  lemma {:induction false} AllWellFormed(log: seq<ModelCall>, env: Env, given: seq<Msg>, haveTools: bool)
    requires LegalLog(log, env, given, haveTools)
    ensures RetryCount(log) <= 1
    ensures forall k {:trigger log[k]} :: 0 <= k < |log| ==>
      given <= log[k].messages && WellFormed(log[k].messages[|given|..])
  {
    AtMostOneRetry(log, env, given, haveTools);
    forall k {:trigger log[k]} | 0 <= k < |log|
      ensures given <= log[k].messages && WellFormed(log[k].messages[|given|..])
    {
      assert LegalAt(log, k, env, given, haveTools);
      TranscriptWellFormed(log[..k], env);
      assert log[k].messages[|given|..] == Transcript(log[..k], env);
    }
  }
}
