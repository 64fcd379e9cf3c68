/** The `on_message` handler of bot.py (lines 41-121): which messages it answers,
    what it asks the completion provider, which messages it sends back to the
    channel, in which order, and whether the message then goes on to command
    processing.

    The two external services are inputs: the provider's outcome is a
    `Completion`, and the chat platform's refusals are the set `rejected` of the
    send attempts (numbered from 0 within one handler call) that raise. */
module Router {
  import opened PyStr
  import opened Question
  import opened Chunking

  datatype Option<T> = None | Some(value: T)

  /** What the handler reads of a message event: whether `message.author == bot.user`,
      whether `bot.user.mentioned_in(message)`, and `message.content`. */
  datatype Inbound = Inbound(fromBot: bool, mentionsBot: bool, content: string)

  /** The outcome of `groq_client.chat.completions.create(...)` followed by reading
      `choices[0].message.content`: the reply text, or any exception on the way. */
  datatype Completion = Reply(text: string) | Failed

  /** One call of `message.channel.send(text)`, and whether the platform accepted it. */
  datatype Attempt = Attempt(text: string, delivered: bool)

  /** Everything one handler call does that can be observed: the send attempts in
      order, the question put to the provider (if it is called), and whether
      `bot.process_commands(message)` runs. */
  datatype Effects = Effects(attempts: seq<Attempt>, request: Option<string>, processesCommands: bool)

  const Greeting := "¡Hola! Soy Toromax 🤖. Hazme una pregunta mencionándome."
  const ConfigError := "❌ El bot no está configurado correctamente. Falta la API key."
  const Apology := "❌ Lo siento, hubo un error al procesar tu pregunta. Por favor intenta de nuevo."

  predicate AllDelivered(a: seq<Attempt>) {
    forall i | 0 <= i < |a| :: a[i].delivered
  }

  /** The texts of the attempts, in order. */
  function Texts(a: seq<Attempt>): (ts: seq<string>)
    ensures |ts| == |a| && forall i | 0 <= i < |a| :: ts[i] == a[i].text
  {
    seq(|a|, i requires 0 <= i < |a| => a[i].text)
  }

  /** `a` is what trying `msgs` in order, with attempts numbered from `next`, gives:
      the messages are tried in order, each delivered unless its number is refused,
      and the first refusal ends the run. */
  predicate TriedInOrder(msgs: seq<string>, rejected: set<nat>, next: nat, a: seq<Attempt>) {
    |a| <= |msgs|
    && (forall i | 0 <= i < |a| :: a[i].text == msgs[i] && (a[i].delivered <==> next + i !in rejected))
    && (forall i | 0 <= i < |a| - 1 :: a[i].delivered)
    && (|a| < |msgs| ==> a != [] && !a[|a| - 1].delivered)
  }

  /** `for chunk in chunks: await message.channel.send(chunk)`, with attempts numbered
      from `next`: the messages are tried in order until the first one the platform
      refuses, whose exception ends the loop. */
  function SendInOrder(msgs: seq<string>, rejected: set<nat>, next: nat): (a: seq<Attempt>)
    ensures TriedInOrder(msgs, rejected, next, a)
    decreases |msgs|
  {
    if msgs == [] then []
    else if next in rejected then [Attempt(msgs[0], false)]
    else
      var rest := SendInOrder(msgs[1..], rejected, next + 1);
      DeliveredThenRest(msgs, rejected, next, rest);
      [Attempt(msgs[0], true)] + rest
  }

  /** A delivered first message followed by the run over the others is a run over all. */
  lemma DeliveredThenRest(msgs: seq<string>, rejected: set<nat>, next: nat, rest: seq<Attempt>)
    requires msgs != [] && next !in rejected
    requires TriedInOrder(msgs[1..], rejected, next + 1, rest)
    ensures TriedInOrder(msgs, rejected, next, [Attempt(msgs[0], true)] + rest)
  {
    var a := [Attempt(msgs[0], true)] + rest;
    forall i | 1 <= i < |a| ensures a[i].text == msgs[i] && (a[i].delivered <==> next + i !in rejected) {
      assert a[i] == rest[i - 1];
    }
  }

  /** The inner `try` of lines 65-114: send the reply as `Replies` cuts it; if the
      provider failed, or a send of the reply raised, send the apology next. */
  function Answer(completion: Completion, rejected: set<nat>): seq<Attempt> {
    match completion
    case Failed => [Attempt(Apology, 0 !in rejected)]
    case Reply(t) =>
      var sent := SendInOrder(Replies(t), rejected, 0);
      if AllDelivered(sent) then sent else sent + [Attempt(Apology, |sent| !in rejected)]
  }

  /** The block under `if bot.user.mentioned_in(message):` (lines 48-118) for a
      message from someone else. A refused greeting or configuration-error send ends
      the call either way (caught, or raised out of the handler), so neither falls
      through to `process_commands`; a refused apology is caught by the outer `try`
      and command processing still runs. */
  function HandleMention(content: string, botId: nat, hasClient: bool, completion: Completion,
                         rejected: set<nat>): Effects
  {
    var question := ExtractQuestion(content, botId);
    if question == [] then Effects([Attempt(Greeting, 0 !in rejected)], None, false)
    else if !hasClient then Effects([Attempt(ConfigError, 0 !in rejected)], None, false)
    else Effects(Answer(completion, rejected), Some(question), true)
  }

  /** One call of `on_message`, as a function of the message, the bot's id, whether a
      provider client was configured, the provider's outcome and the platform's
      refusals. */
  function Handle(m: Inbound, botId: nat, hasClient: bool, completion: Completion,
                  rejected: set<nat>): Effects
  {
    if m.fromBot then Effects([], None, false)
    else if !m.mentionsBot then Effects([], None, true)
    else HandleMention(m.content, botId, hasClient, completion, rejected)
  }

  // ---------------------------------------------------------------------------
  // What a handler call promises

  /** The bot's own messages are ignored: nothing is sent, the provider is not
      called and command processing does not run. */
  lemma OwnMessageIgnored(m: Inbound, botId: nat, hasClient: bool, completion: Completion,
                          rejected: set<nat>)
    requires m.fromBot
    ensures Handle(m, botId, hasClient, completion, rejected) == Effects([], None, false)
  {
  }

  /** A mention with nothing else to say gets exactly one greeting, no provider call,
      and no command processing. */
  lemma EmptyQuestionGreets(m: Inbound, botId: nat, hasClient: bool, completion: Completion,
                            rejected: set<nat>)
    requires !m.fromBot && m.mentionsBot && ExtractQuestion(m.content, botId) == []
    ensures var e := Handle(m, botId, hasClient, completion, rejected);
      Texts(e.attempts) == [Greeting] && e.request == None && !e.processesCommands
  {
  }

  /** A question without a configured provider client gets exactly one
      configuration-error message, no provider call, and no command processing. */
  lemma MissingClientReported(m: Inbound, botId: nat, completion: Completion, rejected: set<nat>)
    requires !m.fromBot && m.mentionsBot && ExtractQuestion(m.content, botId) != []
    ensures var e := Handle(m, botId, false, completion, rejected);
      Texts(e.attempts) == [ConfigError] && e.request == None && !e.processesCommands
  {
  }

  /** The provider is called exactly for a non-empty question to the bot from
      someone else when a client is configured, and it is asked exactly that
      question, which has no surrounding whitespace. */
  lemma ProviderAskedTheQuestion(m: Inbound, botId: nat, hasClient: bool,
                                 completion: Completion, rejected: set<nat>)
    ensures var e := Handle(m, botId, hasClient, completion, rejected);
      var q := ExtractQuestion(m.content, botId);
      (e.request.Some? <==> !m.fromBot && m.mentionsBot && q != [] && hasClient)
      && (e.request.Some? ==> e.request.value == q && !IsSpace(q[0]) && !IsSpace(q[|q| - 1]))
  {
    if !m.fromBot && m.mentionsBot {
      var q := ExtractQuestion(m.content, botId);
      var e := HandleMention(m.content, botId, hasClient, completion, rejected);
      assert e.request == if q != [] && hasClient then Some(q) else None;
    }
  }

  /** Command processing runs, once, exactly for a message from someone else that
      either does not mention the bot or reaches the provider call. */
  lemma CommandsRunOnFallThrough(m: Inbound, botId: nat, hasClient: bool,
                                 completion: Completion, rejected: set<nat>)
    ensures Handle(m, botId, hasClient, completion, rejected).processesCommands
      <==> !m.fromBot && (!m.mentionsBot || (ExtractQuestion(m.content, botId) != [] && hasClient))
  {
  }

  /** A message that does not mention the bot only goes on to command processing. */
  lemma UnmentionedOnlyCommands(m: Inbound, botId: nat, hasClient: bool,
                                completion: Completion, rejected: set<nat>)
    requires !m.fromBot && !m.mentionsBot
    ensures Handle(m, botId, hasClient, completion, rejected) == Effects([], None, true)
  {
  }

  /** Whether a call reaches the provider. */
  predicate Asks(m: Inbound, botId: nat, hasClient: bool) {
    !m.fromBot && m.mentionsBot && ExtractQuestion(m.content, botId) != [] && hasClient
  }

  /** A call that reaches the provider sends what `Answer` sends. */
  lemma AskedCallAnswers(m: Inbound, botId: nat, hasClient: bool, completion: Completion,
                         rejected: set<nat>)
    requires Asks(m, botId, hasClient)
    ensures Handle(m, botId, hasClient, completion, rejected).attempts == Answer(completion, rejected)
  {
  }

  /** A failed provider call yields exactly one apology and no part of a reply:
      the failure happens before anything is sent. */
  lemma ProviderFailureApologises(m: Inbound, botId: nat, hasClient: bool, rejected: set<nat>)
    requires Asks(m, botId, hasClient)
    ensures Texts(Handle(m, botId, hasClient, Failed, rejected).attempts) == [Apology]
  {
  }

  /** A reply of at most 2000 characters that the platform accepts goes out as
      exactly one message carrying all of it. */
  lemma ShortReplySentWhole(m: Inbound, botId: nat, hasClient: bool, t: string, rejected: set<nat>)
    requires Asks(m, botId, hasClient) && |t| <= MessageLimit && 0 !in rejected
    ensures Handle(m, botId, hasClient, Reply(t), rejected).attempts == [Attempt(t, true)]
  {
  }

  /** `a` delivers the reply `t` as ceil(|t| / 1990) messages, all but the last 1990
      characters long, that together are exactly `t`. */
  predicate DeliveredInSlices(a: seq<Attempt>, t: string) {
    var n := |a|;
    n >= 1 && AllDelivered(a) && Concat(Texts(a)) == t
    && (n - 1) * ChunkSize < |t| <= n * ChunkSize
    && (forall i | 0 <= i < n - 1 :: |a[i].text| == ChunkSize)
    && 0 < |a[n - 1].text| <= ChunkSize
  }

  /** A longer reply that the platform accepts goes out in its 1990-character slices. */
  lemma LongReplySentInSlices(m: Inbound, botId: nat, hasClient: bool, t: string,
                              rejected: set<nat>)
    requires Asks(m, botId, hasClient) && |t| > MessageLimit
    requires forall i | 0 <= i < |Replies(t)| :: i !in rejected
    ensures DeliveredInSlices(Handle(m, botId, hasClient, Reply(t), rejected).attempts, t)
  {
    AskedCallAnswers(m, botId, hasClient, Reply(t), rejected);
    AcceptedReplyDelivered(t, rejected);
    SentAsSlices(t, Answer(Reply(t), rejected));
  }

  /** Attempts that deliver the slices of a long reply have the slices' shape. */
  lemma SentAsSlices(t: string, a: seq<Attempt>)
    requires |t| > MessageLimit && AllDelivered(a) && Texts(a) == Replies(t)
    ensures DeliveredInSlices(a, t)
  {
    var ms := Replies(t);
    assert |a| == |ms|;
    forall i | 0 <= i < |a| ensures a[i].text == ms[i] {
      assert Texts(a)[i] == a[i].text;
    }
  }

  /** A reply none of whose sends is refused is delivered as the messages `Replies`
      cuts it into, and nothing else is sent. */
  lemma AcceptedReplyDelivered(t: string, rejected: set<nat>)
    requires forall i | 0 <= i < |Replies(t)| :: i !in rejected
    ensures var a := Answer(Reply(t), rejected);
      AllDelivered(a) && Texts(a) == Replies(t)
  {
    var sent := SendInOrder(Replies(t), rejected, 0);
    assert |sent| == |Replies(t)|;
    assert Texts(sent) == Replies(t);
  }

  /** `a` tries the messages `ms` in order up to the first refused attempt, which is
      the last of them, and then the apology: every attempt before the refused one is
      delivered and not refused. */
  predicate ApologyAfterRefusal(a: seq<Attempt>, ms: seq<string>, rejected: set<nat>) {
    var n := |a| - 1;
    1 <= n <= |ms| && a[n].text == Apology
    && (forall i | 0 <= i < n :: a[i].text == ms[i])
    && (forall i | 0 <= i < n - 1 :: a[i].delivered && i !in rejected)
    && !a[n - 1].delivered && n - 1 in rejected
  }

  /** When the platform refuses a send of the reply, the messages tried are the
      reply's slices in order up to the first refused one, followed by the apology. */
  lemma RefusedSendApologises(t: string, rejected: set<nat>)
    requires exists i :: 0 <= i < |Replies(t)| && i in rejected
    ensures ApologyAfterRefusal(Answer(Reply(t), rejected), Replies(t), rejected)
  {
    var ms := Replies(t);
    var sent := SendInOrder(ms, rejected, 0);
    var i :| 0 <= i < |ms| && i in rejected;
    assert !AllDelivered(sent) by {
      if |sent| == |ms| {
        assert !sent[i].delivered;
      }
    }
    RefusedRunThenApology(ms, rejected, sent, |sent| !in rejected);
  }

  /** A run cut short by a refusal, followed by the apology. */
  lemma RefusedRunThenApology(ms: seq<string>, rejected: set<nat>, sent: seq<Attempt>, ok: bool)
    requires TriedInOrder(ms, rejected, 0, sent) && !AllDelivered(sent)
    ensures ApologyAfterRefusal(sent + [Attempt(Apology, ok)], ms, rejected)
  {
    var a := sent + [Attempt(Apology, ok)];
    assert !sent[|sent| - 1].delivered;
    forall j | 0 <= j < |sent| - 1 ensures a[j].delivered && j !in rejected {
      assert a[j] == sent[j] && sent[j].delivered;
    }
  }

  /** The same, for a handler call that reaches the provider. */
  lemma RefusedReplyEndsInApology(m: Inbound, botId: nat, hasClient: bool, t: string,
                                  rejected: set<nat>)
    requires Asks(m, botId, hasClient)
    requires exists i :: 0 <= i < |Replies(t)| && i in rejected
    ensures ApologyAfterRefusal(Handle(m, botId, hasClient, Reply(t), rejected).attempts,
                                Replies(t), rejected)
  {
    AskedCallAnswers(m, botId, hasClient, Reply(t), rejected);
    RefusedSendApologises(t, rejected);
  }

  // ---------------------------------------------------------------------------
  // The handler as the bot runs it

  /** The bot with its provider client injected: `outbox` is every send attempt so
      far, `requests` every question put to the provider, `commandRuns` the number
      of `process_commands` calls. */
  class MessageRouter {
    const botId: nat
    const hasClient: bool
    var outbox: seq<Attempt>
    var requests: seq<string>
    var commandRuns: nat

    constructor (botId: nat, hasClient: bool)
      ensures this.botId == botId && this.hasClient == hasClient
      ensures outbox == [] && requests == [] && commandRuns == 0
    {
      this.botId := botId;
      this.hasClient := hasClient;
      outbox := [];
      requests := [];
      commandRuns := 0;
    }

    /** `await message.channel.send(text)` as send attempt number `attempt`;
        `ok` is false when the platform raises. */
    method Send(text: string, attempt: nat, rejected: set<nat>) returns (ok: bool)
      modifies this
      ensures ok == (attempt !in rejected)
      ensures outbox == old(outbox) + [Attempt(text, ok)]
      ensures requests == old(requests) && commandRuns == old(commandRuns)
    {
      ok := attempt !in rejected;
      outbox := outbox + [Attempt(text, ok)];
    }

    /** `for chunk in chunks: await message.channel.send(chunk)`: tries the messages in
        order and stops at the first refused one; `sent` counts the attempts. */
    method SendEach(msgs: seq<string>, rejected: set<nat>) returns (sent: nat, failed: bool)
      modifies this
      ensures outbox == old(outbox) + SendInOrder(msgs, rejected, 0)
      ensures sent == |SendInOrder(msgs, rejected, 0)|
      ensures failed == !AllDelivered(SendInOrder(msgs, rejected, 0))
      ensures requests == old(requests) && commandRuns == old(commandRuns)
    {
      ghost var plan := SendInOrder(msgs, rejected, 0);
      sent, failed := 0, false;
      while sent < |msgs| && !failed
        invariant sent <= |plan| && outbox == old(outbox) + plan[..sent]
        invariant failed <==> 0 < sent && !plan[sent - 1].delivered
        invariant requests == old(requests) && commandRuns == old(commandRuns)
      {
        var ok := Send(msgs[sent], sent, rejected);
        assert plan[..sent + 1] == plan[..sent] + [plan[sent]];
        failed := !ok;
        sent := sent + 1;
      }
      assert sent == |plan|;
      assert plan[..sent] == plan;
    }

    /** Lines 102-107: a reply of at most 2000 characters in one send, a longer one
        slice by slice. */
    method SendReply(response: string, rejected: set<nat>) returns (sent: nat, failed: bool)
      modifies this
      ensures outbox == old(outbox) + SendInOrder(Replies(response), rejected, 0)
      ensures sent == |SendInOrder(Replies(response), rejected, 0)|
      ensures failed == !AllDelivered(SendInOrder(Replies(response), rejected, 0))
      ensures requests == old(requests) && commandRuns == old(commandRuns)
    {
      if |response| > MessageLimit {
        var chunks := Chunks(response);
        sent, failed := SendEach(chunks, rejected);
      } else {
        var ok := Send(response, 0, rejected);
        sent, failed := 1, !ok;
      }
    }

    /** Lines 62-114: put the question to the provider, then send its reply, or the
        apology when the provider fails or a send of the reply raises. */
    method Ask(question: string, completion: Completion, rejected: set<nat>)
      modifies this
      ensures outbox == old(outbox) + Answer(completion, rejected)
      ensures requests == old(requests) + [question] && commandRuns == old(commandRuns)
    {
      requests := requests + [question];
      match completion {
        case Failed =>
          var _ := Send(Apology, 0, rejected);
        case Reply(response) =>
          var sent, failed := SendReply(response, rejected);
          if failed {
            var _ := Send(Apology, sent, rejected);
          }
      }
    }

    /** Lines 48-118, for a message from someone else that mentions the bot;
        `fallThrough` is false where the handler returns early. */
    method OnMention(content: string, completion: Completion, rejected: set<nat>)
      returns (fallThrough: bool)
      modifies this
      ensures var e := HandleMention(content, botId, hasClient, completion, rejected);
        outbox == old(outbox) + e.attempts
        && requests == old(requests) + (if e.request.Some? then [e.request.value] else [])
        && commandRuns == old(commandRuns) && fallThrough == e.processesCommands
    {
      var question := ExtractQuestion(content, botId);
      if question == [] {
        var _ := Send(Greeting, 0, rejected);
        return false;
      }
      if !hasClient {
        var _ := Send(ConfigError, 0, rejected);
        return false;
      }
      Ask(question, completion, rejected);
      return true;
    }

    /** `on_message(message)`: appends to the outbox, the requests and the command
        runs exactly what `Handle` says one call does. */
    method OnMessage(m: Inbound, completion: Completion, rejected: set<nat>)
      modifies this
      ensures var e := Handle(m, botId, hasClient, completion, rejected);
        outbox == old(outbox) + e.attempts
        && requests == old(requests) + (if e.request.Some? then [e.request.value] else [])
        && commandRuns == old(commandRuns) + (if e.processesCommands then 1 else 0)
    {
      if m.fromBot {
        return;
      }
      if m.mentionsBot {
        var fallThrough := OnMention(m.content, completion, rejected);
        if !fallThrough {
          return;
        }
      }
      commandRuns := commandRuns + 1;
    }
  }
}
