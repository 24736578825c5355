/** The page's conversation state (`messages`, `input`, `isThinking`) and
    the two transitions of `handleSend`: the submit itself, and the reply
    its timer delivers later. The UUID, the formatted clock time and the
    random picks come in as parameters. */
module Conversation {
  import opened Text
  import opened Messages
  import Synthesizer

  datatype Option<T> = None | Some(value: T)

  /** Every message of the list has a vibe the page can draw. */
  predicate AllVibes(ms: seq<Message>) {
    forall i :: 0 <= i < |ms| ==> IsVibe(ms[i].vibeIndex)
  }

  /** Appending a message with a drawable vibe keeps every vibe drawable. */
  lemma AllVibesAppend(ms: seq<Message>, m: Message)
    requires AllVibes(ms) && IsVibe(m.vibeIndex)
    ensures AllVibes(ms + [m])
  {
    var all := ms + [m];
    forall i | 0 <= i < |all|
      ensures IsVibe(all[i].vibeIndex)
    {
      if i < |ms| {
        assert all[i] == ms[i];
      }
    }
  }

  class Chat {
    var messages: seq<Message>
    var input: string
    var isThinking: bool

    constructor ()
      ensures AllVibes(messages)
      ensures messages == InitialMessages && input == "" && !isThinking
    {
      messages := InitialMessages;
      input := "";
      isThinking := false;
    }

    /** The text area's `onChange`. */
    method SetInput(text: string)
      modifies this
      ensures input == text
      ensures messages == old(messages) && isThinking == old(isThinking)
    {
      input := text;
    }

    /** The submit half of `handleSend`. A blank input changes nothing.
        Any other input is trimmed and appended as a `usuario` message; the
        input is cleared and the companion starts thinking. `pending` is the
        text the scheduled reply will answer: never blank, so that reply is
        always a filled carrier sentence. Sending is not blocked while a
        reply is pending. */
    method Submit(id: string, timestamp: string, vibe: int) returns (pending: Option<string>)
      requires AllVibes(messages) && IsVibe(vibe)
      modifies this
      ensures AllVibes(messages)
      ensures IsBlank(old(input)) ==>
        pending == None && messages == old(messages) && input == old(input) && isThinking == old(isThinking)
      ensures !IsBlank(old(input)) ==>
        && pending == Some(Trim(old(input)))
        && messages == old(messages) + [Message(id, Usuario, Trim(old(input)), vibe, timestamp)]
        && input == "" && isThinking
      ensures pending.Some? ==> !IsBlank(pending.value)
    {
      var trimmed := Trim(input);
      TrimShape(input);
      if trimmed == [] {
        return None;
      }
      Post(Message(id, Usuario, trimmed, vibe, timestamp));
      pending := Some(trimmed);
    }

    /** `setMessages(prev => [...prev, userMessage])`, `setInput("")` and
        `setIsThinking(true)`: the message joins the list, the text area is
        cleared and the companion starts thinking. */
    method Post(m: Message)
      requires AllVibes(messages) && IsVibe(m.vibeIndex)
      modifies this
      ensures AllVibes(messages)
      ensures messages == old(messages) + [m]
      ensures input == "" && isThinking
    {
      messages := messages + [m];
      AllVibesAppend(old(messages), m);
      input := "";
      isThinking := true;
    }

    /** The timer callback of `handleSend`: appends the synthesised `nexus`
        reply to `prompt` and stops thinking. The input is left alone. */
    method DeliverReply(prompt: string, id: string, timestamp: string, vibe: int, seedPick: nat, hybridPick: nat)
      requires AllVibes(messages) && IsVibe(vibe)
      requires seedPick < Synthesizer.SeedCount && hybridPick < Synthesizer.HybridCount
      modifies this
      ensures AllVibes(messages)
      ensures messages == old(messages) + [Message(id, Nexus, Synthesizer.Synthesize(prompt, seedPick, hybridPick), vibe, timestamp)]
      ensures !isThinking && input == old(input)
    {
      var reply := Synthesizer.Synthesize(prompt, seedPick, hybridPick);
      Receive(Message(id, Nexus, reply, vibe, timestamp));
    }

    /** `setMessages(prev => [...prev, aiMessage])` and
        `setIsThinking(false)`: the reply joins the list and thinking
        stops. */
    method Receive(m: Message)
      requires AllVibes(messages) && IsVibe(m.vibeIndex)
      modifies this
      ensures AllVibes(messages)
      ensures messages == old(messages) + [m]
      ensures !isThinking && input == old(input)
    {
      messages := messages + [m];
      isThinking := false;
      AllVibesAppend(old(messages), m);
    }
  }

  /** Typing `text`, sending it and receiving the reply adds exactly two
      messages after the earlier ones: the person's trimmed text, then the
      companion's reply to that text. */
  method SendAndReply(chat: Chat, text: string, userId: string, replyId: string, userTime: string, replyTime: string,
                      userVibe: int, replyVibe: int, seedPick: nat, hybridPick: nat)
    requires AllVibes(chat.messages) && IsVibe(userVibe) && IsVibe(replyVibe) && !IsBlank(text)
    requires seedPick < Synthesizer.SeedCount && hybridPick < Synthesizer.HybridCount
    modifies chat
    ensures AllVibes(chat.messages)
    ensures |chat.messages| == |old(chat.messages)| + 2
    ensures forall i :: 0 <= i < |old(chat.messages)| ==> chat.messages[i] == old(chat.messages)[i]
    ensures chat.messages[|old(chat.messages)|] == Message(userId, Usuario, Trim(text), userVibe, userTime)
    ensures chat.messages[|old(chat.messages)| + 1]
      == Message(replyId, Nexus, Synthesizer.Synthesize(Trim(text), seedPick, hybridPick), replyVibe, replyTime)
    ensures chat.input == "" && !chat.isThinking
  {
    chat.SetInput(text);
    var pending := chat.Submit(userId, userTime, userVibe);
    chat.DeliverReply(pending.value, replyId, replyTime, replyVibe, seedPick, hybridPick);
  }

  /** Sending a blank text leaves the messages, the text area and the
      thinking flag as they were. */
  method SendBlank(chat: Chat, text: string, userId: string, timestamp: string, userVibe: int)
    requires AllVibes(chat.messages) && IsVibe(userVibe) && IsBlank(text)
    modifies chat
    ensures AllVibes(chat.messages)
    ensures chat.messages == old(chat.messages) && chat.input == text && chat.isThinking == old(chat.isThinking)
  {
    chat.SetInput(text);
    var pending := chat.Submit(userId, timestamp, userVibe);
  }
}
