/** The chat widget's state: the message log and the input draft, the submit
    handler that appends a user message and the responder's answer, and the
    two handlers that overwrite the draft. Message ids come from a counter
    owned by the conversation. */
module Chat {
  import opened Text
  import opened Responder

  datatype Sender = User | Assistant

  /** One entry of the chat log. */
  datatype Message = Message(id: int, sender: Sender, text: string)

  /** The assistant's opening message. */
  const SeedText: string :=
    "Привіт! Я Codex. Запитай мене щось українською — наприклад, «Привіт, ти хто?»"

  /** What the input field holds when the page opens. */
  const InitialDraft: string := "Привіт, ти хто?"

  /** The example questions offered as buttons. */
  const QuickPrompts: seq<string> := [
    "Що ти вмієш?",
    "Як ти працюєш автономно?",
    "Які технології підтримуєш?"
  ]

  /** Senders alternate, starting and ending with the assistant. */
  ghost predicate Alternates(log: seq<Message>)
  {
    |log| > 0
    && log[0].sender == Assistant
    && (forall i :: 1 <= i < |log| ==> log[i].sender != log[i - 1].sender)
    && log[|log| - 1].sender == Assistant
  }

  /** Ids strictly increase along the log and stay below `nextId`. */
  ghost predicate IdsBelow(log: seq<Message>, nextId: int)
  {
    (forall i, j :: 0 <= i < j < |log| ==> log[i].id < log[j].id)
    && (forall i :: 0 <= i < |log| ==> log[i].id < nextId)
  }

  /** Every user text is trimmed: not empty and without white space at
      either end. */
  ghost predicate UserTextsTrimmed(log: seq<Message>)
  {
    forall i :: 0 <= i < |log| && log[i].sender == User ==> IsTrimmed(log[i].text)
  }

  /** The shape every reachable log has: the seed assistant message with id 0
      first, senders alternating and an assistant message last (so, after the
      seed, user/assistant pairs), increasing ids below the counter, and
      trimmed user texts. */
  ghost predicate WellFormedLog(log: seq<Message>, nextId: int)
  {
    Alternates(log)
    && log[0] == Message(0, Assistant, SeedText)
    && IdsBelow(log, nextId)
    && UserTextsTrimmed(log)
  }

  /** Appending a user message with a trimmed, non-empty text and then an
      assistant message, with the next two ids, keeps a log
      well formed and moves the counter past both new ids. */
  lemma AppendExchangeKeepsLog(log: seq<Message>, nextId: int, text: string, answer: string)
    requires WellFormedLog(log, nextId)
    requires IsTrimmed(text)
    ensures WellFormedLog(log + [Message(nextId, User, text),
                                 Message(nextId + 1, Assistant, answer)], nextId + 2)
  {
    var log' := log + [Message(nextId, User, text), Message(nextId + 1, Assistant, answer)];
    assert log'[..|log|] == log;
    assert Alternates(log') by {
      forall i | 1 <= i < |log'|
        ensures log'[i].sender != log'[i - 1].sender
      {
        if i < |log| {
          assert log'[i] == log[i] && log'[i - 1] == log[i - 1];
        }
      }
    }
    assert IdsBelow(log', nextId + 2) by {
      forall i, j | 0 <= i < j < |log'|
        ensures log'[i].id < log'[j].id
      {
        if j < |log| {
          assert log'[i] == log[i] && log'[j] == log[j];
        } else if i < |log| {
          assert log'[i] == log[i];
        }
      }
      forall i | 0 <= i < |log'|
        ensures log'[i].id < nextId + 2
      {
        if i < |log| {
          assert log'[i] == log[i];
        }
      }
    }
    assert UserTextsTrimmed(log') by {
      forall i | 0 <= i < |log'| && log'[i].sender == User
        ensures IsTrimmed(log'[i].text)
      {
        if i < |log| {
          assert log'[i] == log[i];
        }
      }
    }
  }

  /** In an alternating log the message at an odd index is the user's and
      the one at an even index the assistant's. */
  lemma {:induction false} SenderParity(log: seq<Message>, i: nat)
    requires Alternates(log) && i < |log|
    ensures log[i].sender == if i % 2 == 1 then User else Assistant
  {
    if i > 0 {
      SenderParity(log, i - 1);
      assert i % 2 == 1 <==> (i - 1) % 2 == 0;
    }
  }

  /** An alternating log has odd length: after the seed, every user message
      is followed by exactly one answer. */
  lemma SendersInPairs(log: seq<Message>)
    requires Alternates(log)
    ensures |log| % 2 == 1
    ensures forall i :: 0 <= i < |log| ==> log[i].sender == if i % 2 == 1 then User else Assistant
  {
    forall i | 0 <= i < |log|
      ensures log[i].sender == if i % 2 == 1 then User else Assistant
    {
      SenderParity(log, i);
    }
  }

  /** The draft the page opens with is not blank, so submitting it as it
      stands appends an exchange. */
  lemma InitialDraftNotBlank()
    ensures Trim(InitialDraft) != []
  {
    assert !IsWhiteSpace(InitialDraft[0]);
    TrimSpec(InitialDraft);
  }

  /** The draft the page opens with is answered with the greeting. */
  lemma InitialDraftGetsGreeting()
    ensures Reply(InitialDraft) == Greeting
  {
    assert ToLower(InitialDraft[0..6]) == "привіт" by {
      assert InitialDraft[0..6] == "Привіт";
    }
    GreetingAnyCase(InitialDraft, 0);
  }

  class Conversation {
    var messages: seq<Message>
    var draft: string
    /** The id the next message will get; replaces the wall-clock ids. */
    var nextId: int

    ghost predicate Valid()
      reads this
    {
      WellFormedLog(messages, nextId)
    }

    /** The page's initial state: the seed message alone and the sample
        question in the input field. */
    constructor ()
      ensures Valid()
      ensures messages == [Message(0, Assistant, SeedText)]
      ensures draft == InitialDraft && nextId == 1
    {
      messages := [Message(0, Assistant, SeedText)];
      draft := InitialDraft;
      nextId := 1;
    }

    /** `handleSubmit`: a blank draft changes nothing; otherwise the trimmed
        draft is appended as a user message, the reply to the untrimmed draft
        as an assistant message with a larger id, and the draft is cleared. */
    method Submit()
      requires Valid()
      modifies this
      ensures Valid()
      ensures Trim(old(draft)) == [] ==>
        messages == old(messages) && draft == old(draft) && nextId == old(nextId)
      ensures Trim(old(draft)) != [] ==>
        messages == old(messages) + [Message(old(nextId), User, Trim(old(draft))),
                                     Message(old(nextId) + 1, Assistant, Reply(old(draft)))]
        && draft == [] && nextId == old(nextId) + 2
    {
      var text := Trim(draft);
      if text == [] {
        return;
      }
      TrimIdempotent(draft);
      AppendExchange(text, Reply(draft));
      draft := "";
    }

    /** The updater `[...current, userMessage, assistantMessage]`: the user's
        message and the answer, with the next two ids, go to the end of the
        log together. */
    method AppendExchange(text: string, answer: string)
      requires Valid() && IsTrimmed(text)
      modifies this`messages, this`nextId
      ensures Valid()
      ensures messages == old(messages) + [Message(old(nextId), User, text),
                                           Message(old(nextId) + 1, Assistant, answer)]
      ensures nextId == old(nextId) + 2
    {
      AppendExchangeKeepsLog(messages, nextId, text, answer);
      messages := messages + [Message(nextId, User, text), Message(nextId + 1, Assistant, answer)];
      nextId := nextId + 2;
    }

    /** A quick-prompt button: the draft becomes exactly that prompt. */
    method SelectPrompt(i: nat)
      requires Valid() && i < |QuickPrompts|
      modifies this`draft
      ensures Valid()
      ensures draft == QuickPrompts[i] && messages == old(messages)
    {
      draft := QuickPrompts[i];
    }

    /** The input's change handler: the draft becomes exactly the new value. */
    method ChangeDraft(value: string)
      requires Valid()
      modifies this`draft
      ensures Valid()
      ensures draft == value && messages == old(messages)
    {
      draft := value;
    }
  }
}
