/**
 The chat page of the travel recommender: the conversation kept in the
 session, the request built from it for the language model, and one round of
 submitting a message and storing the cleaned reply.
 */
module Chat {
  import opened Wrappers
  import opened PyStr
  import opened Sanitizer

  datatype Role = System | User | Assistant

  /** One message of the conversation: who said it and what was said. */
  datatype Turn = Turn(role: Role, content: string)

  /**
   What the language model service gives back for one request: the content of
   its first choice, or the text of the exception the call raised.
   */
  datatype Outcome = Completion(content: string) | Failure(message: string)

  /** The persona prompt sent ahead of every conversation; its wording is not modelled. */
  const Persona: string

  /** The assistant's opening message of every new session. */
  const Greeting: Turn := Turn(Assistant, "Hello, I am Travel Recommender System. How can I help you?")

  /** The text put in front of the exception message when the call fails. */
  const ErrorPrefix: string := "An error occurred: "

  /**
   The request for the language model, built from the conversation so far:
   the persona as a system message, then every stored turn copied in order.
   The reply is the first choice's content stripped, or the error text.
   */
  method GetResponse(history: seq<Turn>, outcome: Outcome) returns (messages: seq<Turn>, reply: string)
    ensures messages == [Turn(System, Persona)] + history
    ensures outcome.Completion? ==> reply == Strip(outcome.content)
    ensures outcome.Failure? ==> reply == ErrorPrefix + outcome.message
  {
    messages := [];
    messages := messages + [Turn(System, Persona)];
    for k := 0 to |history|
      invariant messages == [Turn(System, Persona)] + history[..k]
    {
      var msg := history[k];
      messages := messages + [Turn(msg.role, msg.content)];
      assert history[..k + 1] == history[..k] + [history[k]];
    }
    assert history[..|history|] == history;
    match outcome
    case Completion(content) =>
      reply := Strip(content);
    case Failure(message) =>
      reply := ErrorPrefix + message;
  }

  /**
   The shape every stored conversation has: the greeting, then user and
   assistant turns alternating, ending on an assistant turn.
   */
  predicate WellFormed(h: seq<Turn>) {
    |h| % 2 == 1 && h[0] == Greeting &&
    forall i :: 1 <= i < |h| ==> h[i].role == (if i % 2 == 1 then User else Assistant)
  }

  /** One exchange (a user turn, then an assistant turn) keeps a conversation well formed. */
  lemma ExchangeKeepsWellFormed(h: seq<Turn>, question: string, answer: string)
    requires WellFormed(h)
    ensures WellFormed(h + [Turn(User, question), Turn(Assistant, answer)])
  {
    var h' := h + [Turn(User, question), Turn(Assistant, answer)];
    forall i | 1 <= i < |h'|
      ensures h'[i].role == (if i % 2 == 1 then User else Assistant)
    {
      if i < |h| {
        assert h'[i] == h[i];
      }
    }
  }

  /** The turns the page draws as chat bubbles, in order: the user and assistant turns. */
  function Displayed(h: seq<Turn>): (shown: seq<Turn>)
    ensures |shown| <= |h|
    ensures forall t :: t in shown <==> t in h && t.role != System
  {
    if h == [] then []
    else
      var last := h[|h| - 1];
      Displayed(h[..|h| - 1]) + (if last.role == User || last.role == Assistant then [last] else [])
  }

  /** Drawing a conversation draws its first part, then its second part. */
  lemma {:induction false} DisplayedAppend(a: seq<Turn>, b: seq<Turn>)
    ensures Displayed(a + b) == Displayed(a) + Displayed(b)
    decreases |b|
  {
    if b == [] {
      assert a + b == a;
    } else {
      var init, last := b[..|b| - 1], b[|b| - 1];
      assert (a + b)[..|a + b| - 1] == a + init;
      assert (a + b)[|a + b| - 1] == last;
      DisplayedAppend(a, init);
    }
  }

  /** A conversation without system turns is displayed in full. */
  lemma {:induction false} DisplayedAll(h: seq<Turn>)
    requires forall k :: 0 <= k < |h| ==> h[k].role != System
    ensures Displayed(h) == h
    decreases |h|
  {
    if h != [] {
      var init, last := h[..|h| - 1], h[|h| - 1];
      assert init + [last] == h;
      DisplayedAll(init);
      DisplayedAppend(init, [last]);
      assert Displayed([last]) == [last] by {
        assert [last][..0] == [];
      }
    }
  }

  /** Every turn of a well-formed conversation is displayed. */
  lemma WellFormedDisplayed(h: seq<Turn>)
    requires WellFormed(h)
    ensures Displayed(h) == h
  {
    forall k | 0 <= k < |h|
      ensures h[k].role != System
    {
      if k == 0 {
        assert h[k] == Greeting;
      }
    }
    DisplayedAll(h);
  }

  /** The re-association of sequence concatenation that the proof of `Submit` needs. */
  lemma RequestAndExchange(h: seq<Turn>, asked: Turn, answered: Turn)
    ensures [Turn(System, Persona)] + (h + [asked]) == [Turn(System, Persona)] + h + [asked]
    ensures h + [asked] + [answered] == h + [asked, answered]
  {
  }

  /** The conversation held by one browser session. */
  class Session {
    var history: seq<Turn>

    /** A new session holds only the greeting. */
    constructor ()
      ensures history == [Greeting]
      ensures WellFormed(history)
    {
      history := [Greeting];
    }

    /**
     One submission from the chat input. No input or an empty string leaves the
     session alone and sends nothing. Any other text, blanks included, is
     stored verbatim as a user turn, the whole conversation is sent, and the
     cleaned reply is stored as an assistant turn. `outcome` is what the model
     service answers to the request sent.
     */
    method Submit(query: Option<string>, outcome: Outcome) returns (sent: Option<seq<Turn>>)
      modifies this
      ensures query == None || query == Some("") ==> sent == None && history == old(history)
      ensures query.Some? && query.value != "" ==>
        sent == Some([Turn(System, Persona)] + old(history) + [Turn(User, query.value)])
      ensures query.Some? && query.value != "" && outcome.Completion? ==>
        history == old(history) + [Turn(User, query.value), Turn(Assistant, Clean(Strip(outcome.content)))]
      ensures query.Some? && query.value != "" && outcome.Failure? ==>
        history == old(history) + [Turn(User, query.value), Turn(Assistant, Clean(ErrorPrefix + outcome.message))]
      ensures query.Some? && query.value != "" ==> Trimmed(history[|history| - 1].content)
      ensures WellFormed(old(history)) ==> WellFormed(history)
    {
      if query == None || query == Some("") {
        return None;
      }
      var question := query.value;
      var asked := history + [Turn(User, question)];
      history := asked;
      var messages, reply := GetResponse(asked, outcome);
      var cleaned := Clean(reply);
      history := asked + [Turn(Assistant, cleaned)];
      sent := Some(messages);
      RequestAndExchange(old(history), Turn(User, question), Turn(Assistant, cleaned));
      if WellFormed(old(history)) {
        ExchangeKeepsWellFormed(old(history), question, cleaned);
      }
    }
  }

  /**
   A first message in a new session whose model call times out: the error
   text is stored as the assistant's reply exactly as built.
   */
  method TimeoutConversation() returns (h: seq<Turn>)
    ensures h == [Greeting, Turn(User, "Plan a trip to Rome"), Turn(Assistant, TimeoutReply)]
  {
    var session := new Session();
    var sent := session.Submit(Some("Plan a trip to Rome"), Failure("timeout"));
    h := session.history;
    assert ErrorPrefix + "timeout" == TimeoutReply;
    CleanTimeoutError();
  }
}
