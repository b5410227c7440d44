/** The conversation state of the campus assistant: the message list, the
    input box and the typing indicator, with sending a message, the
    delayed reply to it, and the quick-action buttons. */
module Conversation {
  import opened Text
  import opened Campus
  import opened Matcher

  /** A chat message; its id and timestamp come from the clock and are
      left out. A bot reply carries the category of its answer. */
  datatype Message = Message(content: string, isUser: bool, category: Option<string>)

  /** The message the conversation starts with: from the assistant, with
      no category. */
  const Greeting := Message("👋 Hello! I'm your Campus AI Assistant. I can help you with schedules, faculty information, dining services, library resources, and administrative procedures. What would you like to know?", false, None)

  function UserMessage(text: string): Message {
    Message(text, true, None)
  }

  /** The reply built from the matcher's answer. */
  function BotMessage(info: Info): Message {
    Message(info.Content(), false, Some(info.category))
  }

  /** The category badge is shown when the category is present, not
      empty, and not "general". */
  predicate ShowsBadge(m: Message) {
    m.category.Some? && m.category.value != "" && m.category.value != GeneralCategory
  }

  /** A reply shows a badge exactly when some key of the table matched
      the query; the fallback shows none. */
  lemma BadgeIffMatch(query: string)
    ensures ShowsBadge(BotMessage(FindRelevantInfo(query))) <==> !NoMatch(Lower(query), CampusEntries())
  {
    FindRelevantInfoCategory(query);
    FindRelevantInfoFirstMatch(query);
  }

  /** The number of user messages in `ms`. */
  function UserCount(ms: seq<Message>): nat {
    if ms == [] then 0
    else UserCount(ms[..|ms| - 1]) + (if ms[|ms| - 1].isUser then 1 else 0)
  }

  /** The contents of the user messages in `ms`. */
  function UserContents(ms: seq<Message>): multiset<string> {
    if ms == [] then multiset{}
    else UserContents(ms[..|ms| - 1]) + (if ms[|ms| - 1].isUser then multiset{ms[|ms| - 1].content} else multiset{})
  }

  lemma AppendOne(ms: seq<Message>, m: Message)
    ensures UserCount(ms + [m]) == UserCount(ms) + (if m.isUser then 1 else 0)
    ensures UserContents(ms + [m]) == UserContents(ms) + (if m.isUser then multiset{m.content} else multiset{})
  {
    assert (ms + [m])[..|ms|] == ms;
  }

  /** The invariant of the conversation state: an assistant message
      comes first (the greeting, which every operation keeps in place
      because it only appends); the typing indicator is on only while a
      reply is pending; every user message is answered once or still
      pending, and every pending message was sent. */
  ghost predicate ValidState(messages: seq<Message>, isTyping: bool, pending: multiset<string>) {
    |messages| >= 1 && !messages[0].isUser
    && (isTyping ==> |pending| > 0)
    && UserCount(messages) + 1 == (|messages| - UserCount(messages)) + |pending|
    && pending <= UserContents(messages)
  }

  /** Sending keeps the invariant. */
  lemma SendKeepsValid(messages: seq<Message>, isTyping: bool, pending: multiset<string>, text: string)
    requires ValidState(messages, isTyping, pending)
    ensures ValidState(messages + [UserMessage(text)], true, pending + multiset{text})
  {
    AppendOne(messages, UserMessage(text));
  }

  /** Replying to a pending message keeps the invariant. */
  lemma ReplyKeepsValid(messages: seq<Message>, isTyping: bool, pending: multiset<string>, text: string, reply: Message)
    requires ValidState(messages, isTyping, pending) && text in pending && !reply.isUser
    ensures ValidState(messages + [reply], false, pending - multiset{text})
  {
    AppendOne(messages, reply);
  }

  class Assistant {
    var messages: seq<Message>
    var inputValue: string
    var isTyping: bool
    /** The messages sent whose reply has not come yet. The buttons stay
        enabled while the assistant is typing, so there can be several. */
    ghost var pending: multiset<string>

    ghost predicate Valid()
      reads this
    {
      ValidState(messages, isTyping, pending)
    }

    constructor()
      ensures messages == [Greeting] && inputValue == "" && !isTyping
      ensures pending == multiset{}
      ensures Valid()
    {
      messages := [Greeting];
      inputValue := "";
      isTyping := false;
      pending := multiset{};
    }

    /** The input box's `onChange`: the box shows what was typed and
        nothing else changes. */
    method SetInput(value: string)
      requires Valid()
      modifies this
      ensures Valid()
      ensures inputValue == value
      ensures messages == old(messages) && isTyping == old(isTyping)
      ensures pending == old(pending)
    {
      inputValue := value;
    }

    /** `handleSendMessage`: nothing happens for blank input; otherwise
        the message is appended as the user's, the input box is cleared,
        the typing indicator comes on, and the reply is due. */
    method Send(message: string)
      requires Valid()
      modifies this
      ensures Valid()
      ensures IsBlank(message) ==>
        messages == old(messages) && inputValue == old(inputValue)
        && isTyping == old(isTyping) && pending == old(pending)
      ensures !IsBlank(message) ==>
        messages == old(messages) + [UserMessage(message)] && inputValue == ""
        && isTyping && pending == old(pending) + multiset{message}
    {
      TrimEmptyIffBlank(message);
      if Trim(message) == [] {
        return;
      }
      SendKeepsValid(messages, isTyping, pending, message);
      messages := messages + [UserMessage(message)];
      inputValue := "";
      isTyping := true;
      pending := pending + multiset{message};
    }

    /** The delayed callback of a send: the matcher's answer to
        `message` is appended as the assistant's and the typing
        indicator goes off. */
    method Reply(message: string)
      requires Valid() && message in pending
      modifies this
      ensures Valid()
      ensures messages == old(messages) + [BotMessage(FindRelevantInfo(message))]
      ensures inputValue == old(inputValue) && !isTyping
      ensures pending == old(pending) - multiset{message}
    {
      var reply := BotMessage(FindRelevantInfo(message));
      ReplyKeepsValid(messages, isTyping, pending, message, reply);
      messages := messages + [reply];
      isTyping := false;
      pending := pending - multiset{message};
    }

    /** `handleQuickAction`: sending the button's query. */
    method HandleQuickAction(action: QuickAction)
      requires Valid()
      modifies this
      ensures Valid()
      ensures IsBlank(action.query) ==>
        messages == old(messages) && inputValue == old(inputValue)
        && isTyping == old(isTyping) && pending == old(pending)
      ensures !IsBlank(action.query) ==>
        messages == old(messages) + [UserMessage(action.query)] && inputValue == ""
        && isTyping && pending == old(pending) + multiset{action.query}
    {
      Send(action.query);
    }
  }
}
