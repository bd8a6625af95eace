/**
 * The browser chat controller (static/js/script.js) with the page and the
 * network abstracted away: a log of rendered messages, the message counter,
 * the typing-indicator and welcome-panel flags, and the input field.
 * Sending returns the request payload instead of calling `fetch`; the
 * request's settlement is delivered back through `Settle`.
 */
module Chat {
  import opened Wrappers
  import opened Text

  datatype Author = User | Bot

  /** A rendered message; `time` is the opaque display timestamp. */
  datatype Message = Message(author: Author, text: string, time: string)

  /** How a request settled: the body parsed as JSON (whatever the HTTP
      status), with the truthiness of `data.success` and the text of
      `data.response`; or `fetch`/`response.json()` rejected. */
  datatype Outcome = Parsed(success: bool, response: string) | Failed

  const ERROR_REPLY: string := "Sorry, I encountered an error. Please try again."
  const CONNECT_REPLY: string := "Sorry, I could not connect to the server. Please make sure the Flask backend is running."
  const CLEARED_REPLY: string := "Chat cleared! How can I help you today?"

  /** The bot message text a settlement produces. */
  function ReplyText(outcome: Outcome): string {
    match outcome
    case Parsed(success, response) => if success then response else ERROR_REPLY
    case Failed => CONNECT_REPLY
  }

  class ChatSession {
    var log: seq<Message>
    var messageCount: int
    var typingVisible: bool
    var welcomeVisible: bool
    var input: string

    /** The counter counts the messages added since the page loaded or the chat was last cleared. */
    ghost predicate Valid()
      reads this
    {
      messageCount == |log|
    }

    /** What the page's entry points keep true between events: the counter
        matches the log; the typing indicator is shown only while the newest
        message is the user's; every user message is non-blank with no
        whitespace at either end, so `trim()` would leave it unchanged; and
        while the welcome panel shows, no user message exists. */
    ghost predicate Consistent()
      reads this
    {
      && Valid()
      && (typingVisible ==> log != [] && log[|log| - 1].author == User)
      && (forall k :: 0 <= k < |log| && log[k].author == User ==> JsTrimmed(log[k].text))
      && (welcomeVisible ==> forall k :: 0 <= k < |log| ==> log[k].author == Bot)
    }

    /** The page as loaded: no messages, counter 0, indicator hidden, welcome panel shown. */
    constructor ()
      ensures Consistent()
      ensures log == [] && messageCount == 0 && !typingVisible && welcomeVisible && input == ""
    {
      log := [];
      messageCount := 0;
      typingVisible := false;
      welcomeVisible := true;
      input := "";
    }

    /** `addMessage(text, isUser)`: appends one message and counts it. */
    method AddMessage(text: string, isUser: bool, now: string)
      requires Valid()
      modifies this`log, this`messageCount
      ensures Valid()
      ensures log == old(log) + [Message(if isUser then User else Bot, text, now)]
      ensures messageCount == old(messageCount) + 1
    {
      log := log + [Message(if isUser then User else Bot, text, now)];
      messageCount := messageCount + 1;
    }

    /** `showTypingIndicator()`. */
    method ShowTypingIndicator()
      modifies this`typingVisible
      ensures typingVisible
    {
      typingVisible := true;
    }

    /** `hideTypingIndicator()`. */
    method HideTypingIndicator()
      modifies this`typingVisible
      ensures !typingVisible
    {
      typingVisible := false;
    }

    /** `hideWelcome()`: hides the welcome panel and the suggestions; hiding twice is hiding once. */
    method HideWelcome()
      modifies this`welcomeVisible
      ensures !welcomeVisible
    {
      welcomeVisible := false;
    }

    /** `sendMessage()`: a blank input (after JavaScript's trim) does nothing
        and sends nothing; otherwise the trimmed text becomes one user
        message, the input is cleared, the welcome panel hidden, the typing
        indicator shown, and the trimmed text is the request payload. */
    method SendMessage(now: string) returns (request: Option<string>)
      requires Consistent()
      modifies this
      ensures Consistent()
      ensures var message := JsTrim(old(input));
        if message == "" then
          request == None && log == old(log) && messageCount == old(messageCount)
          && typingVisible == old(typingVisible) && welcomeVisible == old(welcomeVisible) && input == old(input)
        else
          request == Some(message)
          && log == old(log) + [Message(User, message, now)] && messageCount == old(messageCount) + 1
          && input == "" && !welcomeVisible && typingVisible
    {
      var message := JsTrim(input);
      if message == "" {
        return None;
      }
      TrimEnds(input, IsJsSpace);
      HideWelcome();
      AddMessage(message, true, now);
      input := "";
      ShowTypingIndicator();
      request := Some(message);
    }

    /** The `.then`/`.catch` callbacks of the request: the indicator is hidden
        and exactly one bot message is appended: the server's reply when
        `data.success` is truthy, the fixed error text when it is not, the
        fixed connection text when the request or the JSON parse failed.
        Nothing else changes. */
    method Settle(outcome: Outcome, now: string)
      requires Consistent()
      modifies this
      ensures Consistent()
      ensures !typingVisible
      ensures log == old(log) + [Message(Bot, ReplyText(outcome), now)]
      ensures messageCount == old(messageCount) + 1
      ensures welcomeVisible == old(welcomeVisible) && input == old(input)
    {
      HideTypingIndicator();
      match outcome
      case Parsed(success, response) =>
        if success {
          AddMessage(response, false, now);
        } else {
          AddMessage(ERROR_REPLY, false, now);
        }
      case Failed =>
        AddMessage(CONNECT_REPLY, false, now);
    }

    /** `sendSuggestion(text)`: hides the welcome panel even when `text` is
        blank, puts `text` in the input field and sends it. */
    method SendSuggestion(text: string, now: string) returns (request: Option<string>)
      requires Consistent()
      modifies this
      ensures Consistent()
      ensures !welcomeVisible
      ensures var message := JsTrim(text);
        if message == "" then
          request == None && log == old(log) && messageCount == old(messageCount)
          && typingVisible == old(typingVisible) && input == text
        else
          request == Some(message)
          && log == old(log) + [Message(User, message, now)] && messageCount == old(messageCount) + 1
          && input == "" && typingVisible
    {
      HideWelcome();
      input := text;
      request := SendMessage(now);
    }

    /** `handleKeyPress(event)`: Enter sends; every other key does nothing. */
    method KeyPress(key: string, now: string) returns (request: Option<string>)
      requires Consistent()
      modifies this
      ensures Consistent()
      ensures key != "Enter" ==>
        request == None && log == old(log) && messageCount == old(messageCount)
        && typingVisible == old(typingVisible) && welcomeVisible == old(welcomeVisible) && input == old(input)
      ensures key == "Enter" ==> var message := JsTrim(old(input));
        if message == "" then
          request == None && log == old(log) && messageCount == old(messageCount)
          && typingVisible == old(typingVisible) && welcomeVisible == old(welcomeVisible) && input == old(input)
        else
          request == Some(message)
          && log == old(log) + [Message(User, message, now)] && messageCount == old(messageCount) + 1
          && input == "" && !welcomeVisible && typingVisible
    {
      request := None;
      if key == "Enter" {
        request := SendMessage(now);
      }
    }

    /** `clearChat()`: declined, nothing changes; confirmed, the log is
        replaced by the single fixed bot message, the fresh typing scaffold
        is hidden, and the counter, reset to 0 and then incremented by
        `addMessage`, is 1. The welcome panel and the input are untouched. */
    method ClearChat(confirmed: bool, now: string)
      requires Consistent()
      modifies this
      ensures Consistent()
      ensures !confirmed ==>
        log == old(log) && messageCount == old(messageCount) && typingVisible == old(typingVisible)
      ensures confirmed ==>
        log == [Message(Bot, CLEARED_REPLY, now)] && messageCount == 1 && !typingVisible
      ensures welcomeVisible == old(welcomeVisible) && input == old(input)
    {
      if confirmed {
        log := [];
        typingVisible := false;
        messageCount := 0;
        AddMessage(CLEARED_REPLY, false, now);
      }
    }
  }

  /** A question that `trim()` leaves as it is, answered successfully: the
      log holds the question and then the answer, and the indicator is off. */
  method QuestionAnswered(question: string, answer: string, sent: string, received: string)
    requires question != [] && !IsJsSpace(question[0]) && !IsJsSpace(question[|question| - 1])
  {
    var chat := new ChatSession();
    chat.input := question;
    TrimOfTrimmed(question, IsJsSpace);
    var request := chat.SendMessage(sent);
    assert request == Some(question) && chat.typingVisible && !chat.welcomeVisible;
    chat.Settle(Parsed(true, answer), received);
    assert chat.log == [Message(User, question, sent), Message(Bot, answer, received)];
    assert !chat.typingVisible && chat.messageCount == 2;
  }

  /** A backend that reports failure, then a request that fails outright:
      each is answered by its fixed text. */
  method QuestionFailures(question: string, t0: string, t1: string, t2: string, t3: string)
    requires question != [] && !IsJsSpace(question[0]) && !IsJsSpace(question[|question| - 1])
  {
    var chat := new ChatSession();
    chat.input := question;
    TrimOfTrimmed(question, IsJsSpace);
    var request := chat.SendMessage(t0);
    chat.Settle(Parsed(false, "ignored"), t1);
    assert chat.log[1] == Message(Bot, ERROR_REPLY, t1);
    chat.input := question;
    request := chat.SendMessage(t2);
    chat.Settle(Failed, t3);
    assert chat.log[3] == Message(Bot, CONNECT_REPLY, t3) && |chat.log| == 4;
  }

  /** A suggestion with non-blank text acts exactly as typing it and pressing Enter. */
  method SuggestionIsTypingAndEnter(text: string, now: string)
    requires JsTrim(text) != ""
  {
    var a := new ChatSession();
    var ra := a.SendSuggestion(text, now);
    var b := new ChatSession();
    b.input := text;
    var rb := b.KeyPress("Enter", now);
    assert ra == rb && a.log == b.log && a.messageCount == b.messageCount;
    assert a.typingVisible == b.typingVisible && a.welcomeVisible == b.welcomeVisible && a.input == b.input;
  }
}
