/**
 * The command handlers of the example bot that compute something: `/clear`
 * (reset the transcript, keep the first system message and the tracking
 * variables), the message count shown by `/info`, and the argument split of
 * `/echo`.
 */
module Commands {
  import opened Strings
  import opened Session
  import opened Wrappers

  // ---------------------------------------------------------------------
  // /clear
  // ---------------------------------------------------------------------

  const ClearedReply := "\U{1F5D1}\U{FE0F} Conversation history cleared! Let's start fresh."

  /** Index `i` holds a system message and no earlier index does. */
  predicate FirstSystemIndex(messages: seq<Message>, i: int) {
    0 <= i < |messages| && IsSystem(messages[i]) && forall j :: 0 <= j < i ==> !IsSystem(messages[j])
  }

  /** The first system message of a transcript, if any. */
  function FirstSystem(messages: seq<Message>): (r: Option<Message>)
    ensures r.None? <==> forall i :: 0 <= i < |messages| ==> !IsSystem(messages[i])
    ensures r.Some? ==> exists i :: FirstSystemIndex(messages, i) && messages[i] == r.value
  {
    if messages == [] then None
    else if IsSystem(messages[0]) then
      assert FirstSystemIndex(messages, 0);
      Some(messages[0])
    else
      var r := FirstSystem(messages[1..]);
      assert r.Some? ==> exists i :: FirstSystemIndex(messages[1..], i) && messages[1..][i] == r.value;
      assert forall i :: FirstSystemIndex(messages[1..], i) ==> FirstSystemIndex(messages, i + 1);
      r
  }

  /** The transcript `/clear` leaves: the first system message alone, or nothing. */
  function ClearedHistory(messages: seq<Message>): (r: seq<Message>)
    ensures |r| <= 1
    ensures r == [] <==> forall i :: 0 <= i < |messages| ==> !IsSystem(messages[i])
    ensures r != [] ==> exists i :: FirstSystemIndex(messages, i) && r == [messages[i]]
  {
    match FirstSystem(messages)
    case Some(m) => [m]
    case None => []
  }

  /** A leading system message is what `/clear` keeps. */
  lemma ClearKeepsLeadingSystem(messages: seq<Message>)
    requires |messages| > 0 && IsSystem(messages[0])
    ensures ClearedHistory(messages) == [messages[0]]
  {
  }

  /** Clearing a cleared transcript changes nothing. */
  lemma ClearIdempotent(messages: seq<Message>)
    ensures ClearedHistory(ClearedHistory(messages)) == ClearedHistory(messages)
  {
  }

  /**
   * The `/clear` handler on the session it fetched. Saving the session back
   * is the library's business and is not modelled; the tracking variables
   * are merged back into themselves, so they keep their values. Returns the
   * reply sent to the user.
   */
  method ClearHistoryHandler(session: SessionData) returns (reply: string)
    modifies session
    ensures session.messages == ClearedHistory(old(session.messages))
    ensures session.variables == old(session.variables)
    ensures reply == ClearedReply
  {
    var systemMessage: Option<Message> := None;
    var i := 0;
    while i < |session.messages|
      invariant 0 <= i <= |session.messages|
      invariant forall j :: 0 <= j < i ==> !IsSystem(session.messages[j])
      invariant systemMessage.None?
    {
      if IsSystem(session.messages[i]) {
        systemMessage := Some(session.messages[i]);
        break;
      }
      i := i + 1;
    }
    FirstSystemAt(session.messages, i);
    if systemMessage.Some? {
      session.messages := [systemMessage.value];
    } else {
      session.messages := [];
    }
    var contextVars := session.variables;
    session.variables := session.variables + contextVars;
    reply := ClearedReply;
  }

  /** The first system message is found by scanning up to the first index
      holding one. */
  lemma {:induction false} FirstSystemAt(messages: seq<Message>, i: nat)
    requires i <= |messages|
    requires forall j :: 0 <= j < i ==> !IsSystem(messages[j])
    requires i < |messages| ==> IsSystem(messages[i])
    ensures FirstSystem(messages) == if i < |messages| then Some(messages[i]) else None
  {
    if i > 0 {
      FirstSystemAt(messages[1..], i - 1);
    }
  }

  // ---------------------------------------------------------------------
  // /info
  // ---------------------------------------------------------------------

  /** The count `/info` reports: one less than the transcript length, for
      the system message, and never below zero. */
  function InfoCount(messages: seq<Message>): (n: nat)
    ensures n <= |messages| && n + 1 >= |messages|
    ensures |messages| > 0 ==> n == |messages| - 1
    ensures messages == [] ==> n == 0
  {
    var count := |messages| - 1;
    if count < 0 then 0 else count
  }

  /** The number of messages that are not system messages. */
  function NonSystemCount(messages: seq<Message>): nat {
    if messages == [] then 0
    else (if IsSystem(messages[0]) then 0 else 1) + NonSystemCount(messages[1..])
  }

  lemma {:induction false} NonSystemCountNone(messages: seq<Message>)
    requires forall i :: 0 <= i < |messages| ==> !IsSystem(messages[i])
    ensures NonSystemCount(messages) == |messages|
  {
    if messages != [] {
      NonSystemCountNone(messages[1..]);
    }
  }

  /** With one leading system message the count is exact; with no system
      message at all it is one short. */
  lemma InfoCountMeaning(messages: seq<Message>)
    ensures |messages| > 0 && IsSystem(messages[0])
      && (forall i :: 1 <= i < |messages| ==> !IsSystem(messages[i]))
      ==> InfoCount(messages) == NonSystemCount(messages)
    ensures |messages| > 0 && (forall i :: 0 <= i < |messages| ==> !IsSystem(messages[i]))
      ==> InfoCount(messages) == NonSystemCount(messages) - 1
  {
    if |messages| > 0 {
      if forall i :: 1 <= i < |messages| ==> !IsSystem(messages[i]) {
        NonSystemCountNone(messages[1..]);
      }
      if forall i :: 0 <= i < |messages| ==> !IsSystem(messages[i]) {
        NonSystemCountNone(messages);
      }
    }
  }

  /** After `/clear`, `/info` reports zero messages. */
  lemma InfoAfterClear(messages: seq<Message>)
    ensures InfoCount(ClearedHistory(messages)) == 0
  {
  }

  // ---------------------------------------------------------------------
  // /echo
  // ---------------------------------------------------------------------

  /** The handler's reply, and the text it forwards to the model, if any. */
  datatype EchoReply = EchoReply(answer: string, forwarded: Option<string>)

  const EchoUsage := "Please provide text after the /echo command."

  /** The `/echo` handler on the whole message text (command included). The
      forwarded text is the message's own tail after the command word and the
      whitespace behind it, and the reply quotes it; without a tail the reply
      is the usage text. */
  function EchoHandler(messageText: string): (r: EchoReply)
    ensures r.forwarded.None? ==> r.answer == EchoUsage
    ensures r.forwarded.Some? ==>
      var rest := r.forwarded.value;
      && r.answer == "You said: " + rest + "\n\nI'll ask GPT for more insights..."
      && EndsWith(messageText, rest) && |rest| > 0 && !IsSpace(rest[0])
      && |rest| < |messageText| && IsSpace(messageText[|messageText| - |rest| - 1])
  {
    var parts := SplitOnce(messageText);
    if |parts| > 1 then
      EchoReply("You said: " + parts[1] + "\n\nI'll ask GPT for more insights...", Some(parts[1]))
    else EchoReply(EchoUsage, None)
  }

  /** Text is forwarded exactly when the message has a second word; what is
      forwarded is the rest after the command, holding the remaining words. */
  lemma EchoForwardsRest(messageText: string)
    ensures EchoHandler(messageText).forwarded.Some? <==> |Split(messageText)| >= 2
    ensures EchoHandler(messageText).forwarded.None? ==> EchoHandler(messageText).answer == EchoUsage
    ensures EchoHandler(messageText).forwarded.Some? ==>
      var rest := EchoHandler(messageText).forwarded.value;
      && Split(rest) == Split(messageText)[1..]
      && EndsWith(messageText, rest) && |rest| > 0 && !IsSpace(rest[0])
      && EchoHandler(messageText).answer == "You said: " + rest + "\n\nI'll ask GPT for more insights..."
  {
    SplitOnceMatchesSplit(messageText);
  }
}
