/**
 * The example bot's two middleware stages: a message stage that previews
 * the content and counts messages in the session's tracking variables, and
 * a response stage that signs long responses and spaces code fences.
 */
module Middleware {
  import opened Strings
  import opened Session

  /** What a message stage hands on: the content and the transcript. */
  datatype MessagePayload = MessagePayload(messageContent: Content, messages: seq<Message>)

  /** What a response stage hands on: the response text and the transcript. */
  datatype ResponsePayload = ResponsePayload(response: string, messages: seq<Message>)

  // ---------------------------------------------------------------------
  // Message middleware
  // ---------------------------------------------------------------------

  const PreviewLength := 100
  const MediaDisplay := "complex content (likely contains media)"

  /** The log line's view of a string: the string itself up to 100
      characters, otherwise its first 100 characters and "...". */
  function Preview(s: string): (r: string)
    ensures |r| <= PreviewLength + 3
    ensures |s| <= PreviewLength ==> r == s
    ensures |s| > PreviewLength ==>
      |r| == PreviewLength + 3 && r[..PreviewLength] == s[..PreviewLength] && EndsWith(r, "...")
  {
    if |s| > PreviewLength then s[..PreviewLength] + "..." else s
  }

  /** The log line's view of the content: a string's preview, or a fixed
      text for a list of parts. */
  function ContentDisplay(content: Content): (r: string)
    ensures |r| <= PreviewLength + 3
    ensures content.Text? && |content.text| <= PreviewLength ==> r == content.text
    ensures content.Text? && |content.text| > PreviewLength ==>
      |r| == PreviewLength + 3 && r[..PreviewLength] == content.text[..PreviewLength] && EndsWith(r, "...")
    ensures content.Parts? ==> r == MediaDisplay
  {
    match content
    case Text(s) => Preview(s)
    case Parts(_) => MediaDisplay
  }

  /** `variables.get("message_count", 0)`. */
  function MessageCount(variables: map<string, int>): int {
    if "message_count" in variables then variables["message_count"] else 0
  }

  /** The tracking variables after one message: the time of the interaction
      and the count one higher; every other key kept. */
  function Tracked(variables: map<string, int>, now: int): (r: map<string, int>)
    ensures r.Keys == variables.Keys + {"last_interaction", "message_count"}
    ensures r["last_interaction"] == now
    ensures MessageCount(r) == MessageCount(variables) + 1
    ensures forall k :: k in variables && k != "last_interaction" && k != "message_count" ==>
      r[k] == variables[k]
  {
    variables["last_interaction" := now]["message_count" := MessageCount(variables) + 1]
  }

  /** The tracking variables after messages at the given times. */
  function TrackAll(variables: map<string, int>, times: seq<int>): map<string, int>
    decreases |times|
  {
    if times == [] then variables else TrackAll(Tracked(variables, times[0]), times[1..])
  }

  /** `n` messages count `n` more. */
  lemma {:induction false} TrackedRepeatedly(variables: map<string, int>, times: seq<int>)
    ensures MessageCount(TrackAll(variables, times)) == MessageCount(variables) + |times|
    decreases |times|
  {
    if times != [] {
      TrackedRepeatedly(Tracked(variables, times[0]), times[1..]);
    }
  }

  /**
   * The logging stage. `now` is the clock reading `int(time.time())`. The
   * returned display is what would be logged; content and transcript are
   * handed on unchanged and the session's transcript is untouched.
   */
  method LoggingMiddleware(content: Content, messages: seq<Message>, session: SessionData, now: int)
    returns (payload: MessagePayload, display: string)
    modifies session
    ensures payload == MessagePayload(content, messages)
    ensures display == ContentDisplay(content)
    ensures session.variables == Tracked(old(session.variables), now)
    ensures session.messages == old(session.messages)
  {
    if content.Text? {
      var s := content.text;
      display := if |s| > PreviewLength then s[..PreviewLength] + "..." else s;
    } else {
      display := MediaDisplay;
    }
    var count := MessageCount(session.variables) + 1;
    session.variables := session.variables["last_interaction" := now]["message_count" := count];
    payload := MessagePayload(content, messages);
  }

  // ---------------------------------------------------------------------
  // Response middleware
  // ---------------------------------------------------------------------

  const SignatureThreshold := 100
  const Fence := "```"

  function Signature(count: int): string {
    "\n\n_Message #" + IntToDecimal(count) + " \U{2022} Powered by GPT_"
  }

  /** A stripped response gets a signature when it is long and does not
      already end in "_". */
  predicate NeedsSignature(s: string) {
    |s| > SignatureThreshold && !EndsWith(s, "_")
  }

  /** The stripped response, signed when it needs it. The result is itself
      stripped and never needs another signature. */
  function Signed(response: string, count: int): (r: string)
    ensures !NeedsSignature(Strip(response)) ==> r == Strip(response)
    ensures NeedsSignature(Strip(response)) ==>
      && StartsWith(r, Strip(response)) && EndsWith(r, Signature(count))
      && |r| == |Strip(response)| + |Signature(count)|
    ensures Strip(r) == r && !NeedsSignature(r)
  {
    var s := Strip(response);
    if NeedsSignature(s) then
      var r := s + Signature(count);
      SignatureShape(count);
      assert r[..|s|] == s && r[|s|..] == Signature(count);
      assert r[0] == s[0] && r[|r| - 1] == '_';
      assert r[|r| - 1..] == "_";
      r
    else
      s
  }

  /** Blank lines after opening and before closing fences, when there is a
      fence; text without a fence is left alone, and nothing is removed. */
  function SpaceCodeFences(s: string): (r: string)
    ensures !Contains(s, Fence) ==> r == s
    ensures |r| >= |s|
  {
    if Contains(s, Fence) then
      var once := Replace(s, "```\n", "```\n\n");
      ReplaceGrows(s, "```\n", "```\n\n");
      ReplaceGrows(once, "\n```", "\n\n```");
      Replace(once, "\n```", "\n\n```")
    else s
  }

  /** The formatting stage; `variables` are the session's tracking variables. */
  function FormattingMiddleware(response: string, messages: seq<Message>, variables: map<string, int>)
    : (r: ResponsePayload)
    ensures r.messages == messages
  {
    ResponsePayload(SpaceCodeFences(Signed(response, MessageCount(variables))), messages)
  }

  lemma SignatureShape(count: int)
    ensures |Signature(count)| > 0 && Signature(count)[|Signature(count)| - 1] == '_'
    ensures forall k :: 0 <= k < |Signature(count)| ==> Signature(count)[k] != '`'
  {
    var d := IntToDecimal(count);
    var sig := Signature(count);
    var pre := "\n\n_Message #";
    var post := " \U{2022} Powered by GPT_";
    assert sig == pre + d + post;
    forall k | 0 <= k < |sig| ensures sig[k] != '`' {
      if k < |pre| { assert sig[k] == pre[k]; }
      else if k < |pre| + |d| { assert sig[k] == d[k - |pre|]; }
      else { assert sig[k] == post[k - |pre| - |d|]; }
    }
  }

  /** Appending text without the pattern's last character cannot create an
      occurrence of the pattern. */
  lemma AppendKeepsAbsent(a: string, b: string, p: string)
    requires |p| > 0 && !Contains(a, p)
    requires forall k :: 0 <= k < |b| ==> b[k] != p[|p| - 1]
    ensures !Contains(a + b, p)
  {
    var ab := a + b;
    forall i | 0 <= i <= |ab| - |p| ensures !OccursAt(ab, p, i) {
      var last := i + |p| - 1;
      if last < |a| {
        assert ab[i..i + |p|] == a[i..i + |p|];
        assert !OccursAt(a, p, i);
      } else {
        assert ab[i..i + |p|][|p| - 1] == b[last - |a|];
      }
    }
  }

  /** A long unsigned response without fences comes out stripped and signed
      with the session's message count. */
  lemma FormattingSigns(response: string, messages: seq<Message>, variables: map<string, int>)
    requires NeedsSignature(Strip(response)) && !Contains(Strip(response), Fence)
    ensures FormattingMiddleware(response, messages, variables).response
         == Strip(response) + Signature(MessageCount(variables))
  {
    SignatureShape(MessageCount(variables));
    AppendKeepsAbsent(Strip(response), Signature(MessageCount(variables)), Fence);
  }

  /** A short or already signed response without fences comes out stripped only. */
  lemma FormattingStripsOnly(response: string, messages: seq<Message>, variables: map<string, int>)
    requires !NeedsSignature(Strip(response)) && !Contains(Strip(response), Fence)
    ensures FormattingMiddleware(response, messages, variables).response == Strip(response)
  {
  }

  /** Fence spacing keeps a last character that ends neither pattern. */
  lemma SpaceCodeFencesKeepsLast(s: string)
    requires |s| > 0 && s[|s| - 1] != '\n' && s[|s| - 1] != '`'
    ensures |SpaceCodeFences(s)| > 0 && SpaceCodeFences(s)[|SpaceCodeFences(s)| - 1] == s[|s| - 1]
  {
    if Contains(s, Fence) {
      ReplaceKeepsLast(s, "```\n", "```\n\n");
      ReplaceKeepsLast(Replace(s, "```\n", "```\n\n"), "\n```", "\n\n```");
    }
  }

  /** A signed response ends in "_", so running the stage on its own output
      adds no second signature. */
  lemma FormattingSignsOnce(response: string, messages: seq<Message>, v1: map<string, int>, v2: map<string, int>)
    requires NeedsSignature(Strip(response))
    ensures var once := FormattingMiddleware(response, messages, v1).response;
      EndsWith(once, "_") && !NeedsSignature(Strip(once))
      && FormattingMiddleware(once, messages, v2).response == SpaceCodeFences(Strip(once))
  {
    var signed := Signed(response, MessageCount(v1));
    SignedEndsInUnderscore(response, MessageCount(v1));
    SpaceCodeFencesKeepsLast(signed);
    EndsInUnderscore(SpaceCodeFences(signed));
  }

  /** A signed response ends in the signature's final "_". */
  lemma SignedEndsInUnderscore(response: string, count: int)
    requires NeedsSignature(Strip(response))
    ensures |Signed(response, count)| > 0 && Signed(response, count)[|Signed(response, count)| - 1] == '_'
  {
    SignatureShape(count);
    var signed, sig := Signed(response, count), Signature(count);
    assert signed[|signed| - |sig|..][|sig| - 1] == sig[|sig| - 1];
  }

  /** A text ending in "_" still does once stripped, so it needs no signature. */
  lemma EndsInUnderscore(t: string)
    requires |t| > 0 && t[|t| - 1] == '_'
    ensures EndsWith(t, "_") && EndsWith(Strip(t), "_") && !NeedsSignature(Strip(t))
  {
    assert t[|t| - 1..] == "_";
    var s := Strip(t);
    assert s[|s| - 1..] == "_";
  }
}
