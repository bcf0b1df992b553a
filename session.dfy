/**
 * The values the bot's handlers and middleware pass around, and the
 * per-conversation session record they update in place.
 */
module Session {

  /** One element of a structured message: a dictionary (`{'type': 'text',
      'text': ...}`, `{'type': 'image_url', ...}`) or anything else a list
      may hold. Dictionary values are modelled as strings. */
  datatype Part = DictPart(fields: map<string, string>) | OtherPart

  /** Message content: a plain string, or a list of typed parts. */
  datatype Content = Text(text: string) | Parts(parts: seq<Part>)

  /** A role-tagged transcript entry (`{"role": ..., "content": ...}`). */
  datatype Message = Message(role: string, content: Content)

  predicate IsSystem(m: Message) {
    m.role == "system"
  }

  /**
   * A conversation's session record: its transcript and the tracking
   * variables kept under `context["variables"]`. A missing "variables"
   * entry and an empty one are both the empty map.
   */
  class SessionData {
    var messages: seq<Message>
    var variables: map<string, int>

    constructor (messages: seq<Message>, variables: map<string, int>)
      ensures this.messages == messages && this.variables == variables
    {
      this.messages := messages;
      this.variables := variables;
    }
  }
}
