/** The `project-message` wire format shared by the server and the project screen. */
module Protocol {
  import opened Wrappers

  /** A sender as it travels on the wire: `{ _id, email }`. */
  datatype Identity = Identity(id: string, email: string)

  /**
   * The payload of a `project-message` event, `{ newmessage, sender }`.
   * `newmessage` is `None` when it is missing or not a string.
   */
  datatype ChatMessage = ChatMessage(newmessage: Option<string>, sender: Option<Identity>)

  /** The text that addresses the assistant. */
  const Marker := "@savana"

  /** The synthetic sender of assistant replies, `{ _id: 'savana', email: 'SAVANA' }`. */
  const AssistantId := "savana"
  const Assistant := Identity(AssistantId, "SAVANA")

  /** The message the server broadcasts for a generated result. */
  function AssistantReply(result: string): ChatMessage {
    ChatMessage(Some(result), Some(Assistant))
  }
}
