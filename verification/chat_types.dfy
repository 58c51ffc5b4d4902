/** The records the frontend and the backend exchange. */
module ChatTypes {

  /** Who wrote a message: the person at the keyboard or the model's reply. */
  datatype Speaker = User | System

  /** One transcript entry. The timestamp is an opaque ISO-8601 string read from a clock. */
  datatype Message = Message(speaker: Speaker, text: string, timestamp: string)

  /** A stored exchange; `id` is the opaque identifier the backend generated for it. */
  datatype Conversation = Conversation(id: string, clientId: string, messages: seq<Message>)

  /** One entry of the `messages` list of a chat request, in the OpenAI role/content form. */
  datatype RequestMessage = RequestMessage(role: string, content: string)

  /** The JSON body of `POST /api/chat`. */
  datatype ChatRequest = ChatRequest(messages: seq<RequestMessage>, clientId: string)
}
