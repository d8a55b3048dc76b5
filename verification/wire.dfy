/** The JSON frames exchanged over the `/api/ws` socket, as datatypes. A frame
    that fails to parse, or whose `type` no handler knows, is kept as such so
    that the handlers' treatment of it can be stated. */
module Wire {
  import opened Wrappers
  import opened AvatarTypes
  import opened Avatar

  /** Frames a browser sends to the relay (components/OfficeScene.tsx). */
  datatype ClientFrame =
    | Join(userId: string, officeId: string, name: Option<string>, image: Option<string>,
           position: Option<Vec3>, rotation: Option<Vec3>, customization: Option<Customization>)
    | PositionFrame(position: Option<Vec3>, rotation: Option<Vec3>)
    | AvatarUpdateFrame(customization: Option<Customization>)
    | ChatFrame(message: string)
    | OtherFrame(kind: string)    // parsed JSON whose `type` is anything else
    | Unparseable                 // not JSON, or JSON that is not an object

  datatype ChatMessage = ChatMessage(id: string, userId: string, userName: string,
                                     message: string, timestamp: int)

  /** Messages a browser receives. The relay in server.js produces only the
      first five; the client also handles the last two. */
  datatype ServerMsg =
    | Users(users: seq<AvatarData>)
    | UserJoined(user: AvatarData)
    | UserLeft(userId: string)
    | PositionUpdate(userId: string, position: Option<Vec3>, rotation: Option<Vec3>)
    | AvatarUpdate(userId: string, customization: Option<Customization>)
    | ChatHistory(messages: seq<ChatMessage>)
    | ChatPosted(message: ChatMessage)
    | OtherMsg(kind: string)

  predicate IsChatMsg(m: ServerMsg) {
    m.ChatHistory? || m.ChatPosted?
  }
}
