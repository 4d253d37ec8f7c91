/**
 * The chat entities the resolver reads, the client's cached object graph, and the
 * loosely typed argument the resolver accepts.
 */
module Entities {
  import opened Wrappers
  import Search
  import Base64

  datatype User = User(id: string, username: string)

  datatype Role = Role(id: string, name: string)

  datatype Invite = Invite(id: string)

  /**
   * The classes a channel object is an instance of.  A text or voice channel of a
   * server is also a `ServerChannel`, so a channel carries a set of these.
   */
  datatype ChannelTag = ServerChannelTag | TextTag | VoiceTag | PMTag

  datatype Server = Server(id: string, owner: User, channels: seq<Channel>, roles: seq<Role>)

  datatype Channel = Channel(
    id: string,
    tags: set<ChannelTag>,
    server: Option<Server>,
    lastMessage: Option<Message>,
    recipient: Option<User>)
  {
    predicate IsServerChannel() { ServerChannelTag in tags }
    predicate IsText() { TextTag in tags }
    predicate IsVoice() { VoiceTag in tags }
    predicate IsPM() { PMTag in tags }

    /**
     * The tags of an actual channel object: text and voice channels are server
     * channels, and a private channel is nothing else.
     */
    predicate WellTagged() {
      && (TextTag in tags || VoiceTag in tags ==> ServerChannelTag in tags)
      && (PMTag in tags ==> tags == {PMTag})
    }
  }

  datatype Message = Message(id: string, author: User, channel: Channel, server: Option<Server>)

  /**
   * The client's cache.  Every collection keeps its iteration order: lookups by id
   * return the first match, and `users` (the client's own table, read by
   * resolveUser) and `clientUsers` (the table `internal.client.users`, read by
   * resolveMentions) are kept apart as the source reads them.
   */
  datatype ClientState = ClientState(
    servers: seq<Server>,
    channels: seq<Channel>,
    users: seq<User>,
    privateChannels: seq<Channel>,
    clientUsers: seq<User>)

  /** Every shape of argument the resolver distinguishes. */
  datatype Resource =
    | UserRes(user: User)
    | MessageRes(message: Message)
    | ChannelRes(channel: Channel)
    | ServerRes(server: Server)
    | RoleRes(role: Role)
    | InviteRes(invite: Invite)
    | Str(s: string)
    | Buffer(bytes: seq<Base64.byte>)
    | Array(items: seq<Resource>)
    | Nil    // null or undefined
    | Other  // any other value (a number, a plain object, ...)

  /** `cache.get("id", id)` on the servers. */
  function ServerById(servers: seq<Server>, id: string): Option<Server> {
    Search.Find(servers, (s: Server) => s.id == id)
  }

  /** `cache.get("id", id)` on a channel collection. */
  function ChannelById(channels: seq<Channel>, id: string): Option<Channel> {
    Search.Find(channels, (c: Channel) => c.id == id)
  }

  /** `cache.get("id", id)` on a user table. */
  function UserById(users: seq<User>, id: string): Option<User> {
    Search.Find(users, (u: User) => u.id == id)
  }

  /** A server lookup gives a server with that id, and nothing only when no server has it. */
  lemma ServerByIdSpec(servers: seq<Server>, id: string)
    ensures ServerById(servers, id).Some? ==> ServerById(servers, id).value in servers && ServerById(servers, id).value.id == id
    ensures ServerById(servers, id).None? <==> forall j :: 0 <= j < |servers| ==> servers[j].id != id
  {
    Search.FindFirst(servers, (s: Server) => s.id == id);
  }

  /** A channel lookup gives a channel with that id, and nothing only when no channel has it. */
  lemma ChannelByIdSpec(channels: seq<Channel>, id: string)
    ensures ChannelById(channels, id).Some? ==> ChannelById(channels, id).value in channels && ChannelById(channels, id).value.id == id
    ensures ChannelById(channels, id).None? <==> forall j :: 0 <= j < |channels| ==> channels[j].id != id
  {
    Search.FindFirst(channels, (c: Channel) => c.id == id);
  }

  /** A user lookup gives a user with that id, and nothing only when no user has it. */
  lemma UserByIdSpec(users: seq<User>, id: string)
    ensures UserById(users, id).Some? ==> UserById(users, id).value in users && UserById(users, id).value.id == id
    ensures UserById(users, id).None? <==> forall j :: 0 <= j < |users| ==> users[j].id != id
  {
    Search.FindFirst(users, (u: User) => u.id == id);
  }
}
