/**
 * The resolver: one operation per target kind that turns a loosely typed argument
 * into the canonical entity or value, reading (never changing) the client's cache.
 */
module Resolvers {
  import opened Wrappers
  import opened Entities
  import opened Text
  import opened Mentions
  import Base64
  import Search

  /** The media-type prefix resolveToBase64 puts in front of the encoded bytes. */
  const DataUriPrefix: string := "data:image/jpg;base64,"

  /** How the promise returned by resolveChannel settles. */
  datatype ChannelOutcome =
    | Resolved(channel: Option<Channel>)  // already settled with a channel, or with nothing found
    | StartPM(user: User)                 // delegated to the client's `startPM(user)` round trip
    | Rejected(resource: Resource)        // "Could not resolve channel", carrying the argument

  /** What resolveFile does with its argument. */
  datatype FileOutcome =
    | Fetch(url: string)          // an HTTP GET of the URL
    | Passthrough(value: Resource) // an already settled promise of the argument itself

  /** The regular expression /^https?:\/\// of resolveFile. */
  predicate IsHttpUrl(s: string) {
    "http://" <= s || "https://" <= s
  }

  /**
   * `IsHttpUrl` reads the regular expression piece by piece: `http` at the start,
   * an optional `s`, then `://`.
   */
  lemma HttpUrlPattern(s: string)
    ensures IsHttpUrl(s) <==> "http" <= s && ("://" <= s[4..] || "s://" <= s[4..])
  {
    if "http" <= s {
      assert "http://" <= s <==> "://" <= s[4..];
      assert "https://" <= s <==> "s://" <= s[4..];
    }
  }

  /** `User.equals`, taken as equality of ids. */
  predicate SameUser(a: User, b: User) {
    a.id == b.id
  }

  /** A private channel whose recipient is `user`. */
  predicate IsPMWith(c: Channel, user: User) {
    c.recipient.Some? && SameUser(c.recipient.value, user)
  }

  /** The first private channel with `user` in iteration order. */
  function ExistingPM(pcs: seq<Channel>, user: User): (r: Option<Channel>)
    ensures r.None? <==> forall j :: 0 <= j < |pcs| ==> !IsPMWith(pcs[j], user)
    ensures forall i :: 0 <= i < |pcs| && IsPMWith(pcs[i], user) && (forall j :: 0 <= j < i ==> !IsPMWith(pcs[j], user)) ==>
      r == Some(pcs[i])
  {
    Search.FindFirst(pcs, (c: Channel) => IsPMWith(c, user));
    Search.Find(pcs, (c: Channel) => IsPMWith(c, user))
  }

  predicate HasRole(server: Server, id: string) {
    exists k :: 0 <= k < |server.roles| && server.roles[k].id == id
  }

  /** `roles.find(r => r.id == id)`. */
  function RoleIn(roles: seq<Role>, id: string): (r: Option<Role>)
    ensures r.Some? ==> r.value in roles && r.value.id == id
    ensures r.None? <==> forall k :: 0 <= k < |roles| ==> roles[k].id != id
  {
    Search.FindFirst(roles, (x: Role) => x.id == id);
    Search.Find(roles, (x: Role) => x.id == id)
  }

  /** The role a role id names: the first match in the first server that has one. */
  function RoleById(servers: seq<Server>, id: string): (r: Option<Role>)
    ensures r.None? <==> forall j :: 0 <= j < |servers| ==> !HasRole(servers[j], id)
    ensures forall i :: 0 <= i < |servers| && HasRole(servers[i], id) && (forall j :: 0 <= j < i ==> !HasRole(servers[j], id)) ==>
      r == RoleIn(servers[i].roles, id)
  {
    Search.FindFirst(servers, (s: Server) => HasRole(s, id));
    match Search.Find(servers, (s: Server) => HasRole(s, id))
    case Some(server) => RoleIn(server.roles, id)
    case None => None
  }

  /** `server.channels.get("id", server.id)`: the server's channel that shares its id. */
  function DefaultChannel(server: Server): (r: Option<Channel>)
    ensures r.Some? ==> r.value in server.channels && r.value.id == server.id
    ensures r.None? <==> forall j :: 0 <= j < |server.channels| ==> server.channels[j].id != server.id
  {
    ChannelByIdSpec(server.channels, server.id);
    ChannelById(server.channels, server.id)
  }

  /**
   * The text JavaScript gives a value as an element of `join`: null and undefined
   * give the empty text, a string itself, an array its elements joined by commas;
   * `show` gives the text of every other value (their `toString`).
   */
  function ElementText(r: Resource, show: Resource -> string): (text: string)
    ensures r.Nil? ==> text == ""
    ensures r.Str? ==> text == r.s
    ensures !(r.Nil? || r.Str? || r.Array?) ==> text == show(r)
    decreases r
  {
    match r
    case Nil => ""
    case Str(s) => s
    case Array(items) => Join(seq(|items|, i requires 0 <= i < |items| => ElementText(items[i], show)), ",")
    case _ => show(r)
  }

  /** The text of each element of an array, in order. */
  function Texts(items: seq<Resource>, show: Resource -> string): seq<string> {
    seq(|items|, i requires 0 <= i < |items| => ElementText(items[i], show))
  }

  /** A nested array's text splits on commas back into its elements' texts when none holds a comma. */
  lemma NestedArrayText(items: seq<Resource>, show: Resource -> string)
    requires |items| > 0 && forall i :: 0 <= i < |items| ==> ',' !in ElementText(items[i], show)
    ensures Split(ElementText(Array(items), show), ',') == Texts(items, show)
  {
    SplitOfJoin(Texts(items, show), ',');
  }

  /** Strings as resources. */
  function Strs(ss: seq<string>): (rs: seq<Resource>)
    ensures |rs| == |ss| && forall i :: 0 <= i < |ss| ==> rs[i] == Str(ss[i])
  {
    seq(|ss|, i requires 0 <= i < |ss| => Str(ss[i]))
  }

  datatype Resolver = Resolver(internal: ClientState)
  {
    /** resolveToBase64: a buffer becomes a base 64 data URI, anything else passes through. */
    function ResolveToBase64(resource: Resource): (r: Resource)
      ensures !resource.Buffer? ==> r == resource
      ensures resource.Buffer? ==> r.Str? && r.s == DataUriPrefix + Base64.Encode(resource.bytes)
      ensures resource.Buffer? ==> Base64.Decode(r.s[|DataUriPrefix|..]) == Some(resource.bytes)
    {
      if resource.Buffer? then
        var text := DataUriPrefix + Base64.Encode(resource.bytes);
        Base64.DecodeEncode(resource.bytes);
        assert text[|DataUriPrefix|..] == Base64.Encode(resource.bytes);
        Str(text)
      else resource
    }

    /** resolveInviteID: an invite's id, the last path segment of a URL, or a bare id. */
    function ResolveInviteID(resource: Resource): (r: Option<string>)
      ensures resource.InviteRes? ==> r == Some(resource.invite.id)
      ensures resource.Str? && !("http" <= resource.s) ==> r == Some(resource.s)
      ensures resource.Str? && "http" <= resource.s ==>
        var s := resource.s;
        && r.Some? && '/' !in r.value
        && |r.value| <= |s| && s[|s| - |r.value|..] == r.value
        && (|r.value| < |s| ==> s[|s| - |r.value| - 1] == '/')
      ensures !resource.InviteRes? && !resource.Str? ==> r == None
    {
      match resource
      case InviteRes(invite) => Some(invite.id)
      case Str(s) => if "http" <= s then Some(LastPiece(s, '/')) else Some(s)
      case _ => None
    }

    /** resolveServer: a server itself, a server channel's server, a server id, or a text-channel message's server. */
    function ResolveServer(resource: Resource): (r: Option<Server>)
      ensures resource.ServerRes? ==> r == Some(resource.server)
      ensures resource.ChannelRes? ==> r == if resource.channel.IsServerChannel() then resource.channel.server else None
      ensures resource.Str? ==> r == ServerById(internal.servers, resource.s)
      ensures resource.Str? && r.Some? ==> r.value in internal.servers && r.value.id == resource.s
      ensures resource.MessageRes? ==>
        r == if resource.message.channel.IsText() then resource.message.server else None
      ensures !(resource.ServerRes? || resource.ChannelRes? || resource.Str? || resource.MessageRes?) ==> r == None
    {
      match resource
      case ServerRes(server) => Some(server)
      case ChannelRes(c) => if c.IsServerChannel() then c.server else None
      case Str(s) => ServerByIdSpec(internal.servers, s); ServerById(internal.servers, s)
      case MessageRes(m) => if m.channel.IsText() then m.server else None
      case _ => None
    }

    /** resolveRole: a role itself, or the first role with the given id scanning servers in order. */
    method ResolveRole(resource: Resource) returns (role: Option<Role>)
      ensures resource.RoleRes? ==> role == Some(resource.role)
      ensures resource.Str? ==> role == RoleById(internal.servers, resource.s)
      ensures !resource.RoleRes? && !resource.Str? ==> role == None
    {
      if resource.RoleRes? {
        return Some(resource.role);
      }
      if resource.Str? {
        var servers := internal.servers;
        for i := 0 to |servers|
          invariant forall j :: 0 <= j < i ==> !HasRole(servers[j], resource.s)
        {
          var found := RoleIn(servers[i].roles, resource.s);
          if found.Some? {
            return found;
          }
        }
      }
      return None;
    }

    /** resolveFile, up to the request: only an http(s) URL is fetched, anything else passes through. */
    function ResolveFile(resource: Resource): (o: FileOutcome)
      ensures o.Fetch? <==> resource.Str? && IsHttpUrl(resource.s)
      ensures o.Fetch? ==> o.url == resource.s
      ensures o.Passthrough? ==> o.value == resource
    {
      match resource
      case Str(s) => if IsHttpUrl(s) then Fetch(s) else Passthrough(resource)
      case _ => Passthrough(resource)
    }

    /** resolveMentions: the users the text mentions and the text with `@username` for each known mention. */
    method ResolveMentions(resource: string) returns (mentions: seq<User>, changed: string)
      ensures mentions == MentionedUsers(Scan(resource), internal.clientUsers)
      ensures changed == Replaced(resource, Scan(resource), internal.clientUsers)
      ensures SafeNames(internal.clientUsers) ==> changed == Rewrite(resource, TokenSet(resource), internal.clientUsers)
    {
      var users := internal.clientUsers;
      var matches := Scan(resource);
      mentions := [];
      changed := resource;
      for k := 0 to |matches|
        invariant mentions == MentionedUsers(matches[..k], users)
        invariant changed == Replaced(resource, matches[..k], users)
      {
        var mention := matches[k];
        var user := UserById(users, MentionId(mention));
        assert matches[..k + 1][..k] == matches[..k];
        if user.Some? {
          mentions := mentions + [user.value];
          changed := ReplaceAll(changed, mention, "@" + user.value.username);
        }
      }
      assert matches[..|matches|] == matches;
      if SafeNames(users) {
        ReplacedIsRewrite(resource, matches, users);
      }
    }

    /** resolveString: an array's elements joined by newlines, anything else its own text. */
    function ResolveString(resource: Resource, show: Resource -> string): (r: string)
      requires !resource.Nil?
      ensures resource.Str? ==> r == resource.s
      ensures forall ss :: resource == Array(Strs(ss)) ==> r == Join(ss, "\n")
      ensures resource.Array? ==> r == Join(Texts(resource.items, show), "\n")
      ensures !resource.Array? ==> r == ElementText(resource, show)
    {
      match resource
      case Array(items) =>
        var texts := Texts(items, show);
        assert forall ss :: items == Strs(ss) ==> texts == ss;
        Join(texts, "\n")
      case _ => ElementText(resource, show)
    }

    /** resolveUser: the user a user, message, channel, server or user id stands for. */
    function ResolveUser(resource: Resource): (r: Option<User>)
      ensures resource.UserRes? ==> r == Some(resource.user)
      ensures resource.MessageRes? ==> r == Some(resource.message.author)
      ensures resource.ChannelRes? ==>
        var c := resource.channel;
        r == if c.IsText() && c.lastMessage.Some? then Some(c.lastMessage.value.author)
             else if c.IsPM() then c.recipient
             else None
      ensures resource.ServerRes? ==> r == Some(resource.server.owner)
      ensures resource.Str? ==> r == UserById(internal.users, resource.s)
      ensures resource.Str? && r.Some? ==> r.value in internal.users && r.value.id == resource.s
      ensures !(resource.UserRes? || resource.MessageRes? || resource.ChannelRes? || resource.ServerRes? || resource.Str?) ==>
        r == None
    {
      match resource
      case UserRes(user) => Some(user)
      case MessageRes(m) => Some(m.author)
      case ChannelRes(c) =>
        if c.IsText() && c.lastMessage.Some? then Some(c.lastMessage.value.author)
        else if c.IsPM() then c.recipient
        else None
      case ServerRes(server) => Some(server.owner)
      case Str(s) => UserByIdSpec(internal.users, s); UserById(internal.users, s)
      case _ => None
    }

    /** resolveMessage: a message itself, or the last message of a text or private channel. */
    function ResolveMessage(resource: Resource): (r: Option<Message>)
      ensures resource.MessageRes? ==> r == Some(resource.message)
      ensures resource.ChannelRes? ==>
        r == if resource.channel.IsText() || resource.channel.IsPM() then resource.channel.lastMessage else None
      ensures !resource.MessageRes? && !resource.ChannelRes? ==> r == None
    {
      match resource
      case ChannelRes(c) => if c.IsText() || c.IsPM() then c.lastMessage else None
      case MessageRes(m) => Some(m)
      case _ => None
    }

    /** resolveVoiceChannel: only a voice channel resolves, to itself. */
    function ResolveVoiceChannel(resource: Resource): (r: Option<Channel>)
      ensures r.Some? <==> resource.ChannelRes? && resource.channel.IsVoice()
      ensures r.Some? ==> r.value == resource.channel
    {
      match resource
      case ChannelRes(c) => if c.IsVoice() then Some(c) else None
      case _ => None
    }

    /** resolveChannel: the channel a message, channel, server, channel id or user stands for. */
    method ResolveChannel(resource: Resource) returns (outcome: ChannelOutcome)
      ensures resource.MessageRes? ==> outcome == Resolved(Some(resource.message.channel))
      ensures resource.ChannelRes? ==> outcome == Resolved(Some(resource.channel))
      ensures resource.ServerRes? ==> outcome == Resolved(DefaultChannel(resource.server))
      ensures resource.Str? ==> outcome == Resolved(ChannelById(internal.channels, resource.s))
      ensures resource.UserRes? ==>
        outcome == match ExistingPM(internal.privateChannels, resource.user)
                   case Some(c) => Resolved(Some(c))
                   case None => StartPM(resource.user)
      ensures outcome.Rejected? <==>
        !(resource.MessageRes? || resource.ChannelRes? || resource.ServerRes? || resource.Str? || resource.UserRes?)
      ensures outcome.Rejected? ==> outcome.resource == resource
    {
      match resource
      case MessageRes(m) => return Resolved(Some(m.channel));
      case ChannelRes(c) => return Resolved(Some(c));
      case ServerRes(server) => return Resolved(ChannelById(server.channels, server.id));
      case Str(s) => return Resolved(ChannelById(internal.channels, s));
      case UserRes(user) =>
        var pcs := internal.privateChannels;
        var chatFound: Option<Channel> := None;
        for i := 0 to |pcs|
          invariant chatFound.None?
          invariant forall j :: 0 <= j < i ==> !IsPMWith(pcs[j], user)
        {
          if IsPMWith(pcs[i], user) {
            chatFound := Some(pcs[i]);
            break;
          }
        }
        if chatFound.Some? {
          return Resolved(chatFound);
        }
        return StartPM(user);
      case _ => return Rejected(resource);
    }
  }

  /** An invite URL resolves to its last path segment, which is empty when the URL ends in a slash. */
  lemma InviteUrlSegment(res: Resolver, url: string, segment: string)
    requires "http" <= url && '/' !in segment
    ensures res.ResolveInviteID(Str(url + "/" + segment)) == Some(segment)
  {
    assert "http" <= url + "/" + segment;
    LastPieceAfter(url, segment, '/');
  }

  /**
   * resolveString of a non-empty array whose elements' texts hold no newline splits
   * back into those texts, one line per element: a null element gives an empty
   * line, a nested array its comma-joined text, a string itself.
   */
  lemma ResolveStringLines(res: Resolver, items: seq<Resource>, show: Resource -> string)
    requires |items| > 0 && forall i :: 0 <= i < |items| ==> '\n' !in ElementText(items[i], show)
    ensures Split(res.ResolveString(Array(items), show), '\n') == Texts(items, show)
  {
    SplitOfJoin(Texts(items, show), '\n');
  }

  /** `[["a", "b"], null, "c"]` resolves to the lines `a,b`, empty and `c`. */
  lemma ResolveStringMixed(res: Resolver, show: Resource -> string)
    ensures res.ResolveString(Array([Array([Str("a"), Str("b")]), Nil, Str("c")]), show) == "a,b\n\nc"
  {
    var inner := [Str("a"), Str("b")];
    assert Texts(inner, show) == ["a", "b"];
    assert Join(["a", "b"], ",") == "a,b" by {
      assert ["a", "b"][1..] == ["b"];
    }
    assert ElementText(Array(inner), show) == Join(Texts(inner, show), ",");
    var items := [Array(inner), Nil, Str("c")];
    var texts := Texts(items, show);
    assert texts == ["a,b", "", "c"];
    assert texts[1..] == ["", "c"] && ["", "c"][1..] == ["c"];
    assert Join(["", "c"], "\n") == "\nc";
    assert Join(texts, "\n") == "a,b" + "\n" + "\nc";
  }

  /** resolveString([a, b, c]) == a + "\n" + b + "\n" + c for plain strings. */
  lemma ResolveStringThree(res: Resolver, a: string, b: string, c: string, show: Resource -> string)
    ensures res.ResolveString(Array([Str(a), Str(b), Str(c)]), show) == a + "\n" + b + "\n" + c
  {
    var lines := [a, b, c];
    assert [Str(a), Str(b), Str(c)] == Strs(lines);
    assert lines[1..] == [b, c] && [b, c][1..] == [c];
    assert Join([b, c], "\n") == b + "\n" + c;
    assert Join(lines, "\n") == a + "\n" + (b + "\n" + c);
  }

  /**
   * Once a private channel with the user is among the private channels (inserted
   * anywhere, where there was none before), resolving the user finds it.
   */
  lemma PMFoundOnceOpened(pcs: seq<Channel>, user: User, pm: Channel, k: nat)
    requires ExistingPM(pcs, user).None? && IsPMWith(pm, user) && k <= |pcs|
    ensures ExistingPM(pcs[..k] + [pm] + pcs[k..], user) == Some(pm)
  {
    var after := pcs[..k] + [pm] + pcs[k..];
    assert after[k] == pm;
    forall j | 0 <= j < k
      ensures !IsPMWith(after[j], user)
    {
      assert after[j] == pcs[j];
    }
  }

  /** A text channel with a last message resolves to the same user as that message does. */
  lemma ChannelUserIsMessageAuthor(res: Resolver, c: Channel)
    requires c.IsText() && c.lastMessage.Some?
    ensures res.ResolveMessage(ChannelRes(c)) == c.lastMessage
    ensures res.ResolveUser(ChannelRes(c)) == res.ResolveUser(MessageRes(c.lastMessage.value))
  {
  }

  /** A well-tagged text or voice channel resolves to its server. */
  lemma WellTaggedChannelServer(res: Resolver, c: Channel)
    requires c.WellTagged() && (c.IsText() || c.IsVoice())
    ensures res.ResolveServer(ChannelRes(c)) == c.server
  {
  }

  /** Resolving an already resolved value gives it back. */
  lemma ResolveIdempotent(res: Resolver, r: Resource)
    ensures res.ResolveServer(r).Some? ==> res.ResolveServer(ServerRes(res.ResolveServer(r).value)) == res.ResolveServer(r)
    ensures res.ResolveUser(r).Some? ==> res.ResolveUser(UserRes(res.ResolveUser(r).value)) == res.ResolveUser(r)
    ensures res.ResolveMessage(r).Some? ==> res.ResolveMessage(MessageRes(res.ResolveMessage(r).value)) == res.ResolveMessage(r)
    ensures res.ResolveVoiceChannel(r).Some? ==>
      res.ResolveVoiceChannel(ChannelRes(res.ResolveVoiceChannel(r).value)) == res.ResolveVoiceChannel(r)
  {
  }
}
