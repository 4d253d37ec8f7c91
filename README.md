# Resolver model

This project models the `Resolver` class of a Discord client library
(`src/Client/Resolver/Resolver.js`). The resolver takes a loosely typed argument
and turns it into the entity or value an API call needs. The argument can be a
user, message, channel, server, role, invite, id string, URL, buffer or array.
The resolver reads the client's cache (servers, channels, users, private
channels) and never changes it.

The model is written in Dafny:

- `wrappers.dfy`: `Option`.
- `search.dfy`: first-match search. It stands for the cache's `get("id", v)` and for `Array.prototype.find`.
- `text.dfy`: `String.prototype.split` and `Array.prototype.join` with a one-character separator, and the last piece of a split (`split("/").pop()`).
- `base64.dfy`: base 64 encoding with the alphabet and padding of section 4 of RFC 4648, with a decoder and the round trip proved.
- `entities.dfy`: users, roles, invites, servers, channels, messages, the client cache, and the `Resource` sum type of every kind of argument.
  - A channel carries a set of kind tags, because one object can be both a server channel and a text channel. The tags stand for `instanceof ServerChannel / TextChannel / VoiceChannel / PMChannel`.
- `mentions.dfy`: `<@digits>` mention tokens.
  - Scanning follows the regular expression `/<@[0-9]+>/g`.
  - Replacement is literal and global.
  - It proves that the resolver's token-by-token replacement equals a single left-to-right substitution.
- `resolver.dfy`: the `Resolver` with one member per resolver method, and the lemmas that relate them.
  - The resolver never updates itself, so it is a datatype over the client state.
  - The three methods whose source loops (`resolveRole`, `resolveMentions`, `resolveChannel`) are Dafny methods with loops. Each is proved against a specification function.
  - The rest are functions.

## Model

| member | source | states |
|---|---|---|
| Resolvers.Resolver.ResolveToBase64 | src/Client/Resolver/Resolver.js:23-29 | A non-buffer is returned unchanged. A buffer becomes a string: `data:image/jpg;base64,` followed by the base 64 encoding of its bytes, and decoding the text after the prefix gives back exactly those bytes. |
| Base64.EncodeLength | src/Client/Resolver/Resolver.js:25 | The encoding has 4 characters per started group of 3 bytes. |
| Base64.EncodeAlphabet | src/Client/Resolver/Resolver.js:25 | Every character of the encoding is in the RFC 4648 alphabet or is the pad `=`. |
| Base64.DecodeEncode | src/Client/Resolver/Resolver.js:25 | Decoding the encoding of any byte sequence gives back that sequence, so the encoding loses nothing. |
| Base64.ValueOfChar | src/Client/Resolver/Resolver.js:25 | Every 6-bit value is recovered from its alphabet character. |
| Resolvers.Resolver.ResolveInviteID | src/Client/Resolver/Resolver.js:31-43 | An invite gives its id. A string starting with `http` gives a suffix of the string with no `/` in it, preceded by a `/` unless it is the whole string. Any other string is returned as is. Every other argument gives none. |
| Text.LastPiece | src/Client/Resolver/Resolver.js:37-38 | The last piece of a split is a suffix without the separator, and a separator precedes it unless it is the whole string. |
| Resolvers.InviteUrlSegment | src/Client/Resolver/Resolver.js:36-38 | For an `http…` URL, then `/`, then a segment without `/`, the invite id is that segment. A URL ending in `/` gives the empty id. |
| Text.Split | src/Client/Resolver/Resolver.js:37 | Splitting gives at least one piece, no piece holds the separator, and joining the pieces with the separator gives back the string. |
| Text.SplitOfJoin | src/Client/Resolver/Resolver.js:37 | Splitting the join of separator-free pieces gives back the pieces. |
| Resolvers.Resolver.ResolveServer | src/Client/Resolver/Resolver.js:45-61 | A server gives itself. A server channel gives its server. A string gives the cached server with that id. A message gives its server only if its channel is a text channel. Everything else gives none. |
| Search.FindFirst | src/Client/Resolver/Resolver.js:53 | First-match search gives none exactly when no element matches. Otherwise it gives the first matching element. |
| Entities.ServerByIdSpec | src/Client/Resolver/Resolver.js:53 | A server lookup by id gives a cached server with that id. It gives none exactly when no cached server has that id. |
| Entities.ChannelByIdSpec | src/Client/Resolver/Resolver.js:192 | A channel lookup by id gives a cached channel with that id. It gives none exactly when no cached channel has that id. |
| Entities.UserByIdSpec | src/Client/Resolver/Resolver.js:150 | A user lookup by id gives a cached user with that id. It gives none exactly when no cached user has that id. |
| Mentions.KnownUser | src/Client/Resolver/Resolver.js:104-105 | The user a token names is a cached user whose id is the digits inside the token. |
| Resolvers.Resolver.ResolveRole | src/Client/Resolver/Resolver.js:63-76 | A role gives itself. A string gives `RoleById` over the cached servers, scanned in order with early exit. Any other argument gives none. |
| Resolvers.RoleById | src/Client/Resolver/Resolver.js:67-75 | It gives none exactly when no server has a role with the id. Otherwise it gives the first such role of the first server that has one. |
| Resolvers.HttpUrlPattern | src/Client/Resolver/Resolver.js:80 | A string is fetched exactly when it starts with `http`, then an optional `s`, then `://`, as the regular expression `^https?://` reads. |
| Resolvers.Resolver.ResolveFile | src/Client/Resolver/Resolver.js:78-97 | Only a string matching `^https?://` is fetched, and the URL fetched is the string itself. Every other argument, whether a non-URL string or not a string, is passed through unchanged. |
| Resolvers.Resolver.ResolveMentions | src/Client/Resolver/Resolver.js:99-112 | The mentions are `MentionedUsers` of the tokens in text order. The new text is the result of replacing each known token's occurrences in turn. With safe user names, that is every known token replaced by `@username` and every unknown token left untouched. |
| Mentions.Scan | src/Client/Resolver/Resolver.js:103 | Every match is a `<@digits>` token. |
| Mentions.ScanFinds | src/Client/Resolver/Resolver.js:103 | Every `<@digits>` token that occurs anywhere in the text is among the matches, whatever text precedes it. |
| Mentions.MentionId | src/Client/Resolver/Resolver.js:104 | The id of a token is the text between `<@` and `>`, and it consists of decimal digits. |
| Mentions.ScanToken | src/Client/Resolver/Resolver.js:103 | A token at the front of the text is the first match, and scanning continues after it. |
| Mentions.ScanSkip | src/Client/Resolver/Resolver.js:103 | Text without `<` contributes no match. |
| Mentions.MentionedKnown | src/Client/Resolver/Resolver.js:103-107 | There is at most one mentioned user per token, and every one is a cached user. |
| Mentions.MentionedSnoc | src/Client/Resolver/Resolver.js:103-107 | Each further token adds, at the end, its own user when that user is known and nothing otherwise, so a token that occurs twice contributes its user twice. |
| Mentions.Piece | src/Client/Resolver/Resolver.js:106-108 | A handled token whose user is known becomes `@` followed by the user name. Every other token stays as it is. |
| Mentions.ReplaceAllAbsent | src/Client/Resolver/Resolver.js:108 | A global replacement of a pattern that occurs nowhere in the text leaves the text unchanged. |
| Mentions.ReplaceAllRemoves | src/Client/Resolver/Resolver.js:108 | With safe user names, after the global replacement of a known token by `@username`, that token occurs nowhere in the text. |
| Mentions.ReplaceStep | src/Client/Resolver/Resolver.js:108 | Replacing every occurrence of one more known token in text already substituted for a set of tokens gives the substitution for the set plus that token. |
| Mentions.ReplacedIsRewrite | src/Client/Resolver/Resolver.js:102-110 | With safe user names, the loop's replacements equal one left-to-right pass that substitutes every known token of the list. |
| Mentions.NothingKnown | src/Client/Resolver/Resolver.js:103-110 | When no token names a cached user, nobody is mentioned and the text is unchanged. |
| Mentions.ScanOfRewrite | src/Client/Resolver/Resolver.js:103-110 | Every token left after substitution was a token of the original text and was not substituted. |
| Mentions.MentionsIdempotent | src/Client/Resolver/Resolver.js:99-112 | With safe user names, resolving mentions in already resolved text finds no one and changes nothing. |
| Resolvers.Resolver.ResolveString | src/Client/Resolver/Resolver.js:114-125 | A string gives itself. An array gives the texts of its elements joined by newlines, so an array of strings gives the strings joined by newlines. Any other non-null argument gives its own text. |
| Resolvers.ElementText | src/Client/Resolver/Resolver.js:121-124 | The text of a value: null gives the empty text, a string gives itself, and any other non-array value gives its `toString` text. |
| Resolvers.NestedArrayText | src/Client/Resolver/Resolver.js:121 | The text of a non-empty nested array splits on commas back into its elements' texts when none of them holds a comma. |
| Resolvers.ResolveStringMixed | src/Client/Resolver/Resolver.js:120-121 | `[["a", "b"], null, "c"]` gives `a,b`, an empty line, then `c`. |
| Resolvers.ResolveStringThree | src/Client/Resolver/Resolver.js:120-121 | `[a, b, c]` of strings gives `a + "\n" + b + "\n" + c`. |
| Resolvers.ResolveStringLines | src/Client/Resolver/Resolver.js:120-121 | A non-empty array whose elements' texts hold no newline gives text that splits on newlines back into those texts, one line per element. The empty array is excluded because its empty text splits into one empty line. |
| Resolvers.WellTaggedChannelServer | src/Client/Resolver/Resolver.js:48-50 | A text or voice channel whose tags are those of a real channel object resolves to its server. |
| Resolvers.Resolver.ResolveUser | src/Client/Resolver/Resolver.js:127-154 | A user gives itself and a message its author. A text channel with a last message gives that message's author; otherwise a private channel gives its recipient. A server gives its owner. A string gives the cached user with that id. Everything else gives none. |
| Resolvers.Resolver.ResolveMessage | src/Client/Resolver/Resolver.js:156-167 | A text or private channel gives its last message, and a message gives itself. Everything else gives none. |
| Resolvers.ChannelUserIsMessageAuthor | src/Client/Resolver/Resolver.js:137-141 | For a text channel with a last message, resolving the user of the channel agrees with resolving the user of its resolved message. |
| Resolvers.Resolver.ResolveVoiceChannel | src/Client/Resolver/Resolver.js:169-175 | It gives a channel exactly when the argument is a voice channel, and then the channel is the argument. |
| Resolvers.ResolveIdempotent | src/Client/Resolver/Resolver.js:45-175 | Resolving the server, user, message or voice channel that a resolver returned gives it back. |
| Resolvers.Resolver.ResolveChannel | src/Client/Resolver/Resolver.js:177-214 | The cases are checked in this order. A message gives its channel. A channel gives itself. A server gives its default channel. A string gives the cached channel with that id, possibly none, without rejecting. A user gives the first private channel with that recipient, or else a `startPM` for the user. Anything else is rejected, carrying the argument. |
| Resolvers.DefaultChannel | src/Client/Resolver/Resolver.js:188-190 | A server's default channel is one of its channels with the server's id. It is none exactly when no channel has that id. |
| Resolvers.ExistingPM | src/Client/Resolver/Resolver.js:194-202 | It gives none exactly when no private channel's recipient is the user. Otherwise it gives the first one in order. |
| Resolvers.PMFoundOnceOpened | src/Client/Resolver/Resolver.js:194-209 | Once a private channel with the user is added where there was none before, resolving the user finds that channel instead of starting a new one. |

## Left out

- The HTTP request in `resolveFile` and its success and error handling are network I/O. `Resolvers.Resolver.ResolveFile` stops at the decision to fetch.
- `startPM` is a network round trip on the client. `ResolveChannel` returns a `StartPM(user)` outcome instead of its promise.
- Promises and asynchrony are flattened into result datatypes. Races between concurrent calls are not modelled.
- The entity classes, the cache class and the client are not part of this model. Their observable parts are datatypes and first-match search:
  - `instanceof` becomes the `Resource` variant plus channel tags;
  - `Cache.get("id", v)` becomes first match by id;
  - `User.equals` becomes equality of ids.
- `ResolveChannel`: a private channel without a recipient is skipped. The source would throw on reading `recipient.equals`.
- `ResolveString`: requires a non-null argument, because the source throws on `null.toString()`. The text of entities (their `toString`) is the parameter `show`.
- `ResolveMentions`: the one-pass description holds only for user names that are non-empty, do not start with a digit and hold no `<`.
  - Otherwise replacements can form or break tokens. For example, with user `1` named `9`, the text `<<@1>2>` becomes `<@92>`.
  - The method still states the exact token-by-token result for every input whose user names hold no `$` pattern.
  - `$` patterns in the replacement text of `String.replace` are not interpreted: names are substituted literally. For a user named `$&`, JavaScript inserts the matched token instead.
- `ReplaceAllRemoves`: the removal is stated only for a token replaced by `@` and a safe name. For an arbitrary pattern it is false: replacing `<a` by `a` in `<<a` gives `<a`.
- The entity graph is a value, so it cannot be cyclic. In the source a text channel's last message points back to that channel, and `resolveChannel(resolveMessage(channel))` gives the channel back. In the model a message's channel is a different value from the channel holding the message.
- Channel tags are not constrained by the `Channel` constructor. A channel tagged text but not server channel can be built, and `ResolveServer` gives none for it. The predicate `Channel.WellTagged` states the tags of a real channel object, and `WellTaggedChannelServer` uses it.
- `resolveMentions` reads `client.users` while `resolveUser` reads `users`. These are two fields of the client state.
- Loose `==` in `resolveRole` is string equality. The role id and the argument are both strings.
- Boxed `String` objects are not distinguished from primitive strings.
- The unused `fs` import is left out.
