/**
 * Mention tokens `<@digits>` in message text: finding them the way the regular
 * expression /<@[0-9]+>/g does, substituting `@username` for them, and the proof
 * that the resolver's token-by-token global replacement amounts to one
 * left-to-right substitution of every known token.
 */
module Mentions {
  import opened Wrappers
  import opened Text
  import opened Entities

  /** A mention token: `<@`, one or more decimal digits, `>`. */
  predicate IsToken(t: string) {
    |t| >= 4 && t[0] == '<' && t[1] == '@' && t[|t| - 1] == '>' &&
    forall i :: 2 <= i < |t| - 1 ==> IsDigit(t[i])
  }

  predicate AllTokens(ts: seq<string>) {
    forall i :: 0 <= i < |ts| ==> IsToken(ts[i])
  }

  /**
   * The user id inside a token, `mention.substring(2, mention.length - 1)`. It is
   * only applied to matches of the token pattern, which have at least four
   * characters; shorter strings give the empty id.
   */
  function MentionId(t: string): (id: string)
    ensures IsToken(t) ==> id == t[2..|t| - 1] && forall i :: 0 <= i < |id| ==> IsDigit(id[i])
  {
    if |t| >= 3 then t[2..|t| - 1] else ""
  }

  /** The user a token names, looked up by id in `users`. */
  function UserOfToken(users: seq<User>, t: string): Option<User>
  {
    UserById(users, MentionId(t))
  }

  /** The user a token names comes from the table and has the token's id. */
  lemma KnownUser(users: seq<User>, t: string)
    requires UserOfToken(users, t).Some?
    ensures UserOfToken(users, t).value in users && UserOfToken(users, t).value.id == MentionId(t)
  {
    UserByIdSpec(users, MentionId(t));
  }

  /** Length of the run of decimal digits that starts `s`. */
  function DigitRun(s: string): (n: nat)
    ensures n <= |s|
    ensures forall i :: 0 <= i < n ==> IsDigit(s[i])
    ensures n < |s| ==> !IsDigit(s[n])
    decreases |s|
  {
    if s == [] || !IsDigit(s[0]) then 0 else 1 + DigitRun(s[1..])
  }

  /** Length of the token that starts `s`, or 0 when no token starts there. */
  function TokenLen(s: string): (n: nat)
    ensures n <= |s|
    ensures n > 0 ==> IsToken(s[..n])
  {
    if |s| >= 2 && s[0] == '<' && s[1] == '@' then
      var d := DigitRun(s[2..]);
      if d > 0 && 2 + d < |s| && s[2 + d] == '>' then d + 3 else 0
    else 0
  }

  /** A token at the start of `s` is the one `TokenLen` measures. */
  lemma TokenAtStart(t: string, s: string)
    requires IsToken(t) && t <= s
    ensures TokenLen(s) == |t|
  {
    var tail := s[2..];
    assert forall i :: 0 <= i < |t| - 3 ==> tail[i] == t[i + 2];
    assert tail[|t| - 3] == '>';
    assert DigitRun(tail) == |t| - 3;
  }

  /** Two tokens cannot start at the same place unless they are equal. */
  lemma TokenPrefixUnique(t: string, p: string, x: string)
    requires IsToken(t) && IsToken(p) && t <= p + x
    ensures t == p
  {
    assert t == (p + x)[..|p|] == p;
  }

  /** The tokens of `s` in order, as `s.match(/<@[0-9]+>/g)` finds them. */
  function Scan(s: string): (ts: seq<string>)
    ensures AllTokens(ts)
    decreases |s|
  {
    if s == [] then []
    else
      var n := TokenLen(s);
      if n > 0 then [s[..n]] + Scan(s[n..]) else Scan(s[1..])
  }

  /** `s.replace(new RegExp(pat, "g"), rep)`: every occurrence of `pat`, left to right, without overlap. */
  function ReplaceAll(s: string, pat: string, rep: string): string
    requires |pat| > 0
    decreases |s|
  {
    if s == [] then []
    else if pat <= s then rep + ReplaceAll(s[|pat|..], pat, rep)
    else [s[0]] + ReplaceAll(s[1..], pat, rep)
  }

  /** The users the tokens name, one per token whose id is known, in token order. */
  function MentionedUsers(tokens: seq<string>, users: seq<User>): seq<User>
    decreases |tokens|
  {
    if tokens == [] then []
    else MentionedUsers(tokens[..|tokens| - 1], users) + MentionOf(users, tokens[|tokens| - 1])
  }

  /** The user one token contributes to the mentions: its user when known, nobody otherwise. */
  function MentionOf(users: seq<User>, t: string): seq<User> {
    match UserOfToken(users, t)
    case Some(u) => [u]
    case None => []
  }

  /** The text after replacing, token by token, every occurrence of each known token by `@username`. */
  function Replaced(s: string, tokens: seq<string>, users: seq<User>): string
    requires AllTokens(tokens)
    decreases |tokens|
  {
    if tokens == [] then s
    else
      var t := tokens[|tokens| - 1];
      var before := Replaced(s, tokens[..|tokens| - 1], users);
      match UserOfToken(users, t)
      case Some(u) => ReplaceAll(before, t, "@" + u.username)
      case None => before
  }

  /** What a token of the text becomes once the tokens in `done` have been handled. */
  function Piece(t: string, done: set<string>, users: seq<User>): (r: string)
    ensures r == t || (t in done && UserOfToken(users, t).Some? && r == "@" + UserOfToken(users, t).value.username)
    ensures t in done && UserOfToken(users, t).Some? ==> r == "@" + UserOfToken(users, t).value.username
  {
    if t in done then
      match UserOfToken(users, t)
      case Some(u) => "@" + u.username
      case None => t
    else t
  }

  /** One left-to-right pass over `s` that substitutes `@username` for each known token in `done`. */
  function Rewrite(s: string, done: set<string>, users: seq<User>): string
    decreases |s|
  {
    if s == [] then []
    else
      var n := TokenLen(s);
      if n > 0 then Piece(s[..n], done, users) + Rewrite(s[n..], done, users)
      else [s[0]] + Rewrite(s[1..], done, users)
  }

  function Elems(ts: seq<string>): set<string> {
    set t | t in ts
  }

  /** The set of tokens occurring in `s`. */
  function TokenSet(s: string): set<string> {
    Elems(Scan(s))
  }

  /**
   * A user name whose substitution cannot form or break a token: it is not empty,
   * does not start with a digit and holds no `<`.
   */
  predicate SafeName(name: string) {
    |name| > 0 && !IsDigit(name[0]) && '<' !in name
  }

  predicate SafeNames(users: seq<User>) {
    forall u :: u in users ==> SafeName(u.username)
  }

  /** A global replacement passes over a prefix `w` in which no occurrence of `pat` starts. */
  lemma {:induction false} ReplaceAllSkip(w: string, x: string, pat: string, rep: string)
    requires |pat| > 0 && pat[0] == '<'
    requires forall i :: 1 <= i < |w| ==> w[i] != '<'
    requires w != [] ==> !(pat <= w + x)
    ensures ReplaceAll(w + x, pat, rep) == w + ReplaceAll(x, pat, rep)
    decreases |w|
  {
    if w == [] {
      assert w + x == x;
    } else {
      assert (w + x)[1..] == w[1..] + x;
      ReplaceAllSkip(w[1..], x, pat, rep);
    }
  }

  /** With nothing handled yet, the rewrite is the identity. */
  lemma {:induction false} RewriteNothing(s: string, users: seq<User>)
    ensures Rewrite(s, {}, users) == s
    decreases |s|
  {
    if s != [] {
      var n := TokenLen(s);
      if n > 0 {
        RewriteNothing(s[n..], users);
        assert s[..n] + s[n..] == s;
      } else {
        RewriteNothing(s[1..], users);
        assert [s[0]] + s[1..] == s;
      }
    }
  }

  /** Handling a token with an unknown id changes nothing. */
  lemma {:induction false} RewriteUnknown(s: string, done: set<string>, t: string, users: seq<User>)
    requires IsToken(t) && UserOfToken(users, t).None?
    ensures Rewrite(s, done + {t}, users) == Rewrite(s, done, users)
    decreases |s|
  {
    if s != [] {
      var n := TokenLen(s);
      if n > 0 {
        RewriteUnknown(s[n..], done, t, users);
      } else {
        RewriteUnknown(s[1..], done, t, users);
      }
    }
  }

  /** A prefix free of `<` and `@` of the rewritten text is a prefix of the original. */
  lemma {:induction false} LiteralPrefix(w: string, x: string, done: set<string>, users: seq<User>)
    requires forall i :: 0 <= i < |w| ==> w[i] != '<' && w[i] != '@'
    ensures w <= Rewrite(x, done, users) ==> w <= x
    decreases |x|
  {
    if w != [] && x != [] {
      var r := Rewrite(x, done, users);
      var n := TokenLen(x);
      if n > 0 {
        var piece := Piece(x[..n], done, users);
        assert r == piece + Rewrite(x[n..], done, users);
        assert r[0] == piece[0];
      } else {
        var y := Rewrite(x[1..], done, users);
        assert r == [x[0]] + y;
        LiteralPrefix(w[1..], x[1..], done, users);
        if w <= r {
          assert w[0] == x[0] && w[1..] <= y;
          assert w == [x[0]] + w[1..];
          assert x == [x[0]] + x[1..];
        }
      }
    }
  }

  /** The tail `@digits>` of a token found in rewritten text was already in the original. */
  lemma AtPrefix(t: string, x: string, done: set<string>, users: seq<User>)
    requires IsToken(t) && SafeNames(users)
    ensures t[1..] <= Rewrite(x, done, users) ==> t[1..] <= x
  {
    if x != [] {
      var r := Rewrite(x, done, users);
      var n := TokenLen(x);
      if n > 0 {
        var piece := Piece(x[..n], done, users);
        assert r == piece + Rewrite(x[n..], done, users);
        if piece == x[..n] {
          assert r[0] == '<';
        } else {
          KnownUser(users, x[..n]);
          var u := UserOfToken(users, x[..n]).value;
          assert SafeName(u.username);
          assert r[1] == u.username[0];
        }
      } else {
        var y := Rewrite(x[1..], done, users);
        assert r == [x[0]] + y;
        LiteralPrefix(t[2..], x[1..], done, users);
        if t[1..] <= r {
          assert t[2..] <= y;
        }
      }
    }
  }

  /** A token at the front of `[s[0]] + y` whose tail also follows `s[0]` in `s` is the token at the front of `s`. */
  lemma TokenCarriesOver(s: string, y: string)
    requires s != [] && TokenLen([s[0]] + y) > 0
    requires var t := ([s[0]] + y)[..TokenLen([s[0]] + y)]; t[1..] <= y ==> t[1..] <= s[1..]
    ensures TokenLen(s) == TokenLen([s[0]] + y)
  {
    var z := [s[0]] + y;
    var t := z[..TokenLen(z)];
    assert t[1..] == y[..|t| - 1];
    assert t <= s by {
      assert t[1..] == z[1..|t|];
      assert t == [t[0]] + t[1..];
      assert s == [s[0]] + s[1..];
    }
    TokenAtStart(t, s);
  }

  /** A token that starts at a kept first character already started there in the original text. */
  lemma TokenBeforeRewrite(s: string, done: set<string>, users: seq<User>)
    requires SafeNames(users) && s != []
    requires TokenLen([s[0]] + Rewrite(s[1..], done, users)) > 0
    ensures TokenLen(s) == TokenLen([s[0]] + Rewrite(s[1..], done, users))
  {
    var y := Rewrite(s[1..], done, users);
    var z := [s[0]] + y;
    var m := TokenLen(z);
    AtPrefix(z[..m], s[1..], done, users);
    TokenCarriesOver(s, y);
  }

  /** No token starts at a character of the original text that no token started at. */
  lemma FirstCharStaysLiteral(s: string, done: set<string>, users: seq<User>)
    requires SafeNames(users) && s != [] && TokenLen(s) == 0
    ensures TokenLen([s[0]] + Rewrite(s[1..], done, users)) == 0
  {
    if TokenLen([s[0]] + Rewrite(s[1..], done, users)) > 0 {
      TokenBeforeRewrite(s, done, users);
    }
  }

  /** Replacing a known token passes over a handled piece or substitutes for the token itself. */
  lemma ReplacePiece(p: string, y: string, done: set<string>, t: string, u: User, users: seq<User>)
    requires SafeNames(users) && IsToken(t) && IsToken(p) && UserOfToken(users, t) == Some(u)
    ensures ReplaceAll(Piece(p, done, users) + y, t, "@" + u.username)
         == Piece(p, done + {t}, users) + ReplaceAll(y, t, "@" + u.username)
  {
    var rep := "@" + u.username;
    var piece := Piece(p, done, users);
    if piece != p {
      KnownUser(users, p);
      var name := UserOfToken(users, p).value.username;
      assert SafeName(name);
      assert forall i :: 1 <= i < |piece| ==> piece[i] == name[i - 1];
      ReplaceAllSkip(piece, y, t, rep);
    } else if p == t {
      assert (t + y)[|t|..] == y;
    } else {
      if t <= p + y {
        TokenPrefixUnique(t, p, y);
      }
      ReplaceAllSkip(p, y, t, rep);
    }
  }

  /** Replacing a known token passes over a character at which the original text had no token. */
  lemma ReplaceLiteral(s: string, done: set<string>, t: string, u: User, users: seq<User>)
    requires SafeNames(users) && IsToken(t) && s != [] && TokenLen(s) == 0
    ensures ReplaceAll([s[0]] + Rewrite(s[1..], done, users), t, "@" + u.username)
         == [s[0]] + ReplaceAll(Rewrite(s[1..], done, users), t, "@" + u.username)
  {
    var y := Rewrite(s[1..], done, users);
    FirstCharStaysLiteral(s, done, users);
    if t <= [s[0]] + y {
      TokenAtStart(t, [s[0]] + y);
    }
    assert ([s[0]] + y)[1..] == y;
  }

  /** One global replacement of a known token extends the set of handled tokens by it. */
  lemma {:induction false} ReplaceStep(s: string, done: set<string>, t: string, u: User, users: seq<User>)
    requires SafeNames(users) && IsToken(t) && UserOfToken(users, t) == Some(u)
    ensures ReplaceAll(Rewrite(s, done, users), t, "@" + u.username) == Rewrite(s, done + {t}, users)
    decreases |s|
  {
    if s != [] {
      var n := TokenLen(s);
      if n > 0 {
        ReplaceStep(s[n..], done, t, u, users);
        ReplacePiece(s[..n], Rewrite(s[n..], done, users), done, t, u, users);
      } else {
        ReplaceStep(s[1..], done, t, u, users);
        ReplaceLiteral(s, done, t, u, users);
      }
    }
  }

  /** Token-by-token global replacement is one left-to-right substitution of the handled tokens. */
  lemma {:induction false} ReplacedIsRewrite(s: string, tokens: seq<string>, users: seq<User>)
    requires SafeNames(users) && AllTokens(tokens)
    ensures Replaced(s, tokens, users) == Rewrite(s, Elems(tokens), users)
    decreases |tokens|
  {
    if tokens == [] {
      RewriteNothing(s, users);
      assert Elems(tokens) == {};
    } else {
      var init, t := tokens[..|tokens| - 1], tokens[|tokens| - 1];
      ReplacedIsRewrite(s, init, users);
      assert tokens == init + [t];
      assert Elems(tokens) == Elems(init) + {t};
      match UserOfToken(users, t)
      case Some(u) => ReplaceStep(s, Elems(init), t, u, users);
      case None => RewriteUnknown(s, Elems(init), t, users);
    }
  }

  /** Text without `<` holds no token. */
  lemma {:induction false} ScanSkip(w: string, y: string)
    requires '<' !in w
    ensures Scan(w + y) == Scan(y)
    decreases |w|
  {
    if w == [] {
      assert w + y == y;
    } else {
      assert (w + y)[1..] == w[1..] + y;
      ScanSkip(w[1..], y);
    }
  }

  /** A token at the front is the first one found. */
  lemma ScanToken(p: string, y: string)
    requires IsToken(p)
    ensures Scan(p + y) == [p] + Scan(y)
  {
    TokenAtStart(p, p + y);
    assert (p + y)[..|p|] == p && (p + y)[|p|..] == y;
  }

  /** A token holds `<` only at its start. */
  lemma TokenInnerNoLt(p: string)
    requires IsToken(p)
    ensures forall i :: 1 <= i < |p| ==> p[i] != '<'
  {
  }

  /** Every occurrence of a token in the text is found, whatever precedes it. */
  lemma {:induction false} ScanFinds(w: string, t: string, y: string)
    requires IsToken(t)
    ensures t in Scan(w + t + y)
    decreases |w|
  {
    var s := w + t + y;
    if w == [] {
      assert s == t + y;
      ScanToken(t, y);
    } else {
      var n := TokenLen(s);
      assert s[|w|] == '<';
      if n > 0 {
        TokenInnerNoLt(s[..n]);
        assert n <= |w|;
        assert s[n..] == w[n..] + t + y;
        ScanFinds(w[n..], t, y);
      } else {
        assert s[1..] == w[1..] + t + y;
        ScanFinds(w[1..], t, y);
      }
    }
  }

  /** Every token left in rewritten text was a token of the original and was not substituted. */
  lemma {:induction false} ScanOfRewrite(s: string, done: set<string>, users: seq<User>)
    requires SafeNames(users)
    ensures forall t :: t in Scan(Rewrite(s, done, users)) ==>
      t in Scan(s) && IsToken(t) && !(t in done && UserOfToken(users, t).Some?)
    decreases |s|
  {
    if s != [] {
      var n := TokenLen(s);
      if n > 0 {
        var p := s[..n];
        var y := Rewrite(s[n..], done, users);
        ScanOfRewrite(s[n..], done, users);
        var piece := Piece(p, done, users);
        if piece != p {
          KnownUser(users, p);
          assert SafeName(UserOfToken(users, p).value.username);
          ScanSkip(piece, y);
        } else {
          ScanToken(p, y);
        }
      } else {
        var y := Rewrite(s[1..], done, users);
        ScanOfRewrite(s[1..], done, users);
        FirstCharStaysLiteral(s, done, users);
        assert ([s[0]] + y)[1..] == y;
      }
    }
  }

  /** A global replacement of a pattern that does not occur leaves the text as it is. */
  lemma {:induction false} ReplaceAllAbsent(s: string, pat: string, rep: string)
    requires |pat| > 0
    requires forall i :: 0 <= i < |s| ==> !(pat <= s[i..])
    ensures ReplaceAll(s, pat, rep) == s
    decreases |s|
  {
    if s != [] {
      assert !(pat <= s[0..]) by { assert s[0..] == s; }
      assert forall i :: 0 <= i < |s| - 1 ==> s[1..][i..] == s[i + 1..];
      ReplaceAllAbsent(s[1..], pat, rep);
      assert [s[0]] + s[1..] == s;
    }
  }

  /**
   * After the global replacement of a known token by `@username`, with safe user
   * names, the token occurs nowhere in the text.
   */
  lemma ReplaceAllRemoves(s: string, t: string, u: User, users: seq<User>)
    requires SafeNames(users) && IsToken(t) && UserOfToken(users, t) == Some(u)
    ensures var r := ReplaceAll(s, t, "@" + u.username);
      forall i :: 0 <= i <= |r| ==> !(t <= r[i..])
  {
    var r := ReplaceAll(s, t, "@" + u.username);
    var none: set<string> := {};
    RewriteNothing(s, users);
    ReplaceStep(s, none, t, u, users);
    assert none + {t} == {t};
    ScanOfRewrite(s, {t}, users);
    forall i | 0 <= i <= |r|
      ensures !(t <= r[i..])
    {
      if t <= r[i..] {
        assert r == r[..i] + t + r[i + |t|..];
        ScanFinds(r[..i], t, r[i + |t|..]);
      }
    }
  }

  /** Tokens none of which is known name nobody and change nothing. */
  lemma {:induction false} NothingKnown(s: string, tokens: seq<string>, users: seq<User>)
    requires AllTokens(tokens)
    requires forall i :: 0 <= i < |tokens| ==> UserOfToken(users, tokens[i]).None?
    ensures MentionedUsers(tokens, users) == []
    ensures Replaced(s, tokens, users) == s
    decreases |tokens|
  {
    if tokens != [] {
      NothingKnown(s, tokens[..|tokens| - 1], users);
    }
  }

  /** There is at most one mentioned user per token, and each is a known user. */
  lemma {:induction false} MentionedKnown(tokens: seq<string>, users: seq<User>)
    ensures |MentionedUsers(tokens, users)| <= |tokens|
    ensures forall u :: u in MentionedUsers(tokens, users) ==> u in users
    decreases |tokens|
  {
    if tokens != [] {
      var init, t := tokens[..|tokens| - 1], tokens[|tokens| - 1];
      MentionedKnown(init, users);
      match UserOfToken(users, t)
      case Some(u) =>
        KnownUser(users, t);
      case None =>
    }
  }

  /** One more token adds its own mention at the end, so a repeated token repeats its user. */
  lemma MentionedSnoc(ts: seq<string>, t: string, users: seq<User>)
    ensures MentionedUsers(ts + [t], users) == MentionedUsers(ts, users) + MentionOf(users, t)
  {
    assert (ts + [t])[..|ts|] == ts;
  }

  /**
   * Resolving mentions in already resolved text finds nothing more and changes
   * nothing, provided the user names are safe.
   */
  lemma MentionsIdempotent(s: string, users: seq<User>)
    requires SafeNames(users)
    ensures var r := Rewrite(s, TokenSet(s), users);
      MentionedUsers(Scan(r), users) == [] && Replaced(r, Scan(r), users) == r
  {
    var r := Rewrite(s, TokenSet(s), users);
    ScanOfRewrite(s, TokenSet(s), users);
    var ts := Scan(r);
    assert forall i :: 0 <= i < |ts| ==> ts[i] in Scan(s);
    NothingKnown(r, ts, users);
  }
}
