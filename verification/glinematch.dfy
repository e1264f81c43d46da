/** Which users and channels a G-line matches, after glines/glines.c, and when two equal G-lines match the same. */
module GlineMatching {
  import opened IrcStrings
  import opened MaskPatterns
  import opened EqualMasks
  import opened Options
  import opened Bans
  import G = Glines

  /** The parts of a network user that G-lines look at. */
  datatype GUser = GUser(nick: string, ident: string, host: string, realname: string, addr: Addr)

  predicate PartMatches(p: Option<string>, s: string) {
    p.Some? ==> Match(p.value, s)
  }

  /** gline_match_nick. */
  predicate MatchesUser(m: G.Mask, u: GUser) {
    if m.badchan then false
    else if m.realname then PartMatches(m.user, u.realname)
    else
      && PartMatches(m.nick, u.nick) && PartMatches(m.user, u.ident)
      && if m.net.Some? then IpMaskCheck(u.addr, m.net.value) else PartMatches(m.host, u.host)
  }

  /** gline_match_channel. */
  predicate MatchesChannel(m: G.Mask, name: string) {
    m.badchan && PartMatches(m.user, name)
  }

  predicate AlikePart(a: Option<string>, b: Option<string>) {
    a.Some? && b.Some? ==> |a.value| == |b.value| && SameEscapes(a.value, b.value)
  }

  /** In the parts that count, the same wildcards stand for themselves. */
  predicate Alike(a: G.Mask, b: G.Mask) {
    && AlikePart(a.user, b.user)
    && (!a.badchan && !a.realname ==> AlikePart(a.nick, b.nick) && (a.net.None? ==> AlikePart(a.host, b.host)))
  }

  lemma PartsMatch(a: Option<string>, b: Option<string>)
    requires G.SamePart(a, b) && G.PartOk(a) && G.PartOk(b)
    ensures (forall s :: PartMatches(a, s) <==> PartMatches(b, s)) <==> AlikePart(a, b)
  {
    hide Match, SameEscapes;
    if a.Some? {
      StrCmpZero(a.value, b.value);
      hide StrCmp, SameText, CString;
      EqualMatchExactly(a.value, b.value);
      if AlikePart(a, b) {
        forall s ensures PartMatches(a, s) <==> PartMatches(b, s) {
          assert Match(a.value, s) <==> Match(b.value, s);
        }
      } else {
        var s :| Match(a.value, s) != Match(b.value, s);
        assert PartMatches(a, s) != PartMatches(b, s);
      }
    }
  }

  /** A text the part lets pass. */
  lemma SomeText(p: Option<string>) returns (s: string)
    ensures PartMatches(p, s)
  {
    s := if p.Some? then Shortest(Tokens(p.value)) else "";
    if p.Some? {
      ShortestMatches(Tokens(p.value));
    }
  }

  /** Two equal G-lines match the same users and channels exactly when the same wildcards stand for themselves in both. The
      address of a G-line may be written in several ways; they count as one. */
  lemma EqualGlinesMatch(a: G.Mask, b: G.Mask)
    requires G.GlineEqual(a, b) && G.MaskOk(a) && G.MaskOk(b)
    ensures (forall u :: MatchesUser(a, u) <==> MatchesUser(b, u)) && (forall n :: MatchesChannel(a, n) <==> MatchesChannel(b, n))
            <==> Alike(a, b)
  {
    hide G.SamePart, PartMatches, AlikePart, G.PartOk;
    PartsMatch(a.user, b.user);
    PartsMatch(a.nick, b.nick);
    if a.net.None? {
      PartsMatch(a.host, b.host);
    }
    if Alike(a, b) {
      AlikeMatch(a, b);
    } else if a.badchan {
      ChannelDiffers(a, b);
    } else {
      var u := UserDiffers(a, b);
    }
  }

  lemma SameNet(a: IpMask, b: IpMask, addr: Addr)
    requires a.bits == b.bits && IpMaskCheck(a.addr, b)
    ensures IpMaskCheck(addr, a) <==> IpMaskCheck(addr, b)
  {
  }

  lemma AlikeMatch(a: G.Mask, b: G.Mask)
    requires G.GlineEqual(a, b) && Alike(a, b)
    requires AlikePart(a.user, b.user) ==> forall s :: PartMatches(a.user, s) <==> PartMatches(b.user, s)
    requires AlikePart(a.nick, b.nick) ==> forall s :: PartMatches(a.nick, s) <==> PartMatches(b.nick, s)
    requires a.net.None? && AlikePart(a.host, b.host) ==> forall s :: PartMatches(a.host, s) <==> PartMatches(b.host, s)
    ensures forall u :: MatchesUser(a, u) <==> MatchesUser(b, u)
    ensures forall n :: MatchesChannel(a, n) <==> MatchesChannel(b, n)
  {
    hide G.SamePart, PartMatches, AlikePart, IpMaskCheck;
    forall u ensures MatchesUser(a, u) <==> MatchesUser(b, u) {
      if a.net.Some? {
        SameNet(a.net.value, b.net.value, u.addr);
      }
    }
  }

  lemma ChannelDiffers(a: G.Mask, b: G.Mask)
    requires G.GlineEqual(a, b) && a.badchan && exists s :: PartMatches(a.user, s) != PartMatches(b.user, s)
    ensures exists n :: MatchesChannel(a, n) != MatchesChannel(b, n)
  {
    hide G.SamePart, PartMatches;
    var s :| PartMatches(a.user, s) != PartMatches(b.user, s);
    assert MatchesChannel(a, s) != MatchesChannel(b, s);
  }

  /** A user the G-line matches. */
  lemma SomeUser(m: G.Mask) returns (u: GUser)
    requires G.MaskOk(m)
    ensures PartMatches(m.nick, u.nick) && PartMatches(m.user, u.ident) && PartMatches(m.user, u.realname)
    ensures PartMatches(m.host, u.host) && (m.net.Some? ==> IpMaskCheck(u.addr, m.net.value))
  {
    hide PartMatches, G.PartOk;
    var n := SomeText(m.nick);
    var i := SomeText(m.user);
    var h := SomeText(m.host);
    u := GUser(n, i, h, i, if m.net.Some? then m.net.value.addr else seq(128, _ => false));
  }

  /** The part that tells two equal G-lines apart, where `c` lets the text pass and `d` does not. */
  datatype Telling = ByUser | ByNick | ByHost

  function PartOf(m: G.Mask, t: Telling): Option<string> {
    match t
    case ByUser => m.user
    case ByNick => m.nick
    case ByHost => m.host
  }

  lemma TellApart(c: G.Mask, d: G.Mask, t: Telling, s: string) returns (u: GUser)
    requires G.MaskOk(c) && c.badchan == d.badchan == false && c.realname == d.realname && c.net.Some? == d.net.Some?
    requires PartMatches(PartOf(c, t), s) && !PartMatches(PartOf(d, t), s)
    requires c.realname ==> t == ByUser
    requires c.net.Some? ==> t != ByHost
    ensures MatchesUser(c, u) && !MatchesUser(d, u)
  {
    hide PartMatches, IpMaskCheck, G.MaskOk;
    u := SomeUser(c);
    match t
    case ByUser => u := u.(ident := s, realname := s);
    case ByNick => u := u.(nick := s);
    case ByHost => u := u.(host := s);
  }

  lemma UserDiffers(a: G.Mask, b: G.Mask) returns (u: GUser)
    requires G.GlineEqual(a, b) && G.MaskOk(a) && G.MaskOk(b) && !a.badchan && !Alike(a, b)
    requires !AlikePart(a.user, b.user) ==> exists s :: PartMatches(a.user, s) != PartMatches(b.user, s)
    requires !AlikePart(a.nick, b.nick) ==> exists s :: PartMatches(a.nick, s) != PartMatches(b.nick, s)
    requires a.net.None? && !AlikePart(a.host, b.host) ==> exists s :: PartMatches(a.host, s) != PartMatches(b.host, s)
    ensures MatchesUser(a, u) != MatchesUser(b, u)
  {
    hide G.SamePart, PartMatches, AlikePart, G.PartOk, MatchesUser, IpMaskCheck, G.MaskOk;
    var t := if !AlikePart(a.user, b.user) then ByUser else if !AlikePart(a.nick, b.nick) then ByNick else ByHost;
    var s :| PartMatches(PartOf(a, t), s) != PartMatches(PartOf(b, t), s);
    if PartMatches(PartOf(a, t), s) {
      u := TellApart(a, b, t, s);
    } else {
      u := TellApart(b, a, t, s);
    }
  }

  /** Two such G-lines: they are one to glineequal, and only the first matches a user whose nick is a star. */
  lemma EscapesDiffer(u: GUser)
    requires u.nick == "*"
    ensures var a := G.Mask(false, false, None, Some("\\*"), None, None);
            var b := a.(nick := Some("|*"));
            G.GlineEqual(a, b) && MatchesUser(a, u) && !MatchesUser(b, u)
  {
    var p, q := "\\*", "|*";
    assert Fold(p) == Fold(q);
    StrCmpZero(p, q);
    StrCmpZero("", "");
    assert Tokens("") == [] && p[2..] == "" && Tokens(p) == [Lit('*')];
    assert q[1..] == "*" && "*"[1..] == "" && Tokens("*") == [Star] && Tokens(q) == [Lit('|')] + Tokens("*");
    assert u.nick[1..] == "" && Tokens(p)[1..] == [];
  }

  // ---------------------------------------------------------------- what a mask says

  /** The user fits the nick, the user name and the host or address. */
  predicate FitsAll(parse: G.Parse, n: string, i: string, h: string, u: GUser) {
    Match(n, u.nick) && Match(i, u.ident) && if parse(h).Some? then IpMaskCheck(u.addr, parse(h).value) else Match(h, u.host)
  }

  lemma StarFits(s: string)
    ensures Match("*", s)
  {
    assert "*"[1..] == "" && Tokens("*") == [Star] && [Star][1..] == [];
    assert s[|s|..] == "" && MatchTokens([Star][1..], s[|s|..]);
  }

  lemma PartFits(t: string, s: string)
    ensures PartMatches(G.Part(t), s) <==> Match(t, s)
  {
    StarFits(s);
    hide Match;
  }

  lemma {:induction false} FindAt(a: string, c: char, b: string)
    requires c !in a
    ensures G.Find(a + [c] + b, c) == |a|
  {
    if a != "" {
      assert (a + [c] + b)[1..] == a[1..] + [c] + b;
      FindAt(a[1..], c, b);
    }
  }

  /** Neither a channel nor a real name. */
  predicate HostMask(s: string) {
    ' ' !in s && (s == "" || (s[0] != '#' && s[0] != '&' && s[0] != '$'))
  }

  lemma MadeFits(parse: G.Parse, s: string, u: GUser)
    requires HostMask(s) && G.MakeGline(parse, s).Some?
    ensures var c := G.CanonUserhost(s); MatchesUser(G.MakeGline(parse, s).value, u) <==> FitsAll(parse, c.nick, c.user, c.host, u)
  {
    var c := G.CanonUserhost(s);
    PartFits(c.nick, u.nick);
    PartFits(c.user, u.ident);
    PartFits(c.host, u.host);
    hide G.CanonUserhost, PartMatches, Match, IpMaskCheck, G.Part, G.Colons;
  }

  /** nick!user@host matches who fits all three. */
  lemma FullMaskMatches(parse: G.Parse, n: string, i: string, h: string, u: GUser)
    requires '!' !in n && '@' !in i && HostMask(n + "!" + (i + "@" + h))
    requires G.MakeGline(parse, n + "!" + (i + "@" + h)).Some?
    ensures MatchesUser(G.MakeGline(parse, n + "!" + (i + "@" + h)).value, u) <==> FitsAll(parse, n, i, h, u)
  {
    var rest := i + "@" + h;
    var s := n + "!" + rest;
    FindAt(n, '!', rest);
    FindAt(i, '@', h);
    assert s[..|n|] == n && s[|n| + 1..] == rest && rest[..|i|] == i && rest[|i| + 1..] == h;
    assert G.CanonUserhost(s) == G.UserHost(n, i, h);
    MadeFits(parse, s, u);
  }

  /** user@host matches whatever the nick. */
  lemma UserMaskMatches(parse: G.Parse, i: string, h: string, u: GUser)
    requires '!' !in i && '!' !in h && '@' !in i && HostMask(i + "@" + h) && G.MakeGline(parse, i + "@" + h).Some?
    ensures MatchesUser(G.MakeGline(parse, i + "@" + h).value, u) <==> FitsAll(parse, "*", i, h, u)
  {
    var s := i + "@" + h;
    assert '!' !in s;
    FindAt(i, '@', h);
    assert s[..|i|] == i && s[|i| + 1..] == h;
    assert G.CanonUserhost(s) == G.UserHost("*", i, h);
    MadeFits(parse, s, u);
  }

  /** A text without '!' and '@' is a host or an address, not a user name. */
  lemma HostMaskMatches(parse: G.Parse, h: string, u: GUser)
    requires '!' !in h && '@' !in h && HostMask(h) && G.MakeGline(parse, h).Some?
    ensures MatchesUser(G.MakeGline(parse, h).value, u)
            <==> if parse(h).Some? then IpMaskCheck(u.addr, parse(h).value) else Match(h, u.host)
  {
    assert G.CanonUserhost(h) == G.UserHost("*", "*", h);
    MadeFits(parse, h, u);
    StarFits(u.nick);
    StarFits(u.ident);
  }

  /** nick!host, without '@', matches whatever the user name. */
  lemma NickMaskMatches(parse: G.Parse, n: string, h: string, u: GUser)
    requires '!' !in n && '@' !in h && HostMask(n + "!" + h) && G.MakeGline(parse, n + "!" + h).Some?
    ensures MatchesUser(G.MakeGline(parse, n + "!" + h).value, u) <==> FitsAll(parse, n, "*", h, u)
  {
    var s := n + "!" + h;
    FindAt(n, '!', h);
    assert s[..|n|] == n && s[|n| + 1..] == h;
    assert G.CanonUserhost(s) == G.UserHost(n, "*", h);
    MadeFits(parse, s, u);
  }
}
