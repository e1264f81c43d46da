/** G-lines: the mask format of glines/glines_formats.c, the global list of glines/glines.c, and the transactions with
    their log of glines/glines_buf.c. */
module Glines {
  import opened IrcStrings
  import opened Options
  import opened Bans

  const CHANNELLEN := 200
  const REALLEN := 50
  const MASKLEN := 511            // what the 512-byte buffers hold
  const MAXGLINELOG: nat := 500
  const MAXGLINEUSERHITS := 500
  const MAXGLINECHANNELHITS := 50

  type Parse = string -> Option<IpMask>

  /** The parts of a gline that say what it matches; `net` is there when GLINE_IPMASK is set. */
  datatype Mask = Mask(badchan: bool, realname: bool, net: Option<IpMask>,
                       nick: Option<string>, user: Option<string>, host: Option<string>)

  // ---------------------------------------------------------------- the format

  /** strchr: the first place of a character, or the length. */
  function Find(s: string, c: char): (k: nat)
    ensures k <= |s| && c !in s[..k] && (k < |s| ==> s[k] == c)
    ensures k == |s| <==> c !in s
  {
    if s == "" then 0
    else if s[0] == c then 0
    else
      var k := 1 + Find(s[1..], c);
      assert s[..k] == [s[0]] + s[1..][..k - 1] && s == [s[0]] + s[1..];
      k
  }

  function Colons(s: string): nat {
    if s == "" then 0 else (if s[0] == ':' then 1 else 0) + Colons(s[1..])
  }

  function Shorten(s: string, n: nat): string {
    if |s| > n then s[..n] else s
  }

  /** A part that is "*" is not stored. */
  function Part(s: string): Option<string> {
    if s == "*" then None else Some(s)
  }

  function Shown(p: Option<string>): string {
    match p case None => "*" case Some(s) => s
  }

  datatype UserHost = UserHost(nick: string, user: string, host: string)

  /** canon_userhost on a mask that does not start with '$'. */
  function CanonUserhost(s: string): UserHost {
    var bang := Find(s, '!');
    var nick := if bang < |s| then s[..bang] else "*";
    var rest := if bang < |s| then s[bang + 1..] else s;
    var at := Find(rest, '@');
    if at < |rest| then UserHost(nick, rest[..at], rest[at + 1..]) else UserHost(nick, "*", rest)
  }

  /** makegline. */
  function MakeGline(parse: Parse, s: string): Option<Mask> {
    if ' ' in s then None
    else if s != "" && (s[0] == '#' || s[0] == '&') then
      Some(Mask(true, false, None, None, Some(Shorten(s, CHANNELLEN)), None))
    else if s != "" && s[0] == '$' then
      if |s| < 2 || s[1] != 'R' then None
      else
        var name := s[2..];
        Some(Mask(false, true, None, None, if name == "*" then None else Some(Shorten(name, REALLEN)), None))
    else
      var u := CanonUserhost(s);
      if Colons(u.host) >= 8 then None
      else Some(Mask(false, false, parse(u.host), Part(u.nick), Part(u.user), Part(u.host)))
  }

  /** What glinetostring writes, before its buffer cuts it. */
  function Print(m: Mask): string {
    if m.realname then "$R" + Shown(m.user)
    else if m.badchan then (match m.user case Some(s) => s case None => "")
    else Shown(m.nick) + "!" + Shown(m.user) + "@" + Shown(m.host)
  }

  /** glinetostring. */
  function GlineToString(m: Mask): string {
    Shorten(Print(m), MASKLEN)
  }

  /** The parts of a mask that makegline can have made. */
  predicate HostmaskParts(parse: Parse, m: Mask) {
    var nick, user, host := Shown(m.nick), Shown(m.user), Shown(m.host);
    && !m.badchan && !m.realname && '!' !in nick && '@' !in user
    && ' ' !in nick && ' ' !in user && ' ' !in host
    && (nick != "" ==> nick[0] != '#' && nick[0] != '&' && nick[0] != '$')
    && m.nick != Some("*") && m.user != Some("*") && m.host != Some("*")
    && Colons(host) < 8 && m.net == parse(host)
  }

  lemma FindAfter(a: string, c: char, b: string)
    requires c !in a
    ensures Find(a + [c] + b, c) == |a|
  {
    var s := a + [c] + b;
    var k := Find(s, c);
    assert s[|a|] == c;
    forall i | 0 <= i < k ensures s[i] != c {
      assert s[i] == s[..k][i];
    }
    forall i | 0 <= i < |a| ensures s[i] != c {
      assert s[i] == a[i] && a[i] in a;
    }
  }

  lemma CanonPrinted(nick: string, user: string, host: string)
    requires '!' !in nick && '@' !in user
    ensures CanonUserhost(nick + "!" + user + "@" + host) == UserHost(nick, user, host)
  {
    var rest := user + "@" + host;
    var s := nick + "!" + user + "@" + host;
    assert s == nick + ['!'] + rest && rest == user + ['@'] + host;
    FindAfter(nick, '!', rest);
    FindAfter(user, '@', host);
    assert s[..|nick|] == nick && s[|nick| + 1..] == rest;
    assert rest[..|user|] == user && rest[|user| + 1..] == host;
  }

  lemma ReadHostmask(parse: Parse, s: string, u: UserHost)
    requires ' ' !in s && s != "" && s[0] != '#' && s[0] != '&' && s[0] != '$'
    requires CanonUserhost(s) == u && Colons(u.host) < 8
    ensures MakeGline(parse, s) == Some(Mask(false, false, parse(u.host), Part(u.nick), Part(u.user), Part(u.host)))
  {
    hide CanonUserhost, Colons;
  }

  lemma HostmaskRoundTrip(parse: Parse, m: Mask)
    requires HostmaskParts(parse, m)
    ensures MakeGline(parse, Print(m)) == Some(m)
  {
    hide CanonUserhost, Colons, MakeGline;
    var nick, user, host := Shown(m.nick), Shown(m.user), Shown(m.host);
    var s := nick + "!" + user + "@" + host;
    assert s[0] == if nick == "" then '!' else nick[0];
    CanonPrinted(nick, user, host);
    NoBlank(nick, user, host);
    ReadHostmask(parse, s, UserHost(nick, user, host));
  }

  lemma NoBlank(nick: string, user: string, host: string)
    requires ' ' !in nick && ' ' !in user && ' ' !in host
    ensures ' ' !in nick + "!" + user + "@" + host
  {
  }

  /** What makegline makes of a hostmask. */
  lemma MadeParts(parse: Parse, s: string)
    requires MakeGline(parse, s).Some? && !(s != "" && (s[0] == '#' || s[0] == '&' || s[0] == '$'))
    ensures HostmaskParts(parse, MakeGline(parse, s).value)
    ensures |Print(MakeGline(parse, s).value)| <= |s| + 4
  {
    hide CanonUserhost, Colons;
    var u := CanonUserhost(s);
    var m := MakeGline(parse, s).value;
    CanonParts(s);
    assert m == Mask(false, false, parse(u.host), Part(u.nick), Part(u.user), Part(u.host));
    hide MakeGline;
    ShownPart(u.nick);
    ShownPart(u.user);
    ShownPart(u.host);
    hide Part, Shown;
  }

  lemma ShownPart(s: string)
    ensures Shown(Part(s)) == s && Part(s) != Some("*")
  {
  }

  lemma CanonParts(s: string)
    requires ' ' !in s
    ensures var u := CanonUserhost(s);
            && '!' !in u.nick && '@' !in u.user && ' ' !in u.nick && ' ' !in u.user && ' ' !in u.host
            && (u.nick != "" ==> u.nick == "*" || u.nick[0] == s[0]) && (u.nick != "" && u.nick != "*" ==> s != "")
            && |u.nick| + |u.user| + |u.host| <= |s| + 2
  {
    var bang := Find(s, '!');
    var rest := if bang < |s| then s[bang + 1..] else s;
    assert ' ' !in rest && ' ' !in s[..bang];
    var at := Find(rest, '@');
    assert ' ' !in rest[..at];
    assert at < |rest| ==> ' ' !in rest[at + 1..];
  }

  /** Reading back what is printed gives the same gline, for every mask whose printed form the buffer holds; a mask of
      up to 507 characters always fits. */
  lemma RoundTrip(parse: Parse, s: string)
    requires MakeGline(parse, s).Some?
    ensures var m := MakeGline(parse, s).value;
            && MakeGline(parse, Print(m)) == Some(m)
            && (|s| + 4 <= MASKLEN ==> GlineToString(m) == Print(m))
  {
    var m := MakeGline(parse, s).value;
    if s != "" && (s[0] == '#' || s[0] == '&') {
      assert ' ' !in m.user.value;
    } else if s != "" && s[0] == '$' {
      RealnameRoundTrip(parse, s);
    } else {
      MadeParts(parse, s);
      HostmaskRoundTrip(parse, m);
      hide MakeGline, Print;
    }
  }

  lemma RealnameRoundTrip(parse: Parse, s: string)
    requires |s| >= 2 && s[0] == '$' && s[1] == 'R' && ' ' !in s
    ensures var m := MakeGline(parse, s).value;
            MakeGline(parse, Print(m)) == Some(m) && |Print(m)| <= REALLEN + 2
  {
    var m := MakeGline(parse, s).value;
    var shown := Shown(m.user);
    assert ' ' !in shown by {
      assert ' ' !in s[2..];
    }
    var t := Print(m);
    assert t == "$R" + shown && t[2..] == shown && t[0] == '$' && t[1] == 'R';
    assert ' ' !in t;
  }

  // ---------------------------------------------------------------- equality

  predicate SamePart(a: Option<string>, b: Option<string>) {
    a.Some? == b.Some? && (a.Some? ==> StrCmp(a.value, b.value) == 0)
  }

  /** glineequal. Where both are address masks the host texts are not looked at. */
  predicate GlineEqual(a: Mask, b: Mask) {
    && a.badchan == b.badchan && a.realname == b.realname && a.net.Some? == b.net.Some?
    && SamePart(a.nick, b.nick) && SamePart(a.user, b.user)
    && (if a.net.Some? then a.net.value.bits == b.net.value.bits && IpMaskCheck(a.net.value.addr, b.net.value)
        else SamePart(a.host, b.host))
  }

  predicate PartOk(p: Option<string>) {
    p.Some? ==> CString(p.value)
  }

  predicate MaskOk(m: Mask) {
    PartOk(m.nick) && PartOk(m.user) && PartOk(m.host) && (m.net.Some? ==> m.net.value.bits <= 128)
  }

  lemma SamePartChain(a: Option<string>, b: Option<string>, c: Option<string>)
    requires PartOk(a) && PartOk(b) && PartOk(c)
    ensures SamePart(a, a)
    ensures SamePart(a, b) ==> SamePart(b, a)
    ensures SamePart(a, b) && SamePart(b, c) ==> SamePart(a, c)
  {
    if a.Some? { StrCmpZero(a.value, a.value); }
    if a.Some? && b.Some? { StrCmpZero(a.value, b.value); StrCmpZero(b.value, a.value); }
    if b.Some? && c.Some? { StrCmpZero(b.value, c.value); }
    if a.Some? && c.Some? { StrCmpZero(a.value, c.value); }
    hide StrCmp;
  }

  /** glineequal is an equivalence on well-formed masks. */
  lemma EqualChain(a: Mask, b: Mask, c: Mask)
    requires MaskOk(a) && MaskOk(b) && MaskOk(c)
    ensures GlineEqual(a, a)
    ensures GlineEqual(a, b) ==> GlineEqual(b, a)
    ensures GlineEqual(a, b) && GlineEqual(b, c) ==> GlineEqual(a, c)
  {
    SamePartChain(a.nick, b.nick, c.nick);
    SamePartChain(a.user, b.user, c.user);
    SamePartChain(a.host, b.host, c.host);
    hide SamePart, PartOk;
  }

  // ---------------------------------------------------------------- the global list

  /** A gline of the list or of a buffer. */
  datatype Gline = Gline(mask: Mask, creator: string, expire: int, lastmod: nat, lifetime: int, active: bool, bufid: nat)

  /** It can be found again under what it prints as. */
  predicate Findable(parse: Parse, g: Gline) {
    MaskOk(g.mask) && MakeGline(parse, GlineToString(g.mask)) == Some(g.mask)
  }

  ghost predicate AllFindable(parse: Parse, gs: seq<Gline>) {
    forall i | 0 <= i < |gs| :: Findable(parse, gs[i])
  }

  /** No two entries are equal. */
  ghost predicate NoTwins(gs: seq<Gline>) {
    forall i, j | 0 <= i < j < |gs| :: !GlineEqual(gs[i].mask, gs[j].mask)
  }

  datatype Scanned = Scanned(list: seq<Gline>, found: Option<nat>)

  function Aged(g: Gline, now: int): Gline {
    if g.expire <= now then g.(active := false) else g
  }

  /** The walk of findgline: entries past their lifetime go, expired ones are switched off, up to the match. */
  function Scan(gs: seq<Gline>, m: Mask, now: int): (r: Scanned)
    ensures r.found.Some? ==> r.found.value < |r.list|
  {
    if gs == [] then Scanned([], None)
    else if gs[0].lifetime <= now then Scan(gs[1..], m, now)
    else if GlineEqual(m, gs[0].mask) then Scanned([Aged(gs[0], now)] + gs[1..], Some(0))
    else
      var r := Scan(gs[1..], m, now);
      Scanned([Aged(gs[0], now)] + r.list, match r.found case Some(k) => Some(k + 1) case None => None)
  }

  /** An entry as a walk may leave it: only one that has expired may have been switched off. */
  predicate Older(a: Gline, b: Gline, now: int) {
    b == a || (a.expire <= now && b == a.(active := false))
  }

  ghost predicate ComesFrom(a: seq<Gline>, g: Gline, now: int) {
    exists i :: 0 <= i < |a| && Older(a[i], g, now)
  }

  ghost predicate StaysIn(g: Gline, b: seq<Gline>, now: int) {
    exists j :: 0 <= j < |b| && Older(g, b[j], now)
  }

  /** Every entry of `b` is one of `a`, perhaps switched off; and what is missing was past its lifetime. */
  ghost predicate Thinned(a: seq<Gline>, b: seq<Gline>, now: int) {
    && (forall j | 0 <= j < |b| :: ComesFrom(a, b[j], now))
    && (forall i | 0 <= i < |a| && a[i].lifetime > now :: StaysIn(a[i], b, now))
  }

  lemma ThinnedSame(a: seq<Gline>, now: int)
    ensures Thinned(a, a, now)
  {
    forall i | 0 <= i < |a| ensures ComesFrom(a, a[i], now) && StaysIn(a[i], a, now) {
      assert Older(a[i], a[i], now);
    }
  }

  lemma {:induction false} ScanThins(gs: seq<Gline>, m: Mask, now: int)
    ensures Thinned(gs, Scan(gs, m, now).list, now)
  {
    if gs != [] {
      var r := Scan(gs, m, now);
      if gs[0].lifetime <= now {
        ScanThins(gs[1..], m, now);
        FirstGone(gs, r.list, now);
      } else if GlineEqual(m, gs[0].mask) {
        ThinnedSame(gs[1..], now);
        FirstStays(gs, Aged(gs[0], now), gs[1..], now);
      } else {
        ScanThins(gs[1..], m, now);
        FirstStays(gs, Aged(gs[0], now), Scan(gs[1..], m, now).list, now);
      }
    }
  }

  lemma ComesFromTail(a: seq<Gline>, g: Gline, now: int)
    requires a != [] && ComesFrom(a[1..], g, now)
    ensures ComesFrom(a, g, now)
  {
    var i :| 0 <= i < |a[1..]| && Older(a[1..][i], g, now);
    assert Older(a[i + 1], g, now);
  }

  lemma StaysInLonger(g: Gline, first: Gline, rest: seq<Gline>, now: int)
    requires Older(g, first, now) || StaysIn(g, rest, now)
    ensures StaysIn(g, [first] + rest, now)
  {
    var b := [first] + rest;
    if Older(g, first, now) {
      assert Older(g, b[0], now);
    } else {
      var j :| 0 <= j < |rest| && Older(g, rest[j], now);
      assert Older(g, b[j + 1], now);
    }
  }

  lemma FirstGone(a: seq<Gline>, b: seq<Gline>, now: int)
    requires a != [] && a[0].lifetime <= now && Thinned(a[1..], b, now)
    ensures Thinned(a, b, now)
  {
    hide Older, ComesFrom, StaysIn;
    forall j | 0 <= j < |b| ensures ComesFrom(a, b[j], now) {
      ComesFromTail(a, b[j], now);
    }
    forall i | 0 <= i < |a| && a[i].lifetime > now ensures StaysIn(a[i], b, now) {
      assert a[1..][i - 1] == a[i];
    }
  }

  lemma FirstStays(a: seq<Gline>, g: Gline, rest: seq<Gline>, now: int)
    requires a != [] && Older(a[0], g, now) && Thinned(a[1..], rest, now)
    ensures Thinned(a, [g] + rest, now)
  {
    hide Older, StaysIn;
    var b := [g] + rest;
    forall j | 0 <= j < |b| ensures ComesFrom(a, b[j], now) {
      if j > 0 {
        assert b[j] == rest[j - 1];
        ComesFromTail(a, b[j], now);
      } else {
        assert b[j] == g && Older(a[0], g, now);
      }
    }
    forall i | 0 <= i < |a| && a[i].lifetime > now ensures StaysIn(a[i], b, now) {
      assert i > 0 ==> a[1..][i - 1] == a[i];
      StaysInLonger(a[i], g, rest, now);
    }
  }

  /** The walk keeps the list free of twins, and finds the entry equal to `m` when there is one left. */
  lemma {:induction false} ScanFinds(gs: seq<Gline>, m: Mask, now: int)
    requires NoTwins(gs)
    ensures var r := Scan(gs, m, now);
            && NoTwins(r.list)
            && (r.found.None? ==> forall k | 0 <= k < |r.list| :: !GlineEqual(m, r.list[k].mask))
            && (r.found.Some? ==>
                  var e := r.list[r.found.value];
                  GlineEqual(m, e.mask) && e.lifetime > now && (e.expire <= now ==> !e.active))
  {
    hide GlineEqual, Thinned, NoTwins;
    if gs == [] {
      NoTwinsTail(gs);
    } else {
      NoTwinsTail(gs);
      ScanFinds(gs[1..], m, now);
      ScanThins(gs[1..], m, now);
      var g := Aged(gs[0], now);
      if gs[0].lifetime > now && !GlineEqual(m, gs[0].mask) {
        FirstApart(gs, g, Scan(gs[1..], m, now).list, now);
      } else if gs[0].lifetime > now {
        ThinnedSame(gs[1..], now);
        FirstApart(gs, g, gs[1..], now);
      }
    }
  }

  lemma NoTwinsTail(gs: seq<Gline>)
    requires NoTwins(gs)
    ensures NoTwins([]) && (gs != [] ==> NoTwins(gs[1..]))
  {
  }

  lemma FirstApart(gs: seq<Gline>, g: Gline, rest: seq<Gline>, now: int)
    requires gs != [] && NoTwins(gs) && NoTwins(rest) && Older(gs[0], g, now) && Thinned(gs[1..], rest, now)
    ensures NoTwins([g] + rest)
  {
    hide GlineEqual;
    var b := [g] + rest;
    forall i, j | 0 <= i < j < |b| ensures !GlineEqual(b[i].mask, b[j].mask) {
      if i == 0 {
        assert ComesFrom(gs[1..], rest[j - 1], now);
        var k :| 0 <= k < |gs[1..]| && Older(gs[1..][k], rest[j - 1], now);
        assert gs[1..][k] == gs[k + 1];
      } else {
        assert b[i] == rest[i - 1] && b[j] == rest[j - 1];
      }
    }
  }

  // ---------------------------------------------------------------- transactions

  /** A transaction: its glines, newest first, and what they hit. Id 0 is one not logged yet. */
  datatype Buf = Buf(id: nat, glines: seq<Gline>, commit: int, amend: int, hits: seq<string>, userhits: nat, channelhits: nat)

  /** glinebufcounthits, given the channels and users some gline of the buffer matches. */
  function Counted(buf: Buf, channels: seq<string>, users: seq<string>): Buf {
    buf.(hits := channels + users, userhits := |users|, channelhits := |channels|)
  }

  ghost predicate HitsAddUp(buf: Buf) {
    buf.userhits + buf.channelhits == |buf.hits|
  }

  function Reverse(gs: seq<Gline>): seq<Gline> {
    if gs == [] then [] else Reverse(gs[1..]) + [gs[0]]
  }

  lemma {:induction false} ReverseKeeps(gs: seq<Gline>)
    ensures |Reverse(gs)| == |gs| && forall g :: g in Reverse(gs) <==> g in gs
  {
    if gs != [] {
      ReverseKeeps(gs[1..]);
      assert gs == [gs[0]] + gs[1..];
    }
  }

  /** The logged glines of `buf` on top of what an earlier entry holds. */
  function Amended(base: Buf, buf: Buf): Buf {
    base.(glines := Reverse(buf.glines) + base.glines, hits := base.hits + buf.hits,
          userhits := base.userhits + buf.userhits, channelhits := base.channelhits + buf.channelhits)
  }

  type Slot = Option<Buf>

  /** The log: ids are unique and were handed out before, every entry has glines, and its totals are its hits. */
  ghost predicate LogOk(parse: Parse, slots: seq<Slot>, nextid: nat) {
    && |slots| == MAXGLINELOG
    && (forall i | 0 <= i < |slots| && slots[i].Some? :: EntryOk(parse, slots[i].value, nextid))
    && (forall i, j | 0 <= i < j < |slots| && slots[i].Some? && slots[j].Some? :: slots[i].value.id != slots[j].value.id)
  }

  ghost predicate EntryOk(parse: Parse, b: Buf, nextid: nat) {
    0 < b.id < nextid && b.glines != [] && HitsAddUp(b) && AllFindable(parse, b.glines)
  }

  ghost predicate BufOk(parse: Parse, b: Buf, nextid: nat) {
    b.id < nextid && AllFindable(parse, b.glines)
  }

  lemma AmendedOk(parse: Parse, base: Buf, buf: Buf, nextid: nat)
    requires 0 < base.id < nextid && HitsAddUp(base) && AllFindable(parse, base.glines)
    requires buf.glines != [] && HitsAddUp(buf) && AllFindable(parse, buf.glines)
    ensures EntryOk(parse, Amended(base, buf), nextid)
  {
    hide Findable;
    ReverseKeeps(buf.glines);
    var r := Reverse(buf.glines) + base.glines;
    forall i | 0 <= i < |r| ensures Findable(parse, r[i]) {
      if i < |buf.glines| {
        assert r[i] in Reverse(buf.glines);
        var k :| 0 <= k < |buf.glines| && buf.glines[k] == r[i];
      } else {
        assert r[i] == base.glines[i - |buf.glines|];
      }
    }
  }

  lemma SlotSet(parse: Parse, slots: seq<Slot>, nextid: nat, at: nat, b: Buf)
    requires LogOk(parse, slots, nextid) && at < |slots| && EntryOk(parse, b, nextid)
    requires forall i | 0 <= i < |slots| && i != at && slots[i].Some? :: slots[i].value.id != b.id
    ensures LogOk(parse, slots[at := Some(b)], nextid)
  {
    hide EntryOk;
  }

  lemma SlotCleared(parse: Parse, slots: seq<Slot>, nextid: nat, at: nat)
    requires LogOk(parse, slots, nextid) && at < |slots|
    ensures LogOk(parse, slots[at := None], nextid)
  {
    hide EntryOk;
  }

  lemma MoreIds(parse: Parse, slots: seq<Slot>, nextid: nat)
    requires LogOk(parse, slots, nextid)
    ensures LogOk(parse, slots, nextid + 1)
    ensures forall i | 0 <= i < |slots| && slots[i].Some? :: slots[i].value.id != nextid
  {
  }

  // ---------------------------------------------------------------- what transactions do to the list

  /** Later than the last change and not before now. */
  function Touched(lastmod: nat, nettime: int): (r: nat)
    ensures r > lastmod && r >= nettime && (r == nettime || r == lastmod + 1)
  {
    if nettime <= lastmod then lastmod + 1 else nettime
  }

  /** gline_activate without a time of its own. */
  function Activated(g: Gline, nettime: int): Gline {
    g.(active := true, lastmod := Touched(g.lastmod, nettime))
  }

  /** gline_deactivate without a time of its own: a gline whose last change is unknown stays as it is. */
  function Deactivated(g: Gline, nettime: int): Gline {
    if g.lastmod == 0 then g else g.(active := false, lastmod := Touched(g.lastmod, nettime))
  }

  /** An entry switched as a gline equal to it says. */
  function SwitchedAs(e: Gline, gl: Gline, id: nat, nettime: int): Gline {
    var e' := if gl.active && !e.active then Activated(e, nettime)
              else if !gl.active && e.active then Deactivated(e, nettime)
              else e;
    e'.(bufid := id)
  }

  /** The list with one gline of a transaction committed. */
  function CommitOn(gs: seq<Gline>, gl: Gline, id: nat, now: int, nettime: int): seq<Gline> {
    var r := Scan(gs, gl.mask, now);
    match r.found
    case Some(k) => r.list[k := SwitchedAs(r.list[k], gl, id, nettime)]
    case None => [gl.(bufid := id)] + r.list
  }

  function CommitAll(gs: seq<Gline>, gls: seq<Gline>, id: nat, now: int, nettime: int): seq<Gline> {
    if gls == [] then gs
    else CommitOn(CommitAll(gs, gls[..|gls| - 1], id, now, nettime), gls[|gls| - 1], id, now, nettime)
  }

  /** The list with one gline of a transaction undone. */
  function UndoOn(gs: seq<Gline>, gl: Gline, now: int, nettime: int): seq<Gline> {
    var r := Scan(gs, gl.mask, now);
    match r.found
    case Some(k) => r.list[k := Deactivated(r.list[k].(bufid := 0), nettime)]
    case None => r.list
  }

  function UndoAll(gs: seq<Gline>, gls: seq<Gline>, now: int, nettime: int): seq<Gline> {
    if gls == [] then gs
    else UndoOn(UndoAll(gs, gls[..|gls| - 1], now, nettime), gls[|gls| - 1], now, nettime)
  }

  /** The last gline of a transaction that is equal to a mask. */
  function Deciding(gls: seq<Gline>, m: Mask): Option<Gline> {
    if gls == [] then None
    else if GlineEqual(gls[|gls| - 1].mask, m) then Some(gls[|gls| - 1])
    else Deciding(gls[..|gls| - 1], m)
  }

  lemma {:induction false} DecidingSome(gls: seq<Gline>, m: Mask)
    ensures Deciding(gls, m).Some? <==> exists k :: 0 <= k < |gls| && GlineEqual(gls[k].mask, m)
  {
    hide GlineEqual;
    if gls != [] {
      DecidingSome(gls[..|gls| - 1], m);
      assert forall k | 0 <= k < |gls| - 1 :: gls[..|gls| - 1][k] == gls[k];
    }
  }

  lemma DecidingMore(gls: seq<Gline>, gl: Gline, m: Mask)
    ensures Deciding(gls + [gl], m) == if GlineEqual(gl.mask, m) then Some(gl) else Deciding(gls, m)
  {
    hide GlineEqual;
    assert (gls + [gl])[..|gls|] == gls;
  }

  /** An entry with the glines of a transaction undone in turn. */
  function UndoneEntry(a: Gline, gls: seq<Gline>, now: int, nettime: int): Gline {
    if gls == [] then a
    else
      var e := UndoneEntry(a, gls[..|gls| - 1], now, nettime);
      if GlineEqual(gls[|gls| - 1].mask, e.mask) then Deactivated(Aged(e, now).(bufid := 0), nettime) else e
  }

  /** What undoing makes of an entry: each undone gline equal to it switches it off, and a later walk may switch an
      expired one off. */
  predicate UndoFate(a: Gline, gls: seq<Gline>, b: Gline, now: int, nettime: int) {
    Older(UndoneEntry(a, gls, now, nettime), b, now) && (Deciding(gls, a.mask).Some? ==> a.lifetime > now)
  }

  ghost predicate UndoneFrom(a: seq<Gline>, gls: seq<Gline>, e: Gline, now: int, nettime: int) {
    exists i :: 0 <= i < |a| && UndoFate(a[i], gls, e, now, nettime)
  }

  ghost predicate UndoneTo(e: Gline, gls: seq<Gline>, b: seq<Gline>, now: int, nettime: int) {
    exists j :: 0 <= j < |b| && UndoFate(e, gls, b[j], now, nettime)
  }

  /** `b` holds what undoing makes of the entries of `a`: nothing else, and all that is within its lifetime. */
  ghost predicate Undone(a: seq<Gline>, gls: seq<Gline>, b: seq<Gline>, now: int, nettime: int) {
    && (forall j | 0 <= j < |b| :: UndoneFrom(a, gls, b[j], now, nettime))
    && (forall i | 0 <= i < |a| && a[i].lifetime > now :: UndoneTo(a[i], gls, b, now, nettime))
  }

  /** The entry does as the gline says, unless it should be switched off and its last change is unknown; an expired one
      may have been switched off by a later walk. */
  predicate Obeys(e: Gline, gl: Gline, now: int) {
    if gl.active then e.active || e.expire <= now else !e.active || e.lastmod == 0
  }

  /** An entry with the glines of a transaction committed in turn: each one equal to it switches it, with the time of
      its last change. */
  function CommittedEntry(a: Gline, gls: seq<Gline>, id: nat, now: int, nettime: int): Gline {
    if gls == [] then a
    else
      var e := CommittedEntry(a, gls[..|gls| - 1], id, now, nettime);
      if GlineEqual(gls[|gls| - 1].mask, e.mask) then SwitchedAs(Aged(e, now), gls[|gls| - 1], id, nettime) else e
  }

  /** What committing makes of an entry: it is switched as the glines equal to it say, and a later walk may switch an
      expired one off. */
  predicate CommitFate(a: Gline, gls: seq<Gline>, id: nat, b: Gline, now: int, nettime: int) {
    && Older(CommittedEntry(a, gls, id, now, nettime), b, now)
    && (Deciding(gls, a.mask).Some? ==> a.lifetime > now)
  }

  ghost predicate CommittedFrom(a: seq<Gline>, gls: seq<Gline>, id: nat, e: Gline, now: int, nettime: int) {
    exists i :: 0 <= i < |a| && CommitFate(a[i], gls, id, e, now, nettime)
  }

  ghost predicate CommittedTo(e: Gline, gls: seq<Gline>, id: nat, b: seq<Gline>, now: int, nettime: int) {
    exists j :: 0 <= j < |b| && CommitFate(e, gls, id, b[j], now, nettime)
  }

  /** An entry the transaction has brought: one of its glines, as the glines behind it have switched it. */
  ghost predicate Brought(gls: seq<Gline>, id: nat, e: Gline, now: int, nettime: int) {
    exists k :: 0 <= k < |gls| && CommitFate(gls[k].(bufid := id), gls[k + 1..], id, e, now, nettime)
  }

  /** Some entry equal to the mask is within its lifetime. */
  ghost predicate Held(gs: seq<Gline>, m: Mask, now: int) {
    exists k :: 0 <= k < |gs| && GlineEqual(m, gs[k].mask) && gs[k].lifetime > now
  }

  /** `b` holds what committing makes of the entries of `a` and what the transaction brings: nothing else, all of the
      entries within their lifetime, and an entry for every gline within its lifetime. */
  ghost predicate Committed(a: seq<Gline>, gls: seq<Gline>, id: nat, b: seq<Gline>, now: int, nettime: int) {
    && (forall j | 0 <= j < |b| :: CommittedFrom(a, gls, id, b[j], now, nettime) || Brought(gls, id, b[j], now, nettime))
    && (forall i | 0 <= i < |a| && a[i].lifetime > now :: CommittedTo(a[i], gls, id, b, now, nettime))
    && (forall k | 0 <= k < |gls| && gls[k].lifetime > now :: Held(b, gls[k].mask, now))
  }

  // one entry, one step

  lemma DecidingOne(gl: Gline, m: Mask)
    ensures Deciding([gl], m) == if GlineEqual(gl.mask, m) then Some(gl) else None
  {
    hide GlineEqual;
    assert [gl][..0] == [];
  }

  lemma UndoneEntryMore(a: Gline, gls: seq<Gline>, gl: Gline, now: int, nettime: int)
    ensures var e := UndoneEntry(a, gls, now, nettime);
            UndoneEntry(a, gls + [gl], now, nettime)
            == if GlineEqual(gl.mask, e.mask) then Deactivated(Aged(e, now).(bufid := 0), nettime) else e
  {
    hide GlineEqual;
    assert (gls + [gl])[..|gls|] == gls;
  }

  lemma UndoneEntryOne(a: Gline, gl: Gline, now: int, nettime: int)
    ensures UndoneEntry(a, [gl], now, nettime)
            == if GlineEqual(gl.mask, a.mask) then Deactivated(Aged(a, now).(bufid := 0), nettime) else a
  {
    hide GlineEqual;
    assert [gl][..0] == [];
  }

  /** Undoing clears the buffer of an entry equal to an undone gline, and switches it off unless it is in force with an
      unknown time of last change; that time stays unknown. */
  lemma {:induction false} UndoneEntryIs(a: Gline, gls: seq<Gline>, now: int, nettime: int)
    ensures var e := UndoneEntry(a, gls, now, nettime);
            && e == a.(bufid := e.bufid, active := e.active, lastmod := e.lastmod)
            && (Deciding(gls, a.mask).None? ==> e == a)
            && (Deciding(gls, a.mask).Some? ==>
                  && e.bufid == 0 && (e.active <==> a.active && a.expire > now && a.lastmod == 0)
                  && (e.lastmod == 0 <==> a.lastmod == 0))
  {
    hide GlineEqual;
    if gls != [] {
      UndoneEntryIs(a, gls[..|gls| - 1], now, nettime);
    }
  }

  lemma UndoFateOne(a: Gline, b: Gline, gl: Gline, now: int, nettime: int)
    requires Older(a, b, now)
    ensures !GlineEqual(gl.mask, b.mask) ==> UndoFate(a, [gl], b, now, nettime)
    ensures GlineEqual(gl.mask, b.mask) && b.lifetime > now && (b.expire <= now ==> !b.active) ==>
              UndoFate(a, [gl], Deactivated(b.(bufid := 0), nettime), now, nettime)
  {
    hide GlineEqual, Deciding, UndoneEntry;
    DecidingOne(gl, a.mask);
    UndoneEntryOne(a, gl, now, nettime);
  }

  lemma UndoFateChain(a: Gline, gls: seq<Gline>, b: Gline, gl: Gline, c: Gline, now: int, nettime: int)
    requires UndoFate(a, gls, b, now, nettime) && UndoFate(b, [gl], c, now, nettime)
    ensures UndoFate(a, gls + [gl], c, now, nettime)
  {
    hide GlineEqual, Deciding, UndoneEntry;
    DecidingMore(gls, gl, a.mask);
    DecidingOne(gl, a.mask);
    UndoneEntryIs(a, gls, now, nettime);
    UndoneEntryMore(a, gls, gl, now, nettime);
    UndoneEntryOne(b, gl, now, nettime);
    DecidingOne(gl, b.mask);
  }

  lemma CommittedEntryMore(a: Gline, gls: seq<Gline>, gl: Gline, id: nat, now: int, nettime: int)
    ensures var e := CommittedEntry(a, gls, id, now, nettime);
            CommittedEntry(a, gls + [gl], id, now, nettime)
            == if GlineEqual(gl.mask, e.mask) then SwitchedAs(Aged(e, now), gl, id, nettime) else e
  {
    hide GlineEqual;
    assert (gls + [gl])[..|gls|] == gls;
  }

  lemma CommittedEntryOne(a: Gline, gl: Gline, id: nat, now: int, nettime: int)
    ensures CommittedEntry(a, [gl], id, now, nettime)
            == if GlineEqual(gl.mask, a.mask) then SwitchedAs(Aged(a, now), gl, id, nettime) else a
  {
    hide GlineEqual;
    assert [gl][..0] == [];
  }

  /** The last gline of the transaction equal to an entry decides whether the entry is on. */
  lemma {:induction false} CommittedEntryIs(a: Gline, gls: seq<Gline>, id: nat, now: int, nettime: int)
    ensures var e := CommittedEntry(a, gls, id, now, nettime);
            && e == a.(bufid := e.bufid, active := e.active, lastmod := e.lastmod)
            && match Deciding(gls, a.mask)
               case None => e == a
               case Some(gl) => e.bufid == id && Obeys(e, gl, now)
  {
    hide GlineEqual;
    if gls != [] {
      CommittedEntryIs(a, gls[..|gls| - 1], id, now, nettime);
    }
  }

  /** What an entry is committed to does as the last gline equal to it says. */
  lemma FateObeys(a: Gline, gls: seq<Gline>, id: nat, b: Gline, now: int, nettime: int)
    requires CommitFate(a, gls, id, b, now, nettime)
    ensures b == a.(bufid := b.bufid, active := b.active, lastmod := b.lastmod)
    ensures match Deciding(gls, a.mask)
            case None => Older(a, b, now)
            case Some(gl) => b.bufid == id && Obeys(b, gl, now)
  {
    hide GlineEqual, Deciding, CommittedEntry;
    CommittedEntryIs(a, gls, id, now, nettime);
  }

  lemma CommitFateOne(a: Gline, b: Gline, gl: Gline, id: nat, now: int, nettime: int)
    requires Older(a, b, now)
    ensures !GlineEqual(gl.mask, b.mask) ==> CommitFate(a, [gl], id, b, now, nettime)
    ensures GlineEqual(gl.mask, b.mask) && b.lifetime > now && (b.expire <= now ==> !b.active) ==>
              CommitFate(a, [gl], id, SwitchedAs(b, gl, id, nettime), now, nettime)
  {
    hide GlineEqual, Deciding, CommittedEntry, SwitchedAs;
    DecidingOne(gl, a.mask);
    CommittedEntryOne(a, gl, id, now, nettime);
  }

  lemma CommitFateChain(a: Gline, gls: seq<Gline>, id: nat, b: Gline, gl: Gline, c: Gline, now: int, nettime: int)
    requires CommitFate(a, gls, id, b, now, nettime) && CommitFate(b, [gl], id, c, now, nettime)
    ensures CommitFate(a, gls + [gl], id, c, now, nettime)
  {
    hide GlineEqual, Deciding, CommittedEntry, SwitchedAs;
    DecidingMore(gls, gl, a.mask);
    DecidingOne(gl, a.mask);
    DecidingOne(gl, b.mask);
    CommittedEntryIs(a, gls, id, now, nettime);
    CommittedEntryMore(a, gls, gl, id, now, nettime);
    CommittedEntryOne(b, gl, id, now, nettime);
  }

  lemma BroughtChain(gls: seq<Gline>, id: nat, b: Gline, gl: Gline, c: Gline, now: int, nettime: int)
    requires Brought(gls, id, b, now, nettime) && CommitFate(b, [gl], id, c, now, nettime)
    ensures Brought(gls + [gl], id, c, now, nettime)
  {
    hide CommitFate;
    var k :| 0 <= k < |gls| && CommitFate(gls[k].(bufid := id), gls[k + 1..], id, b, now, nettime);
    CommitFateChain(gls[k].(bufid := id), gls[k + 1..], id, b, gl, c, now, nettime);
    assert (gls + [gl])[k] == gls[k] && (gls + [gl])[k + 1..] == gls[k + 1..] + [gl];
  }

  lemma BroughtLast(gls: seq<Gline>, gl: Gline, id: nat, e: Gline, now: int, nettime: int)
    requires Brought([gl], id, e, now, nettime)
    ensures Brought(gls + [gl], id, e, now, nettime)
  {
    hide CommitFate;
    var k :| 0 <= k < |[gl]| && CommitFate([gl][k].(bufid := id), [gl][k + 1..], id, e, now, nettime);
    var n := |gls|;
    assert (gls + [gl])[n] == [gl][k] && (gls + [gl])[n + 1..] == [gl][k + 1..];
  }

  // the whole list

  lemma UndoneChain(a: seq<Gline>, gls: seq<Gline>, b: seq<Gline>, gl: Gline, c: seq<Gline>, now: int, nettime: int)
    requires Undone(a, gls, b, now, nettime) && Undone(b, [gl], c, now, nettime)
    ensures Undone(a, gls + [gl], c, now, nettime)
  {
    hide UndoFate;
    forall j | 0 <= j < |c| ensures UndoneFrom(a, gls + [gl], c[j], now, nettime) {
      assert UndoneFrom(b, [gl], c[j], now, nettime);
      var k :| 0 <= k < |b| && UndoFate(b[k], [gl], c[j], now, nettime);
      assert UndoneFrom(a, gls, b[k], now, nettime);
      var i :| 0 <= i < |a| && UndoFate(a[i], gls, b[k], now, nettime);
      UndoFateChain(a[i], gls, b[k], gl, c[j], now, nettime);
    }
    forall i | 0 <= i < |a| && a[i].lifetime > now ensures UndoneTo(a[i], gls + [gl], c, now, nettime) {
      assert UndoneTo(a[i], gls, b, now, nettime);
      var k :| 0 <= k < |b| && UndoFate(a[i], gls, b[k], now, nettime);
      UndoKeepsParts(a[i], gls, b[k], now, nettime);
      assert UndoneTo(b[k], [gl], c, now, nettime);
      var j :| 0 <= j < |c| && UndoFate(b[k], [gl], c[j], now, nettime);
      UndoFateChain(a[i], gls, b[k], gl, c[j], now, nettime);
    }
  }

  lemma UndoKeepsParts(a: Gline, gls: seq<Gline>, b: Gline, now: int, nettime: int)
    requires UndoFate(a, gls, b, now, nettime)
    ensures b.mask == a.mask && b.lifetime == a.lifetime
  {
    hide UndoneEntry, Deciding, GlineEqual;
    UndoneEntryIs(a, gls, now, nettime);
  }

  lemma UndoStep(parse: Parse, gs: seq<Gline>, gl: Gline, now: int, nettime: int)
    requires NoTwins(gs) && AllFindable(parse, gs) && MaskOk(gl.mask)
    ensures var b := UndoOn(gs, gl, now, nettime);
            NoTwins(b) && AllFindable(parse, b) && Undone(gs, [gl], b, now, nettime)
  {
    hide GlineEqual, NoTwins, Findable, UndoFate, Scan, Older, MaskOk;
    var r, b := Scan(gs, gl.mask, now), UndoOn(gs, gl, now, nettime);
    Walked(parse, gs, gl.mask, now);
    if r.found.Some? {
      EntryChanged(parse, r.list, r.found.value, Deactivated(r.list[r.found.value].(bufid := 0), nettime));
    }
    forall j | 0 <= j < |b| ensures UndoneFrom(gs, [gl], b[j], now, nettime) {
      assert ComesFrom(gs, r.list[j], now);
      var i :| 0 <= i < |gs| && Older(gs[i], r.list[j], now);
      UndoFateOne(gs[i], r.list[j], gl, now, nettime);
    }
    forall i | 0 <= i < |gs| && gs[i].lifetime > now ensures UndoneTo(gs[i], [gl], b, now, nettime) {
      assert StaysIn(gs[i], r.list, now);
      var j :| 0 <= j < |r.list| && Older(gs[i], r.list[j], now);
      UndoFateOne(gs[i], r.list[j], gl, now, nettime);
      assert UndoFate(gs[i], [gl], b[j], now, nettime);
    }
  }

  /** Undoing a transaction does to each entry what `UndoFate` says, to all of them and to nothing else. */
  lemma {:induction false} UndoMeans(parse: Parse, gs: seq<Gline>, gls: seq<Gline>, now: int, nettime: int)
    requires NoTwins(gs) && AllFindable(parse, gs) && AllFindable(parse, gls)
    ensures var b := UndoAll(gs, gls, now, nettime);
            NoTwins(b) && AllFindable(parse, b) && Undone(gs, gls, b, now, nettime)
  {
    hide GlineEqual, NoTwins, UndoOn, MakeGline, Print;
    if gls == [] {
      forall i | 0 <= i < |gs| ensures UndoneFrom(gs, [], gs[i], now, nettime) && UndoneTo(gs[i], [], gs, now, nettime) {
        assert UndoFate(gs[i], [], gs[i], now, nettime);
      }
    } else {
      hide UndoFate, UndoneFrom, UndoneTo, Undone;
      var init, last := gls[..|gls| - 1], gls[|gls| - 1];
      assert gls == init + [last] && Findable(parse, last);
      UndoMeans(parse, gs, init, now, nettime);
      UndoStep(parse, UndoAll(gs, init, now, nettime), last, now, nettime);
      UndoneChain(gs, init, UndoAll(gs, init, now, nettime), last, UndoAll(gs, gls, now, nettime), now, nettime);
    }
  }

  /** Some entry equal to the mask is switched on. */
  ghost predicate On(gs: seq<Gline>, m: Mask) {
    exists k :: 0 <= k < |gs| && GlineEqual(m, gs[k].mask) && gs[k].active
  }

  /** Some entry equal to the mask is in force and its last change is unknown. */
  ghost predicate OnUnchanged(gs: seq<Gline>, m: Mask, now: int) {
    exists k :: 0 <= k < |gs| && GlineEqual(m, gs[k].mask) && gs[k].active
                && gs[k].expire > now && gs[k].lifetime > now && gs[k].lastmod == 0
  }

  /** An undone gline is still switched on exactly when it was in force and its last change unknown. */
  ghost predicate OffUnlessUnchanged(a: seq<Gline>, gls: seq<Gline>, b: seq<Gline>, now: int) {
    forall k | 0 <= k < |gls| :: On(b, gls[k].mask) <==> OnUnchanged(a, gls[k].mask, now)
  }

  lemma UndoneOff(a: seq<Gline>, gls: seq<Gline>, b: seq<Gline>, now: int, nettime: int)
    requires Undone(a, gls, b, now, nettime)
    ensures OffUnlessUnchanged(a, gls, b, now)
  {
    hide Undone, On, OnUnchanged;
    forall k | 0 <= k < |gls| ensures On(b, gls[k].mask) <==> OnUnchanged(a, gls[k].mask, now) {
      UndoneOffOne(a, gls, b, now, nettime, k);
    }
  }

  lemma UndoneOffOne(a: seq<Gline>, gls: seq<Gline>, b: seq<Gline>, now: int, nettime: int, k: nat)
    requires Undone(a, gls, b, now, nettime) && k < |gls|
    ensures On(b, gls[k].mask) <==> OnUnchanged(a, gls[k].mask, now)
  {
    hide GlineEqual, Deciding, UndoFate;
    var m := gls[k].mask;
    if On(b, m) {
      var j :| 0 <= j < |b| && GlineEqual(m, b[j].mask) && b[j].active;
      assert UndoneFrom(a, gls, b[j], now, nettime);
      var i :| 0 <= i < |a| && UndoFate(a[i], gls, b[j], now, nettime);
      UndoFateOf(a[i], gls, b[j], now, nettime, k);
    }
    if OnUnchanged(a, m, now) {
      var i :| 0 <= i < |a| && GlineEqual(m, a[i].mask) && a[i].active && a[i].expire > now && a[i].lifetime > now
               && a[i].lastmod == 0;
      assert UndoneTo(a[i], gls, b, now, nettime);
      var j :| 0 <= j < |b| && UndoFate(a[i], gls, b[j], now, nettime);
      UndoFateOf(a[i], gls, b[j], now, nettime, k);
    }
  }

  lemma UndoFateOf(a: Gline, gls: seq<Gline>, b: Gline, now: int, nettime: int, k: nat)
    requires UndoFate(a, gls, b, now, nettime) && k < |gls|
    ensures b.mask == a.mask
    ensures GlineEqual(gls[k].mask, a.mask) ==>
              a.lifetime > now && (b.active <==> a.active && a.expire > now && a.lastmod == 0)
  {
    hide GlineEqual, Deciding, UndoneEntry;
    DecidingSome(gls, a.mask);
    UndoneEntryIs(a, gls, now, nettime);
  }

  lemma CommittedChain(a: seq<Gline>, gls: seq<Gline>, id: nat, b: seq<Gline>, gl: Gline, c: seq<Gline>, now: int,
                       nettime: int)
    requires Committed(a, gls, id, b, now, nettime) && Committed(b, [gl], id, c, now, nettime)
    ensures Committed(a, gls + [gl], id, c, now, nettime)
  {
    hide CommitFate, Brought, Held;
    forall j | 0 <= j < |c|
      ensures CommittedFrom(a, gls + [gl], id, c[j], now, nettime) || Brought(gls + [gl], id, c[j], now, nettime)
    {
      if CommittedFrom(b, [gl], id, c[j], now, nettime) {
        var k :| 0 <= k < |b| && CommitFate(b[k], [gl], id, c[j], now, nettime);
        if CommittedFrom(a, gls, id, b[k], now, nettime) {
          var i :| 0 <= i < |a| && CommitFate(a[i], gls, id, b[k], now, nettime);
          CommitFateChain(a[i], gls, id, b[k], gl, c[j], now, nettime);
        } else {
          BroughtChain(gls, id, b[k], gl, c[j], now, nettime);
        }
      } else {
        BroughtLast(gls, gl, id, c[j], now, nettime);
      }
    }
    forall i | 0 <= i < |a| && a[i].lifetime > now ensures CommittedTo(a[i], gls + [gl], id, c, now, nettime) {
      assert CommittedTo(a[i], gls, id, b, now, nettime);
      var k :| 0 <= k < |b| && CommitFate(a[i], gls, id, b[k], now, nettime);
      CommitKeepsParts(a[i], gls, id, b[k], now, nettime);
      assert CommittedTo(b[k], [gl], id, c, now, nettime);
      var j :| 0 <= j < |c| && CommitFate(b[k], [gl], id, c[j], now, nettime);
      CommitFateChain(a[i], gls, id, b[k], gl, c[j], now, nettime);
    }
    forall k | 0 <= k < |gls + [gl]| && (gls + [gl])[k].lifetime > now ensures Held(c, (gls + [gl])[k].mask, now) {
      if k < |gls| {
        HeldStays(b, [gl], id, c, now, nettime, gls[k].mask);
      } else {
        assert [gl][0] == (gls + [gl])[k];
      }
    }
  }

  lemma CommitKeepsParts(a: Gline, gls: seq<Gline>, id: nat, b: Gline, now: int, nettime: int)
    requires CommitFate(a, gls, id, b, now, nettime)
    ensures b.mask == a.mask && b.lifetime == a.lifetime
  {
    hide CommittedEntry, Deciding, GlineEqual;
    CommittedEntryIs(a, gls, id, now, nettime);
  }

  lemma HeldStays(b: seq<Gline>, gls: seq<Gline>, id: nat, c: seq<Gline>, now: int, nettime: int, m: Mask)
    requires Committed(b, gls, id, c, now, nettime) && Held(b, m, now)
    ensures Held(c, m, now)
  {
    hide GlineEqual, CommitFate;
    var i :| 0 <= i < |b| && GlineEqual(m, b[i].mask) && b[i].lifetime > now;
    assert CommittedTo(b[i], gls, id, c, now, nettime);
    var j :| 0 <= j < |c| && CommitFate(b[i], gls, id, c[j], now, nettime);
    CommitKeepsParts(b[i], gls, id, c[j], now, nettime);
    assert GlineEqual(m, c[j].mask);
  }

  lemma CommitStep(parse: Parse, gs: seq<Gline>, gl: Gline, id: nat, now: int, nettime: int)
    requires NoTwins(gs) && AllFindable(parse, gs) && Findable(parse, gl)
    ensures var b := CommitOn(gs, gl, id, now, nettime);
            NoTwins(b) && AllFindable(parse, b) && Committed(gs, [gl], id, b, now, nettime)
  {
    hide GlineEqual, NoTwins, Findable, CommitFate, Scan, Older, Brought, Held, MaskOk;
    var r, b := Scan(gs, gl.mask, now), CommitOn(gs, gl, id, now, nettime);
    FindableMask(parse, gl);
    Walked(parse, gs, gl.mask, now);
    CommitEntry(parse, gs, gl, id, now, nettime);
    var shift := if r.found.Some? then 0 else 1;
    forall j | 0 <= j < |b|
      ensures CommittedFrom(gs, [gl], id, b[j], now, nettime) || Brought([gl], id, b[j], now, nettime)
    {
      if j >= shift {
        assert ComesFrom(gs, r.list[j - shift], now);
        var i :| 0 <= i < |gs| && Older(gs[i], r.list[j - shift], now);
        CommitFateOne(gs[i], r.list[j - shift], gl, id, now, nettime);
        assert CommitFate(gs[i], [gl], id, b[j], now, nettime);
      }
    }
    forall i | 0 <= i < |gs| && gs[i].lifetime > now ensures CommittedTo(gs[i], [gl], id, b, now, nettime) {
      assert StaysIn(gs[i], r.list, now);
      var j :| 0 <= j < |r.list| && Older(gs[i], r.list[j], now);
      CommitFateOne(gs[i], r.list[j], gl, id, now, nettime);
      assert CommitFate(gs[i], [gl], id, b[j + shift], now, nettime);
    }
  }

  lemma FindableMask(parse: Parse, g: Gline)
    requires Findable(parse, g)
    ensures MaskOk(g.mask)
  {
  }

  /** The entry that is changed or new. */
  lemma CommitEntry(parse: Parse, gs: seq<Gline>, gl: Gline, id: nat, now: int, nettime: int)
    requires NoTwins(gs) && AllFindable(parse, gs) && Findable(parse, gl)
    ensures var b, r := CommitOn(gs, gl, id, now, nettime), Scan(gs, gl.mask, now);
            && NoTwins(b) && AllFindable(parse, b) && (gl.lifetime > now ==> Held(b, gl.mask, now))
            && (r.found.None? ==> Brought([gl], id, b[0], now, nettime))
  {
    hide GlineEqual, NoTwins, Findable, Scan, MaskOk;
    var r, b := Scan(gs, gl.mask, now), CommitOn(gs, gl, id, now, nettime);
    FindableMask(parse, gl);
    Walked(parse, gs, gl.mask, now);
    match r.found {
      case Some(k) =>
        EntryChanged(parse, r.list, k, b[k]);
        assert GlineEqual(gl.mask, b[k].mask);
      case None =>
        FindableParts(parse, gl, gl.(bufid := id));
        NewEntry(parse, r.list, gl.(bufid := id));
        MaskEqualsItself(gl.mask);
        assert [gl][0] == gl && [gl][1..] == [];
        assert CommitFate([gl][0].(bufid := id), [gl][1..], id, b[0], now, nettime);
        assert GlineEqual(gl.mask, b[0].mask);
    }
  }

  lemma FindableParts(parse: Parse, g: Gline, g': Gline)
    requires Findable(parse, g) && g'.mask == g.mask
    ensures Findable(parse, g')
  {
  }

  lemma MaskEqualsItself(m: Mask)
    requires MaskOk(m)
    ensures GlineEqual(m, m)
  {
    EqualChain(m, m, m);
  }

  /** Committing a transaction does to each entry what `CommitFate` says, and brings its new entries. */
  lemma {:induction false} CommitMeans(parse: Parse, gs: seq<Gline>, gls: seq<Gline>, id: nat, now: int, nettime: int)
    requires NoTwins(gs) && AllFindable(parse, gs) && AllFindable(parse, gls)
    ensures var b := CommitAll(gs, gls, id, now, nettime);
            NoTwins(b) && AllFindable(parse, b) && Committed(gs, gls, id, b, now, nettime)
  {
    hide GlineEqual, NoTwins, CommitOn, MakeGline, Print;
    if gls == [] {
      forall i | 0 <= i < |gs|
        ensures CommittedFrom(gs, [], id, gs[i], now, nettime) && CommittedTo(gs[i], [], id, gs, now, nettime)
      {
        assert CommitFate(gs[i], [], id, gs[i], now, nettime);
      }
    } else {
      hide CommitFate, CommittedFrom, CommittedTo, Committed;
      var init, last := gls[..|gls| - 1], gls[|gls| - 1];
      assert gls == init + [last] && Findable(parse, last);
      CommitMeans(parse, gs, init, id, now, nettime);
      CommitStep(parse, CommitAll(gs, init, id, now, nettime), last, id, now, nettime);
      CommittedChain(gs, init, id, CommitAll(gs, init, id, now, nettime), last, CommitAll(gs, gls, id, now, nettime),
                     now, nettime);
    }
  }

  /** What a walk leaves and finds, on a list without twins. */
  lemma Walked(parse: Parse, gs: seq<Gline>, m: Mask, now: int)
    requires NoTwins(gs) && AllFindable(parse, gs) && MaskOk(m)
    ensures var r := Scan(gs, m, now);
            && Thinned(gs, r.list, now) && NoTwins(r.list) && AllFindable(parse, r.list)
            && (r.found.Some? ==>
                  var e := r.list[r.found.value];
                  GlineEqual(m, e.mask) && e.lifetime > now && (e.expire <= now ==> !e.active))
            && forall j | 0 <= j < |r.list| && r.found != Some(j) :: !GlineEqual(m, r.list[j].mask)
  {
    hide GlineEqual, NoTwins, AllFindable, Thinned, MaskOk, Scan;
    var r := Scan(gs, m, now);
    ScanThins(gs, m, now);
    ScanFinds(gs, m, now);
    ThinnedFindable(parse, gs, r.list, now);
    if r.found.Some? {
      OnlyOne(parse, r.list, m, r.found.value);
    }
  }

  lemma CommitToEmpty(gl: Gline, id: nat, now: int, nettime: int)
    ensures CommitAll([], [gl], id, now, nettime) == [gl.(bufid := id)]
  {
    hide GlineEqual;
    assert [gl][..0] == [];
  }

  lemma UndoUnchanged(e: Gline, gl: Gline, now: int, nettime: int)
    requires GlineEqual(gl.mask, e.mask) && e.lifetime > now && e.expire > now && e.lastmod == 0
    ensures UndoAll([e], [gl], now, nettime) == [e.(bufid := 0)]
  {
    hide GlineEqual;
    assert [gl][..0] == [];
    assert Scan([e], gl.mask, now) == Scanned([e], Some(0));
  }

  /** A gline whose last change is unknown, such as a service sends, cannot be undone: committed and undone at once it
      is in force as before. */
  lemma UndoLeavesOn(m: Mask, id: nat, now: int, nettime: int)
    requires MaskOk(m)
    ensures var gl := Gline(m, "services", now + 100, 0, now + 100, true, 0);
            var committed := CommitAll([], [gl], id, now, nettime);
            OnUnchanged(committed, m, now) && On(UndoAll(committed, [gl], now, nettime), m)
  {
    var gl := Gline(m, "services", now + 100, 0, now + 100, true, 0);
    MaskEqualsItself(m);
    CommitToEmpty(gl, id, now, nettime);
    UndoUnchanged(gl.(bufid := id), gl, now, nettime);
    hide GlineEqual, CommitAll, UndoAll;
    assert GlineEqual(m, [gl][0].mask) && GlineEqual(m, [gl.(bufid := id)][0].mask);
  }

  lemma ThinnedFindable(parse: Parse, a: seq<Gline>, b: seq<Gline>, now: int)
    requires AllFindable(parse, a) && Thinned(a, b, now)
    ensures AllFindable(parse, b)
  {
    forall j | 0 <= j < |b| ensures Findable(parse, b[j]) {
      assert ComesFrom(a, b[j], now);
      var i :| 0 <= i < |a| && Older(a[i], b[j], now);
    }
  }

  /** With no twins in the list, at most one entry is equal to a mask. */
  lemma OnlyOne(parse: Parse, gs: seq<Gline>, m: Mask, k: nat)
    requires NoTwins(gs) && AllFindable(parse, gs) && MaskOk(m) && k < |gs| && GlineEqual(m, gs[k].mask)
    ensures forall i | 0 <= i < |gs| && i != k :: !GlineEqual(m, gs[i].mask)
  {
    forall i | 0 <= i < |gs| && i != k ensures !GlineEqual(m, gs[i].mask) {
      assert Findable(parse, gs[i]) && Findable(parse, gs[k]);
      EqualChain(gs[i].mask, m, gs[k].mask);
      EqualChain(m, gs[i].mask, gs[k].mask);
      EqualChain(gs[k].mask, m, gs[i].mask);
      EqualChain(m, gs[k].mask, gs[i].mask);
    }
    hide GlineEqual, MaskOk;
  }

  /** ipmask_parse gives at most 128 bits. */
  ghost predicate WidthOk(parse: Parse) {
    forall h | parse(h).Some? :: parse(h).value.bits <= 128
  }

  lemma CanonText(s: string)
    requires CString(s)
    ensures var u := CanonUserhost(s); CString(u.nick) && CString(u.user) && CString(u.host)
  {
    hide Find;
    assert CString("*");
  }

  lemma MadeOk(parse: Parse, s: string)
    requires MakeGline(parse, s).Some? && CString(s) && WidthOk(parse)
    ensures MaskOk(MakeGline(parse, s).value)
  {
    hide CanonUserhost, Colons, CString;
    CanonText(s);
    PiecesText(s);
  }

  lemma PiecesText(s: string)
    requires CString(s)
    ensures forall n | 0 <= n <= |s| :: CString(s[..n]) && CString(s[n..])
    ensures CString(Shorten(s, CHANNELLEN)) && (|s| >= 2 ==> CString(Shorten(s[2..], REALLEN)))
  {
  }

  /** A mask short enough for the buffers gives a gline that can be found again under what it prints as. */
  lemma MadeFindable(parse: Parse, s: string, g: Gline)
    requires MakeGline(parse, s) == Some(g.mask) && CString(s) && WidthOk(parse) && |s| + 4 <= MASKLEN
    ensures Findable(parse, g)
  {
    hide MakeGline, Print, MaskOk;
    MadeOk(parse, s);
    RoundTrip(parse, s);
  }

  /** glinebufadd: the transaction with the gline in front, or nothing for a malformed mask. */
  method GlineBufAdd(parse: Parse, buf: Buf, mask: string, creator: string, expire: int, lastmod: nat, lifetime: int, nextid: nat)
    returns (r: Option<Buf>)
    requires CString(mask) && WidthOk(parse) && BufOk(parse, buf, nextid)
    ensures r.None? <==> MakeGline(parse, mask).None?
    ensures r.Some? ==>
              && r.value.id == buf.id && |r.value.glines| == |buf.glines| + 1 && r.value.glines[1..] == buf.glines
              && (var g := r.value.glines[0];
                  MakeGline(parse, mask) == Some(g.mask) && g.active && g.lastmod == lastmod && g.lifetime == lifetime)
              && (|mask| + 4 <= MASKLEN ==>
                    && BufOk(parse, r.value, nextid)
                    && MakeGline(parse, GlineToString(r.value.glines[0].mask)) == MakeGline(parse, mask))
  {
    hide MakeGline, Print, MaskOk;
    match MakeGline(parse, mask)
    case None => r := None;
    case Some(m) =>
      var g := Gline(m, creator, expire, lastmod, lifetime, true, 0);
      if |mask| + 4 <= MASKLEN {
        MadeFindable(parse, mask, g);
      }
      r := Some(buf.(glines := [g] + buf.glines));
  }

  class GlineStore {
    const parse: Parse
    var glinelist: seq<Gline>
    var glinebuflog: seq<Slot>
    var glinebuflogoffset: nat
    var nextglinebufid: nat

    ghost predicate Valid()
      reads this
    {
      && NoTwins(glinelist) && AllFindable(parse, glinelist)
      && LogOk(parse, glinebuflog, nextglinebufid) && glinebuflogoffset < MAXGLINELOG && nextglinebufid > 0
    }

    constructor (parse: Parse)
      ensures Valid() && glinelist == [] && this.parse == parse
      ensures forall i | 0 <= i < |glinebuflog| :: glinebuflog[i].None?
    {
      this.parse := parse;
      glinelist, glinebuflog, glinebuflogoffset, nextglinebufid := [], seq(MAXGLINELOG, _ => None), 0, 1;
    }

    /** findgline, and where in the list the entry is. */
    method FindGline(mask: string, now: int) returns (at: Option<nat>)
      requires Valid()
      modifies this`glinelist
      ensures Valid() && Thinned(old(glinelist), glinelist, now)
      ensures MakeGline(parse, mask).None? ==> at.None? && glinelist == old(glinelist)
      ensures MakeGline(parse, mask).Some? ==>
                var r := Scan(old(glinelist), MakeGline(parse, mask).value, now);
                glinelist == r.list && at == r.found
    {
      hide Thinned, MakeGline, GlineEqual, NoTwins, AllFindable, LogOk, Scan, Aged, Spliced;
      var made := MakeGline(parse, mask);
      if made.None? {
        ThinnedSame(glinelist, now);
        return None;
      }
      var m := made.value;
      ghost var goal := Scan(glinelist, m, now);
      ScanThins(glinelist, m, now);
      ScanFinds(glinelist, m, now);
      ThinnedFindable(parse, glinelist, goal.list, now);
      var i := 0;
      ScannedFrom(glinelist, m, now);
      at := None;
      while i < |glinelist| && at.None?
        invariant 0 <= i <= |glinelist| && glinebuflog == old(glinebuflog)
        invariant at.None? ==> goal == Spliced(glinelist[..i], Scan(glinelist[i..], m, now))
        invariant at.Some? ==> goal == Scanned(glinelist, at)
        decreases |glinelist| - i, at.None?
      {
        ScanStep(glinelist, i, m, now);
        AgedMask(glinelist[i], now);
        if glinelist[i].lifetime <= now {
          glinelist := glinelist[..i] + glinelist[i + 1..];
        } else {
          glinelist := glinelist[i := Aged(glinelist[i], now)];
          if GlineEqual(m, glinelist[i].mask) {
            at := Some(i);
          } else {
            i := i + 1;
          }
        }
      }
      if at.None? {
        ScanNothing(glinelist, m, now);
      }
    }

    /** An entry changes, other than in what it matches. */
    method Change(k: nat, g: Gline)
      requires Valid() && k < |glinelist| && g.mask == glinelist[k].mask
      modifies this`glinelist
      ensures Valid() && glinelist == old(glinelist)[k := g]
    {
      hide GlineEqual, LogOk, Findable;
      EntryChanged(parse, glinelist, k, g);
      glinelist := glinelist[k := g];
    }

    /** One gline of a transaction: an entry equal to it is switched as it says, and otherwise it becomes an entry. */
    method CommitOne(gl: Gline, id: nat, now: int, nettime: int)
      requires Valid() && Findable(parse, gl)
      modifies this`glinelist
      ensures Valid() && glinelist == CommitOn(old(glinelist), gl, id, now, nettime)
    {
      hide GlineEqual, LogOk, Scan, NoTwins, MakeGline, Print;
      ghost var before := glinelist;
      var at := FindGline(GlineToString(gl.mask), now);
      ScanFinds(before, gl.mask, now);
      match at {
        case Some(k) =>
          var sgl := glinelist[k];
          if gl.active && !sgl.active {
            sgl := Activated(sgl, nettime);
          } else if !gl.active && sgl.active {
            sgl := Deactivated(sgl, nettime);
          }
          Change(k, sgl.(bufid := id));
        case None =>
          NewEntry(parse, glinelist, gl.(bufid := id));
          glinelist := [gl.(bufid := id)] + glinelist;
      }
    }

    /** The first loop of glinebufwritelog: an entry with the transaction's id is taken out of the log. */
    method TakeById(buf: Buf) returns (gbl: Slot)
      requires Valid() && buf.id != 0
      modifies this`glinebuflog
      ensures Valid() && TakenOut(parse, old(glinebuflog), glinebuflog, gbl, nextglinebufid)
      ensures gbl.Some? ==> gbl.value.id == buf.id && gbl.value.amend == buf.commit
      ensures gbl.None? ==> glinebuflog == old(glinebuflog) && !HasId(glinebuflog, buf.id)
    {
      hide GlineEqual, NoTwins, Findable, EntryOk;
      gbl := None;
      for i := 0 to MAXGLINELOG
        invariant glinebuflog == old(glinebuflog)
        invariant forall k | 0 <= k < i && glinebuflog[k].Some? :: glinebuflog[k].value.id != buf.id
      {
        if glinebuflog[i].Some? && glinebuflog[i].value.id == buf.id {
          gbl := Some(glinebuflog[i].value.(amend := buf.commit));
          TakeOut(i, buf.commit);
          return;
        }
      }
    }

    method TakeOut(i: nat, commit: int)
      requires Valid() && i < MAXGLINELOG && glinebuflog[i].Some?
      modifies this`glinebuflog
      ensures Valid()
      ensures TakenOut(parse, old(glinebuflog), glinebuflog, Some(old(glinebuflog)[i].value.(amend := commit)), nextglinebufid)
    {
      hide GlineEqual, NoTwins, Findable;
      EntryTaken(parse, glinebuflog, nextglinebufid, i, commit);
      glinebuflog := glinebuflog[i := None];
    }

    /** The second loop: a recent entry of the same creator is taken out of the log. */
    method TakeRecent(buf: Buf, nettime: int) returns (gbl: Slot)
      requires Valid() && buf.glines != []
      modifies this`glinebuflog
      ensures Valid() && TakenOut(parse, old(glinebuflog), glinebuflog, gbl, nextglinebufid)
      ensures gbl.Some? ==> gbl.value.glines != [] && gbl.value.glines[0].creator == buf.glines[0].creator
      ensures gbl.None? ==> glinebuflog == old(glinebuflog)
    {
      hide GlineEqual, NoTwins, Findable;
      gbl := None;
      for i := 0 to MAXGLINELOG
        invariant glinebuflog == old(glinebuflog)
      {
        if glinebuflog[i].Some? {
          var b := glinebuflog[i].value;
          if !(b.commit < nettime - 5 && b.amend < nettime - 5) {
            if b.glines[0].creator == buf.glines[0].creator {
              gbl := Some(b.(amend := buf.commit));
              TakeOut(i, buf.commit);
              return;
            }
          }
        }
      }
    }

    /** glinebufwritelog. */
    method WriteLog(buf: Buf, propagating: bool, nettime: int) returns (id: nat)
      requires Valid() && BufOk(parse, buf, nextglinebufid) && HitsAddUp(buf)
      modifies this`glinebuflog, this`glinebuflogoffset, this`nextglinebufid
      ensures Valid() && old(nextglinebufid) <= nextglinebufid
      ensures id == 0 <==> buf.glines == []
      ensures buf.glines == [] ==> glinebuflog == old(glinebuflog)
      ensures buf.glines != [] ==>
                && Logged(old(glinebuflog), glinebuflog, glinebuflogoffset, id, buf) && id < nextglinebufid
                && glinebuflogoffset == (old(glinebuflogoffset) + 1) % MAXGLINELOG
      ensures buf.glines != [] && propagating && buf.id == 0 ==> id == old(nextglinebufid)
    {
      hide GlineEqual, NoTwins, Findable, LogOk, EntryOk, TakenOut;
      if buf.glines == [] {
        return 0;
      }
      var gbl: Slot := None;
      NothingTaken(parse, glinebuflog, nextglinebufid);
      if buf.id != 0 {
        gbl := TakeById(buf);
      }
      if gbl.None? && !propagating {
        gbl := TakeRecent(buf, nettime);
      }
      var base: Buf;
      if gbl.None? {
        if buf.id == 0 {
          base := Buf(nextglinebufid, [], buf.commit, 0, [], 0, 0);
          MoreIds(parse, glinebuflog, nextglinebufid);
          nextglinebufid := nextglinebufid + 1;
        } else {
          base := Buf(buf.id, [], buf.commit, 0, [], 0, 0);
        }
        assert AllFindable(parse, base.glines);
        NothingToTake(glinebuflog, base.id);
      } else {
        base := gbl.value;
        TakenFacts(parse, old(glinebuflog), glinebuflog, gbl, nextglinebufid);
      }
      AmendedOk(parse, base, buf, nextglinebufid);
      ghost var between := glinebuflog;
      Insert(Amended(base, buf));
      id := base.id;
      InLog(old(glinebuflog), between, glinebuflog, glinebuflogoffset, base, buf);
    }

    /** The next slot of the ring takes the entry; what it held is given up. */
    method Insert(b: Buf)
      requires Valid() && EntryOk(parse, b, nextglinebufid) && !HasId(glinebuflog, b.id)
      modifies this`glinebuflog, this`glinebuflogoffset
      ensures Valid() && glinebuflogoffset == (old(glinebuflogoffset) + 1) % MAXGLINELOG
      ensures |old(glinebuflog)| == MAXGLINELOG && glinebuflog == old(glinebuflog)[glinebuflogoffset := Some(b)]
    {
      hide GlineEqual, NoTwins, Findable, EntryOk;
      var offset := glinebuflogoffset + 1;
      if offset >= MAXGLINELOG {
        offset := 0;
      }
      SlotSet(parse, glinebuflog, nextglinebufid, offset, b);
      glinebuflogoffset := offset;
      glinebuflog := glinebuflog[offset := Some(b)];
    }

    /** glinebufcommit; `channels` and `users` are what the transaction hits. */
    method Commit(buf: Buf, channels: seq<string>, users: seq<string>, propagate: bool, now: int, nettime: int) returns (id: nat)
      requires Valid() && BufOk(parse, buf, nextglinebufid)
      modifies this
      ensures Valid()
      ensures propagate && (|users| > MAXGLINEUSERHITS || |channels| > MAXGLINECHANNELHITS) ==>
                id == 0 && glinelist == old(glinelist) && glinebuflog == old(glinebuflog)
      ensures !(propagate && (|users| > MAXGLINEUSERHITS || |channels| > MAXGLINECHANNELHITS)) ==>
                && glinelist == CommitAll(old(glinelist), buf.glines, id, now, nettime)
                && Committed(old(glinelist), buf.glines, id, glinelist, now, nettime)
                && (id == 0 <==> buf.glines == [])
                && (id == 0 ==> glinebuflog == old(glinebuflog))
                && (id != 0 ==> Logged(old(glinebuflog), glinebuflog, glinebuflogoffset, id, Counted(buf, channels, users)))
    {
      hide GlineEqual, LogOk, NoTwins, Findable, Logged, CommitOn, Committed;
      var counted := Counted(buf, channels, users);
      if propagate && (|users| > MAXGLINEUSERHITS || |channels| > MAXGLINECHANNELHITS) {
        return 0;
      }
      id := WriteLog(counted, propagate, nettime);
      ghost var logged, offset := glinebuflog, glinebuflogoffset;
      for i := 0 to |buf.glines|
        invariant Valid() && glinebuflog == logged && glinebuflogoffset == offset
        invariant glinelist == CommitAll(old(glinelist), buf.glines[..i], id, now, nettime)
      {
        CommitOne(buf.glines[i], id, now, nettime);
        assert buf.glines[..i + 1] == buf.glines[..i] + [buf.glines[i]];
      }
      assert buf.glines[..|buf.glines|] == buf.glines;
      CommitMeans(parse, old(glinelist), buf.glines, id, now, nettime);
    }

    /** glinebufundo. */
    method Undo(id: nat, now: int, nettime: int) returns (done: bool)
      requires Valid()
      modifies this
      ensures Valid() && glinebuflogoffset == old(glinebuflogoffset) && nextglinebufid == old(nextglinebufid)
      ensures done <==> HasId(old(glinebuflog), id)
      ensures !done ==> glinelist == old(glinelist) && glinebuflog == old(glinebuflog)
      ensures done ==> !HasId(glinebuflog, id)
      ensures done ==>
                exists i :: 0 <= i < MAXGLINELOG && UndoneAt(old(glinebuflog), old(glinelist), id, now, nettime, glinebuflog, glinelist, i)
    {
      hide GlineEqual, NoTwins, Findable, Undone, OffUnlessUnchanged;
      var i := 0;
      while i < MAXGLINELOG
        invariant 0 <= i <= MAXGLINELOG && Valid() && glinebuflog == old(glinebuflog) && glinelist == old(glinelist)
        invariant nextglinebufid == old(nextglinebufid)
        invariant forall k | 0 <= k < i :: !(glinebuflog[k].Some? && glinebuflog[k].value.id == id)
      {
        if glinebuflog[i].Some? && glinebuflog[i].value.id == id {
          UndoEntry(glinebuflog[i].value.glines, now, nettime);
          NothingElse(parse, glinebuflog, nextglinebufid, i);
          ClearSlot(i);
          assert UndoneAt(old(glinebuflog), old(glinelist), id, now, nettime, glinebuflog, glinelist, i);
          return true;
        }
        i := i + 1;
      }
      done := false;
    }

    method ClearSlot(i: nat)
      requires Valid() && i < MAXGLINELOG
      modifies this`glinebuflog
      ensures Valid() && glinebuflog == old(glinebuflog)[i := None]
    {
      hide GlineEqual, NoTwins, Findable, EntryOk;
      SlotCleared(parse, glinebuflog, nextglinebufid, i);
      glinebuflog := glinebuflog[i := None];
    }

    method UndoEntry(glines: seq<Gline>, now: int, nettime: int)
      requires Valid() && AllFindable(parse, glines)
      modifies this`glinelist
      ensures Valid() && glinelist == UndoAll(old(glinelist), glines, now, nettime)
      ensures Undone(old(glinelist), glines, glinelist, now, nettime) && OffUnlessUnchanged(old(glinelist), glines, glinelist, now)
    {
      hide GlineEqual, NoTwins, Findable, LogOk, UndoOn, Undone, OffUnlessUnchanged;
      for j := 0 to |glines|
        invariant Valid() && glinelist == UndoAll(old(glinelist), glines[..j], now, nettime)
      {
        UndoOne(glines[j], now, nettime);
        assert glines[..j + 1] == glines[..j] + [glines[j]];
      }
      assert glines[..|glines|] == glines;
      UndoMeans(parse, old(glinelist), glines, now, nettime);
      UndoneOff(old(glinelist), glines, glinelist, now, nettime);
    }

    /** One gline of an undone transaction. */
    method UndoOne(gl: Gline, now: int, nettime: int)
      requires Valid() && Findable(parse, gl)
      modifies this`glinelist
      ensures Valid() && glinelist == UndoOn(old(glinelist), gl, now, nettime)
    {
      hide GlineEqual, LogOk, Scan, NoTwins, MakeGline, Print, Thinned, AllFindable, MaskOk;
      var at := FindGline(GlineToString(gl.mask), now);
      if at.Some? {
        var k := at.value;
        Change(k, Deactivated(glinelist[k].(bufid := 0), nettime));
      }
    }
  }

  /** The entry with this id, in slot `i`, is out of the log, all other slots are as they were, and its glines are
      undone. */
  ghost predicate UndoneAt(slots: seq<Slot>, gs: seq<Gline>, id: nat, now: int, nettime: int,
                           slots': seq<Slot>, gs': seq<Gline>, i: nat)
    requires i < |slots|
  {
    && slots[i].Some? && slots[i].value.id == id && slots' == slots[i := None]
    && gs' == UndoAll(gs, slots[i].value.glines, now, nettime)
    && Undone(gs, slots[i].value.glines, gs', now, nettime) && OffUnlessUnchanged(gs, slots[i].value.glines, gs', now)
  }

  lemma NothingElse(parse: Parse, slots: seq<Slot>, nextid: nat, i: nat)
    requires LogOk(parse, slots, nextid) && i < |slots| && slots[i].Some?
    ensures AllFindable(parse, slots[i].value.glines) && !HasId(slots[i := None], slots[i].value.id)
  {
    hide Findable;
  }

  ghost predicate HasId(slots: seq<Slot>, id: nat) {
    exists i :: 0 <= i < |slots| && slots[i].Some? && slots[i].value.id == id
  }

  /** An entry has been taken out of the log, or none: what remains is a log without its id. */
  ghost predicate TakenOut(parse: Parse, before: seq<Slot>, after: seq<Slot>, gbl: Slot, nextid: nat) {
    && LogOk(parse, after, nextid)
    && (gbl.None? ==> after == before)
    && (gbl.Some? ==> EntryOk(parse, gbl.value, nextid) && FromLog(before, gbl.value) && !HasId(after, gbl.value.id))
    && (gbl.Some? ==> OthersKept(before, after, gbl.value.id))
  }

  /** The entry is one of the log, but for its time of amendment. */
  ghost predicate FromLog(slots: seq<Slot>, b: Buf) {
    exists i :: 0 <= i < |slots| && slots[i].Some? && b == slots[i].value.(amend := b.amend)
  }

  /** The entry with this id has gone, and no other. */
  ghost predicate OthersKept(before: seq<Slot>, after: seq<Slot>, id: nat) {
    && |after| == |before|
    && forall i | 0 <= i < |before| ::
         after[i] == if before[i].Some? && before[i].value.id == id then None else before[i]
  }

  lemma EntryTaken(parse: Parse, slots: seq<Slot>, nextid: nat, i: nat, commit: int)
    requires LogOk(parse, slots, nextid) && i < |slots| && slots[i].Some?
    ensures TakenOut(parse, slots, slots[i := None], Some(slots[i].value.(amend := commit)), nextid)
  {
    SlotCleared(parse, slots, nextid, i);
    hide Findable;
  }

  lemma NothingTaken(parse: Parse, slots: seq<Slot>, nextid: nat)
    requires LogOk(parse, slots, nextid)
    ensures TakenOut(parse, slots, slots, None, nextid)
    ensures !HasId(slots, nextid)
  {
    hide Findable;
  }

  /** A log without this id is what remains when it is taken out. */
  lemma NothingToTake(slots: seq<Slot>, id: nat)
    requires !HasId(slots, id)
    ensures OthersKept(slots, slots, id)
  {
  }

  lemma TakenFacts(parse: Parse, before: seq<Slot>, after: seq<Slot>, gbl: Slot, nextid: nat)
    requires TakenOut(parse, before, after, gbl, nextid) && gbl.Some?
    ensures EntryOk(parse, gbl.value, nextid) && !HasId(after, gbl.value.id)
    ensures 0 < gbl.value.id < nextid && HitsAddUp(gbl.value) && AllFindable(parse, gbl.value.glines)
    ensures OthersKept(before, after, gbl.value.id) && Continues(before, gbl.value, gbl.value.id)
  {
    hide Findable;
    var i :| 0 <= i < |before| && before[i].Some? && gbl.value == before[i].value.(amend := gbl.value.amend);
  }

  /** The log after a transaction was written: the slot `at` has the transaction's glines in front of what an earlier
      entry with the id held, no other slot has the id, and all other entries are as they were. */
  ghost predicate Logged(before: seq<Slot>, after: seq<Slot>, at: nat, id: nat, buf: Buf) {
    && at < |before| == |after|
    && (exists base :: Continues(before, base, id) && after[at] == Some(Amended(base, buf)))
    && OthersKept(before[at := None], after[at := None], id)
  }

  /** What a new entry is put on top of: the earlier entry with its id, or nothing. */
  ghost predicate Continues(slots: seq<Slot>, base: Buf, id: nat) {
    && base.id == id
    && if HasId(slots, id) then FromLog(slots, base) else base == Buf(id, [], base.commit, 0, [], 0, 0)
  }

  lemma InLog(before: seq<Slot>, between: seq<Slot>, after: seq<Slot>, at: nat, base: Buf, buf: Buf)
    requires at < |between| && OthersKept(before, between, base.id)
    requires Continues(before, base, base.id) && after == between[at := Some(Amended(base, buf))]
    ensures Logged(before, after, at, base.id, buf)
  {
    hide FromLog;
    assert after[at] == Some(Amended(base, buf));
  }

  lemma EntryChanged(parse: Parse, gs: seq<Gline>, k: nat, g: Gline)
    requires NoTwins(gs) && AllFindable(parse, gs) && k < |gs| && g.mask == gs[k].mask
    ensures NoTwins(gs[k := g]) && AllFindable(parse, gs[k := g])
  {
    hide GlineEqual;
    assert Findable(parse, gs[k]);
  }

  lemma NewEntry(parse: Parse, gs: seq<Gline>, g: Gline)
    requires NoTwins(gs) && AllFindable(parse, gs) && Findable(parse, g)
    requires forall k | 0 <= k < |gs| :: !GlineEqual(g.mask, gs[k].mask)
    ensures NoTwins([g] + gs) && AllFindable(parse, [g] + gs)
  {
    hide GlineEqual, Findable;
    var b := [g] + gs;
    forall i, j | 0 <= i < j < |b| ensures !GlineEqual(b[i].mask, b[j].mask) {
      assert b[j] == gs[j - 1] && (i > 0 ==> b[i] == gs[i - 1]);
    }
  }

  /** What a walk makes of the rest of the list, behind what it has passed. */
  function Spliced(passed: seq<Gline>, r: Scanned): Scanned {
    Scanned(passed + r.list, match r.found case Some(k) => Some(|passed| + k) case None => None)
  }

  lemma ScannedFrom(gs: seq<Gline>, m: Mask, now: int)
    ensures gs[..0] == [] && gs[0..] == gs && Spliced([], Scan(gs, m, now)) == Scan(gs, m, now)
  {
    hide Scan;
  }

  lemma ScanNothing(gs: seq<Gline>, m: Mask, now: int)
    ensures Spliced(gs[..|gs|], Scan(gs[|gs|..], m, now)) == Scanned(gs, None)
  {
  }

  lemma AgedMask(g: Gline, now: int)
    ensures Aged(g, now).mask == g.mask
  {
  }

  lemma ScanStep(gs: seq<Gline>, i: nat, m: Mask, now: int)
    requires i < |gs|
    ensures var g, before := gs[i], Spliced(gs[..i], Scan(gs[i..], m, now));
            if g.lifetime <= now then
              var gs' := gs[..i] + gs[i + 1..];
              i <= |gs'| && before == Spliced(gs'[..i], Scan(gs'[i..], m, now))
            else
              var gs' := gs[i := Aged(g, now)];
              if GlineEqual(m, g.mask) then before == Scanned(gs', Some(i))
              else before == Spliced(gs'[..i + 1], Scan(gs'[i + 1..], m, now))
  {
    hide GlineEqual, Scan, Spliced, Aged;
    ScanUnfolds(gs, i, m, now);
    if gs[i].lifetime <= now {
      WithoutOne(gs, i);
    } else {
      WithOne(gs, i, Aged(gs[i], now));
      SplicedOne(gs[..i], Aged(gs[i], now), gs[i + 1..], Scan(gs[i + 1..], m, now));
    }
  }

  lemma ScanUnfolds(gs: seq<Gline>, i: nat, m: Mask, now: int)
    requires i < |gs|
    ensures var g, r := gs[i], Scan(gs[i + 1..], m, now);
            Scan(gs[i..], m, now) ==
              if g.lifetime <= now then r
              else if GlineEqual(m, g.mask) then Scanned([Aged(g, now)] + gs[i + 1..], Some(0))
              else Scanned([Aged(g, now)] + r.list, match r.found case Some(k) => Some(k + 1) case None => None)
  {
    hide GlineEqual, Aged;
    assert gs[i..][0] == gs[i] && gs[i..][1..] == gs[i + 1..];
  }

  lemma WithoutOne(gs: seq<Gline>, i: nat)
    requires i < |gs|
    ensures var gs' := gs[..i] + gs[i + 1..]; gs'[..i] == gs[..i] && gs'[i..] == gs[i + 1..]
  {
  }

  lemma WithOne(gs: seq<Gline>, i: nat, g: Gline)
    requires i < |gs|
    ensures var gs' := gs[i := g];
            gs'[..i + 1] == gs[..i] + [g] && gs'[i + 1..] == gs[i + 1..] && gs' == gs[..i] + ([g] + gs[i + 1..])
  {
  }

  lemma SplicedOne(passed: seq<Gline>, g: Gline, rest: seq<Gline>, r: Scanned)
    ensures Spliced(passed, Scanned([g] + rest, Some(0))) == Scanned(passed + ([g] + rest), Some(|passed|))
    ensures Spliced(passed, Scanned([g] + r.list, match r.found case Some(k) => Some(k + 1) case None => None))
         == Spliced(passed + [g], r)
  {
    assert passed + ([g] + r.list) == passed + [g] + r.list;
  }
}
