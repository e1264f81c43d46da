/** Ban masks of bans/bans.c: parser, printer, superset test, and what a ban matches (channel/channelbans.c). */
module Bans {
  import opened IrcStrings
  import opened Options

  const NICKLEN := 15
  const ACCOUNTLEN := 15
  const USERLEN := 10
  const HOSTLEN := 63
  const HIDDENLEN := 18
  const HIS_HIDDENHOST := "users.quakenet.org"

  /** A 128-bit address; a mask compares its first `bits` bits (ipmask_check). */
  type Addr = a: seq<bool> | |a| == 128 witness seq(128, _ => false)

  datatype IpMask = IpMask(addr: Addr, bits: nat)

  predicate IpMaskCheck(a: Addr, m: IpMask) {
    m.bits <= 128 && a[..m.bits] == m.addr[..m.bits]
  }

  /** The routine seen only through what it answers: ipmask_parse. */
  datatype Lib = Lib(ipmaskParse: string -> Option<IpMask>)

  /** One component of a ban. The four cases are the flag groups CHANBAN_..NULL, ..ANY, ..EXACT and ..MASK, of
      which makeban sets exactly one for the nick, the user and the host; only the last two keep a text. */
  datatype Part = Empty | Anything | Exact(text: string) | Masked(text: string)

  /** `ip` is present when CHANBAN_IP is set; `invalid` and `hidden` are CHANBAN_INVALID and CHANBAN_HIDDENHOST. */
  datatype Ban = Ban(nick: Part, user: Part, host: Part, ip: Option<IpMask>, invalid: bool, hidden: bool)

  // ---------------------------------------------------------------- scanning

  /** The last '@', or -1. */
  function LastAt(mask: string): (i: int)
    ensures -1 <= i < |mask|
    ensures i >= 0 ==> mask[i] == '@'
    ensures forall j | i < j < |mask| :: mask[j] != '@'
  {
    if mask == "" then -1
    else if mask[|mask| - 1] == '@' then |mask| - 1
    else LastAt(mask[..|mask| - 1])
  }

  /** The first '!', or -1. */
  function FirstBang(s: string): (i: int)
    ensures -1 <= i < |s|
    ensures i >= 0 ==> s[i] == '!' && '!' !in s[..i]
    ensures i < 0 ==> '!' !in s
  {
    if s == "" then -1
    else if s[0] == '!' then 0
    else var i := FirstBang(s[1..]); if i < 0 then -1 else i + 1
  }

  /** The last wildcard character, or -1. */
  function LastWild(s: string): (i: int)
    ensures -1 <= i < |s|
    ensures i >= 0 ==> IsWild(s[i])
    ensures forall j | i < j < |s| :: !IsWild(s[j])
  {
    if s == "" then -1
    else if IsWild(s[|s| - 1]) then |s| - 1
    else LastWild(s[..|s| - 1])
  }

  // ---------------------------------------------------------------- makeban, component by component

  /** Whether makeban marks an untruncated host as possibly matching a hidden host. */
  predicate MarksHidden(h: string) {
    var w := LastWild(h);
    if w >= 0 then
      var n := |h| - w - 1;
      if n >= HIDDENLEN then SameText(h[|h| - HIDDENLEN..], HIS_HIDDENHOST)
      else SameText(h[|h| - n..], HIS_HIDDENHOST[HIDDENLEN - n..])
    else
      |h| > HIDDENLEN + 1 && SameText(h[|h| - HIDDENLEN..], HIS_HIDDENHOST)
  }

  function HostPart(h: string): Part {
    if |h| > HOSTLEN then Masked("*" + h[|h| - HOSTLEN + 1..])
    else if h == "" then Empty
    else if h == "*" then Anything
    else if LastWild(h) >= 0 then Masked(h)
    else Exact(h)
  }

  /** An untruncated host text is looked at as an address and compared with the hidden-host suffix. */
  predicate IsHostText(h: string) {
    0 < |h| <= HOSTLEN && h != "*"
  }

  /** The part before the first '!'. */
  function NickPart(n: string): Part {
    if n == "" then Empty
    else if n == "*" then Anything
    else
      var kept := if |n| > NICKLEN then n[..NICKLEN] else n;
      if HasWild(kept) then Masked(kept) else Exact(kept)
  }

  /** The part between '!' (or the start) and the last '@'. */
  function UserPart(u: string): Part {
    if u == "" then Empty
    else if u == "*" then Anything
    else if |u| > USERLEN then Masked("*" + u[|u| - USERLEN + 1..])
    else if HasWild(u) then Masked(u)
    else Exact(u)
  }

  predicate HasText(p: Part) {
    p.Exact? || p.Masked?
  }

  /** A missing user or host, or an '@' among the user's characters, makes a ban nonsensical. */
  predicate BadParts(user: Part, host: Part) {
    user.Empty? || host.Empty? || (HasText(user) && '@' in user.text)
  }

  function Assemble(lib: Lib, n: Part, u: string, h: string): Ban {
    Ban(n, UserPart(u), HostPart(h),
        if IsHostText(h) then lib.ipmaskParse(h) else None,
        BadParts(UserPart(u), HostPart(h)),
        IsHostText(h) && MarksHidden(h))
  }

  function NickOrAny(pre: string, bang: int): Part
    requires -1 <= bang < |pre|
  {
    if bang < 0 then Anything else NickPart(pre[..bang])
  }

  /** A mask without '@': the nick loop never runs, so all of it is taken as an exact nick, wildcards or not. */
  function NickOnly(mask: string): Ban {
    Ban(Exact(if |mask| > NICKLEN then mask[..NICKLEN] else mask), Anything, Anything, None, false, false)
  }

  /** What makeban makes of a mask. */
  function BanOf(lib: Lib, mask: string): Ban {
    if mask == "*" then Ban(Anything, Anything, Anything, None, false, false)
    else
      var at := LastAt(mask);
      if at < 0 then NickOnly(mask)
      else
        var bang := FirstBang(mask[..at]);
        Assemble(lib, NickOrAny(mask[..at], bang), mask[bang + 1..at], mask[at + 1..])
  }

  /** makeban: one scan from the end for '@' and the last wildcard, one from the start for '!'. */
  method MakeBan(lib: Lib, mask: string) returns (b: Ban)
    ensures b == BanOf(lib, mask)
  {
    hide BanOf, NickOnly, LastWild, LastAt;
    if mask == "*" {
      StarBan(lib, mask);
      return Ban(Anything, Anything, Anything, None, false, false);
    }
    var foundat, wild := ScanHost(mask);
    if foundat < 0 {
      NickOnlyParsed(lib, mask);
      return NickOnly(mask);
    }
    b := MakeAtBan(lib, mask, foundat, wild);
  }

  lemma StarBan(lib: Lib, mask: string)
    requires mask == "*"
    ensures BanOf(lib, mask) == Ban(Anything, Anything, Anything, None, false, false)
  {
  }

  /** The sections of a mask with an '@'. */
  method MakeAtBan(lib: Lib, mask: string, foundat: nat, wild: int) returns (b: Ban)
    requires mask != "*" && foundat < |mask| && foundat == LastAt(mask)
    requires wild == if LastWild(mask[foundat + 1..]) < 0 then -1 else foundat + 1 + LastWild(mask[foundat + 1..])
    ensures b == BanOf(lib, mask)
  {
    hide *;
    ghost var h := mask[foundat + 1..];
    var host, ip, hidden := MakeHost(lib, mask, foundat, wild);
    assert host == HostPart(h) && hidden == (IsHostText(h) && MarksHidden(h));
    var foundbang, foundwild := ScanNick(mask, foundat);
    var nick := MakeNick(mask, foundat, foundbang, foundwild);
    var user := MakeUser(mask, foundat, foundbang);
    b := Ban(nick, user, host, ip, BadParts(user, host), hidden);
    AssembledParts(lib, nick, mask[foundbang + 1..foundat], h, b);
    BanOfAt(lib, mask);
  }

  lemma AssembledParts(lib: Lib, n: Part, u: string, h: string, b: Ban)
    requires b.nick == n && b.user == UserPart(u) && b.host == HostPart(h) && b.invalid == BadParts(b.user, b.host)
    requires b.ip == (if IsHostText(h) then lib.ipmaskParse(h) else None) && b.hidden == (IsHostText(h) && MarksHidden(h))
    ensures b == Assemble(lib, n, u, h)
  {
    hide HostPart, UserPart, IsHostText, MarksHidden, BadParts;
  }

  /** The host section; `wild` is the last wildcard behind the '@'. */
  method MakeHost(lib: Lib, mask: string, foundat: nat, wild: int)
    returns (part: Part, ip: Option<IpMask>, hidden: bool)
    requires foundat < |mask|
    requires wild == if LastWild(mask[foundat + 1..]) < 0 then -1 else foundat + 1 + LastWild(mask[foundat + 1..])
    ensures var h := mask[foundat + 1..];
            && part == HostPart(h)
            && ip == (if IsHostText(h) then lib.ipmaskParse(h) else None)
            && hidden == (IsHostText(h) && MarksHidden(h))
  {
    hide LastWild, MarksHidden;
    var len := |mask|;
    ip, hidden := None, false;
    ghost var h := mask[foundat + 1..];
    assert |h| == 1 ==> h[0] == mask[foundat + 1];
    if len - foundat - 1 > HOSTLEN {
      assert mask[len - HOSTLEN + 1..] == h[|h| - HOSTLEN + 1..];
      part := Masked("*" + mask[len - HOSTLEN + 1..]);
    } else if foundat == len - 1 {
      part := Empty;
    } else if foundat == len - 2 && mask[foundat + 1] == '*' {
      assert h == "*";
      part := Anything;
    } else {
      ip := lib.ipmaskParse(mask[foundat + 1..]);
      hidden := HiddenTail(mask[foundat + 1..], if wild < 0 then -1 else wild - foundat - 1);
      part := if wild >= 0 then Masked(mask[foundat + 1..]) else Exact(mask[foundat + 1..]);
    }
  }

  /** The three comparisons of the end of a host with the hidden-host suffix. */
  method HiddenTail(h: string, wild: int) returns (hidden: bool)
    requires wild == LastWild(h)
    ensures hidden == MarksHidden(h)
  {
    hide LastWild, SameText;
    if wild >= 0 {
      var checklen := |h| - wild - 1;
      if checklen == 0 {
        assert h[|h| - 0..] == "" && HIS_HIDDENHOST[HIDDENLEN - 0..] == "";
        SameReflexive("");
        hidden := true;
      } else if checklen >= HIDDENLEN {
        hidden := SameText(h[|h| - HIDDENLEN..], HIS_HIDDENHOST);
      } else {
        hidden := SameText(h[|h| - checklen..], HIS_HIDDENHOST[HIDDENLEN - checklen..]);
      }
    } else {
      hidden := |h| > HIDDENLEN + 1 && SameText(h[|h| - HIDDENLEN..], HIS_HIDDENHOST);
    }
  }

  lemma SameReflexive(s: string)
    ensures SameText(s, s)
  {
  }

  method MakeNick(mask: string, foundat: nat, foundbang: int, foundwild: bool) returns (part: Part)
    requires foundat < |mask| && foundbang == FirstBang(mask[..foundat])
    requires foundbang >= 0 ==> (foundwild <==> exists j | 0 <= j < foundbang && j < NICKLEN :: IsWild(mask[j]))
    ensures part == NickOrAny(mask[..foundat], foundbang)
  {
    if foundbang < 0 {
      return Anything;
    }
    assert mask[..foundat][..foundbang] == mask[..foundbang];
    NickAsScanned(mask, foundbang, foundwild);
    if foundbang == 0 {
      part := Empty;
    } else if foundbang == 1 && mask[0] == '*' {
      part := Anything;
    } else {
      var kept := if foundbang > NICKLEN then mask[..NICKLEN] else mask[..foundbang];
      part := if foundwild then Masked(kept) else Exact(kept);
    }
  }

  method MakeUser(mask: string, foundat: nat, foundbang: int) returns (part: Part)
    requires -1 <= foundbang < foundat < |mask|
    ensures part == UserPart(mask[foundbang + 1..foundat])
  {
    hide HasWild;
    ghost var u := mask[foundbang + 1..foundat];
    assert |u| == 1 ==> u[0] == mask[foundbang + 1];
    if foundat == foundbang + 1 {
      part := Empty;
    } else if foundat - foundbang - 1 > USERLEN {
      assert mask[foundat - USERLEN + 1..foundat] == u[|u| - USERLEN + 1..];
      part := Masked("*" + mask[foundat - USERLEN + 1..foundat]);
    } else if foundat - foundbang - 1 == 1 && mask[foundbang + 1] == '*' {
      assert u == "*";
      part := Anything;
    } else {
      var text := mask[foundbang + 1..foundat];
      part := if HasWild(text) then Masked(text) else Exact(text);
    }
  }

  /** The backward scan: the last '@', and the last wildcard if it is behind it (-1 if none). */
  method ScanHost(mask: string) returns (foundat: int, wild: int)
    ensures foundat == LastAt(mask)
    ensures foundat >= 0 ==> wild == if LastWild(mask[foundat + 1..]) < 0 then -1
                                     else foundat + 1 + LastWild(mask[foundat + 1..])
  {
    var i := |mask| - 1;
    wild := -1;
    while i >= 0
      invariant -1 <= i < |mask|
      invariant forall j | i < j < |mask| :: mask[j] != '@'
      invariant wild < 0 ==> wild == -1 && forall j | i < j < |mask| :: !IsWild(mask[j])
      invariant wild >= 0 ==> i < wild < |mask| && IsWild(mask[wild]) && forall j | wild < j < |mask| :: !IsWild(mask[j])
    {
      if mask[i] == '@' {
        assert LastAt(mask) == i;
        var h := mask[i + 1..];
        if wild >= 0 {
          assert IsWild(h[wild - i - 1]);
          assert forall j | wild - i - 1 < j < |h| :: h[j] == mask[i + 1 + j];
        } else {
          assert forall j | 0 <= j < |h| :: h[j] == mask[i + 1 + j];
        }
        return i, wild;
      } else if IsWild(mask[i]) {
        if wild < 0 {
          wild := i;
        }
      }
      i := i - 1;
    }
    return -1, wild;
  }

  /** The forward scan for '!', noting a wildcard among the characters that will be kept. */
  method ScanNick(mask: string, foundat: nat) returns (foundbang: int, foundwild: bool)
    requires foundat < |mask|
    ensures foundbang == FirstBang(mask[..foundat])
    ensures foundbang >= 0 ==> (foundwild <==> exists j | 0 <= j < foundbang && j < NICKLEN :: IsWild(mask[j]))
  {
    foundwild := false;
    var i := 0;
    while i < foundat
      invariant 0 <= i <= foundat
      invariant forall j | 0 <= j < i :: mask[j] != '!'
      invariant foundwild <==> exists j | 0 <= j < i && j < NICKLEN :: IsWild(mask[j])
    {
      if mask[i] == '!' {
        BangAt(mask[..foundat], i);
        return i, foundwild;
      } else if IsWild(mask[i]) {
        if i < NICKLEN {
          foundwild := true;
        }
      }
      i := i + 1;
    }
    BangAt(mask[..foundat], -1);
    return -1, foundwild;
  }

  lemma BangAt(s: string, i: int)
    requires -1 <= i < |s|
    requires i >= 0 ==> s[i] == '!' && forall j | 0 <= j < i :: s[j] != '!'
    requires i < 0 ==> forall j | 0 <= j < |s| :: s[j] != '!'
    ensures FirstBang(s) == i
  {
    var k := FirstBang(s);
    if k >= 0 && i >= 0 {
      assert forall j | 0 <= j < k :: s[..k][j] == s[j];
    }
  }

  lemma NickAsScanned(mask: string, bang: nat, wild: bool)
    requires bang < |mask|
    requires wild <==> exists j | 0 <= j < bang && j < NICKLEN :: IsWild(mask[j])
    ensures bang > 0 && !(bang == 1 && mask[0] == '*') ==>
              var kept := if bang > NICKLEN then mask[..NICKLEN] else mask[..bang];
              NickPart(mask[..bang]) == if wild then Masked(kept) else Exact(kept)
    ensures bang == 1 && mask[0] == '*' ==> NickPart(mask[..bang]) == Anything
  {
    var n := mask[..bang];
    var kept := if bang > NICKLEN then mask[..NICKLEN] else n;
    assert bang > NICKLEN ==> n[..NICKLEN] == kept;
    assert forall j | 0 <= j < |kept| :: kept[j] == mask[j];
    assert HasWild(kept) <==> wild by {
      if wild {
        var j :| 0 <= j < bang && j < NICKLEN && IsWild(mask[j]);
        assert IsWild(kept[j]);
      }
    }
    if n == "*" {
      assert mask[0] == n[0];
    }
  }

  // ---------------------------------------------------------------- printing

  function Shown(p: Part): string {
    match p
    case Empty => ""
    case Anything => "*"
    case Exact(t) => t
    case Masked(t) => t
  }

  /** bantostring. */
  function BanToString(b: Ban): string {
    Shown(b.nick) + "!" + Shown(b.user) + "@" + Shown(b.host)
  }

  predicate SamePart(a: Part, b: Part) {
    match (a, b)
    case (Empty, Empty) => true
    case (Anything, Anything) => true
    case (Exact(s), Exact(t)) => SameText(s, t)
    case (Masked(s), Masked(t)) => SameText(s, t)
    case _ => false
  }

  /** banequal: the same flags, and the same texts up to case. */
  predicate BanEqual(a: Ban, b: Ban) {
    a.ip.Some? == b.ip.Some? && a.invalid == b.invalid && a.hidden == b.hidden
    && SamePart(a.nick, b.nick) && SamePart(a.user, b.user) && SamePart(a.host, b.host)
  }

  lemma HostFits(h: string)
    ensures |Shown(HostPart(h))| <= HOSTLEN
  {
    hide LastWild;
  }

  lemma UserFits(u: string)
    ensures |Shown(UserPart(u))| <= USERLEN
  {
    hide HasWild;
  }

  lemma NickFits(pre: string, bang: int)
    requires -1 <= bang < |pre|
    ensures |Shown(NickOrAny(pre, bang))| <= NICKLEN
  {
    hide HasWild;
  }

  lemma PrintedLength(b: Ban)
    ensures |BanToString(b)| == |Shown(b.nick)| + |Shown(b.user)| + |Shown(b.host)| + 2
  {
    hide Shown;
  }

  lemma StarFits(lib: Lib)
    ensures |BanToString(BanOf(lib, "*"))| == 5
  {
    hide BanToString;
    StarBan(lib, "*");
    PrintedLength(BanOf(lib, "*"));
  }

  lemma NickOnlyFits(mask: string)
    ensures |BanToString(NickOnly(mask))| <= NICKLEN + 4
  {
    hide BanToString;
    PrintedLength(NickOnly(mask));
  }

  lemma AssembledFits(lib: Lib, n: Part, u: string, h: string)
    requires |Shown(n)| <= NICKLEN
    ensures |BanToString(Assemble(lib, n, u, h))| <= NICKLEN + USERLEN + HOSTLEN + 2
  {
    hide MarksHidden, BadParts, IsHostText, HostPart, UserPart, Shown, BanToString;
    UserFits(u);
    HostFits(h);
    PrintedLength(Assemble(lib, n, u, h));
  }

  function NickSection(mask: string): Part
    requires LastAt(mask) >= 0
  {
    var pre := mask[..LastAt(mask)];
    NickOrAny(pre, FirstBang(pre))
  }

  function UserSection(mask: string): string
    requires LastAt(mask) >= 0
  {
    var at := LastAt(mask);
    mask[FirstBang(mask[..at]) + 1..at]
  }

  lemma NickSectionFits(mask: string)
    requires LastAt(mask) >= 0
    ensures |Shown(NickSection(mask))| <= NICKLEN
  {
    hide LastAt, FirstBang, NickOrAny, Shown;
    var pre := mask[..LastAt(mask)];
    NickFits(pre, FirstBang(pre));
  }

  /** The sections of a mask with an '@'. */
  lemma BanOfSections(lib: Lib, mask: string)
    requires mask != "*" && LastAt(mask) >= 0
    ensures BanOf(lib, mask) == Assemble(lib, NickSection(mask), UserSection(mask), mask[LastAt(mask) + 1..])
  {
    hide LastAt, FirstBang, Assemble, NickOnly, NickOrAny;
  }

  lemma AtFits(lib: Lib, mask: string)
    requires mask != "*" && LastAt(mask) >= 0
    ensures |BanToString(BanOf(lib, mask))| <= NICKLEN + USERLEN + HOSTLEN + 2
  {
    hide BanOf, BanToString, LastAt, Assemble, Shown, NickSection, UserSection;
    BanOfSections(lib, mask);
    NickSectionFits(mask);
    AssembledFits(lib, NickSection(mask), UserSection(mask), mask[LastAt(mask) + 1..]);
  }

  /** The printed ban always fits the static buffer, even for a truncated mask. */
  lemma PrintedFits(lib: Lib, mask: string)
    ensures |BanToString(BanOf(lib, mask))| < NICKLEN + USERLEN + HOSTLEN + 5
  {
    hide BanOf, BanToString, LastAt, NickOnly;
    if mask == "*" {
      StarFits(lib);
    } else if LastAt(mask) < 0 {
      NickOnlyParsed(lib, mask);
      NickOnlyFits(mask);
    } else {
      AtFits(lib, mask);
    }
  }

  /** The host section of the mask is longer than a ban keeps. */
  predicate CutHost(mask: string) {
    LastAt(mask) >= 0 && |mask| - LastAt(mask) - 1 > HOSTLEN
  }

  /** A mask written as nick!user@host splits at its separators. */
  lemma SplitMask(n: string, u: string, h: string)
    requires '!' !in n && '@' !in h
    ensures var m := n + "!" + u + "@" + h;
            LastAt(m) == |n| + 1 + |u| && FirstBang(m[..LastAt(m)]) == |n|
            && m[..|n|] == n && m[|n| + 1..LastAt(m)] == u && m[LastAt(m) + 1..] == h && m != "*"
  {
    var m := n + "!" + u + "@" + h;
    var at := |n| + 1 + |u|;
    assert m[at] == '@' && m[at + 1..] == h;
    assert LastAt(m) == at by {
      forall j | at < j < |m| ensures m[j] != '@' {
        assert m[j] == h[j - at - 1];
      }
    }
    var pre := m[..at];
    assert pre == n + "!" + u;
    assert forall j | 0 <= j < |n| :: pre[j] == n[j];
    BangAt(pre, |n|);
    assert m[|n|] == '!';
  }

  /** What a kept nick prints as parses to the same nick. */
  lemma NickShown(n: string)
    ensures var t := Shown(NickPart(n)); NickPart(t) == NickPart(n) && ('!' !in n ==> '!' !in t) && (' ' !in n ==> ' ' !in t)
  {
    hide HasWild;
  }

  lemma UserShown(u: string)
    ensures var t := Shown(UserPart(u)); UserPart(t) == UserPart(u) && (' ' !in u ==> ' ' !in t)
  {
    var t := Shown(UserPart(u));
    if |u| > USERLEN {
      assert IsWild(t[0]) && HasWild(t);
    }
    hide HasWild;
  }

  lemma HostShown(h: string)
    ensures var t := Shown(HostPart(h));
            && HostPart(t) == HostPart(h) && ('@' !in h ==> '@' !in t) && (' ' !in h ==> ' ' !in t)
            && (|h| <= HOSTLEN ==> t == h)
            && (|h| > HOSTLEN ==> HostPart(h) == Masked(t) && IsHostText(t) && !IsHostText(h))
  {
    var t := Shown(HostPart(h));
    if |h| > HOSTLEN {
      assert IsWild(t[0]) && |t| == HOSTLEN;
      assert LastWild(t) >= 0;
    }
    hide LastWild;
  }

  /** Parsing nick!user@host. */
  lemma BanOfSplit(lib: Lib, n: string, u: string, h: string)
    requires '!' !in n && '@' !in h
    ensures BanOf(lib, n + "!" + u + "@" + h) == Assemble(lib, NickPart(n), u, h)
  {
    SplitMask(n, u, h);
    var m := n + "!" + u + "@" + h;
    assert m[..LastAt(m)][..|n|] == n;
    hide NickPart, Assemble, LastAt, FirstBang;
  }

  /** A mask with an '@' as its three texts; a missing nick reads as "*". */
  lemma PartsOf(lib: Lib, mask: string) returns (n: string, u: string, h: string)
    requires mask != "*" && LastAt(mask) >= 0
    ensures '!' !in n && '@' !in h && h == mask[LastAt(mask) + 1..] && (' ' !in mask ==> ' ' !in n && ' ' !in u && ' ' !in h)
    ensures BanOf(lib, mask) == Assemble(lib, NickPart(n), u, h)
  {
    hide LastAt, FirstBang, Assemble, NickPart, NickOrAny;
    var at := LastAt(mask);
    var bang := FirstBang(mask[..at]);
    n, u, h := if bang < 0 then "*" else mask[..bang], mask[bang + 1..at], mask[at + 1..];
    NickTextOf(mask[..at], bang);
    assert bang >= 0 ==> mask[..at][..bang] == n;
    assert '@' !in h;
  }

  lemma NickTextOf(pre: string, bang: int)
    requires -1 <= bang < |pre| && bang == FirstBang(pre)
    ensures var n := if bang < 0 then "*" else pre[..bang];
            NickOrAny(pre, bang) == NickPart(n) && '!' !in n
  {
    hide FirstBang, HasWild;
  }

  /** A host that was cut comes back with what an uncut host of this text would have: an address, and the mark for
      hidden hosts. */
  function ReparsedHost(lib: Lib, b: Ban): Ban
    requires b.host.Masked?
  {
    b.(ip := lib.ipmaskParse(b.host.text), hidden := MarksHidden(b.host.text))
  }

  /** With an '@', parsing the printed ban gives the very same ban, whatever was cut of the nick and the user, but for
      a cut host. */
  lemma RoundTripWithAt(lib: Lib, mask: string)
    requires LastAt(mask) >= 0
    ensures var b := BanOf(lib, mask);
            && (CutHost(mask) ==> b.host.Masked? && b.ip == None && !b.hidden)
            && BanOf(lib, BanToString(b)) == (if CutHost(mask) then ReparsedHost(lib, b) else b)
            && (' ' !in mask ==> ' ' !in BanToString(b))
  {
    assert mask != "*";
    hide LastAt, FirstBang, BanOf, Assemble, NickPart, BanToString;
    var n, u, h := PartsOf(lib, mask);
    PartsComeBack(lib, n, u, h);
  }

  lemma PartsComeBack(lib: Lib, n: string, u: string, h: string)
    requires '!' !in n && '@' !in h
    ensures var b := Assemble(lib, NickPart(n), u, h);
            && (|h| > HOSTLEN ==> b.host.Masked? && b.ip == None && !b.hidden)
            && BanOf(lib, BanToString(b)) == (if |h| > HOSTLEN then ReparsedHost(lib, b) else b)
            && (' ' !in n && ' ' !in u && ' ' !in h ==> ' ' !in BanToString(b))
  {
    hide BanOf, MarksHidden, NickPart, UserPart, HostPart, IsHostText, BadParts, Shown, HasWild;
    NickShown(n);
    UserShown(u);
    HostShown(h);
    BanOfSplit(lib, Shown(NickPart(n)), Shown(UserPart(u)), Shown(HostPart(h)));
    ShownMasked(HostPart(h));
  }

  lemma ShownMasked(p: Part)
    ensures p.Masked? ==> Shown(p) == p.text
  {
  }

  lemma StarComesBack(lib: Lib)
    ensures BanOf(lib, BanToString(BanOf(lib, "*"))) == BanOf(lib, "*")
  {
    BanOfSplit(lib, "*", "*", "*");
    assert BanToString(BanOf(lib, "*")) == "*" + "!" + "*" + "@" + "*";
  }

  predicate PlainNick(mask: string) {
    mask != "" && '!' !in mask && !HasWild(mask)
  }

  /** Which masks make a ban that prints as itself. */
  predicate ComesBack(lib: Lib, mask: string) {
    if mask == "*" then true
    else if '@' !in mask then PlainNick(if |mask| > NICKLEN then mask[..NICKLEN] else mask)
    else CutHost(mask) ==>
      var t := "*" + mask[|mask| - HOSTLEN + 1..];
      lib.ipmaskParse(t).None? && !MarksHidden(t)
  }

  /** For every mask: parsing the printed ban gives the very same ban when the mask has an '@' and its host is not cut,
      or what is left of the host is neither an address nor marked for hidden hosts; when it is "*"; and when it is a
      plain nick. Every other mask comes back as a different ban. */
  lemma RoundTrip(lib: Lib, mask: string)
    ensures var b := BanOf(lib, mask);
            var again := BanOf(lib, BanToString(b));
            if ComesBack(lib, mask) then again == b else !BanEqual(again, b)
  {
    hide LastAt, FirstBang, Assemble, PlainNick, MarksHidden;
    var b := BanOf(lib, mask);
    EqualReflexive(b);
    if mask == "*" {
      StarComesBack(lib);
    } else if LastAt(mask) >= 0 {
      assert mask[LastAt(mask)] == '@';
      RoundTripWithAt(lib, mask);
      if CutHost(mask) {
        CutText(lib, mask);
      }
      hide BanOf, BanToString;
    } else {
      assert '@' !in mask;
      NickOnlyParsed(lib, mask);
      var kept := if |mask| > NICKLEN then mask[..NICKLEN] else mask;
      NoAt(kept);
      assert NickOnly(mask) == NickOnly(kept);
      NickOnlyPrinted(kept);
      RoundTripWithoutAt(lib, kept);
      hide *;
    }
  }

  lemma CutText(lib: Lib, mask: string)
    requires CutHost(mask)
    ensures BanOf(lib, mask).host == Masked("*" + mask[|mask| - HOSTLEN + 1..])
  {
    hide LastAt, BanOf, HostPart, IsHostText;
    var h := mask[LastAt(mask) + 1..];
    HostParsed(lib, mask);
    CutHostPart(h);
    EndOfEnd(mask, LastAt(mask) + 1, HOSTLEN - 1);
  }

  lemma EndOfEnd(s: string, from: nat, n: nat)
    requires from + n <= |s|
    ensures s[from..][|s[from..]| - n..] == s[|s| - n..]
  {
  }

  lemma HostParsed(lib: Lib, mask: string)
    requires LastAt(mask) >= 0 && mask != "*"
    ensures BanOf(lib, mask).host == HostPart(mask[LastAt(mask) + 1..])
  {
    hide LastAt, FirstBang, BanOf, Assemble, HostPart, NickOrAny;
    var at := LastAt(mask);
    var bang := FirstBang(mask[..at]);
    BanOfAt(lib, mask);
    AssembledHost(lib, NickOrAny(mask[..at], bang), mask[bang + 1..at], mask[at + 1..]);
  }

  lemma AssembledHost(lib: Lib, n: Part, u: string, h: string)
    ensures Assemble(lib, n, u, h).host == HostPart(h)
  {
    hide HostPart, UserPart, IsHostText, MarksHidden, BadParts;
  }

  lemma CutHostPart(h: string)
    requires |h| > HOSTLEN
    ensures HostPart(h) == Masked("*" + h[|h| - HOSTLEN + 1..]) && !IsHostText(h)
  {
    hide LastWild;
  }

  lemma NoAt(s: string)
    requires '@' !in s
    ensures LastAt(s) < 0
  {
    if LastAt(s) >= 0 {
      assert false;
    }
  }

  lemma EqualReflexive(b: Ban)
    ensures BanEqual(b, b)
  {
  }

  lemma NickOnlyParsed(lib: Lib, mask: string)
    requires mask != "*" && LastAt(mask) < 0
    ensures BanOf(lib, mask) == NickOnly(mask)
  {
    hide LastAt, FirstBang, Assemble, NickOnly, NickOrAny;
  }

  lemma BanOfAt(lib: Lib, mask: string)
    requires mask != "*" && LastAt(mask) >= 0
    ensures var at := LastAt(mask);
            var bang := FirstBang(mask[..at]);
            BanOf(lib, mask) == Assemble(lib, NickOrAny(mask[..at], bang), mask[bang + 1..at], mask[at + 1..])
  {
    hide LastAt, FirstBang, Assemble, NickOnly, NickOrAny;
  }

  lemma NickOnlyPrinted(mask: string)
    requires |mask| <= NICKLEN
    ensures BanToString(NickOnly(mask)) == mask + "!" + "*" + "@" + "*"
  {
  }

  lemma RoundTripWithoutAt(lib: Lib, mask: string)
    requires |mask| <= NICKLEN && mask != "*" && LastAt(mask) < 0
    ensures var again := BanOf(lib, mask + "!" + "*" + "@" + "*");
            if PlainNick(mask) then again == NickOnly(mask) else !BanEqual(again, NickOnly(mask))
  {
    hide *;
    if FirstBang(mask) < 0 {
      BanOfSplit(lib, mask, "*", "*");
      NickOnlyReturns(lib, mask);
    } else {
      BangComesBackDifferent(lib, mask);
    }
  }

  lemma BangComesBackDifferent(lib: Lib, mask: string)
    requires FirstBang(mask) >= 0
    ensures !BanEqual(BanOf(lib, mask + "!" + "*" + "@" + "*"), NickOnly(mask)) && !PlainNick(mask)
  {
    hide FirstBang, BanOf, HostPart, UserPart, IsHostText, MarksHidden, NickPart;
    var k := FirstBang(mask);
    var n, rest := mask[..k], mask[k + 1..];
    assert mask + "!" + "*" + "@" + "*" == n + "!" + (rest + "!*") + "@" + "*";
    BanOfSplit(lib, n, rest + "!*", "*");
    assert mask[k] == '!';
    UserNotAny(rest);
  }

  lemma UserNotAny(rest: string)
    ensures !UserPart(rest + "!*").Anything?
  {
    assert (rest + "!*")[|rest|] == '!';
    assert |rest + "!*"| >= 2;
  }

  lemma NickOnlyReturns(lib: Lib, mask: string)
    requires |mask| <= NICKLEN && mask != "*" && FirstBang(mask) < 0
    ensures var again := Assemble(lib, NickPart(mask), "*", "*");
            if PlainNick(mask) then again == NickOnly(mask) else !BanEqual(again, NickOnly(mask))
  {
    SameReflexive(mask);
    hide HasWild, SameText, FirstBang;
    StarParts(lib, mask);
    hide Assemble;
  }

  lemma StarParts(lib: Lib, mask: string)
    ensures Assemble(lib, NickPart(mask), "*", "*") == Ban(NickPart(mask), Anything, Anything, None, false, false)
  {
    hide NickPart, HasWild, LastWild, MarksHidden;
    assert UserPart("*") == Anything && HostPart("*") == Anything && !IsHostText("*");
  }
}
