/** The per-channel user table of channel/chanuserhash.c: open addressing with double hashing,
    a bounded search depth, deletion without tombstones, and growth by rehashing. */
module UserHash {
  import opened Options

  const DEPTH := 10                 // CUHASH_DEPTH
  const NUMERICS: nat := 0x4000_0000  // CU_NUMERICMASK + 1

  /** A table word holds a user numeric in its low 30 bits and the modes above them:
      1 is voice (CUMODE_VOICE), 2 is op (CUMODE_OP), 3 is both. */
  type Word = w: nat | w < 4 * NUMERICS

  function Numeric(w: Word): (n: nat) ensures n < NUMERICS { w % 0x4000_0000 }

  function Modes(w: Word): (m: nat) ensures m < 4 && w == Numeric(w) + m * 0x4000_0000 { w / 0x4000_0000 }

  function MakeWord(n: nat, m: nat): (w: Word)
    requires n < NUMERICS && m < 4
    ensures Numeric(w) == n && Modes(w) == m
  {
    n + m * 0x4000_0000
  }

  function FirstProbe(n: nat, size: nat): (j: nat)
    requires size > 0
    ensures j < size
  {
    n % size
  }

  /** The second hash uses the next higher digits of the numeric; a zero step becomes one. */
  function Step(n: nat, size: nat): (s: nat)
    requires size > 0
    ensures s > 0
  {
    var s := n / size % size;
    if s == 0 then 1 else s
  }

  function Probe(n: nat, size: nat, i: nat): (j: nat)
    requires size > 0
    ensures j < size
  {
    if i == 0 then FirstProbe(n, size) else (Probe(n, size, i - 1) + Step(n, size)) % size
  }

  /** The search looks at its `i`-th slot: within the depth, and not yet back at the first slot. */
  ghost predicate Reached(n: nat, size: nat, i: nat)
    requires size > 0
  {
    i < DEPTH && forall k | 0 < k <= i :: Probe(n, size, k) != Probe(n, size, 0)
  }

  ghost predicate OnPath(n: nat, size: nat, j: nat)
    requires size > 0
  {
    exists i: nat :: Reached(n, size, i) && Probe(n, size, i) == j
  }

  /** In a table larger than every numeric the first probe of a numeric is the numeric itself. */
  lemma BigTableHome(n: nat, size: nat)
    requires n < NUMERICS <= size
    ensures Probe(n, size, 0) == n && OnPath(n, size, n)
  {
    assert Reached(n, size, 0);
  }

  /** What the words of a table mean: `modes` maps each user on the channel to op/voice,
      `slot` says where its word is. */
  datatype Users = Users(modes: map<nat, nat>, slot: map<nat, nat>)

  /** A user sits in a slot of its own probe path, with its modes. */
  ghost predicate MemberAt(c: seq<Word>, nouser: Word, u: Users, n: nat) {
    && |c| > 0 && n in u.modes && n in u.slot
    && n < NUMERICS && n != nouser && u.modes[n] < 4
    && u.slot[n] < |c|
    && c[u.slot[n]] != nouser
    && c[u.slot[n]] == MakeWord(n, u.modes[n])
    && OnPath(n, |c|, u.slot[n])
  }

  /** A used slot belongs to the user it names, and to no other slot. */
  ghost predicate SlotUsed(c: seq<Word>, u: Users, j: nat) {
    && j < |c|
    && Numeric(c[j]) in u.modes && Numeric(c[j]) in u.slot
    && u.slot[Numeric(c[j])] == j
  }

  /** The words `c` store exactly the users `u`. */
  ghost predicate Stores(c: seq<Word>, nouser: Word, u: Users) {
    && |c| > 0
    && u.modes.Keys == u.slot.Keys
    && (forall n | n in u.modes :: MemberAt(c, nouser, u, n))
    && (forall j | 0 <= j < |c| && c[j] != nouser :: SlotUsed(c, u, j))
    && (|c| >= NUMERICS ==> forall n | n in u.slot :: u.slot[n] == n)
  }

  function Placed(u: Users, w: Word, j: nat): Users {
    Users(u.modes[Numeric(w) := Modes(w)], u.slot[Numeric(w) := j])
  }

  /** Filling a free slot of the path adds the user. */
  lemma PlacedStores(c: seq<Word>, nouser: Word, u: Users, w: Word, j: nat)
    requires Stores(c, nouser, u) && j < |c| && c[j] == nouser
    requires Numeric(w) != nouser && Numeric(w) !in u.modes && nouser < NUMERICS
    requires OnPath(Numeric(w), |c|, j)
    requires |c| >= NUMERICS ==> j == Numeric(w)
    ensures Stores(c[j := w], nouser, Placed(u, w, j))
  {
    hide Numeric, Modes, MakeWord, OnPath, MemberAt, SlotUsed, Placed;
    NewMember(c, nouser, u, w, j);
    forall k | k in u.modes ensures MemberAt(c[j := w], nouser, Placed(u, w, j), k) {
      OldMember(c, nouser, u, w, j, k);
    }
    forall i | 0 <= i < |c| && c[i] != nouser ensures SlotUsed(c[j := w], Placed(u, w, j), i) {
      OldSlot(c, nouser, u, w, j, i);
    }
    PlacedAll(c, nouser, u, w, j);
  }

  lemma NewMember(c: seq<Word>, nouser: Word, u: Users, w: Word, j: nat)
    requires j < |c| && Numeric(w) != nouser && nouser < NUMERICS && OnPath(Numeric(w), |c|, j)
    ensures MemberAt(c[j := w], nouser, Placed(u, w, j), Numeric(w)) && SlotUsed(c[j := w], Placed(u, w, j), j)
  {
    hide OnPath;
    assert w == MakeWord(Numeric(w), Modes(w)) && w != nouser;
  }

  lemma OldMember(c: seq<Word>, nouser: Word, u: Users, w: Word, j: nat, k: nat)
    requires MemberAt(c, nouser, u, k) && j < |c| && c[j] == nouser && Numeric(w) !in u.modes
    ensures MemberAt(c[j := w], nouser, Placed(u, w, j), k)
  {
    hide Numeric, Modes, MakeWord, OnPath;
  }

  lemma OldSlot(c: seq<Word>, nouser: Word, u: Users, w: Word, j: nat, i: nat)
    requires SlotUsed(c, u, i) && j < |c| && c[j] == nouser && c[i] != nouser && Numeric(w) !in u.modes
    ensures SlotUsed(c[j := w], Placed(u, w, j), i)
  {
    hide Numeric, Modes;
  }

  lemma PlacedAll(c: seq<Word>, nouser: Word, u: Users, w: Word, j: nat)
    requires Stores(c, nouser, u) && j < |c| && c[j] == nouser
    requires var c', u' := c[j := w], Placed(u, w, j);
      && MemberAt(c', nouser, u', Numeric(w)) && (forall k | k in u.modes :: MemberAt(c', nouser, u', k))
      && SlotUsed(c', u', j) && (forall i | 0 <= i < |c| && c[i] != nouser :: SlotUsed(c', u', i))
    requires |c| >= NUMERICS ==> j == Numeric(w)
    ensures Stores(c[j := w], nouser, Placed(u, w, j))
  {
    hide MemberAt, SlotUsed, Numeric, Modes;
    var c' := c[j := w];
    assert forall i | 0 <= i < |c'| && i != j :: c'[i] == c[i];
  }

  function Removed(u: Users, n: nat): Users {
    Users(u.modes - {n}, u.slot - {n})
  }

  /** Freeing a used slot removes its user and nobody else: the others are still on their paths. */
  lemma RemovedStores(c: seq<Word>, nouser: Word, u: Users, j: nat)
    requires Stores(c, nouser, u) && j < |c| && c[j] != nouser && nouser < NUMERICS
    ensures Stores(c[j := nouser], nouser, Removed(u, Numeric(c[j])))
    ensures Numeric(c[j]) in u.modes
  {
    hide Numeric, MakeWord, OnPath;
    var n := Numeric(c[j]);
    var c', u' := c[j := nouser], Removed(u, n);
    assert SlotUsed(c, u, j);
    forall k | k in u'.modes
      ensures MemberAt(c', nouser, u', k)
    {
      assert MemberAt(c, nouser, u, k) && MemberAt(c, nouser, u, n);
      UserOfSlot(c, nouser, u, k);
    }
    forall i | 0 <= i < |c'| && c'[i] != nouser
      ensures SlotUsed(c', u', i)
    {
      assert SlotUsed(c, u, i);
    }
  }

  lemma UserOfSlot(c: seq<Word>, nouser: Word, u: Users, n: nat)
    requires MemberAt(c, nouser, u, n)
    ensures Numeric(c[u.slot[n]]) == n && Modes(c[u.slot[n]]) == u.modes[n]
  {
  }

  lemma StrippedWord(n: nat)
    requires n < NUMERICS
    ensures MakeWord(n, 0) == n
  {
  }

  function Stripped(u: Users): Users {
    u.(modes := map n | n in u.modes :: 0)
  }

  lemma StrippedStores(c: seq<Word>, nouser: Word, u: Users, c': seq<Word>)
    requires Stores(c, nouser, u) && |c'| == |c| && nouser < NUMERICS
    requires forall j | 0 <= j < |c| :: c'[j] == if c[j] == nouser then nouser else Numeric(c[j])
    ensures Stores(c', nouser, Stripped(u))
  {
    var u' := Stripped(u);
    hide OnPath;
    forall n | n in u'.modes
      ensures MemberAt(c', nouser, u', n)
    {
      assert MemberAt(c, nouser, u, n);
      UserOfSlot(c, nouser, u, n);
      StrippedWord(n);
    }
    hide MakeWord, Modes;
    forall j | 0 <= j < |c'| && c'[j] != nouser
      ensures SlotUsed(c', u', j)
    {
      assert SlotUsed(c, u, j);
      assert Numeric(Numeric(c[j])) == Numeric(c[j]);
    }
  }

  /** There are as many used slots as users. */
  lemma Occupancy(c: seq<Word>, nouser: Word, u: Users)
    requires Stores(c, nouser, u)
    ensures |set j | 0 <= j < |c| && c[j] != nouser| == |u.modes|
  {
    var used := set j: nat | 0 <= j < |c| && c[j] != nouser;
    var image := set n | n in u.modes :: u.slot[n];
    forall j | j in used
      ensures j in image
    {
      assert SlotUsed(c, u, j);
    }
    forall n | n in u.modes
      ensures u.slot[n] in used && Numeric(c[u.slot[n]]) == n
    {
      assert MemberAt(c, nouser, u, n);
    }
    assert used == image;
    InjectiveImage(u.modes.Keys, u.slot, map j: nat | j < |c| :: Numeric(c[j]));
    assert used == set j | 0 <= j < |c| && c[j] != nouser;
    assert |u.modes| == |u.modes.Keys|;
  }

  class ChanUserHash {
    const nouser: Word        // the marker of a free slot; no user carries this numeric
    var totalusers: nat
    var content: array<Word>

    ghost var users: Users

    ghost predicate Valid()
      reads this, content
    {
      nouser < NUMERICS && Stores(content[..], nouser, users) && totalusers == |users.modes|
    }

    /** newchanuserhash: an empty table. */
    constructor (size: nat, nouser: Word)
      requires size > 0 && nouser < NUMERICS
      ensures Valid() && fresh(content)
      ensures this.nouser == nouser && content.Length == size && users == Users(map[], map[])
    {
      this.nouser := nouser;
      content := new Word[size](_ => nouser);
      totalusers := 0;
      users := Users(map[], map[]);
    }

    /** getnumerichandlefromchanhash: finds a user exactly when it is there, whatever was deleted before. */
    method Lookup(numeric: Word) returns (at: Option<nat>)
      requires Valid() && Numeric(numeric) != nouser
      ensures at.Some? <==> Numeric(numeric) in users.modes
      ensures at.Some? ==> at.value < content.Length && content[at.value] != nouser
                           && content[at.value] == MakeWord(Numeric(numeric), users.modes[Numeric(numeric)])
    {
      StoresKeys(content[..], nouser, users);
      ProbeStart(Numeric(numeric), content.Length);
      hide Numeric, Modes, MakeWord, FirstProbe, Step, Probe, OnPath, Stores, MissedBefore;
      ghost var c := content[..];
      var n, size := Numeric(numeric), content.Length;
      var step := Step(n, size);
      var first := FirstProbe(n, size);
      var i, j := 0, first;
      assert MissedBefore(c, n, 0) by { MissedNone(c, n); }
      while i < DEPTH && (j != first || i == 0)
        invariant 0 <= i <= DEPTH && j == Probe(n, size, i)
        invariant MissedBefore(c, n, i)
      {
        if Numeric(content[j]) == n {
          FoundUser(c, nouser, users, j);
          return Some(j);
        }
        ProbeNext(n, size, i);
        MissedOneMore(c, n, i);
        i, j := i + 1, (j + step) % size;
      }
      NotFound(c, nouser, users, n, i);
      return None;
    }

    /** The probe loop of addnumerictochanuserhash: the first free slot of the path, if there is one. */
    method FirstFree(n: nat) returns (at: Option<nat>)
      requires content.Length > 0
      ensures at.Some? ==> at.value < content.Length && content[at.value] == nouser
                           && OnPath(n, content.Length, at.value)
      ensures at.None? ==> forall j | 0 <= j < content.Length && OnPath(n, content.Length, j) :: content[j] != nouser
      ensures at.Some? && content[Probe(n, content.Length, 0)] == nouser ==> at.value == Probe(n, content.Length, 0)
    {
      ProbeStart(n, content.Length);
      hide FirstProbe, Step, Probe, OnPath;
      ghost var c := content[..];
      var size := content.Length;
      var step := Step(n, size);
      var first := FirstProbe(n, size);
      var i, j := 0, first;
      while i < DEPTH && (j != first || i == 0)
        invariant 0 <= i <= DEPTH && j == Probe(n, size, i)
        invariant forall k | 0 < k < i :: Probe(n, size, k) != Probe(n, size, 0)
        invariant forall k: nat | k < i :: c[Probe(n, size, k)] != nouser
      {
        if content[j] == nouser {
          ReachedOnPath(n, size, i);
          return Some(j);
        }
        ProbeNext(n, size, i);
        i, j := i + 1, (j + step) % size;
      }
      PathFull(c, nouser, n, i);
      return None;
    }

    /** addnumerictochanuserhash: the first free slot of the path takes the word; it fails when the
        path has none, and never in a table larger than every numeric. */
    method Add(w: Word) returns (failed: bool)
      requires Valid() && Numeric(w) != nouser && Numeric(w) !in users.modes
      modifies this, content
      ensures Valid() && content == old(content)
      ensures failed ==> users == old(users) && content[..] == old(content[..])
      ensures !failed ==> users.modes == old(users.modes)[Numeric(w) := Modes(w)]
      ensures failed <==> forall j | 0 <= j < content.Length && OnPath(Numeric(w), content.Length, j)
                            :: old(content[j]) != nouser
      ensures content.Length >= NUMERICS ==> !failed
    {
      ghost var c := content[..];
      StoresKeys(c, nouser, users);
      hide Numeric, Modes, Probe, Stores, OnPath, MemberAt, SlotUsed;
      var at := FirstFree(Numeric(w));
      if content.Length >= NUMERICS {
        HomeIsFree(c, nouser, users, Numeric(w));
      }
      if at.None? {
        return true;
      }
      PlacedStores(c, nouser, users, w, at.value);
      content[at.value] := w;
      totalusers := totalusers + 1;
      users := Placed(users, w, at.value);
      assert content[..] == c[at.value := w];
      return false;
    }

    /** The deletion of delnickfromchannel: the slot becomes free, nothing marks that it was used. */
    method Remove(j: nat)
      requires Valid() && j < content.Length && content[j] != nouser
      modifies this, content
      ensures Valid() && content == old(content)
      ensures users == Removed(old(users), old(Numeric(content[j])))
    {
      hide Numeric, Stores;
      ghost var c := content[..];
      RemovedStores(c, nouser, users, j);
      users := Removed(users, Numeric(content[j]));
      content[j] := nouser;
      totalusers := totalusers - 1;
      assert content[..] == c[j := nouser];
    }

    /** The loop of handleburstmsg that takes every op and voice away. */
    method StripModes()
      requires Valid()
      modifies this, content
      ensures Valid() && content == old(content)
      ensures users == Stripped(old(users))
    {
      hide Numeric, Stores;
      var i := 0;
      ghost var c := content[..];
      while i < content.Length
        invariant 0 <= i <= content.Length
        invariant forall j | 0 <= j < i :: content[j] == if c[j] == nouser then nouser else Numeric(c[j])
        invariant forall j | i <= j < content.Length :: content[j] == c[j]
        modifies content
      {
        if content[i] != nouser {
          content[i] := Numeric(content[i]);
        }
        i := i + 1;
      }
      StrippedStores(c, nouser, users, content[..]);
      users := Stripped(users);
      assert users.modes.Keys == old(users.modes.Keys);
      assert |users.modes| == |users.modes.Keys| == |old(users.modes).Keys|;
    }
  }

  lemma FoundUser(c: seq<Word>, nouser: Word, u: Users, j: nat)
    requires Stores(c, nouser, u) && j < |c| && nouser < NUMERICS && Numeric(c[j]) != nouser
    ensures Numeric(c[j]) in u.modes && c[j] != nouser && c[j] == MakeWord(Numeric(c[j]), u.modes[Numeric(c[j])])
  {
    assert c[j] != nouser;
    hide OnPath;
    assert SlotUsed(c, u, j);
    assert MemberAt(c, nouser, u, Numeric(c[j]));
  }

  ghost predicate MissedBefore(c: seq<Word>, n: nat, steps: nat)
    requires |c| > 0
  {
    forall k: nat | k < steps :: Numeric(c[Probe(n, |c|, k)]) != n
  }

  lemma MissedNone(c: seq<Word>, n: nat)
    requires |c| > 0
    ensures MissedBefore(c, n, 0)
  {
  }

  lemma MissedOneMore(c: seq<Word>, n: nat, i: nat)
    requires |c| > 0 && MissedBefore(c, n, i) && Numeric(c[Probe(n, |c|, i)]) != n
    ensures MissedBefore(c, n, i + 1)
  {
    hide Numeric, Probe;
  }

  /** A search that went along the whole path without meeting the numeric proves that it is not there. */
  lemma NotFound(c: seq<Word>, nouser: Word, u: Users, n: nat, steps: nat)
    requires Stores(c, nouser, u)
    requires MissedBefore(c, n, steps)
    requires steps >= DEPTH || (steps > 0 && Probe(n, |c|, steps) == Probe(n, |c|, 0))
    ensures n !in u.modes
  {
    if n in u.modes {
      assert MemberAt(c, nouser, u, n);
      UserOfSlot(c, nouser, u, n);
    }
  }

  lemma ProbeStart(n: nat, size: nat)
    requires size > 0
    ensures Probe(n, size, 0) == FirstProbe(n, size)
  {
  }

  lemma ProbeNext(n: nat, size: nat, i: nat)
    requires size > 0
    ensures Probe(n, size, i + 1) == (Probe(n, size, i) + Step(n, size)) % size
  {
  }

  lemma ReachedOnPath(n: nat, size: nat, i: nat)
    requires size > 0 && Reached(n, size, i)
    ensures OnPath(n, size, Probe(n, size, i))
  {
  }

  lemma PathFull(c: seq<Word>, nouser: Word, n: nat, steps: nat)
    requires |c| > 0
    requires forall k: nat | k < steps :: c[Probe(n, |c|, k)] != nouser
    requires steps >= DEPTH || (steps > 0 && Probe(n, |c|, steps) == Probe(n, |c|, 0))
    ensures forall j | 0 <= j < |c| && OnPath(n, |c|, j) :: c[j] != nouser
  {
    hide Probe;
  }

  /** In a table larger than every numeric, the home slot of a user who is not there is free. */
  lemma HomeIsFree(c: seq<Word>, nouser: Word, u: Users, n: nat)
    requires Stores(c, nouser, u) && |c| >= NUMERICS > n && n !in u.modes
    ensures Probe(n, |c|, 0) == n && c[n] == nouser && OnPath(n, |c|, n)
  {
    BigTableHome(n, |c|);
    assert c[n] == nouser || SlotUsed(c, u, n);
  }

  lemma {:induction false} InjectiveImage(s: set<nat>, f: map<nat, nat>, g: map<nat, nat>)
    requires s <= f.Keys
    requires forall n | n in s :: f[n] in g && g[f[n]] == n
    ensures |set n | n in s :: f[n]| == |s|
  {
    if s != {} {
      var x :| x in s;
      InjectiveImage(s - {x}, f, g);
      assert (set n | n in s :: f[n]) == (set n | n in s - {x} :: f[n]) + {f[x]};
    }
  }

  /** Fewer than five users to eight slots. */
  predicate BadlyUsed(totalusers: nat, size: nat)
    ensures BadlyUsed(totalusers, size) <==> 8 * totalusers < 5 * size
  {
    totalusers as real * 1.6 < size as real
  }

  function HalfMore(n: nat): (r: nat)
    ensures 2 * r <= 3 * n <= 2 * r + 1
  {
    3 * n / 2
  }

  /** `n | 1`. */
  function OrOne(n: nat): (r: nat)
    ensures r % 2 == 1 && n <= r <= n + 1
  {
    if n % 2 == 0 then n + 1 else n
  }

  function Grown(size: nat): (r: nat)
    ensures r > size
    ensures size <= 1 ==> r == size + 1
    ensures size > 1 ==> r % 2 == 1 && 3 * size - 1 <= 2 * r <= 3 * size + 2
  {
    var odd := OrOne(HalfMore(size));
    if odd <= size then odd + 1 else odd
  }

  /** The new size rehashchannel tries first. */
  function NextSize(totalusers: nat, size: nat): (r: nat)
    ensures r > size
    ensures 8 * totalusers < 5 * size || size <= 1 ==> r == size + 1
    ensures 8 * totalusers >= 5 * size && size > 1 ==> r % 2 == 1 && 3 * size - 1 <= 2 * r <= 3 * size + 2
  {
    if BadlyUsed(totalusers, size) then size + 1 else Grown(size)
  }

  /** The users of the first `k` slots. */
  ghost predicate CopiedUpTo(u: Users, copied: map<nat, nat>, k: nat)
    requires u.modes.Keys == u.slot.Keys
  {
    && (forall n | n in copied :: n in u.modes && u.slot[n] < k && copied[n] == u.modes[n])
    && (forall n | n in u.modes && u.slot[n] < k :: n in copied)
  }

  lemma CopiedOneMore(c: seq<Word>, nouser: Word, u: Users, copied: map<nat, nat>, k: nat)
    requires Stores(c, nouser, u) && k < |c| && CopiedUpTo(u, copied, k)
    ensures c[k] == nouser ==> CopiedUpTo(u, copied, k + 1)
    ensures c[k] != nouser ==> Numeric(c[k]) !in copied && Numeric(c[k]) != nouser
                               && CopiedUpTo(u, copied[Numeric(c[k]) := Modes(c[k])], k + 1)
  {
    hide OnPath;
    forall n | n in u.modes && u.slot[n] == k
      ensures c[k] != nouser && n == Numeric(c[k])
    {
      assert MemberAt(c, nouser, u, n);
    }
    if c[k] != nouser {
      assert SlotUsed(c, u, k);
      assert MemberAt(c, nouser, u, Numeric(c[k]));
    }
  }

  lemma CopiedAll(c: seq<Word>, nouser: Word, u: Users, copied: map<nat, nat>)
    requires Stores(c, nouser, u) && CopiedUpTo(u, copied, |c|)
    ensures copied == u.modes
  {
    assert forall n | n in u.modes :: MemberAt(c, nouser, u, n);
  }

  /** One pass of the rehash loop: every user of the old table goes into the new one, unless one does not fit. */
  method CopyInto(oldhash: ChanUserHash, newhash: ChanUserHash) returns (fits: bool)
    requires oldhash.Valid() && newhash.Valid() && newhash.users.modes == map[] && newhash.nouser == oldhash.nouser
    requires newhash != oldhash && newhash.content != oldhash.content
    modifies newhash, newhash.content
    ensures newhash.Valid() && newhash.content == old(newhash.content)
    ensures fits ==> newhash.users.modes == oldhash.users.modes
    ensures newhash.content.Length >= NUMERICS ==> fits
  {
    hide Numeric, Modes, Stores, OnPath;
    ghost var c, u := oldhash.content[..], oldhash.users;
    StoresKeys(c, oldhash.nouser, u);
    var i := 0;
    while i < oldhash.content.Length
      invariant 0 <= i <= oldhash.content.Length
      invariant oldhash.content[..] == c && oldhash.users == u && Stores(c, oldhash.nouser, u)
      invariant newhash.Valid() && newhash.content == old(newhash.content)
      invariant CopiedUpTo(u, newhash.users.modes, i)
    {
      var w := oldhash.content[i];
      CopiedOneMore(c, oldhash.nouser, u, newhash.users.modes, i);
      if w != oldhash.nouser {
        var failed := newhash.Add(w);
        if failed {
          return false;
        }
      }
      i := i + 1;
    }
    CopiedAll(c, oldhash.nouser, u, newhash.users.modes);
    return true;
  }

  lemma StoresKeys(c: seq<Word>, nouser: Word, u: Users)
    requires Stores(c, nouser, u)
    ensures u.modes.Keys == u.slot.Keys && |c| > 0
  {
  }

  /** rehashchannel: retries with sizes two apart until everything fits. The retry ends because a table
      larger than every numeric has room for all; the users and their modes are unchanged. */
  method Rehash(users: ChanUserHash) returns (newhash: ChanUserHash)
    requires users.Valid()
    ensures fresh(newhash) && fresh(newhash.content) && newhash.Valid()
    ensures newhash.nouser == users.nouser && newhash.users.modes == users.users.modes
    ensures newhash.content.Length > users.content.Length
  {
    hide Stores;
    var size := NextSize(users.totalusers, users.content.Length);
    while true
      invariant size > users.content.Length
      decreases if size < NUMERICS then NUMERICS - size else 0
    {
      newhash := new ChanUserHash(size, users.nouser);
      var fits := CopyInto(users, newhash);
      if fits {
        return;
      }
      size := size + 2;
    }
  }

  /** The `while (addnumerictochanuserhash(...)) rehashchannel(cp);` loop of addnicktochannel. */
  method AddGrowing(users: ChanUserHash, w: Word) returns (result: ChanUserHash)
    requires users.Valid() && Numeric(w) != users.nouser && Numeric(w) !in users.users.modes
    modifies users, users.content
    ensures result.Valid() && result.nouser == users.nouser
    ensures result == users || (fresh(result) && fresh(result.content))
    ensures users.content == old(users.content)
    ensures result.users.modes == old(users.users.modes)[Numeric(w) := Modes(w)]
  {
    hide Stores, Numeric, Modes, OnPath;
    result := users;
    var failed := result.Add(w);
    while failed
      invariant result.Valid() && result.nouser == users.nouser
      invariant result == users || (fresh(result) && fresh(result.content))
      invariant users.content == old(users.content)
      invariant failed ==> result.users.modes == old(users.users.modes)
      invariant !failed ==> result.users.modes == old(users.users.modes)[Numeric(w) := Modes(w)]
      invariant failed ==> result.content.Length < NUMERICS
      decreases failed, NUMERICS - result.content.Length
    {
      result := Rehash(result);
      failed := result.Add(w);
    }
  }
}
