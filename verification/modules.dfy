/** The module manager of core/modules.c: the dependency graph read in two passes, loading and unloading that keep
    every loaded module's parents loaded, safe reload, and shutdown. */
module ModuleManager {
  import opened Options

  const MAXMODULES := 200
  const NAMELEN := 100

  // ---------------------------------------------------------------- the graph

  function Count(ps: seq<nat>, p: nat): nat {
    if ps == [] then 0 else Count(ps[..|ps| - 1], p) + if ps[|ps| - 1] == p then 1 else 0
  }

  function Copies(i: nat, n: nat): (r: seq<nat>)
    ensures |r| == n && forall k | 0 <= k < n :: r[k] == i
  {
    seq(n, _ => i)
  }

  /** The modules that name `p` as a parent, in file order, as often as they name it. */
  function Inverse(parents: seq<seq<nat>>, p: nat): seq<nat> {
    if parents == [] then []
    else
      var last := |parents| - 1;
      Inverse(parents[..last], p) + Copies(last, Count(parents[last], p))
  }

  lemma {:induction false} CountIn(ps: seq<nat>, p: nat)
    ensures Count(ps, p) > 0 <==> p in ps
  {
    if ps != [] {
      CountIn(ps[..|ps| - 1], p);
      assert ps == ps[..|ps| - 1] + [ps[|ps| - 1]];
    }
  }

  /** `children` and `parents` say the same. */
  lemma {:induction false} InverseExact(parents: seq<seq<nat>>, p: nat)
    ensures forall i: nat :: i in Inverse(parents, p) <==> i < |parents| && p in parents[i]
  {
    if parents != [] {
      var last := |parents| - 1;
      InverseExact(parents[..last], p);
      CountIn(parents[last], p);
      var cs := Copies(last, Count(parents[last], p));
      assert last in cs <==> |cs| > 0 by {
        if |cs| > 0 { assert cs[0] == last; }
      }
      forall i: nat ensures i in Inverse(parents, p) <==> i < |parents| && p in parents[i] {
        assert i < last ==> parents[..last][i] == parents[i];
      }
    }
  }

  /** Every parent stands earlier in the file. */
  ghost predicate Ordered(parents: seq<seq<nat>>) {
    forall i, j | 0 <= i < |parents| && 0 <= j < |parents[i]| :: parents[i][j] < i
  }

  /** `d` needs `a`: it is `a`, or one of its parents needs `a`. */
  ghost predicate Needs(parents: seq<seq<nat>>, d: nat, a: nat)
    requires Ordered(parents)
  {
    d < |parents| && (d == a || exists j :: 0 <= j < |parents[d]| && Needs(parents, parents[d][j], a))
  }

  lemma {:induction false} NeedsEarlier(parents: seq<seq<nat>>, d: nat, a: nat)
    requires Ordered(parents) && Needs(parents, d, a)
    ensures a <= d
    decreases d
  {
    if d != a {
      var j :| 0 <= j < |parents[d]| && Needs(parents, parents[d][j], a);
      NeedsEarlier(parents, parents[d][j], a);
    }
  }

  lemma {:induction false} NeedsChain(parents: seq<seq<nat>>, d: nat, b: nat, a: nat)
    requires Ordered(parents) && Needs(parents, d, b) && Needs(parents, b, a)
    ensures Needs(parents, d, a)
    decreases d
  {
    if d != b {
      var j :| 0 <= j < |parents[d]| && Needs(parents, parents[d][j], b);
      NeedsChain(parents, parents[d][j], b, a);
    }
  }

  /** Whoever needs `a` and is not `a` needs a child of `a`. */
  lemma {:induction false} NeedsChild(parents: seq<seq<nat>>, d: nat, a: nat) returns (c: nat)
    requires Ordered(parents) && Needs(parents, d, a) && d != a
    ensures c < |parents| && a in parents[c] && Needs(parents, d, c)
    decreases d
  {
    var j :| 0 <= j < |parents[d]| && Needs(parents, parents[d][j], a);
    if parents[d][j] == a {
      c := d;
    } else {
      c := NeedsChild(parents, parents[d][j], a);
    }
  }

  // ---------------------------------------------------------------- names

  predicate Kept(c: char) {
    c != '.' && c != '/' && c != '\\' && c != ';'
  }

  /** delchars over "./\;". */
  function Sanitised(s: string): (r: string)
    ensures forall i | 0 <= i < |r| :: Kept(r[i])
  {
    if s == "" then "" else (if Kept(s[0]) then [s[0]] else "") + Sanitised(s[1..])
  }

  lemma {:induction false} SanitisedAgain(s: string)
    requires forall i | 0 <= i < |s| :: Kept(s[i])
    ensures Sanitised(s) == s
  {
    if s != "" {
      SanitisedAgain(s[1..]);
    }
  }

  predicate CleanName(s: string) {
    |s| <= NAMELEN && forall i | 0 <= i < |s| :: Kept(s[i])
  }

  ghost predicate DistinctNames(names: seq<string>) {
    forall i, j | 0 <= i < j < |names| :: names[i] != names[j]
  }

  // ---------------------------------------------------------------- the dependency file

  /** The index of a name among the records so far. */
  function Index(names: seq<string>, name: string): (r: Option<nat>)
    ensures r.Some? ==> r.value < |names| && names[r.value] == name && name !in names[..r.value]
    ensures r.None? ==> name !in names
  {
    if names == [] then None
    else
      var last := |names| - 1;
      match Index(names[..last], name)
      case Some(i) => Some(i)
      case None => if names[last] == name then Some(last) else None
  }

  lemma IndexUnique(names: seq<string>, i: nat)
    requires DistinctNames(names) && i < |names|
    ensures Index(names, names[i]) == Some(i)
  {
  }

  /** A line of the file: the module and its parents. */
  predicate LinesOk(lines: seq<seq<string>>) {
    && (forall i | 0 <= i < |lines| :: lines[i] != [] && CleanName(lines[i][0]) && lines[i][0] !in lines[i][1..])
    && (forall i, j | 0 <= i < j < |lines| :: lines[i][0] != lines[j][0])
  }

  function Heads(lines: seq<seq<string>>): (r: seq<string>)
    requires forall i | 0 <= i < |lines| :: lines[i] != []
    ensures |r| == |lines| && forall i | 0 <= i < |lines| :: r[i] == lines[i][0]
  {
    seq(|lines|, i requires 0 <= i < |lines| => lines[i][0])
  }

  /** Each parent of each module stands on an earlier line. */
  predicate ParentsKnown(lines: seq<seq<string>>)
    requires LinesOk(lines)
  {
    forall i, j | 0 <= i < |lines| && 1 <= j < |lines[i]| :: lines[i][j] in Heads(lines)[..i]
  }

  // ---------------------------------------------------------------- the two passes

  lemma CountMore(ps: seq<nat>, j: nat, p: nat)
    requires j < |ps|
    ensures Count(ps[..j + 1], p) == Count(ps[..j], p) + if ps[j] == p then 1 else 0
  {
    assert ps[..j + 1][..j] == ps[..j];
  }

  lemma CountAppended(ps: seq<nat>, x: nat)
    ensures forall p :: Count(ps + [x], p) == Count(ps, p) + if x == p then 1 else 0
  {
    assert (ps + [x])[..|ps|] == ps;
  }

  lemma NoneCounted()
    ensures forall p :: Count([], p) == 0
  {
  }

  lemma InverseMore(parents: seq<seq<nat>>, i: nat, p: nat)
    requires i < |parents|
    ensures Inverse(parents[..i + 1], p) == Inverse(parents[..i], p) + Copies(i, Count(parents[i], p))
  {
    assert parents[..i + 1][..i] == parents[..i];
  }

  lemma {:induction false} CountGrows(ps: seq<nat>, j: nat, p: nat)
    requires j <= |ps|
    ensures Count(ps[..j], p) <= Count(ps, p)
    decreases |ps| - j
  {
    if j < |ps| {
      CountMore(ps, j, p);
      CountGrows(ps, j + 1, p);
    } else {
      assert ps[..j] == ps;
    }
  }

  lemma {:induction false} InverseGrows(parents: seq<seq<nat>>, i: nat, p: nat)
    requires i <= |parents|
    ensures |Inverse(parents[..i], p)| <= |Inverse(parents, p)|
    decreases |parents| - i
  {
    if i < |parents| {
      InverseMore(parents, i, p);
      InverseGrows(parents, i + 1, p);
    } else {
      assert parents[..i] == parents;
    }
  }

  /** Nobody names a module before its own line. */
  lemma {:induction false} NotNamedYet(parents: seq<seq<nat>>, i: nat, p: nat)
    requires Ordered(parents) && i <= |parents| && i <= p + 1
    ensures Inverse(parents[..i], p) == []
  {
    if i > 0 {
      NotNamedYet(parents, i - 1, p);
      InverseMore(parents, i - 1, p);
      CountIn(parents[i - 1], p);
    }
  }

  /** The first `i` lines have been read. */
  ghost predicate LinesRead(lines: seq<seq<string>>, i: nat, names: seq<string>, parents: seq<seq<nat>>, numchildren: seq<nat>)
    requires LinesOk(lines) && i <= |lines|
  {
    && names == Heads(lines)[..i] && |parents| == |numchildren| == i && Ordered(parents)
    && (forall k | 0 <= k < i :: ParentsOf(lines, k, parents[k]))
    && (forall p | 0 <= p < i :: numchildren[p] == |Inverse(parents, p)|)
  }

  ghost predicate ParentsOf(lines: seq<seq<string>>, k: nat, ps: seq<nat>)
    requires LinesOk(lines) && k < |lines|
  {
    |ps| == |lines[k]| - 1 && forall j | 0 <= j < |ps| :: ps[j] < k && lines[ps[j]][0] == lines[k][j + 1]
  }

  predicate LineKnown(lines: seq<seq<string>>, i: nat)
    requires LinesOk(lines) && i < |lines|
  {
    forall j | 1 <= j < |lines[i]| :: lines[i][j] in Heads(lines)[..i]
  }

  lemma OneMoreLine(lines: seq<seq<string>>, i: nat, names: seq<string>, parents: seq<seq<nat>>, numchildren: seq<nat>,
                    ps: seq<nat>, counts: seq<nat>)
    requires LinesOk(lines) && i < |lines| && LinesRead(lines, i, names, parents, numchildren) && ParentsOf(lines, i, ps)
    requires |counts| == i + 1 && forall p | 0 <= p <= i :: counts[p] == (numchildren + [0])[p] + Count(ps, p)
    ensures LinesRead(lines, i + 1, names + [lines[i][0]], parents + [ps], counts)
  {
    var parents' := parents + [ps];
    assert parents'[..i] == parents && parents'[..i + 1] == parents';
    hide Count, Inverse;
    forall p | 0 <= p < i + 1 ensures counts[p] == |Inverse(parents', p)| {
      InverseMore(parents', i, p);
      if p == i {
        NotNamedYet(parents, i, i);
        assert parents[..i] == parents;
      }
    }
  }

  /** The first pass: names and parents, and how many children each module will have. It gives up where a parent is
      not on an earlier line, or where there are too many modules. */
  method FirstPass(lines: seq<seq<string>>) returns (ok: bool, names: seq<string>, parents: seq<seq<nat>>, numchildren: seq<nat>)
    requires LinesOk(lines)
    ensures ok <==> |lines| <= MAXMODULES && ParentsKnown(lines)
    ensures ok ==> LinesRead(lines, |lines|, names, parents, numchildren)
  {
    hide LinesOk, LinesRead, LineKnown, ParentsOf, Count, Heads;
    ok, names, parents, numchildren := true, [], [], [];
    assert LinesRead(lines, 0, [], [], []) by { NoLines(lines); }
    for i := 0 to |lines|
      invariant ok && i <= MAXMODULES && LinesRead(lines, i, names, parents, numchildren) && |numchildren| == i
      invariant forall k | 0 <= k < i :: LineKnown(lines, k)
    {
      ReadNames(lines, i, names, parents, numchildren);
      if i >= MAXMODULES {
        return false, [], [], [];
      }
      var known, ps, counts := ReadParents(lines, i, names + [lines[i][0]], numchildren + [0]);
      if !known {
        UnknownParent(lines, i);
        return false, [], [], [];
      }
      OneMoreLine(lines, i, names, parents, numchildren, ps, counts);
      names := names + [lines[i][0]];
      parents := parents + [ps];
      numchildren := counts;
    }
    AllKnown(lines);
  }

  lemma NoLines(lines: seq<seq<string>>)
    requires LinesOk(lines)
    ensures LinesRead(lines, 0, [], [], [])
  {
  }

  lemma ReadNames(lines: seq<seq<string>>, i: nat, names: seq<string>, parents: seq<seq<nat>>, numchildren: seq<nat>)
    requires LinesOk(lines) && i < |lines| && LinesRead(lines, i, names, parents, numchildren)
    ensures lines[i] != [] && names + [lines[i][0]] == Heads(lines)[..i + 1]
  {
  }

  lemma UnknownParent(lines: seq<seq<string>>, i: nat)
    requires LinesOk(lines) && i < |lines| && !LineKnown(lines, i)
    ensures !ParentsKnown(lines)
  {
  }

  lemma AllKnown(lines: seq<seq<string>>)
    requires LinesOk(lines) && forall k | 0 <= k < |lines| :: LineKnown(lines, k)
    ensures ParentsKnown(lines)
  {
    forall i, j | 0 <= i < |lines| && 1 <= j < |lines[i]| ensures lines[i][j] in Heads(lines)[..i] {
      assert LineKnown(lines, i);
    }
  }

  /** The parents of one line, counted as children of theirs. */
  method ReadParents(lines: seq<seq<string>>, i: nat, names: seq<string>, numchildren: seq<nat>)
    returns (known: bool, ps: seq<nat>, counts: seq<nat>)
    requires LinesOk(lines) && i < |lines| && names == Heads(lines)[..i + 1] && |numchildren| == i + 1
    ensures known <==> LineKnown(lines, i)
    ensures known ==> ParentsOf(lines, i, ps) && |counts| == i + 1
    ensures known ==> forall p | 0 <= p <= i :: counts[p] == numchildren[p] + Count(ps, p)
  {
    hide Count;
    ps, counts := [], numchildren;
    NoneCounted();
    var line := lines[i];
    for j := 0 to |line| - 1
      invariant |ps| == j && |counts| == i + 1
      invariant forall k | 0 <= k < j :: ps[k] < i && lines[ps[k]][0] == line[k + 1]
      invariant forall k | 1 <= k <= j :: line[k] in Heads(lines)[..i]
      invariant forall p | 0 <= p <= i :: counts[p] == numchildren[p] + Count(ps, p)
    {
      var name := line[j + 1];
      NotItself(lines, i, j + 1);
      match Index(names, name)
      case None =>
        assert lines[i][j + 1] !in Heads(lines)[..i];
        assert !LineKnown(lines, i);
        return false, [], [];
      case Some(p) =>
        assert names[p] == name && p < i;
        assert Heads(lines)[..i][p] == name;
        CountAppended(ps, p);
        ps := ps + [p];
        counts := counts[p := counts[p] + 1];
    }
    known := true;
  }

  lemma NotItself(lines: seq<seq<string>>, i: nat, j: nat)
    requires LinesOk(lines) && i < |lines| && 1 <= j < |lines[i]|
    ensures lines[i][j] != lines[i][0]
    ensures lines[i][j] in Heads(lines)[..i + 1] <==> lines[i][j] in Heads(lines)[..i]
  {
    assert lines[i][1..][j - 1] == lines[i][j];
    assert Heads(lines)[..i + 1] == Heads(lines)[..i] + [lines[i][0]];
  }

  /** How the children arrays stand after the first `j` parents of module `i`: module `p` has written what Inverse
      says so far, into an array of its full size. */
  ghost predicate Filled(parents: seq<seq<nat>>, i: nat, j: nat, p: nat, children: seq<nat>, numchildren: nat)
    requires i < |parents| && j <= |parents[i]|
  {
    var done := Inverse(parents[..i], p) + Copies(i, Count(parents[i][..j], p));
    numchildren == |done| && |children| == |Inverse(parents, p)| && numchildren <= |children| && children[..numchildren] == done
  }

  /** The second pass: each child is written into its parents' arrays, whose sizes the first pass has counted. */
  method SecondPass(parents: seq<seq<nat>>, counted: seq<nat>) returns (children: seq<seq<nat>>)
    requires Ordered(parents) && |counted| == |parents|
    requires forall p | 0 <= p < |parents| :: counted[p] == |Inverse(parents, p)|
    ensures |children| == |parents| && forall p | 0 <= p < |parents| :: children[p] == Inverse(parents, p)
  {
    hide Inverse, Count, Ordered;
    var numchildren := counted;
    children := seq(|parents|, _ => []);
    for i := 0 to |parents|
      invariant |children| == |numchildren| == |parents|
      invariant forall p | i <= p < |parents| :: children[p] == [] && numchildren[p] == counted[p]
      invariant forall p | 0 <= p < i :: Written(parents, i, p, children[p], numchildren[p])
    {
      if numchildren[i] != 0 {
        children := children[i := seq(numchildren[i], _ => 0)];
        numchildren := numchildren[i := 0];
      }
      NotNamedYet(parents, i, i);
      children, numchildren := FillParents(parents, i, children, numchildren);
    }
    forall p | 0 <= p < |parents| ensures children[p] == Inverse(parents, p) {
      assert parents[..|parents|] == parents;
      assert children[p][..numchildren[p]] == children[p];
    }
  }

  /** The children array of `p` once the modules before `i` have been written. */
  ghost predicate Written(parents: seq<seq<nat>>, i: nat, p: nat, children: seq<nat>, numchildren: nat)
    requires i <= |parents|
  {
    var done := Inverse(parents[..i], p);
    numchildren == |done| && |children| == |Inverse(parents, p)| && numchildren <= |children| && children[..numchildren] == done
  }

  method FillParents(parents: seq<seq<nat>>, i: nat, children: seq<seq<nat>>, numchildren: seq<nat>)
    returns (children': seq<seq<nat>>, numchildren': seq<nat>)
    requires Ordered(parents) && i < |parents| == |children| == |numchildren|
    requires forall p | 0 <= p <= i :: Written(parents, i, p, children[p], numchildren[p])
    ensures |children'| == |numchildren'| == |parents|
    ensures forall p | i < p < |parents| :: children'[p] == children[p] && numchildren'[p] == numchildren[p]
    ensures forall p | 0 <= p <= i :: Written(parents, i + 1, p, children'[p], numchildren'[p])
  {
    hide Inverse, Count, Filled, Written;
    children', numchildren' := children, numchildren;
    forall p | 0 <= p <= i ensures Filled(parents, i, 0, p, children[p], numchildren[p]) {
      FilledFirst(parents, i, p, children[p], numchildren[p]);
    }
    for j := 0 to |parents[i]|
      invariant |children'| == |numchildren'| == |parents|
      invariant forall p | i < p < |parents| :: children'[p] == children[p] && numchildren'[p] == numchildren[p]
      invariant forall p | 0 <= p <= i :: Filled(parents, i, j, p, children'[p], numchildren'[p])
    {
      var t := parents[i][j];
      assert t < i;
      Room(parents, i, j, children'[t], numchildren'[t]);
      ghost var was, counts := children', numchildren';
      var row: seq<nat> := children'[t][numchildren'[t] := i];
      children' := children'[t := row];
      numchildren' := numchildren'[t := numchildren'[t] + 1];
      forall p | 0 <= p <= i ensures Filled(parents, i, j + 1, p, children'[p], numchildren'[p]) {
        FilledNext(parents, i, j, p, was[p], counts[p]);
      }
    }
    forall p | 0 <= p <= i ensures Written(parents, i + 1, p, children'[p], numchildren'[p]) {
      FilledLast(parents, i, p, children'[p], numchildren'[p]);
    }
  }

  lemma FilledFirst(parents: seq<seq<nat>>, i: nat, p: nat, children: seq<nat>, numchildren: nat)
    requires i < |parents| && Written(parents, i, p, children, numchildren)
    ensures Filled(parents, i, 0, p, children, numchildren)
  {
    hide Inverse;
    assert parents[i][..0] == [];
    assert Copies(i, 0) == [];
  }

  lemma FilledLast(parents: seq<seq<nat>>, i: nat, p: nat, children: seq<nat>, numchildren: nat)
    requires i < |parents| && Filled(parents, i, |parents[i]|, p, children, numchildren)
    ensures Written(parents, i + 1, p, children, numchildren)
  {
    assert parents[i][..|parents[i]|] == parents[i];
    InverseMore(parents, i, p);
    hide Inverse, Count;
  }

  /** The next write of a child stays inside the allocation. */
  lemma Room(parents: seq<seq<nat>>, i: nat, j: nat, children: seq<nat>, numchildren: nat)
    requires i < |parents| && j < |parents[i]| && Filled(parents, i, j, parents[i][j], children, numchildren)
    ensures numchildren < |children|
  {
    var t := parents[i][j];
    CountMore(parents[i], j, t);
    CountGrows(parents[i], j + 1, t);
    InverseMore(parents, i, t);
    InverseGrows(parents, i + 1, t);
    hide Inverse, Count;
  }

  lemma FilledNext(parents: seq<seq<nat>>, i: nat, j: nat, p: nat, children: seq<nat>, numchildren: nat)
    requires i < |parents| && j < |parents[i]| && Filled(parents, i, j, p, children, numchildren)
    requires parents[i][j] == p ==> numchildren < |children|
    ensures if parents[i][j] == p then Filled(parents, i, j + 1, p, children[numchildren := i], numchildren + 1)
            else Filled(parents, i, j + 1, p, children, numchildren)
  {
    CountMore(parents[i], j, p);
    hide Inverse, Count;
    if parents[i][j] == p {
      var n := Count(parents[i][..j], p);
      assert Copies(i, n + 1) == Copies(i, n) + [i];
      assert children[numchildren := i][..numchildren + 1] == children[..numchildren] + [i];
    }
  }

  // ---------------------------------------------------------------- loading and unloading

  /** The dependency records as the second pass leaves them. */
  ghost predicate GraphOk(names: seq<string>, parents: seq<seq<nat>>, children: seq<seq<nat>>) {
    && |names| == |parents| == |children| && Ordered(parents) && DistinctNames(names)
    && (forall i | 0 <= i < |names| :: CleanName(names[i]))
    && (forall p | 0 <= p < |parents| :: children[p] == Inverse(parents, p))
  }

  /** A loaded module's parents are loaded. */
  ghost predicate Closed(names: seq<string>, parents: seq<seq<nat>>, loaded: set<string>)
    requires Ordered(parents) && |names| == |parents|
  {
    forall i, j | 0 <= i < |parents| && 0 <= j < |parents[i]| && names[i] in loaded :: names[parents[i][j]] in loaded
  }

  lemma {:induction false} ClosedNeeds(names: seq<string>, parents: seq<seq<nat>>, loaded: set<string>, d: nat, a: nat)
    requires Ordered(parents) && |names| == |parents| && Closed(names, parents, loaded)
    requires Needs(parents, d, a) && names[d] in loaded
    ensures a < |names| && names[a] in loaded
    decreases d
  {
    if d != a {
      var j :| 0 <= j < |parents[d]| && Needs(parents, parents[d][j], a);
      ClosedNeeds(names, parents, loaded, parents[d][j], a);
    }
  }

  /** The module and everything it needs; just the name where there is no dependency record. */
  ghost function NeededBy(names: seq<string>, parents: seq<seq<nat>>, name: string): set<string>
    requires Ordered(parents) && |names| == |parents|
  {
    match Index(names, name)
    case None => {name}
    case Some(d) => set a | 0 <= a < |names| && Needs(parents, d, a) :: names[a]
  }

  /** The module and everything that needs it. */
  ghost function NeedingIt(names: seq<string>, parents: seq<seq<nat>>, name: string): set<string>
    requires Ordered(parents) && |names| == |parents|
  {
    match Index(names, name)
    case None => {name}
    case Some(a) => set d | 0 <= d < |names| && Needs(parents, d, a) :: names[d]
  }

  ghost function Names(loaded: seq<string>): set<string> {
    set i | 0 <= i < |loaded| :: loaded[i]
  }

  lemma NoNames(loaded: seq<string>)
    requires loaded == []
    ensures Names(loaded) == {}
  {
  }

  lemma NamesAppended(loaded: seq<string>, name: string)
    ensures Names(loaded + [name]) == Names(loaded) + {name}
  {
    var r := loaded + [name];
    assert r[|loaded|] == name;
    forall n | n in Names(loaded) ensures n in Names(r) {
      var i :| 0 <= i < |loaded| && loaded[i] == n;
      assert r[i] == n;
    }
  }

  /** array_delslot: the last module moves into the slot. */
  function DelSlot(loaded: seq<string>, i: nat): seq<string>
    requires i < |loaded|
  {
    var last := |loaded| - 1;
    if i == last then loaded[..last] else loaded[i := loaded[last]][..last]
  }

  lemma NamesDeleted(loaded: seq<string>, i: nat)
    requires i < |loaded| && DistinctNames(loaded)
    ensures Names(DelSlot(loaded, i)) == Names(loaded) - {loaded[i]} && DistinctNames(DelSlot(loaded, i))
    ensures forall n | n in DelSlot(loaded, i) :: n in loaded
  {
    var r, last := DelSlot(loaded, i), |loaded| - 1;
    assert forall k | 0 <= k < |r| :: r[k] == if k == i then loaded[last] else loaded[k];
    forall n | n in Names(loaded) - {loaded[i]} ensures n in Names(r) {
      var k :| 0 <= k < |loaded| && loaded[k] == n;
      assert r[if k == last then i else k] == n;
    }
  }

  lemma ClosedMore(names: seq<string>, parents: seq<seq<nat>>, children: seq<seq<nat>>, loaded: set<string>, name: string)
    requires GraphOk(names, parents, children) && Closed(names, parents, loaded)
    requires match Index(names, name)
             case Some(d) => forall j | 0 <= j < |parents[d]| :: names[parents[d][j]] in loaded
             case None => true
    ensures Closed(names, parents, loaded + {name})
  {
    hide Inverse;
    forall i, j | 0 <= i < |parents| && 0 <= j < |parents[i]| && names[i] in loaded + {name}
      ensures names[parents[i][j]] in loaded + {name}
    {
      if names[i] == name {
        IndexUnique(names, i);
      }
    }
  }

  /** What a parent needs, the module needs; and no parent needs the module. */
  lemma ParentNeeds(names: seq<string>, parents: seq<seq<nat>>, children: seq<seq<nat>>, d: nat, j: nat)
    requires GraphOk(names, parents, children) && d < |names| && j < |parents[d]|
    ensures NeededBy(names, parents, names[parents[d][j]]) <= NeededBy(names, parents, names[d])
    ensures names[d] !in NeededBy(names, parents, names[parents[d][j]])
  {
    hide Inverse;
    var p := parents[d][j];
    IndexUnique(names, d);
    IndexUnique(names, p);
    forall a: nat | a < |names| && Needs(parents, p, a) ensures Needs(parents, d, a) && names[a] != names[d] {
      NeedsEarlier(parents, p, a);
    }
  }

  lemma NeededByItself(names: seq<string>, parents: seq<seq<nat>>, children: seq<seq<nat>>, name: string)
    requires GraphOk(names, parents, children)
    ensures name in NeededBy(names, parents, name) && name in NeedingIt(names, parents, name)
  {
    match Index(names, name)
    case Some(d) => assert Needs(parents, d, d);
    case None =>
  }

  lemma NeededLoaded(names: seq<string>, parents: seq<seq<nat>>, children: seq<seq<nat>>, loaded: set<string>, name: string)
    requires GraphOk(names, parents, children) && Closed(names, parents, loaded) && name in loaded
    ensures NeededBy(names, parents, name) <= loaded
  {
    hide Inverse;
    match Index(names, name)
    case Some(d) =>
      forall a: nat | a < |names| && Needs(parents, d, a) ensures names[a] in loaded {
        ClosedNeeds(names, parents, loaded, d, a);
      }
    case None =>
  }

  function LoadRank(names: seq<string>, name: string): nat {
    match Index(names, name)
    case Some(d) => d + 1
    case None => 0
  }

  /** What needs a child of the module, needs the module; and the module needs none of its children. */
  lemma ChildNeeding(names: seq<string>, parents: seq<seq<nat>>, children: seq<seq<nat>>, d: nat, j: nat)
    requires GraphOk(names, parents, children) && d < |names| && j < |children[d]|
    ensures d < children[d][j] < |names|
    ensures NeedingIt(names, parents, names[children[d][j]]) <= NeedingIt(names, parents, names[d])
    ensures names[d] !in NeedingIt(names, parents, names[children[d][j]])
  {
    var c := children[d][j];
    InverseExact(parents, d);
    assert c in children[d];
    hide Inverse;
    var k :| 0 <= k < |parents[c]| && parents[c][k] == d;
    IndexUnique(names, d);
    IndexUnique(names, c);
    assert Needs(parents, d, d) && Needs(parents, c, d);
    forall i: nat | i < |names| && Needs(parents, i, c) ensures Needs(parents, i, d) && names[i] != names[d] {
      NeedsChain(parents, i, c, d);
      NeedsEarlier(parents, i, c);
    }
  }

  /** With no child loaded, nothing that needs the module is. */
  lemma LoneModule(names: seq<string>, parents: seq<seq<nat>>, children: seq<seq<nat>>, loaded: set<string>, d: nat)
    requires GraphOk(names, parents, children) && d < |names| && Closed(names, parents, loaded)
    requires forall j | 0 <= j < |children[d]| :: children[d][j] < |names| && names[children[d][j]] !in loaded
    ensures NeedingIt(names, parents, names[d]) * loaded <= {names[d]}
  {
    InverseExact(parents, d);
    hide Inverse;
    IndexUnique(names, d);
    forall i: nat | i < |names| && Needs(parents, i, d) && names[i] in loaded ensures i == d {
      if i != d {
        var c := NeedsChild(parents, i, d);
        assert c in children[d];
        ClosedNeeds(names, parents, loaded, i, c);
      }
    }
  }

  lemma AloneUnknown(names: seq<string>, parents: seq<seq<nat>>, children: seq<seq<nat>>, loaded: set<string>, name: string)
    requires GraphOk(names, parents, children) && Index(names, name).None?
    ensures NeedingIt(names, parents, name) * loaded <= {name}
  {
  }

  /** Taking away a module nothing loaded needs keeps the rest closed. */
  lemma ClosedLess(names: seq<string>, parents: seq<seq<nat>>, children: seq<seq<nat>>, loaded: set<string>, name: string)
    requires GraphOk(names, parents, children) && Closed(names, parents, loaded)
    requires NeedingIt(names, parents, name) * loaded <= {name}
    ensures Closed(names, parents, loaded - {name})
  {
    hide Inverse;
    forall i, j | 0 <= i < |parents| && 0 <= j < |parents[i]| && names[i] in loaded - {name}
      ensures names[parents[i][j]] in loaded - {name}
    {
      var p := parents[i][j];
      IndexUnique(names, p);
      assert Needs(parents, p, p) && Needs(parents, i, p);
      assert names[i] in NeedingIt(names, parents, names[p]);
    }
  }

  function UnloadRank(names: seq<string>, name: string): nat {
    match Index(names, name)
    case Some(d) => |names| - d
    case None => 0
  }

  /** The loaded modules that a reload of record `d` marks. */
  ghost predicate Marks(names: seq<string>, parents: seq<seq<nat>>, loaded: set<string>, d: nat, i: nat)
    requires Ordered(parents) && |names| == |parents|
  {
    i < |names| && names[i] in loaded && Needs(parents, i, d)
  }

  lemma NotLoadedMarksNothing(names: seq<string>, parents: seq<seq<nat>>, children: seq<seq<nat>>, loaded: set<string>, d: nat)
    requires GraphOk(names, parents, children) && Closed(names, parents, loaded) && d < |names| && names[d] !in loaded
    ensures forall i: nat :: !Marks(names, parents, loaded, d, i)
  {
    forall i: nat ensures !Marks(names, parents, loaded, d, i) {
      if Marks(names, parents, loaded, d, i) {
        ClosedNeeds(names, parents, loaded, i, d);
      }
    }
  }

  /** A module marks itself and what its children mark. */
  lemma MarksFromChildren(names: seq<string>, parents: seq<seq<nat>>, children: seq<seq<nat>>, loaded: set<string>, d: nat)
    requires GraphOk(names, parents, children) && d < |names| && names[d] in loaded
    ensures forall i: nat :: Marks(names, parents, loaded, d, i) <==>
              i == d || exists k :: 0 <= k < |children[d]| && Marks(names, parents, loaded, children[d][k], i)
  {
    InverseExact(parents, d);
    hide Inverse;
    assert Needs(parents, d, d);
    forall i: nat ensures Marks(names, parents, loaded, d, i) <==>
        i == d || exists k :: 0 <= k < |children[d]| && Marks(names, parents, loaded, children[d][k], i)
    {
      if Marks(names, parents, loaded, d, i) && i != d {
        var c := NeedsChild(parents, i, d);
        assert c in children[d];
        var k :| 0 <= k < |children[d]| && children[d][k] == c;
        assert Marks(names, parents, loaded, children[d][k], i);
      }
      if k :| 0 <= k < |children[d]| && Marks(names, parents, loaded, children[d][k], i) {
        var c := children[d][k];
        assert c in children[d];
        var j :| 0 <= j < |parents[c]| && parents[c][j] == d;
        assert Needs(parents, c, d);
        NeedsChain(parents, i, c, d);
      }
    }
  }

  lemma MarkedNames(names: seq<string>, parents: seq<seq<nat>>, children: seq<seq<nat>>, loaded: set<string>, d: nat)
    requires GraphOk(names, parents, children) && d < |names|
    ensures forall i: nat | i < |names| :: Marks(names, parents, loaded, d, i) <==>
              names[i] in loaded && names[i] in NeedingIt(names, parents, names[d])
  {
    hide Inverse;
    IndexUnique(names, d);
    forall i: nat | i < |names| ensures Marks(names, parents, loaded, d, i) <==>
        names[i] in loaded && names[i] in NeedingIt(names, parents, names[d])
    {
      IndexUnique(names, i);
    }
  }

  /** After the marked modules are back, everything is. */
  lemma AllBack(names: seq<string>, parents: seq<seq<nat>>, reloading: seq<bool>, before: set<string>, loaded: set<string>,
                m: string)
    requires Ordered(parents) && |names| == |parents| == |reloading|
    requires before - NeedingIt(names, parents, m) <= loaded && m in loaded
    requires forall i | 0 <= i < |names| && names[i] in before && names[i] in NeedingIt(names, parents, m) :: reloading[i]
    requires forall i | 0 <= i < |names| && reloading[i] :: names[i] in loaded
    ensures before <= loaded
  {
    forall n | n in before ensures n in loaded {
      if n in NeedingIt(names, parents, m) {
        match Index(names, m)
        case None =>
        case Some(a) =>
          var d :| 0 <= d < |names| && Needs(parents, d, a) && names[d] == n;
      }
    }
  }

  // ---------------------------------------------------------------- what the dynamic linker is asked

  datatype Dl = DlOpened(name: string) | DlRefused(name: string) | DlClosed(name: string)

  function Notes(ns: seq<string>, opening: bool): (r: seq<Dl>)
    ensures |r| == |ns|
  {
    seq(|ns|, i requires 0 <= i < |ns| => if opening then DlOpened(ns[i]) else DlClosed(ns[i]))
  }

  ghost predicate NotedAs(a: seq<Dl>, b: seq<Dl>, opening: bool, all: set<string>, ns: seq<string>) {
    b == a + Notes(ns, opening) && Names(ns) == all && DistinctNames(ns)
  }

  /** From `a` to `b` exactly the modules `all` were opened, or closed, each once. */
  ghost predicate Noted(a: seq<Dl>, b: seq<Dl>, opening: bool, all: set<string>) {
    exists ns :: NotedAs(a, b, opening, all, ns)
  }

  lemma NotedNone(a: seq<Dl>, opening: bool, all: set<string>)
    requires all == {}
    ensures Noted(a, a, opening, all)
  {
    assert NotedAs(a, a, opening, all, []);
  }

  lemma NotedOne(a: seq<Dl>, name: string, opening: bool)
    ensures Noted(a, a + [if opening then DlOpened(name) else DlClosed(name)], opening, {name})
  {
    assert [name][0] == name && Names([name]) == {name};
    assert Notes([name], opening) == [if opening then DlOpened(name) else DlClosed(name)];
    assert NotedAs(a, a + [if opening then DlOpened(name) else DlClosed(name)], opening, {name}, [name]);
  }

  lemma NotedChain(a: seq<Dl>, b: seq<Dl>, c: seq<Dl>, opening: bool, some: set<string>, more: set<string>)
    requires Noted(a, b, opening, some) && Noted(b, c, opening, more) && some !! more
    ensures Noted(a, c, opening, some + more)
  {
    var ns :| NotedAs(a, b, opening, some, ns);
    var ms :| NotedAs(b, c, opening, more, ms);
    assert Notes(ns + ms, opening) == Notes(ns, opening) + Notes(ms, opening);
    NamesJoined(ns, ms);
    assert NotedAs(a, c, opening, some + more, ns + ms);
  }

  lemma MoreOpened(a: seq<Dl>, b: seq<Dl>, c: seq<Dl>, s: set<string>, t: set<string>, u: set<string>)
    requires s <= t <= u && Noted(a, b, true, t - s) && Noted(b, c, true, u - t)
    ensures Noted(a, c, true, u - s)
  {
    NotedChain(a, b, c, true, t - s, u - t);
    assert (t - s) + (u - t) == u - s;
    hide Noted;
  }

  lemma MoreClosed(a: seq<Dl>, b: seq<Dl>, c: seq<Dl>, s: set<string>, t: set<string>, u: set<string>)
    requires u <= t <= s && Noted(a, b, false, s - t) && Noted(b, c, false, t - u)
    ensures Noted(a, c, false, s - u)
  {
    NotedChain(a, b, c, false, s - t, t - u);
    assert (s - t) + (t - u) == s - u;
    hide Noted;
  }

  lemma NamesJoined(ns: seq<string>, ms: seq<string>)
    requires DistinctNames(ns) && DistinctNames(ms) && Names(ns) !! Names(ms)
    ensures Names(ns + ms) == Names(ns) + Names(ms) && DistinctNames(ns + ms)
  {
    var r := ns + ms;
    forall i | 0 <= i < |ns| ensures r[i] == ns[i] && ns[i] in Names(ns) && r[i] in Names(r) {}
    forall i | 0 <= i < |ms| ensures r[|ns| + i] == ms[i] && ms[i] in Names(ms) && r[|ns| + i] in Names(r) {}
    forall n | n in Names(r) ensures n in Names(ns) + Names(ms) {
      var i :| 0 <= i < |r| && r[i] == n;
    }
    forall i, j | 0 <= i < j < |r| ensures r[i] != r[j] {
      if i < |ns| <= j {
        assert r[i] in Names(ns) && r[j] in Names(ms);
      }
    }
  }

  /** What a reload has the linker do: close `gone`, each once, and then open `come`, each once. */
  ghost predicate Reloaded(a: seq<Dl>, b: seq<Dl>, gone: set<string>, come: set<string>) {
    exists mid :: Noted(a, mid, false, gone) && Noted(mid, b, true, come)
  }

  /** Whatever the linker says, the modules `gone` are closed, each once, before anything is opened. */
  ghost predicate ClosedFirst(a: seq<Dl>, b: seq<Dl>, gone: set<string>) {
    exists mid :: mid <= b && Noted(a, mid, false, gone)
  }

  class Modules {
    var names: seq<string>
    var parents: seq<seq<nat>>
    var children: seq<seq<nat>>
    var reloading: seq<bool>
    var loaded: seq<string>       // the modules array, by name
    const opens: nat -> bool      // what each call of dlopen will say
    var tries: nat
    ghost var dl: seq<Dl>         // what the linker was asked so far

    ghost predicate Valid()
      reads this
    {
      && GraphOk(names, parents, children) && |reloading| == |names|
      && DistinctNames(loaded) && (forall i | 0 <= i < |loaded| :: CleanName(loaded[i]))
      && Closed(names, parents, Names(loaded))
    }

    constructor (opens: nat -> bool)
      ensures Valid() && loaded == [] && names == [] && this.opens == opens
    {
      this.opens := opens;
      names, parents, children, reloading, loaded, tries, dl := [], [], [], [], [], 0, [];
    }

    /** initmoduledeps on the lines of the file; where it gives up there are no records. Run before anything is
        loaded. */
    method InitModuleDeps(lines: seq<seq<string>>)
      requires Valid() && LinesOk(lines) && loaded == []
      modifies this`names, this`parents, this`children, this`reloading
      ensures Valid() && loaded == []
      ensures if |lines| <= MAXMODULES && ParentsKnown(lines)
              then names == Heads(lines) && forall k | 0 <= k < |lines| :: ParentsOf(lines, k, parents[k])
              else names == []
    {
      hide Inverse, Count;
      names, parents, children, reloading := [], [], [], [];
      var ok, ns, ps, counts := FirstPass(lines);
      if ok {
        assert Heads(lines)[..|lines|] == Heads(lines);
        children := SecondPass(ps, counts);
        names, parents := ns, ps;
        reloading := seq(|ns|, _ => false);
      }
    }

    method IsLoaded(name: string) returns (r: bool)
      ensures r <==> name in Names(loaded)
    {
      for i := 0 to |loaded|
        invariant name !in Names(loaded[..i])
      {
        if loaded[i] == name {
          return true;
        }
      }
      assert loaded[..|loaded|] == loaded;
      return false;
    }

    method GetIndex(name: string) returns (i: int)
      ensures if name in Names(loaded) then 0 <= i < |loaded| && loaded[i] == name else i == -1
    {
      i := 0;
      while i < |loaded|
        invariant 0 <= i <= |loaded| && forall k | 0 <= k < i :: loaded[k] != name
      {
        if loaded[i] == name {
          return;
        }
        i := i + 1;
      }
      i := -1;
    }

    /** insmod. Loads what the module needs and it has not got yet; when one of them fails to load, what was loaded
        before it stays. */
    method Insmod(modulename: string) returns (r: int)
      requires Valid()
      modifies this`loaded, this`tries, this`dl
      ensures Valid()
      ensures old(dl) <= dl && ((forall k :: opens(k)) ==> Noted(old(dl), dl, true, Names(loaded) - Names(old(loaded))))
      ensures Names(old(loaded)) <= Names(loaded)
      ensures Names(loaded) <= Names(old(loaded)) + NeededBy(names, parents, Sanitised(modulename))
      ensures Sanitised(modulename) in Names(old(loaded)) || |Sanitised(modulename)| > NAMELEN ==>
                loaded == old(loaded) && dl == old(dl) && tries == old(tries)
      ensures r == 0 <==> Sanitised(modulename) in Names(loaded) && Sanitised(modulename) !in Names(old(loaded))
      ensures r == 0 ==> Names(loaded) == Names(old(loaded)) + NeededBy(names, parents, Sanitised(modulename))
      ensures (forall k :: opens(k)) && |Sanitised(modulename)| <= NAMELEN && Sanitised(modulename) !in Names(old(loaded)) ==> r == 0
      decreases LoadRank(names, Sanitised(modulename)), 1
    {
      hide Sanitised, NeededBy, Inverse, Closed, GraphOk, DistinctNames, Names, Noted;
      NotedNone(dl, true, Names(loaded) - Names(loaded));
      var modulebuf := Sanitised(modulename);
      var already := IsLoaded(modulebuf);
      if already {
        return 1;
      }
      if |modulebuf| > NAMELEN {
        return 1;
      }
      match Index(names, modulebuf) {
        case Some(d) =>
          var ok := LoadParents(d);
          if !ok {
            return 1;
          }
        case None =>
      }
      ghost var there, asked := Names(loaded), dl;
      NotedOne(dl, modulebuf, true);
      var success := DlOpen(modulebuf);
      if !success {
        return -1;
      }
      ClosedMore(names, parents, children, Names(loaded), modulebuf);
      NeededByItself(names, parents, children, modulebuf);
      Append(modulebuf);
      NeededLoaded(names, parents, children, Names(loaded), modulebuf);
      if forall k :: opens(k) {
        NotedChain(old(dl), asked, dl, true, there - Names(old(loaded)), {modulebuf});
        assert there - Names(old(loaded)) + {modulebuf} == Names(loaded) - Names(old(loaded));
      }
      return 0;
    }

    method DlOpen(name: string) returns (success: bool)
      modifies this`tries, this`dl
      ensures success == opens(old(tries)) && dl == old(dl) + [if success then DlOpened(name) else DlRefused(name)]
    {
      success := opens(tries);
      tries := tries + 1;
      dl := dl + [if success then DlOpened(name) else DlRefused(name)];
    }

    /** A new name at the end of the modules array. */
    method Append(name: string)
      requires Valid() && CleanName(name) && name !in Names(loaded) && Closed(names, parents, Names(loaded) + {name})
      modifies this`loaded
      ensures Valid() && Names(loaded) == Names(old(loaded)) + {name}
    {
      hide Closed, GraphOk;
      NamesAppended(loaded, name);
      loaded := loaded + [name];
    }

    /** The parents that are not there yet are loaded first. */
    method LoadParents(d: nat) returns (ok: bool)
      requires Valid() && d < |names| && names[d] !in Names(loaded)
      modifies this`loaded, this`tries, this`dl
      ensures Valid() && d < |parents|
      ensures old(dl) <= dl && ((forall k :: opens(k)) ==> Noted(old(dl), dl, true, Names(loaded) - Names(old(loaded))))
      ensures Names(old(loaded)) <= Names(loaded) <= Names(old(loaded)) + NeededBy(names, parents, names[d])
      ensures names[d] !in Names(loaded)
      ensures ok ==> forall j | 0 <= j < |parents[d]| :: parents[d][j] < |names| && names[parents[d][j]] in Names(loaded)
      ensures (forall k :: opens(k)) ==> ok
      decreases d + 1, 0
    {
      hide NeededBy, Inverse, Closed, GraphOk, DistinctNames, Names, CleanName, Noted;
      GraphFacts(d);
      NotedNone(dl, true, Names(loaded) - Names(loaded));
      for i := 0 to |parents[d]|
        invariant Valid() && names[d] !in Names(loaded)
        invariant old(dl) <= dl && ((forall k :: opens(k)) ==> Noted(old(dl), dl, true, Names(loaded) - Names(old(loaded))))
        invariant Names(old(loaded)) <= Names(loaded) <= Names(old(loaded)) + NeededBy(names, parents, names[d])
        invariant forall j | 0 <= j < i :: names[parents[d][j]] in Names(loaded)
      {
        var p := parents[d][i];
        GraphFacts(p);
        ParentNeeds(names, parents, children, d, i);
        var there := IsLoaded(names[p]);
        if !there {
          ghost var had, asked := Names(loaded), dl;
          var r := Insmod(names[p]);
          if forall k :: opens(k) {
            MoreOpened(old(dl), asked, dl, Names(old(loaded)), had, Names(loaded));
          }
          if r != 0 {
            return false;
          }
        }
      }
      ok := true;
    }

    /** What the graph says about one record. */
    ghost method GraphFacts(d: nat)
      requires Valid() && d < |names|
      ensures |names| == |parents| == |children| && Ordered(parents) && Sanitised(names[d]) == names[d] && |names[d]| <= NAMELEN
      ensures Index(names, names[d]) == Some(d)
      ensures forall j | 0 <= j < |parents[d]| :: parents[d][j] < d
      ensures children[d] == Inverse(parents, d)
    {
      hide Inverse, Closed;
      assert CleanName(names[d]);
      SanitisedAgain(names[d]);
      IndexUnique(names, d);
    }

    /** rmmod. Everything loaded that needs the module goes first; the rest stays. */
    method Rmmod(modulename: string) returns (r: int)
      requires Valid()
      modifies this`loaded, this`dl
      ensures Valid()
      ensures old(dl) <= dl && Noted(old(dl), dl, false, Names(old(loaded)) - Names(loaded))
      ensures r == 0 <==> Sanitised(modulename) in Names(old(loaded))
      ensures r == 0 ==> Names(loaded) == Names(old(loaded)) - NeedingIt(names, parents, Sanitised(modulename))
      ensures r != 0 ==> loaded == old(loaded)
      decreases UnloadRank(names, Sanitised(modulename)), 1
    {
      hide Sanitised, NeedingIt, Inverse, Closed, GraphOk, DistinctNames, Names, CleanName, Noted;
      NotedNone(dl, false, Names(loaded) - Names(loaded));
      var modulebuf := Sanitised(modulename);
      NeededByItself(names, parents, children, modulebuf);
      var i := GetIndex(modulebuf);
      if i < 0 {
        return 1;
      }
      match Index(names, modulebuf) {
        case Some(d) =>
          RemoveChildren(d);
          i := GetIndex(modulebuf);
        case None =>
          AloneUnknown(names, parents, children, Names(loaded), modulebuf);
      }
      ghost var left, asked := Names(loaded), dl;
      RemoveAt(i);
      NotedOne(asked, modulebuf, false);
      NotedChain(old(dl), asked, dl, false, Names(old(loaded)) - left, {modulebuf});
      assert (Names(old(loaded)) - left) + {modulebuf} == Names(old(loaded)) - Names(loaded);
      return 0;
    }

    method RemoveAt(i: nat)
      requires Valid() && i < |loaded| && NeedingIt(names, parents, loaded[i]) * Names(loaded) <= {loaded[i]}
      modifies this`loaded, this`dl
      ensures Valid() && Names(loaded) == Names(old(loaded)) - {old(loaded)[i]}
      ensures dl == old(dl) + [DlClosed(old(loaded)[i])]
    {
      hide GraphOk, Closed, CleanName;
      dl := dl + [DlClosed(loaded[i])];
      ClosedLess(names, parents, children, Names(loaded), loaded[i]);
      NamesDeleted(loaded, i);
      loaded := DelSlot(loaded, i);
    }

    /** The loaded children go first. */
    method RemoveChildren(d: nat)
      requires Valid() && d < |names| && names[d] in Names(loaded)
      modifies this`loaded, this`dl
      ensures Valid() && names[d] in Names(loaded)
      ensures old(dl) <= dl && Noted(old(dl), dl, false, Names(old(loaded)) - Names(loaded))
      ensures Names(loaded) <= Names(old(loaded))
      ensures Names(old(loaded)) - NeedingIt(names, parents, names[d]) <= Names(loaded)
      ensures NeedingIt(names, parents, names[d]) * Names(loaded) <= {names[d]}
      decreases |names| - d, 0
    {
      hide NeedingIt, Inverse, Closed, GraphOk, DistinctNames, Names, CleanName, Noted;
      GraphFacts(d);
      NotedNone(dl, false, Names(loaded) - Names(loaded));
      for j := 0 to |children[d]|
        invariant Valid() && names[d] in Names(loaded)
        invariant old(dl) <= dl && Noted(old(dl), dl, false, Names(old(loaded)) - Names(loaded))
        invariant Names(loaded) <= Names(old(loaded))
        invariant Names(old(loaded)) - NeedingIt(names, parents, names[d]) <= Names(loaded)
        invariant forall k | 0 <= k < j :: children[d][k] < |names| && names[children[d][k]] !in Names(loaded)
      {
        var c := children[d][j];
        ChildNeeding(names, parents, children, d, j);
        GraphFacts(c);
        NeededByItself(names, parents, children, names[c]);
        var there := IsLoaded(names[c]);
        if there {
          ghost var had, asked := Names(loaded), dl;
          var r := Rmmod(names[c]);
          MoreClosed(old(dl), asked, dl, Names(old(loaded)), had, Names(loaded));
          if r != 0 {
            assert false;
          }
        }
      }
      LoneModule(names, parents, children, Names(loaded), d);
    }

    /** newserv_shutdown: unloads the first module until there is none. */
    method Shutdown()
      requires Valid()
      modifies this`loaded, this`names, this`parents, this`children, this`reloading, this`dl
      ensures Valid() && loaded == [] && names == []
      ensures Noted(old(dl), dl, false, Names(old(loaded)))
    {
      hide NeedingIt, Inverse, Closed, GraphOk, DistinctNames, Names, CleanName, Sanitised, Noted;
      NotedNone(dl, false, Names(loaded) - Names(loaded));
      while loaded != []
        invariant Valid() && Names(loaded) <= Names(old(loaded))
        invariant Noted(old(dl), dl, false, Names(old(loaded)) - Names(loaded))
        decreases Names(loaded)
      {
        LoadedFacts(0);
        NeededByItself(names, parents, children, loaded[0]);
        ghost var had, asked := Names(loaded), dl;
        var r := Rmmod(loaded[0]);
        MoreClosed(old(dl), asked, dl, Names(old(loaded)), had, Names(loaded));
      }
      NoNames(loaded);
      assert Names(old(loaded)) - {} == Names(old(loaded));
      ClearModuleDeps();
    }

    method ClearModuleDeps()
      requires Valid()
      modifies this`names, this`parents, this`children, this`reloading
      ensures Valid() && names == []
    {
      hide Inverse;
      names, parents, children, reloading := [], [], [], [];
    }

    ghost method LoadedFacts(i: nat)
      requires Valid() && i < |loaded|
      ensures Sanitised(loaded[i]) == loaded[i] && loaded[i] in Names(loaded)
    {
      hide GraphOk, Closed;
      assert CleanName(loaded[i]);
      SanitisedAgain(loaded[i]);
    }

    /** setreloadmark: the module and all its loaded descendants. A module that is not loaded ends the descent, and
        loses nothing, since nothing loaded needs it. */
    method SetReloadMark(d: nat)
      requires Valid() && d < |names|
      modifies this`reloading
      ensures Valid() && Ordered(parents) && |names| == |parents|
      ensures forall i | 0 <= i < |names| ::
                reloading[i] <==> old(reloading[i]) || Marks(names, parents, Names(loaded), d, i)
      decreases |names| - d
    {
      hide Inverse, Closed, GraphOk, DistinctNames, Names, CleanName, Marks;
      GraphFacts(d);
      var there := IsLoaded(names[d]);
      if !there {
        NotLoadedMarksNothing(names, parents, children, Names(loaded), d);
        return;
      }
      for k := 0 to |children[d]|
        invariant Valid() && |reloading| == |names|
        invariant forall i | 0 <= i < |names| :: reloading[i] <==>
                    old(reloading[i]) || exists m :: 0 <= m < k && Marks(names, parents, Names(loaded), children[d][m], i)
      {
        ghost var was := reloading;
        ChildNeeding(names, parents, children, d, k);
        SetReloadMark(children[d][k]);
        forall i | 0 <= i < |names| ensures reloading[i] <==>
            old(reloading[i]) || exists m :: 0 <= m < k + 1 && Marks(names, parents, Names(loaded), children[d][m], i)
        {
          assert reloading[i] <==> was[i] || Marks(names, parents, Names(loaded), children[d][k], i);
        }
      }
      MarksFromChildren(names, parents, children, Names(loaded), d);
      Mark(d);
    }

    method Mark(d: nat)
      requires Valid() && d < |names|
      modifies this`reloading
      ensures Valid() && reloading == old(reloading)[d := true]
    {
      hide Inverse, Closed, GraphOk;
      reloading := reloading[d := true];
    }

    /** preparereload: marks exactly what removing the module would unload. */
    method PrepareReload(modulename: string)
      requires Valid()
      modifies this`reloading
      ensures Valid() && Ordered(parents) && |names| == |parents|
      ensures forall i | 0 <= i < |names| :: reloading[i] <==>
                && Sanitised(modulename) in Names(loaded) && names[i] in Names(loaded)
                && names[i] in NeedingIt(names, parents, Sanitised(modulename))
    {
      hide Inverse, Closed, Sanitised;
      reloading := seq(|names|, _ => false);
      var modulebuf := Sanitised(modulename);
      var at := GetIndex(modulebuf);
      if at < 0 {
        return;
      }
      match Index(names, modulebuf) {
        case Some(d) =>
          SetReloadMark(d);
          MarkedNames(names, parents, children, Names(loaded), d);
        case None =>
      }
    }

    /** reloadmarked, after a removal: `before` is what was loaded in the beginning. */
    method ReloadMarked(ghost before: set<string>)
      requires Valid() && Ordered(parents) && |names| == |parents| && Closed(names, parents, before)
      requires Names(loaded) <= before
      requires forall i | 0 <= i < |names| && reloading[i] :: names[i] in before
      modifies this`loaded, this`tries, this`dl
      ensures Valid() && Names(old(loaded)) <= Names(loaded) <= before
      ensures old(dl) <= dl && ((forall k :: opens(k)) ==> Noted(old(dl), dl, true, Names(loaded) - Names(old(loaded))))
      ensures (forall k :: opens(k)) ==> forall i | 0 <= i < |names| && reloading[i] :: names[i] in Names(loaded)
    {
      hide Inverse, Closed, GraphOk, DistinctNames, Names, CleanName, NeededBy, Sanitised, Noted;
      NotedNone(dl, true, Names(loaded) - Names(loaded));
      for i := 0 to |names|
        invariant Valid() && Names(old(loaded)) <= Names(loaded) <= before
        invariant old(dl) <= dl && ((forall k :: opens(k)) ==> Noted(old(dl), dl, true, Names(loaded) - Names(old(loaded))))
        invariant (forall k :: opens(k)) ==> forall j | 0 <= j < i && reloading[j] :: names[j] in Names(loaded)
      {
        GraphFacts(i);
        if reloading[i] {
          NeededLoaded(names, parents, children, before, names[i]);
          ghost var had, asked := Names(loaded), dl;
          var r := Insmod(names[i]);
          if forall k :: opens(k) {
            MoreOpened(old(dl), asked, dl, Names(old(loaded)), had, Names(loaded));
          }
        }
      }
    }

    /** safereloadcallback. Whatever dlopen says, the module and everything loaded that needs it is closed once, and what is
        loaded afterwards is no more than the module needs beyond what was loaded. If every dlopen succeeds, what was closed
        is opened again, once each, and what the module needs is loaded, also for a module that was not; so reloading a
        loaded module changes nothing of what is loaded. */
    method SafeReload(modulename: string)
      requires Valid()
      modifies this`loaded, this`tries, this`reloading, this`dl
      ensures Valid() && Ordered(parents) && |names| == |parents|
      ensures Names(loaded) <= Names(old(loaded)) + NeededBy(names, parents, Sanitised(modulename))
      ensures Names(old(loaded)) - NeedingIt(names, parents, Sanitised(modulename)) <= Names(loaded)
      ensures ClosedFirst(old(dl), dl, Affected(old(loaded), modulename))
      ensures (forall k :: opens(k)) ==>
                && Names(loaded) == Names(old(loaded)) + (if |Sanitised(modulename)| <= NAMELEN
                                                          then NeededBy(names, parents, Sanitised(modulename)) else {})
                && Reloaded(old(dl), dl, Affected(old(loaded), modulename),
                            Affected(old(loaded), modulename) + (Names(loaded) - Names(old(loaded))))
      ensures (forall k :: opens(k)) && Sanitised(modulename) in Names(old(loaded)) ==> Names(loaded) == Names(old(loaded))
    {
      hide Inverse, Closed, GraphOk, DistinctNames, Names, NeededBy, NeedingIt, Sanitised, Noted;
      ghost var m, before, asked, gone := Sanitised(modulename), Names(loaded), dl, Affected(loaded, modulename);
      GraphShape();
      LoadedLength(m);
      NeededByItself(names, parents, children, m);
      PrepareReload(modulename);
      var r := Rmmod(modulename);
      ghost var closed, left := dl, Names(loaded);
      assert before - left == gone;
      r := Insmod(modulename);
      ghost var reopened, there := dl, Names(loaded);
      if m in before {
        NeededLoaded(names, parents, children, before, m);
      }
      ReloadMarked(if m in before then before else there);
      if forall k :: opens(k) {
        if m in before {
          AllBack(names, parents, reloading, before, Names(loaded), m);
        }
        NotedChain(closed, reopened, dl, true, there - left, Names(loaded) - there);
        assert (there - left) + (Names(loaded) - there) == gone + (Names(loaded) - before);
      }
    }

    /** The module and what needs it, of what is loaded; nothing where the module is not. */
    ghost function Affected(loaded: seq<string>, modulename: string): set<string>
      requires Valid()
      reads this
    {
      if Sanitised(modulename) in Names(loaded) then NeedingIt(names, parents, Sanitised(modulename)) * Names(loaded) else {}
    }

    ghost method GraphShape()
      requires Valid()
      ensures Ordered(parents) && |names| == |parents| == |children| == |reloading| && Closed(names, parents, Names(loaded))
      ensures GraphOk(names, parents, children)
    {
      hide Inverse, Closed;
    }

    ghost method LoadedLength(m: string)
      requires Valid()
      ensures m in Names(loaded) ==> |m| <= NAMELEN
    {
      hide GraphOk, Closed;
    }
  }
}
