/** The line editor of helpmod2/hed.c: sixteen fixed line buffers threaded on three linked lists, and the commands
    that relink them. */
module LineEditor {

  const BUFFERLINES := 16  // HED_BUFFER_LINES
  const MAXLINE := 382     // what fits a 384-byte line, as the editor checks it

  // ---------------------------------------------------------------- the linked lists

  class Line {
    var text: string
    var next: Line?

    constructor ()
      ensures text == "" && next == null
    {
      text, next := "", null;
    }
  }

  /** The node at a place, or null behind the end. */
  ghost function At(c: seq<Line>, i: nat): Line? {
    if i < |c| then c[i] else null
  }

  /** The nodes `c`, in order, are the list starting at `head`. */
  ghost predicate Chain(head: Line?, c: seq<Line>)
    reads c`next
  {
    head == At(c, 0) && forall i | 0 <= i < |c| :: c[i].next == At(c, i + 1)
  }

  ghost predicate NoRepeats(c: seq<Line>) {
    forall i, j | 0 <= i < j < |c| :: c[i] != c[j]
  }

  function Spliced(c: seq<Line>, pos: nat, b: seq<Line>): seq<Line>
    requires pos <= |c|
  {
    c[..pos] + b + c[pos..]
  }

  lemma SplicedAt(c: seq<Line>, pos: nat, b: seq<Line>)
    requires pos <= |c|
    ensures var r := Spliced(c, pos, b);
            && |r| == |c| + |b|
            && forall i | 0 <= i < |r| :: r[i] == if i < pos then c[i] else if i < pos + |b| then b[i - pos] else c[i - |b|]
  {
  }

  /** The walk to the node before a place; null in front of the first. */
  method NodeBefore(head: Line?, pos: nat, ghost c: seq<Line>) returns (prev: Line?)
    requires Chain(head, c) && pos <= |c|
    ensures prev == if pos == 0 then null else c[pos - 1]
  {
    prev := null;
    var ptr := head;
    for i := 0 to pos
      invariant ptr == At(c, i) && prev == if i == 0 then null else c[i - 1]
    {
      prev := ptr;
      ptr := ptr.next;
    }
  }

  method LastNode(head: Line, ghost c: seq<Line>) returns (last: Line)
    requires Chain(head, c)
    ensures c != [] && last == c[|c| - 1]
  {
    last := head;
    ghost var i: nat := 0;
    while last.next != null
      invariant i < |c| && last == c[i]
      decreases |c| - i
    {
      last := last.next;
      i := i + 1;
    }
  }

  /** The list `b` is linked into the list `c`; every relinking of the editor is one of these. */
  method Splice(head: Line?, pos: nat, bhead: Line?, ghost c: seq<Line>, ghost b: seq<Line>) returns (head': Line?)
    requires Chain(head, c) && Chain(bhead, b) && pos <= |c| && NoRepeats(c + b)
    modifies c`next, b`next
    ensures Chain(head', Spliced(c, pos, b))
  {
    head' := head;
    if bhead == null {
      assert Spliced(c, pos, b) == c;
      return;
    }
    var prev := NodeBefore(head, pos, c);
    var last := LastNode(bhead, b);
    Link(head, prev, bhead, last, pos, c, b);
    if prev == null {
      head' := bhead;
    }
  }

  method Link(head: Line?, prev: Line?, bhead: Line, last: Line, pos: nat, ghost c: seq<Line>, ghost b: seq<Line>)
    requires Chain(head, c) && Chain(bhead, b) && pos <= |c| && NoRepeats(c + b)
    requires b != [] && last == b[|b| - 1] && prev == (if pos == 0 then null else c[pos - 1])
    modifies c`next, b`next
    ensures Chain(if prev == null then bhead else head, Spliced(c, pos, b))
  {
    hide Spliced;
    Apart(c, b);
    assert last in b && (prev != null ==> prev in c);
    assert prev != null ==> prev.next == At(c, pos);
    if prev == null {
      last.next := head;
    } else {
      last.next := prev.next;
      prev.next := bhead;
    }
    assert last.next == At(c, pos);
    LinksSpliced(c, pos, b);
  }

  lemma LinksSpliced(c: seq<Line>, pos: nat, b: seq<Line>)
    requires pos <= |c| && b != []
    requires forall i | 0 <= i < |c| && i != pos - 1 :: c[i].next == At(c, i + 1)
    requires pos > 0 ==> c[pos - 1].next == b[0]
    requires forall j | 0 <= j < |b| - 1 :: b[j].next == At(b, j + 1)
    requires b[|b| - 1].next == At(c, pos)
    ensures forall i | 0 <= i < |Spliced(c, pos, b)| :: Spliced(c, pos, b)[i].next == At(Spliced(c, pos, b), i + 1)
    ensures At(Spliced(c, pos, b), 0) == if pos == 0 then b[0] else At(c, 0)
  {
    SplicedAt(c, pos, b);
    hide Spliced;
    var r := Spliced(c, pos, b);
    forall i | 0 <= i < |r| ensures r[i].next == At(r, i + 1) {
      if i < pos {
        assert r[i] == c[i];
      } else if i < pos + |b| {
        assert r[i] == b[i - pos];
      } else {
        assert r[i] == c[i - |b|] && At(r, i + 1) == At(c, i - |b| + 1);
      }
    }
  }

  lemma Apart(c: seq<Line>, b: seq<Line>)
    requires NoRepeats(c + b)
    ensures NoRepeats(c) && NoRepeats(b)
    ensures forall i, j | 0 <= i < |c| && 0 <= j < |b| :: c[i] != b[j]
  {
    var s := c + b;
    forall i, j | 0 <= i < |c| && 0 <= j < |b| ensures c[i] != b[j] {
      assert s[i] == c[i] && s[|c| + j] == b[j];
    }
    forall i, j | 0 <= i < j < |c| ensures c[i] != c[j] {
      assert s[i] == c[i] && s[j] == c[j];
    }
    forall i, j | 0 <= i < j < |b| ensures b[i] != b[j] {
      assert s[|c| + i] == b[i] && s[|c| + j] == b[j];
    }
  }

  function Without(c: seq<Line>, pos: nat): (r: seq<Line>)
    requires pos < |c|
    ensures |r| == |c| - 1 && forall i | 0 <= i < |r| :: r[i] == if i < pos then c[i] else c[i + 1]
  {
    c[..pos] + c[pos + 1..]
  }

  /** One node is taken out of a list. */
  method Unlink(head: Line?, pos: nat, ghost c: seq<Line>) returns (head': Line?, node: Line)
    requires Chain(head, c) && pos < |c| && NoRepeats(c)
    modifies c`next
    ensures node == c[pos] && node.next == null && Chain(head', Without(c, pos))
  {
    var prev := NodeBefore(head, pos, c);
    head' := head;
    if prev == null {
      node := head;
      head' := node.next;
    } else {
      node := prev.next;
      prev.next := node.next;
    }
    node.next := null;
    ghost var r := Without(c, pos);
    forall i | 0 <= i < |r| ensures r[i].next == At(r, i + 1) {
      if i < pos {
        assert r[i] == c[i] && c[i] != c[pos] && (i < pos - 1 ==> c[i] != c[pos - 1]);
      } else {
        assert r[i] == c[i + 1] && c[i + 1] != c[pos] && (prev != null ==> c[i + 1] != c[pos - 1]);
      }
    }
  }

  // ---------------------------------------------------------------- what the editor means

  datatype State = Command | InputInsert | InputAppend

  datatype EdError =
    | NoError | NoCommand | SyntaxError | UnknownCommand | CommandNotSupported | InvalidArgument
    | LineTooLong | BufferFull | ClipboardEmpty | Unsaved

  /** The editor as its user sees it; `line` counts from 0. */
  datatype Ed = Ed(text: seq<string>, clip: seq<string>, line: int, state: State, verbose: bool, unsaved: bool, error: EdError)

  /** A parsed command line: a letter and the lines it names, counted from 0. */
  datatype Request = Nothing | Garbled | WriteQuit | Cmd(letter: char, start: int, stop: int, target: int)

  function Fail(ed: Ed, error: EdError): Ed {
    ed.(error := error)
  }

  function Done(ed: Ed, start: int): Ed {
    ed.(line := start, error := NoError)
  }

  predicate Range(ed: Ed, start: int, stop: int) {
    0 <= start <= stop < |ed.text|
  }

  /** `n` lines go from the text to the end of the clipboard. */
  function Deleted(ed: Ed, start: nat, n: nat): Ed
    requires start + n <= |ed.text|
  {
    ed.(text := ed.text[..start] + ed.text[start + n..], clip := ed.clip + ed.text[start..start + n],
        unsaved := ed.unsaved || n > 0)
  }

  function Pasted(ed: Ed, pos: nat): Ed
    requires pos <= |ed.text|
  {
    ed.(text := ed.text[..pos] + ed.clip + ed.text[pos..], clip := [], unsaved := true)
  }

  /** A new line at a place, or behind the last one; the clipboard is forgotten. */
  function Added(ed: Ed, pos: nat, s: string): Ed {
    var at := if pos <= |ed.text| then pos else |ed.text|;
    ed.(text := ed.text[..at] + [s] + ed.text[at..], clip := [], unsaved := true)
  }

  function JoinedLines(ed: Ed, start: nat, stop: nat): Ed
    requires start < |ed.text| && stop < |ed.text|
  {
    Deleted(ed.(text := ed.text[start := ed.text[start] + ed.text[stop]]), stop, 1)
  }

  predicate MoveOk(ed: Ed, start: int, stop: int, target: int) {
    Range(ed, start, stop) && 0 <= target < |ed.text| - (stop - start) && !(start <= target <= stop)
  }

  function Moved(ed: Ed, start: int, stop: int, target: int): Ed
    requires MoveOk(ed, start, stop, target)
  {
    Pasted(Deleted(ed, start, stop - start + 1), if target > start then target - (stop - start) else target)
  }

  /** A command, in command state; closing the editor gives None. */
  datatype Outcome = Open(ed: Ed) | Closed

  function Commanded(ed: Ed, r: Request): Outcome {
    match r
    case Nothing => Open(Fail(ed, NoCommand))
    case Garbled => Open(Fail(ed, SyntaxError))
    case WriteQuit => Closed
    case Cmd(letter, start, stop, target) =>
      match letter
      case 'a' =>
        if |ed.text| == BUFFERLINES then Open(Fail(ed, BufferFull))
        else if start < 0 || stop > |ed.text| || start > stop then Open(Fail(ed, InvalidArgument))
        else Open(Done(ed.(state := InputAppend), start))
      case 'i' =>
        if |ed.text| == BUFFERLINES then Open(Fail(ed, BufferFull))
        else if !Range(ed, start, stop) then Open(Fail(ed, InvalidArgument))
        else Open(Done(ed.(state := InputInsert), start))
      case 'c' =>
        if !Range(ed, start, stop) then Open(Fail(ed, InvalidArgument))
        else Open(Done(Deleted(ed, start, 1).(state := InputInsert), start))
      case 'd' =>
        if !Range(ed, start, stop) then Open(Fail(ed, InvalidArgument))
        else Open(Done(Deleted(ed, start, stop - start + 1), start))
      case 'f' => Open(Done(ed, start))
      case 'h' => Open(Done(ed, start))
      case '=' => Open(Done(ed, start))
      case 'H' => Open(Done(ed.(verbose := !ed.verbose), start))
      case 'j' => Joining(ed, start, stop)
      case 'l' => Printed(ed, start, stop)
      case 'p' => Printed(ed, start, stop)
      case 'n' => Printed(ed, start, stop)
      case 'm' =>
        if !MoveOk(ed, start, stop, target) then Open(Fail(ed, InvalidArgument))
        else Open(Done(Moved(ed, start, stop, target), start))
      case 'q' => if ed.unsaved then Open(Fail(ed.(unsaved := false), Unsaved)) else Closed
      case 'Q' => Closed
      case 'w' => Open(Done(ed.(unsaved := false), start))
      case 'x' =>
        if !(0 <= start < |ed.text|) then Open(Fail(ed, InvalidArgument))
        else if ed.clip == [] then Open(Fail(ed, ClipboardEmpty))
        else Open(Done(Pasted(ed, start), start))
      case 'e' => Open(Fail(ed, CommandNotSupported))
      case 'E' => Open(Fail(ed, CommandNotSupported))
      case 'r' => Open(Fail(ed, CommandNotSupported))
      case _ => Open(Fail(ed, UnknownCommand))
  }

  function Joining(ed: Ed, start: int, stop: int): Outcome {
    if !(0 <= start < |ed.text|) || !(0 <= stop < |ed.text|) || start == stop then Open(Fail(ed, InvalidArgument))
    else if |ed.text[start]| + |ed.text[stop]| > MAXLINE then Open(Fail(ed, LineTooLong))
    else Open(Done(JoinedLines(ed, start, stop), start))
  }

  function Printed(ed: Ed, start: int, stop: int): Outcome {
    if start < 0 || stop >= |ed.text| then Open(Fail(ed, InvalidArgument)) else Open(Done(ed, start))
  }

  /** A line typed in one of the input states. */
  function Typed(ed: Ed, s: string): Ed
    requires ed.state != Command && 0 <= ed.line
  {
    if s == "." then ed.(state := Command)
    else if |ed.text| >= BUFFERLINES then ed.(state := Command, error := BufferFull)
    else if |s| > MAXLINE then Fail(ed, LineTooLong)
    else if ed.state == InputInsert then Done(Added(ed, ed.line, s), ed.line + 1)
    else
      // the last line is handled specially
      var line := if ed.line == BUFFERLINES - 1 then ed.line - 1 else ed.line;
      Done(Added(ed, line + 1, s), line + 1)
  }

  /** The lines fit the buffers, and each fits its own. */
  ghost predicate Fit(text: seq<string>, clip: seq<string>) {
    && |text| + |clip| <= BUFFERLINES
    && (forall l | l in text :: |l| <= MAXLINE)
    && (forall l | l in clip :: |l| <= MAXLINE)
  }

  /** What holds between commands: everything fits, and while lines are being typed the current line is one there is,
      or the one behind the last. */
  ghost predicate Ok(ed: Ed) {
    Fit(ed.text, ed.clip) && (ed.state != Command ==> 0 <= ed.line <= |ed.text|)
  }

  lemma DeletedFit(ed: Ed, start: nat, n: nat)
    requires start + n <= |ed.text| && Fit(ed.text, ed.clip)
    ensures Fit(Deleted(ed, start, n).text, Deleted(ed, start, n).clip) && |Deleted(ed, start, n).text| == |ed.text| - n
    ensures multiset(Deleted(ed, start, n).text) + multiset(Deleted(ed, start, n).clip) == multiset(ed.text) + multiset(ed.clip)
  {
    var t := ed.text;
    assert t == t[..start] + t[start..start + n] + t[start + n..];
  }

  lemma PastedFit(ed: Ed, pos: nat)
    requires pos <= |ed.text| && Fit(ed.text, ed.clip)
    ensures Fit(Pasted(ed, pos).text, []) && multiset(Pasted(ed, pos).text) == multiset(ed.text) + multiset(ed.clip)
  {
    var t := ed.text;
    assert t == t[..pos] + t[pos..];
  }

  lemma JoinedFit(ed: Ed, start: nat, stop: nat)
    requires start < |ed.text| && stop < |ed.text| && start != stop && Fit(ed.text, ed.clip)
    requires |ed.text[start]| + |ed.text[stop]| <= MAXLINE
    ensures var r := JoinedLines(ed, start, stop); Fit(r.text, r.clip)
  {
    var joined := ed.(text := ed.text[start := ed.text[start] + ed.text[stop]]);
    assert Fit(joined.text, joined.clip);
    DeletedFit(joined, stop, 1);
  }

  /** Moving keeps the lines: with nothing on the clipboard the text is a permutation, otherwise the clipboard's old
      lines join it in front of the moved ones. */
  lemma MovedFit(ed: Ed, start: int, stop: int, target: int)
    requires MoveOk(ed, start, stop, target) && Fit(ed.text, ed.clip)
    ensures var after := Moved(ed, start, stop, target);
            && after.clip == [] && Fit(after.text, [])
            && multiset(after.text) == multiset(ed.text) + multiset(ed.clip)
            && (ed.clip == [] ==> multiset(after.text) == multiset(ed.text))
  {
    hide Fit, Deleted, Pasted;
    var d := Deleted(ed, start, stop - start + 1);
    var pos := if target > start then target - (stop - start) else target;
    DeletedFit(ed, start, stop - start + 1);
    PastedFit(d, pos);
    PastedState(d, pos);
    assert multiset(ed.text) + multiset([]) == multiset(ed.text);
  }

  ghost predicate SameLines(a: Ed, b: Ed) {
    multiset(b.text) + multiset(b.clip) == multiset(a.text) + multiset(a.clip)
  }

  lemma DeletingOk(ed: Ed, r: Request)
    requires Ok(ed) && ed.state == Command && r.Cmd? && (r.letter == 'c' || r.letter == 'd')
    ensures var o := Commanded(ed, r); o.Open? && Ok(o.ed) && SameLines(ed, o.ed)
  {
    hide Fit, Deleted;
    if Range(ed, r.start, r.stop) {
      var n := if r.letter == 'c' then 1 else r.stop - r.start + 1;
      DeletedFit(ed, r.start, n);
      DeletedState(ed, r.start, n);
    }
  }

  lemma MovingOk(ed: Ed, r: Request)
    requires Ok(ed) && ed.state == Command && r.Cmd? && r.letter == 'm'
    ensures var o := Commanded(ed, r); o.Open? && Ok(o.ed) && SameLines(ed, o.ed)
  {
    hide Fit, Moved;
    if MoveOk(ed, r.start, r.stop, r.target) {
      MovedFit(ed, r.start, r.stop, r.target);
      MovedState(ed, r.start, r.stop, r.target);
      hide MoveOk;
      var after := Moved(ed, r.start, r.stop, r.target);
      assert multiset(after.text) + multiset(after.clip) == multiset(after.text);
    }
  }

  lemma PastingOk(ed: Ed, r: Request)
    requires Ok(ed) && ed.state == Command && r.Cmd? && r.letter == 'x'
    ensures var o := Commanded(ed, r); o.Open? && Ok(o.ed) && SameLines(ed, o.ed)
  {
    hide Fit, Pasted;
    if 0 <= r.start < |ed.text| {
      PastedFit(ed, r.start);
      PastedState(ed, r.start);
      var after := Pasted(ed, r.start);
      assert multiset(after.text) + multiset(after.clip) == multiset(after.text);
    }
  }

  lemma JoiningOk(ed: Ed, r: Request)
    requires Ok(ed) && ed.state == Command && r.Cmd? && r.letter == 'j'
    ensures var o := Commanded(ed, r); o.Open? && Ok(o.ed)
  {
    hide Fit, JoinedLines;
    if 0 <= r.start < |ed.text| && 0 <= r.stop < |ed.text| && r.start != r.stop
       && |ed.text[r.start]| + |ed.text[r.stop]| <= MAXLINE {
      JoinedFit(ed, r.start, r.stop);
      JoinedState(ed, r.start, r.stop);
    }
  }

  predicate Relinks(letter: char) {
    letter == 'c' || letter == 'd' || letter == 'm' || letter == 'x' || letter == 'j'
  }

  lemma LookingOk(ed: Ed, r: Request)
    requires Ok(ed) && ed.state == Command && (r.Cmd? ==> !Relinks(r.letter)) && Commanded(ed, r).Open?
    ensures Ok(Commanded(ed, r).ed) && Commanded(ed, r).ed.text == ed.text && Commanded(ed, r).ed.clip == ed.clip
  {
    hide Fit;
  }

  /** Every command keeps what holds between commands; and none but joining loses or changes a line: what leaves the
      text is on the clipboard. */
  lemma CommandedOk(ed: Ed, r: Request)
    requires Ok(ed) && ed.state == Command && Commanded(ed, r).Open?
    ensures Ok(Commanded(ed, r).ed)
    ensures (r.Cmd? && r.letter == 'j') || SameLines(ed, Commanded(ed, r).ed)
  {
    hide Commanded, Ok;
    if r.Cmd? && (r.letter == 'c' || r.letter == 'd') {
      DeletingOk(ed, r);
    } else if r.Cmd? && r.letter == 'm' {
      MovingOk(ed, r);
    } else if r.Cmd? && r.letter == 'x' {
      PastingOk(ed, r);
    } else if r.Cmd? && r.letter == 'j' {
      JoiningOk(ed, r);
    } else {
      LookingOk(ed, r);
    }
  }

  lemma DeletedState(ed: Ed, start: nat, n: nat)
    requires start + n <= |ed.text|
    ensures Deleted(ed, start, n).state == ed.state
  {
  }

  lemma PastedState(ed: Ed, pos: nat)
    requires pos <= |ed.text|
    ensures Pasted(ed, pos).state == ed.state && Pasted(ed, pos).clip == []
  {
  }

  lemma JoinedState(ed: Ed, start: nat, stop: nat)
    requires start < |ed.text| && stop < |ed.text|
    ensures JoinedLines(ed, start, stop).state == ed.state
  {
  }

  lemma MovedState(ed: Ed, start: int, stop: int, target: int)
    requires MoveOk(ed, start, stop, target)
    ensures Moved(ed, start, stop, target).state == ed.state
  {
  }

  lemma TypedOk(ed: Ed, s: string)
    requires Ok(ed) && ed.state != Command
    ensures Ok(Typed(ed, s))
    ensures |ed.text| < BUFFERLINES && s != "." && |s| <= MAXLINE ==>
              exists at :: 0 <= at <= |ed.text| && Typed(ed, s).text == ed.text[..at] + [s] + ed.text[at..]
  {
  }

  // ---------------------------------------------------------------- the editor record

  lemma TwiceIn(s: seq<Line>, i: nat, j: nat)
    requires i < j < |s| && s[i] == s[j]
    ensures multiset(s)[s[i]] >= 2
  {
    assert s == s[..i] + [s[i]] + s[i + 1..j] + [s[j]] + s[j + 1..];
  }

  /** Nodes that are each one of the buffers, counted once, do not repeat. */
  lemma Parted(s: seq<Line>, buffers: set<Line>)
    requires multiset(s) <= multiset(buffers)
    ensures NoRepeats(s) && forall n | n in s :: n in buffers
  {
    forall i, j | 0 <= i < j < |s| ensures s[i] != s[j] {
      assert multiset(buffers)[s[i]] <= 1;
      if s[i] == s[j] {
        TwiceIn(s, i, j);
      }
    }
    forall n | n in s ensures n in buffers {
      assert n in multiset(s);
    }
  }

  /** Every buffer is on exactly one of the three lists, and once. */
  ghost predicate Partition(text: seq<Line>, clip: seq<Line>, free: seq<Line>, buffers: set<Line>) {
    |buffers| == BUFFERLINES && multiset(text) + multiset(clip) + multiset(free) == multiset(buffers)
  }

  lemma PartitionApart(text: seq<Line>, clip: seq<Line>, free: seq<Line>, buffers: set<Line>)
    requires Partition(text, clip, free, buffers)
    ensures |text| + |clip| + |free| == BUFFERLINES
    ensures NoRepeats(text + clip) && NoRepeats(text + free) && NoRepeats(clip + free)
    ensures NoRepeats(text) && NoRepeats(clip) && NoRepeats(free)
    ensures forall n | n in text :: n in buffers && n !in clip && n !in free
    ensures forall n | n in clip :: n in buffers && n !in text && n !in free
    ensures forall n | n in free :: n in buffers && n !in text && n !in clip
  {
    assert |multiset(buffers)| == BUFFERLINES;
    Parted(text + clip, buffers);
    Parted(text + free, buffers);
    Parted(clip + free, buffers);
    Apart(text, clip);
    Apart(text, free);
    Apart(clip, free);
    assert forall n | n in text :: n in text + clip;
    assert forall n | n in clip :: n in text + clip;
    assert forall n | n in free :: n in text + free;
  }

  ghost function Texts(c: seq<Line>): (r: seq<string>)
    reads c`text
    ensures |r| == |c| && forall i | 0 <= i < |c| :: r[i] == c[i].text
  {
    if c == [] then [] else [c[0].text] + Texts(c[1..])
  }

  lemma TextsParts(c: seq<Line>, i: nat)
    requires i <= |c|
    ensures Texts(c[..i]) == Texts(c)[..i] && Texts(c[i..]) == Texts(c)[i..]
  {
    hide Texts;
  }

  lemma TextsJoined(a: seq<Line>, b: seq<Line>)
    ensures Texts(a + b) == Texts(a) + Texts(b)
  {
    hide Texts;
  }

  lemma SplicedTexts(c: seq<Line>, pos: nat, b: seq<Line>)
    requires pos <= |c|
    ensures Texts(Spliced(c, pos, b)) == Texts(c)[..pos] + Texts(b) + Texts(c)[pos..]
  {
    hide Texts;
    TextsParts(c, pos);
    TextsJoined(c[..pos], b);
    TextsJoined(c[..pos] + b, c[pos..]);
  }

  lemma SplicedNodes(c: seq<Line>, pos: nat, b: seq<Line>)
    requires pos <= |c|
    ensures multiset(Spliced(c, pos, b)) == multiset(c) + multiset(b)
  {
    assert c == c[..pos] + c[pos..];
    assert multiset(c) == multiset(c[..pos]) + multiset(c[pos..]);
  }

  lemma SplicedEnds(c: seq<Line>, b: seq<Line>)
    ensures Spliced(c, 0, b) == b + c && Spliced(c, |c|, b) == c + b
  {
    assert c[..0] == [] && c[0..] == c && c[..|c|] == c && c[|c|..] == [];
  }

  lemma WithoutTexts(c: seq<Line>, pos: nat)
    requires pos < |c|
    ensures Texts(Without(c, pos)) == Texts(c)[..pos] + Texts(c)[pos + 1..]
  {
    hide Texts;
    TextsParts(c, pos);
    TextsParts(c, pos + 1);
    TextsJoined(c[..pos], c[pos + 1..]);
  }

  lemma WithoutNodes(c: seq<Line>, pos: nat)
    requires pos < |c|
    ensures multiset(c) == multiset(Without(c, pos)) + multiset{c[pos]}
  {
    assert c == c[..pos] + [c[pos]] + c[pos + 1..];
  }

  class Editor {
    var start: Line?
    var freeLines: Line?
    var clipboard: Line?
    var line: int
    var state: State
    var verbose: bool
    var unsaved: bool
    var error: EdError

    ghost var text: seq<Line>
    ghost var clip: seq<Line>
    ghost var free: seq<Line>
    ghost const buffers: set<Line>

    ghost predicate Valid()
      reads this, buffers
    {
      && Partition(text, clip, free, buffers)
      && (forall n | n in text :: n in buffers) && (forall n | n in clip :: n in buffers) && (forall n | n in free :: n in buffers)
      && Chain(start, text) && Chain(clipboard, clip) && Chain(freeLines, free)
    }

    ghost function View(): Ed
      reads this, buffers
      requires Valid()
    {
      Ed(Texts(text), Texts(clip), line, state, verbose, unsaved, error)
    }

    /** The record hed_open starts with: all lines free. */
    constructor (head: Line?, ghost c: seq<Line>)
      requires Chain(head, c) && NoRepeats(c) && |c| == BUFFERLINES
      ensures Valid() && View() == Ed([], [], 0, Command, false, false, NoError)
      ensures buffers == set n | n in c
    {
      start, freeLines, clipboard := null, head, null;
      line, state, verbose, unsaved, error := 0, Command, false, false, NoError;
      text, clip, free := [], [], c;
      buffers := set n | n in c;
      new;
      AllFree(c);
    }

    method LineCount() returns (n: nat)
      requires Valid()
      ensures n == |text|
    {
      hide Partition;
      var ptr := start;
      n := 0;
      while ptr != null
        invariant n <= |text| && ptr == At(text, n)
        decreases |text| - n
      {
        ptr := ptr.next;
        n := n + 1;
      }
    }

    /** hed_clear_clipboard: the clipboard goes in front of the free lines. */
    method ClearClipboard()
      requires Valid()
      modifies this`clipboard, this`freeLines, this`clip, this`free, buffers`next
      ensures Valid() && View() == old(View()).(clip := []) && free == old(clip) + old(free)
    {
      hide Partition, Chain, NoRepeats, Spliced, Texts;
      ghost var before := Texts(text);
      PartitionApart(text, clip, free, buffers);
      SplicedEnds(free, clip);
      SplicedParts(text, clip, free, buffers);
      NoRepeatsSwapped(clip, free);
      assert forall i | 0 <= i < |text| :: text[i] !in free && text[i] !in clip;
      var head := Splice(freeLines, 0, clipboard, free, clip);
      assert forall i | 0 <= i < |text| :: text[i].next == old(text[i].next);
      EmptyChain();
      freeLines, clipboard, free, clip := head, null, clip + free, [];
      NoTexts();
      assert Texts(text) == before;
    }

    /** hed_add_line, and the text copied into the line it returns. The three assertions of the source are what this
        method demands and what Valid gives. */
    method AddLine(position: nat, s: string)
      requires Valid() && position < BUFFERLINES && |text| < BUFFERLINES
      modifies this`clipboard, this`freeLines, this`clip, this`free, this`start, this`text, this`unsaved, buffers
      ensures Valid() && View() == Added(old(View()), position, s)
    {
      hide Partition, Chain, NoRepeats, Spliced, Without, Texts;
      ClearClipboard();
      PartitionApart(text, clip, free, buffers);
      assert clip == [] && free != [];
      unsaved := true;
      var at := CappedCount(position);
      InsertFree(at, s);
    }

    /** How far the walk to a position gets. */
    method CappedCount(position: nat) returns (at: nat)
      requires Valid()
      ensures at == if position <= |text| then position else |text|
    {
      hide Partition;
      var pos := start;
      at := 0;
      while pos != null && at < position
        invariant at <= |text| && pos == At(text, at) && at <= position
        decreases |text| - at
      {
        pos := pos.next;
        at := at + 1;
      }
    }

    /** One buffer is on no list for the moment. */
    ghost predicate Loose(n: Line)
      reads this, buffers
    {
      && Partition(text, clip, [n] + free, buffers) && n in buffers
      && (forall m | m in text :: m in buffers) && (forall m | m in clip :: m in buffers) && (forall m | m in free :: m in buffers)
      && n.next == null && Chain(start, text) && Chain(clipboard, clip) && Chain(freeLines, free)
    }

    method TakeFree() returns (n: Line)
      requires Valid() && free != []
      modifies this`freeLines, this`free, buffers`next
      ensures Loose(n) && text == old(text) && clip == old(clip)
    {
      hide Partition, Chain, NoRepeats, Without;
      PartitionApart(text, clip, free, buffers);
      assert forall i | 0 <= i < |text| :: text[i] !in free;
      assert forall i | 0 <= i < |clip| :: clip[i] !in free;
      TakenParts(text, clip, free, buffers);
      ghost var left := Without(free, 0);
      WithoutApart(free, 0);
      var rest;
      rest, n := Unlink(freeLines, 0, free);
      assert forall i | 0 <= i < |text| :: text[i].next == old(text[i].next);
      assert forall i | 0 <= i < |clip| :: clip[i].next == old(clip[i].next);
      freeLines, free := rest, left;
    }

    method TakeLine(pos: nat) returns (n: Line)
      requires Valid() && pos < |text|
      modifies this`start, this`text, buffers`next
      ensures Loose(n) && n == old(text)[pos] && text == Without(old(text), pos) && clip == old(clip)
    {
      hide Partition, Chain, NoRepeats, Without;
      PartitionApart(text, clip, free, buffers);
      assert forall i | 0 <= i < |free| :: free[i] !in text;
      assert forall i | 0 <= i < |clip| :: clip[i] !in text;
      CutParts(text, pos, clip, free, buffers);
      ghost var left := Without(text, pos);
      WithoutApart(text, pos);
      var rest;
      rest, n := Unlink(start, pos, text);
      assert forall i | 0 <= i < |free| :: free[i].next == old(free[i].next);
      assert forall i | 0 <= i < |clip| :: clip[i].next == old(clip[i].next);
      start, text := rest, left;
    }

    method PutInText(at: nat, n: Line)
      requires Loose(n) && at <= |text|
      modifies this`start, this`text, buffers`next
      ensures Valid() && text == Spliced(old(text), at, [n]) && clip == old(clip) && free == old(free)
    {
      hide Partition, Chain, NoRepeats, Spliced;
      PartitionApart(text, clip, [n] + free, buffers);
      LooseApart(text, clip, free, n);
      assert forall i | 0 <= i < |free| :: free[i] !in text && free[i] !in [n];
      assert forall i | 0 <= i < |clip| :: clip[i] !in text && clip[i] !in [n];
      PutParts(text, at, clip, free, n, buffers);
      OneLine(n);
      var head := Splice(start, at, n, text, [n]);
      assert forall i | 0 <= i < |free| :: free[i].next == old(free[i].next);
      assert forall i | 0 <= i < |clip| :: clip[i].next == old(clip[i].next);
      start, text := head, Spliced(text, at, [n]);
    }

    method PutOnClipboard(n: Line)
      requires Loose(n)
      modifies this`clipboard, this`clip, buffers`next
      ensures Valid() && clip == old(clip) + [n] && text == old(text) && free == old(free)
    {
      hide Partition, Chain, NoRepeats, Spliced;
      PartitionApart(text, clip, [n] + free, buffers);
      LooseApart(text, clip, free, n);
      assert forall i | 0 <= i < |free| :: free[i] !in clip && free[i] !in [n];
      assert forall i | 0 <= i < |text| :: text[i] !in clip && text[i] !in [n];
      ClippedParts(text, clip, free, n, buffers);
      OneLine(n);
      SplicedEnds(clip, [n]);
      var count := ClipCount();
      var head := Splice(clipboard, count, n, clip, [n]);
      assert forall i | 0 <= i < |free| :: free[i].next == old(free[i].next);
      assert forall i | 0 <= i < |text| :: text[i].next == old(text[i].next);
      clipboard, clip := head, clip + [n];
    }

    /** The walk to the end of the clipboard. */
    method ClipCount() returns (n: nat)
      requires Chain(clipboard, clip)
      ensures n == |clip|
    {
      var ptr := clipboard;
      n := 0;
      while ptr != null
        invariant n <= |clip| && ptr == At(clip, n)
        decreases |clip| - n
      {
        ptr := ptr.next;
        n := n + 1;
      }
    }

    /** The first free line goes into the text. */
    method InsertFree(at: nat, s: string)
      requires Valid() && at <= |text| && free != [] && clip == []
      modifies this`freeLines, this`free, this`start, this`text, buffers
      ensures Valid() && clip == [] && Texts(text) == old(Texts(text))[..at] + [s] + old(Texts(text))[at..]
    {
      hide Partition, Chain, NoRepeats, Spliced, Without, Texts;
      ghost var before := Texts(text);
      var n := TakeFree();
      assert Texts(text) == before;
      Write(n, s);
      assert Texts(text) == before;
      ghost var c := text;
      PutInText(at, n);
      SplicedTexts(c, at, [n]);
      assert Texts(c) == before && Texts([n]) == [s];
    }

    method Write(n: Line, s: string)
      requires Loose(n)
      modifies n`text
      ensures Loose(n) && Texts([n]) == [s] && Texts(text) == old(Texts(text))
    {
      hide Chain, NoRepeats, Partition;
      PartitionApart(text, clip, [n] + free, buffers);
      LooseApart(text, clip, free, n);
      assert forall i | 0 <= i < |text| :: text[i] != n;
      hide Texts;
      n.text := s;
    }

    /** hed_del_line: the line goes to the end of the clipboard. */
    method DelLine(position: nat)
      requires Valid() && position < |text|
      modifies this`start, this`text, this`clipboard, this`clip, this`unsaved, buffers`next
      ensures Valid() && View() == Deleted(old(View()), position, 1)
    {
      hide Partition, Chain, NoRepeats, Without, Texts, Loose;
      ghost var c, before, clipped := text, Texts(text), Texts(clip);
      ghost var k := clip;
      unsaved := true;
      var n := TakeLine(position);
      PutOnClipboard(n);
      WithoutTexts(c, position);
      TextsJoined(k, [n]);
      assert Texts(c) == before && Texts(k) == clipped;
      OneText(n);
      assert before[position..position + 1] == [n.text];
    }

    /** hed_paste: the whole clipboard goes into the text. */
    method Paste(position: nat)
      requires Valid() && position <= |text|
      modifies this`start, this`text, this`clipboard, this`clip, this`unsaved, buffers`next
      ensures Valid() && View() == Pasted(old(View()), position)
    {
      hide Partition, Chain, NoRepeats, Spliced, Texts;
      ghost var c, k, before, clipped := text, clip, Texts(text), Texts(clip);
      PasteNodes(position);
      unsaved := true;
      SplicedTexts(c, position, k);
      assert Texts(c) == before && Texts(k) == clipped;
    }

    method PasteNodes(position: nat)
      requires Valid() && position <= |text|
      modifies this`start, this`text, this`clipboard, this`clip, buffers`next
      ensures Valid() && text == Spliced(old(text), position, old(clip)) && clip == []
    {
      hide Partition, Chain, NoRepeats, Spliced;
      PartitionApart(text, clip, free, buffers);
      assert forall i | 0 <= i < |free| :: free[i] !in clip && free[i] !in text;
      PastedParts(text, position, clip, free, buffers);
      EmptyChain();
      var head := Splice(start, position, clipboard, text, clip);
      assert forall i | 0 <= i < |free| :: free[i].next == old(free[i].next);
      start, clipboard, text, clip := head, null, Spliced(text, position, clip), [];
    }

    /** hed_get_line. */
    method GetLine(position: nat) returns (n: Line)
      requires Valid() && position < |text|
      ensures n == text[position] && n in buffers
    {
      hide Partition;
      n := start;
      for i := 0 to position
        invariant n == text[i]
      {
        n := n.next;
      }
    }

    method AddLineAtEnd(i: nat, s: string)
      requires Valid() && i == |View().text| && i < BUFFERLINES
      modifies this, buffers
      ensures Valid() && View() == Added(old(View()), i, s)
    {
      hide Valid, Texts, Added;
      Sizes();
      AddLine(i, s);
    }

    /** The line hed_open adds when the file has run out, and its removal. */
    method TryLine(i: nat)
      requires Valid() && i == |View().text| && i < BUFFERLINES
      modifies this, buffers
      ensures Valid() && View() == old(View()).(clip := [], unsaved := true)
    {
      hide Valid, Texts, Added, Deleted;
      ghost var before := View();
      TriedLine(before);
      AddLineAtEnd(i, "");
      Sizes();
      DelLine(i);
      ClearClipboard();
    }

    /** The loops of the delete and move commands. */
    method DelLines(from: nat, n: nat)
      requires Valid() && from + n <= |text|
      modifies this`start, this`text, this`clipboard, this`clip, this`unsaved, buffers`next
      ensures Valid() && View() == Deleted(old(View()), from, n)
    {
      hide Valid, Deleted, Texts;
      NoneDeleted(View(), from);
      for i := 0 to n
        invariant Valid() && |text| == |old(text)| - i
        invariant View() == Deleted(old(View()), from, i)
      {
        OneMoreDeleted(old(View()), from, i);
        Sizes();
        DelLine(from);
        DeletedSize(old(View()), from, i + 1);
        Sizes();
      }
    }

    ghost method Sizes()
      requires Valid()
      ensures |View().text| == |text| && |View().clip| == |clip| && |text| + |clip| + |free| == BUFFERLINES
    {
      hide Chain, Partition, Texts;
      PartitionApart(text, clip, free, buffers);
    }

    method Set(e: EdError)
      requires Valid()
      modifies this`error
      ensures Valid() && View() == Fail(old(View()), e)
    {
      hide Chain, Partition, Texts;
      error := e;
    }

    /** The end of a command that did its work. */
    method Finish(at: int)
      requires Valid()
      modifies this`line, this`error
      ensures Valid() && View() == Done(old(View()), at)
    {
      hide Chain, Partition, Texts;
      line, error := at, NoError;
    }

    method SetState(s: State)
      requires Valid()
      modifies this`state
      ensures Valid() && View() == old(View()).(state := s)
    {
      hide Chain, Partition, Texts;
      state := s;
    }

    method SetFlags(v: bool, u: bool)
      requires Valid()
      modifies this`verbose, this`unsaved
      ensures Valid() && View() == old(View()).(verbose := v, unsaved := u)
    {
      hide Chain, Partition, Texts;
      verbose, unsaved := v, u;
    }

    /** The commands that leave the lines alone. */
    method Look(letter: char, first: int, last: int) returns (closed: bool)
      requires Valid() && !Relinks(letter) && Ok(View())
      modifies this
      ensures Valid() && closed == Commanded(old(View()), Cmd(letter, first, last, 0)).Closed?
      ensures forall target :: Commanded(old(View()), Cmd(letter, first, last, target)) == Commanded(old(View()), Cmd(letter, first, last, 0))
      ensures !closed ==> View() == Commanded(old(View()), Cmd(letter, first, last, 0)).ed
    {
      hide Valid, Texts, Fit;
      closed := false;
      Sizes();
      var count := LineCount();
      match letter
      case 'a' =>
        if count == BUFFERLINES {
          Set(BufferFull);
        } else if first < 0 || last > count || first > last {
          Set(InvalidArgument);
        } else {
          SetState(InputAppend);
          Finish(first);
        }
      case 'i' =>
        if count == BUFFERLINES {
          Set(BufferFull);
        } else if first < 0 || last >= count || first > last {
          Set(InvalidArgument);
        } else {
          SetState(InputInsert);
          Finish(first);
        }
      case 'f' => Finish(first);
      case 'h' => Finish(first);
      case '=' => Finish(first);
      case 'H' =>
        SetFlags(!verbose, unsaved);
        Finish(first);
      case 'l' => Show(first, last);
      case 'p' => Show(first, last);
      case 'n' => Show(first, last);
      case 'q' =>
        if unsaved {
          SetFlags(verbose, false);
          Set(Unsaved);
        } else {
          closed := true;
        }
      case 'Q' => closed := true;
      case 'w' =>
        SetFlags(verbose, false);
        Finish(first);
      case 'e' => Set(CommandNotSupported);
      case 'E' => Set(CommandNotSupported);
      case 'r' => Set(CommandNotSupported);
      case _ => Set(UnknownCommand);
    }

    /** The printing commands; the lines go to the user one by one. */
    method Show(first: int, last: int)
      requires Valid()
      modifies this`line, this`error
      ensures Valid() && Printed(old(View()), first, last).Open? && View() == Printed(old(View()), first, last).ed
    {
      hide Valid, Texts;
      Sizes();
      var count := LineCount();
      if first < 0 || last >= count {
        Set(InvalidArgument);
        return;
      }
      var i := first;
      while i <= last
        invariant first <= i && Valid() && text == old(text) && View() == old(View())
        decreases last - i
      {
        var shown := GetLine(i);
        i := i + 1;
      }
      Finish(first);
    }

    /** The commands that relink lines. */
    method Relink(letter: char, first: int, last: int, target: int)
      requires Valid() && Relinks(letter) && Ok(View())
      modifies this, buffers
      ensures Valid() && Commanded(old(View()), Cmd(letter, first, last, target)).Open?
      ensures View() == Commanded(old(View()), Cmd(letter, first, last, target)).ed
    {
      hide Valid, Texts, Deleted, Pasted, Fit, MoveOk, Moved, JoinedLines, Range;
      if letter == 'j' {
        JoinCommand(first, last);
      } else if letter == 'x' {
        PasteCommand(first);
      } else if letter == 'm' {
        MoveCommand(first, last, target);
      } else {
        DeleteCommand(letter, first, last);
      }
    }

    method PasteCommand(first: int)
      requires Valid()
      modifies this, buffers
      ensures Valid()
      ensures forall last, target :: Commanded(old(View()), Cmd('x', first, last, target)) == Open(View())
    {
      hide Valid, Texts, Pasted, Fit;
      Sizes();
      var count := LineCount();
      if first < 0 || first >= count {
        Set(InvalidArgument);
      } else if NothingClipped() {
        Set(ClipboardEmpty);
      } else {
        Paste(first);
        Finish(first);
      }
    }

    method DeleteCommand(letter: char, first: int, last: int)
      requires Valid() && (letter == 'c' || letter == 'd')
      modifies this, buffers
      ensures Valid()
      ensures forall target :: Commanded(old(View()), Cmd(letter, first, last, target)) == Open(View())
    {
      hide Valid, Texts, Deleted, Fit;
      Sizes();
      var count := LineCount();
      if first < 0 || last >= count || first > last {
        Set(InvalidArgument);
      } else if letter == 'c' {
        DelLine(first);
        SetState(InputInsert);
        Finish(first);
      } else {
        DelLines(first, last - first + 1);
        Finish(first);
      }
    }

    method MoveCommand(first: int, last: int, target: int)
      requires Valid()
      modifies this, buffers
      ensures Valid() && Commanded(old(View()), Cmd('m', first, last, target)) == Open(View())
    {
      hide Valid, Texts, Moved, Fit, Commanded;
      MoveMeans(View(), first, last, target);
      Sizes();
      var count := LineCount();
      if first < 0 || last >= count || first > last {
        Set(InvalidArgument);
      } else if target < 0 || target >= count - (last - first) || (target >= first && target <= last) {
        Set(InvalidArgument);
      } else {
        Move(first, last, target);
      }
    }

    method Move(first: int, last: int, target: int)
      requires Valid() && MoveOk(View(), first, last, target)
      modifies this, buffers
      ensures Valid() && View() == Done(Moved(old(View()), first, last, target), first)
    {
      hide Valid, Texts, Deleted, Pasted, Fit;
      var to := target;
      if to > first {
        to := to - (last - first);
      }
      ghost var before := View();
      Sizes();
      DelLines(first, last - first + 1);
      Sizes();
      DeletedSize(before, first, last - first + 1);
      Paste(to);
      Finish(first);
    }

    predicate NothingClipped()
      requires Valid()
      reads this, buffers
      ensures NothingClipped() <==> View().clip == []
    {
      clipboard == null
    }

    method JoinCommand(first: int, last: int)
      requires Valid() && Ok(View())
      modifies this, buffers
      ensures Valid()
      ensures forall target :: Commanded(old(View()), Cmd('j', first, last, target)) == Open(View())
    {
      hide Valid, Texts, Deleted, Fit, Commanded;
      JoinMeans(View(), first, last);
      Sizes();
      var count := LineCount();
      if first < 0 || first >= count || last < 0 || last >= count || first == last {
        Set(InvalidArgument);
        return;
      }
      var a := GetLine(first);
      var b := GetLine(last);
      TextAt(first);
      TextAt(last);
      if |a.text| + |b.text| > MAXLINE {
        Set(LineTooLong);
        return;
      }
      SetText(first, a, a.text + b.text);
      DelLine(last);
      Finish(first);
    }

    ghost method TextAt(i: nat)
      requires Valid() && i < |text|
      ensures i < |View().text| && View().text[i] == text[i].text
    {
      hide Chain, Partition;
    }

    method SetText(i: nat, n: Line, s: string)
      requires Valid() && i < |text| && n == text[i]
      modifies n`text
      ensures Valid() && View() == old(View()).(text := old(View()).text[i := s])
    {
      hide Chain, Partition, NoRepeats, Texts;
      PartitionApart(text, clip, free, buffers);
      ghost var before, clipped := Texts(text), Texts(clip);
      OthersApart(text, i);
      assert n in text && forall k | 0 <= k < |clip| :: clip[k] in clip;
      assert forall k | 0 <= k < |clip| :: clip[k] != n;
      n.text := s;
      assert Texts(text) == before[i := s];
      assert Texts(clip) == clipped;
    }

    /** hed_command in one of the input states. */
    method HedInput(ostr: string) returns (r: EdError)
      requires Valid() && Ok(View()) && state != Command
      modifies this, buffers
      ensures Valid() && View() == Typed(old(View()), ostr) && Ok(View())
    {
      hide Valid, Texts, Fit, Added;
      ghost var before := View();
      TypedOk(before, ostr);
      Sizes();
      r := error;
      if ostr == "." {
        SetState(Command);
        return;
      }
      var count := LineCount();
      if count >= BUFFERLINES {
        Set(BufferFull);
        SetState(Command);
        return;
      }
      if |ostr| > MAXLINE {
        Set(LineTooLong);
        return;
      }
      if state == InputInsert {
        AddLine(line, ostr);
        Finish(line + 1);
      } else {
        var at := line;
        if at == BUFFERLINES - 1 {
          at := at - 1;
        }
        AddLine(at + 1, ostr);
        Finish(at + 1);
      }
    }

    /** hed_command in command state, after the parsing; true when the editor was closed. */
    method HedCommand(r: Request) returns (closed: bool)
      requires Valid() && Ok(View()) && state == Command
      modifies this, buffers
      ensures Valid() && closed == Commanded(old(View()), r).Closed?
      ensures !closed ==> View() == Commanded(old(View()), r).ed && Ok(View())
    {
      hide Valid, Ok, Deleted, Pasted, Texts;
      ghost var before := View();
      if Commanded(before, r).Open? {
        CommandedOk(before, r);
      }
      closed := false;
      match r
      case Nothing => Set(NoCommand);
      case Garbled => Set(SyntaxError);
      case WriteQuit => closed := true;
      case Cmd(letter, first, last, target) =>
        if Relinks(letter) {
          Relink(letter, first, last, target);
        } else {
          closed := Look(letter, first, last);
        }
    }
  }

  lemma MoveMeans(ed: Ed, first: int, last: int, target: int)
    ensures Commanded(ed, Cmd('m', first, last, target))
         == if MoveOk(ed, first, last, target) then Open(Done(Moved(ed, first, last, target), first))
            else Open(Fail(ed, InvalidArgument))
  {
    hide Moved;
  }

  lemma JoinMeans(ed: Ed, first: int, last: int)
    ensures forall target :: Commanded(ed, Cmd('j', first, last, target)) == Joining(ed, first, last)
  {
    hide JoinedLines;
  }

  lemma DeletedSize(ed: Ed, start: nat, n: nat)
    requires start + n <= |ed.text|
    ensures |Deleted(ed, start, n).text| == |ed.text| - n
  {
  }

  lemma OthersApart(c: seq<Line>, i: nat)
    requires NoRepeats(c) && i < |c|
    ensures forall k | 0 <= k < |c| && k != i :: c[k] != c[i]
  {
  }

  lemma NoneDeleted(ed: Ed, start: nat)
    requires start <= |ed.text|
    ensures Deleted(ed, start, 0) == ed
  {
    assert ed.text[..start] + ed.text[start..] == ed.text;
  }

  lemma OneMoreDeleted(ed: Ed, start: nat, n: nat)
    requires start + n < |ed.text|
    ensures |Deleted(ed, start, n).text| == |ed.text| - n
    ensures Deleted(Deleted(ed, start, n), start, 1) == Deleted(ed, start, n + 1)
  {
    var t := ed.text;
    var d := t[..start] + t[start + n..];
    assert d[..start] == t[..start] && d[start..start + 1] == [t[start + n]] && d[start + 1..] == t[start + n + 1..];
    assert t[start..start + n] + [t[start + n]] == t[start..start + n + 1];
  }

  lemma {:induction false} AllFree(c: seq<Line>)
    requires NoRepeats(c)
    ensures multiset(c) == multiset(set n | n in c) && |set n | n in c| == |c|
  {
    if c != [] {
      var last := |c| - 1;
      AllFree(c[..last]);
      assert c == c[..last] + [c[last]];
      assert (set n | n in c) == (set n | n in c[..last]) + {c[last]};
      assert c[last] !in c[..last];
    }
  }

  /** The loop that threads the buffers. */
  method MakeLines(count: nat) returns (head: Line?, ghost c: seq<Line>)
    ensures Chain(head, c) && NoRepeats(c) && |c| == count && fresh(c)
  {
    head, c := null, [];
    for i := 0 to count
      invariant Chain(head, c) && NoRepeats(c) && |c| == i && fresh(c)
    {
      var n := new Line();
      n.next := head;
      assert forall k | 0 <= k < i :: c[k] != n;
      head, c := n, [n] + c;
    }
  }

  /** hed_open: the first sixteen lines of the file; a line added once too often is taken back. */
  method HedOpen(file: seq<string>) returns (editor: Editor)
    requires forall i | 0 <= i < |file| :: |file[i]| <= MAXLINE
    ensures fresh(editor) && fresh(editor.buffers) && editor.Valid() && Ok(editor.View())
    ensures var n := if |file| < BUFFERLINES then |file| else BUFFERLINES;
            editor.View() == Ed(file[..n], [], 0, Command, false, false, NoError)
  {
    hide Chain, NoRepeats, Partition, Texts, editor.Valid, Added;
    var head, c := MakeLines(BUFFERLINES);
    editor := new Editor(head, c);
    var i := 0;
    var more := true;
    while more && i < BUFFERLINES
      invariant fresh(editor) && fresh(editor.buffers) && editor.Valid() && 0 <= i <= BUFFERLINES && i <= |file|
      invariant editor.View() == Ed(file[..i], [], 0, Command, false, editor.unsaved, NoError)
      invariant !more ==> i == |file|
      decreases BUFFERLINES - i, more
    {
      if i < |file| {
        OpenedLine(file, i, editor.View());
        editor.AddLineAtEnd(i, file[i]);
        i := i + 1;
      } else {
        editor.TryLine(i);
        more := false;
      }
    }
    editor.SetFlags(false, false);
  }

  datatype Event = Request(r: Request) | Typing(s: string)

  /** A whole session: lines typed go to the text or are commands, as the state says. */
  function Session(ed: Ed, events: seq<Event>): Outcome
    decreases |events|
  {
    if events == [] then Open(ed)
    else
      match events[0]
      case Request(r) =>
        if ed.state != Command then Session(ed, events[1..])
        else
          (match Commanded(ed, r)
           case Open(ed') => Session(ed', events[1..])
           case Closed => Closed)
      case Typing(s) =>
        if ed.state == Command || ed.line < 0 then Session(ed, events[1..]) else Session(Typed(ed, s), events[1..])
  }

  /** Whatever is typed, everything keeps fitting the sixteen buffers. */
  lemma {:induction false} SessionOk(ed: Ed, events: seq<Event>)
    requires Ok(ed)
    ensures Session(ed, events).Open? ==> Ok(Session(ed, events).ed)
    decreases |events|
  {
    hide Fit, Commanded, Typed;
    if events != [] {
      match events[0]
      case Request(r) =>
        if ed.state != Command {
          SessionOk(ed, events[1..]);
        } else if Commanded(ed, r).Open? {
          CommandedOk(ed, r);
          SessionOk(Commanded(ed, r).ed, events[1..]);
        }
      case Typing(s) =>
        if ed.state == Command || ed.line < 0 {
          SessionOk(ed, events[1..]);
        } else {
          TypedOk(ed, s);
          SessionOk(Typed(ed, s), events[1..]);
        }
    }
  }

  /** The session on the record: no assertion of the source can fail in it. */
  method RunSession(editor: Editor, events: seq<Event>) returns (closed: bool)
    requires editor.Valid() && Ok(editor.View())
    modifies editor, editor.buffers
    ensures editor.Valid() && closed == Session(old(editor.View()), events).Closed?
    ensures !closed ==> editor.View() == Session(old(editor.View()), events).ed && Ok(editor.View())
  {
    hide editor.Valid, Ok, Commanded, Typed, Texts;
    ghost var goal := Session(editor.View(), events);
    assert events[0..] == events;
    for i := 0 to |events|
      invariant editor.Valid() && Ok(editor.View()) && Session(editor.View(), events[i..]) == goal
    {
      assert events[i..][0] == events[i] && events[i..][1..] == events[i + 1..];
      TypingLine(editor.View());
      match events[i]
      case Request(r) =>
        if editor.state == Command {
          closed := editor.HedCommand(r);
          if closed {
            return;
          }
        }
      case Typing(s) =>
        if editor.state != Command {
          var e := editor.HedInput(s);
        }
    }
    closed := false;
  }

  lemma TriedLine(ed: Ed)
    ensures |Added(ed, |ed.text|, "").text| == |ed.text| + 1
    ensures Deleted(Added(ed, |ed.text|, ""), |ed.text|, 1).(clip := []) == ed.(clip := [], unsaved := true)
  {
    var n := |ed.text|;
    var t := ed.text[..n] + [""] + ed.text[n..];
    assert t[..n] + t[n + 1..] == ed.text;
  }

  lemma OpenedLine(file: seq<string>, i: nat, ed: Ed)
    requires i < |file| && ed.text == file[..i]
    ensures Added(ed, i, file[i]) == ed.(text := file[..i + 1], clip := [], unsaved := true)
  {
    assert ed.text[..i] + [file[i]] + ed.text[i..] == file[..i + 1];
  }

  lemma TypingLine(ed: Ed)
    requires Ok(ed)
    ensures ed.state != Command ==> ed.line >= 0
  {
    hide Fit;
  }

  lemma LooseApart(text: seq<Line>, clip: seq<Line>, free: seq<Line>, n: Line)
    requires NoRepeats(text + clip) && NoRepeats(text + ([n] + free)) && NoRepeats(clip + ([n] + free))
    ensures n !in text && n !in clip && n !in free && NoRepeats(text + [n]) && NoRepeats(clip + [n])
    ensures forall m | m in free :: m !in text && m !in clip
  {
    Apart(text, [n] + free);
    Apart(clip, [n] + free);
    var nf := [n] + free;
    assert nf[0] == n && forall i | 0 <= i < |free| :: nf[i + 1] == free[i];
    NoRepeatsOne(text, n);
    NoRepeatsOne(clip, n);
  }

  lemma TakenParts(text: seq<Line>, clip: seq<Line>, free: seq<Line>, buffers: set<Line>)
    requires Partition(text, clip, free, buffers) && free != []
    ensures Partition(text, clip, [free[0]] + Without(free, 0), buffers)
  {
    assert [free[0]] + Without(free, 0) == free;
  }

  lemma CutParts(text: seq<Line>, pos: nat, clip: seq<Line>, free: seq<Line>, buffers: set<Line>)
    requires Partition(text, clip, free, buffers) && pos < |text|
    ensures Partition(Without(text, pos), clip, [text[pos]] + free, buffers)
  {
    WithoutNodes(text, pos);
    hide Without;
  }

  lemma PutParts(text: seq<Line>, at: nat, clip: seq<Line>, free: seq<Line>, n: Line, buffers: set<Line>)
    requires Partition(text, clip, [n] + free, buffers) && at <= |text|
    ensures Partition(Spliced(text, at, [n]), clip, free, buffers)
    ensures forall m | m in Spliced(text, at, [n]) :: m in text || m == n
  {
    SplicedNodes(text, at, [n]);
    SplicedMembers(text, at, [n]);
    hide Spliced;
  }

  lemma SplicedMembers(c: seq<Line>, pos: nat, b: seq<Line>)
    requires pos <= |c|
    ensures forall m | m in Spliced(c, pos, b) :: m in c || m in b
  {
  }

  lemma ClippedParts(text: seq<Line>, clip: seq<Line>, free: seq<Line>, n: Line, buffers: set<Line>)
    requires Partition(text, clip, [n] + free, buffers)
    ensures Partition(text, clip + [n], free, buffers)
  {
  }

  lemma PastedParts(text: seq<Line>, pos: nat, clip: seq<Line>, free: seq<Line>, buffers: set<Line>)
    requires Partition(text, clip, free, buffers) && pos <= |text|
    ensures Partition(Spliced(text, pos, clip), [], free, buffers)
    ensures forall m | m in Spliced(text, pos, clip) :: m in text || m in clip
  {
    SplicedNodes(text, pos, clip);
    SplicedMembers(text, pos, clip);
    hide Spliced;
  }

  lemma OneLine(n: Line)
    requires n.next == null
    ensures Chain(n, [n]) && Texts([n]) == [n.text]
  {
  }

  lemma OneText(n: Line)
    ensures Texts([n]) == [n.text]
  {
  }

  lemma NoRepeatsOne(c: seq<Line>, n: Line)
    requires NoRepeats(c) && n !in c
    ensures NoRepeats(c + [n])
  {
  }

  lemma WithoutApart(c: seq<Line>, pos: nat)
    requires pos < |c| && NoRepeats(c)
    ensures forall n | n in Without(c, pos) :: n in c && n != c[pos]
  {
  }

  lemma SplicedParts(text: seq<Line>, clip: seq<Line>, free: seq<Line>, buffers: set<Line>)
    requires Partition(text, clip, free, buffers)
    ensures Partition(text, [], clip + free, buffers)
  {
  }

  lemma NoTexts()
    ensures Texts([]) == []
  {
  }

  lemma EmptyChain()
    ensures Chain(null, [])
  {
  }

  lemma NoRepeatsSwapped(a: seq<Line>, b: seq<Line>)
    requires NoRepeats(a + b)
    ensures NoRepeats(b + a)
  {
    Apart(a, b);
    var s := b + a;
    forall i, j | 0 <= i < j < |s| ensures s[i] != s[j] {
      assert s[i] == if i < |b| then b[i] else a[i - |b|];
      assert s[j] == if j < |b| then b[j] else a[j - |b|];
    }
  }
}
