/** Which line stands at which place after each command of the editor, said place by place. */
module EditorPlaces {
  import opened LineEditor

  /** Lines `start` to `start + n - 1` have left the text. */
  ghost predicate TakenOut(before: seq<string>, after: seq<string>, start: nat, n: nat) {
    && |after| + n == |before| && start <= |after|
    && forall k | 0 <= k < |after| :: after[k] == before[if k < start then k else k + n]
  }

  /** The lines `block` stand from place `pos` on, and all others around them in their order. */
  ghost predicate PutIn(before: seq<string>, after: seq<string>, pos: nat, block: seq<string>) {
    && |after| == |before| + |block| && pos <= |before|
    && forall k | 0 <= k < |after| ::
         after[k] == if k < pos then before[k] else if k < pos + |block| then block[k - pos] else before[k - |block|]
  }

  /** The lines `start` to `start + n - 1` of the text stand on the clipboard behind what it held already. */
  predicate Clipped(ed: Ed, after: Ed, start: nat, n: nat) {
    start + n <= |ed.text| && after.clip == ed.clip + ed.text[start..start + n]
  }

  /** Nothing but the texts, the current line, the error and the flag for unsaved changes is different. */
  predicate SameMode(ed: Ed, after: Ed) {
    after == ed.(text := after.text, clip := after.clip, line := after.line, error := after.error, unsaved := after.unsaved)
  }

  /** The line at `start` has that of `stop` behind it, which has gone to the clipboard. */
  ghost predicate JoinedAt(ed: Ed, after: Ed, start: nat, stop: nat) {
    && start < |ed.text| && stop < |ed.text| && |after.text| == |ed.text| - 1
    && (forall k | 0 <= k < |after.text| ::
          var was := if k < stop then k else k + 1;
          after.text[k] == if was == start then ed.text[start] + ed.text[stop] else ed.text[was])
    && Clipped(ed, after, stop, 1)
  }

  /** The moved lines stand together: going up, the first of them at `target`; going down, the last. What the clipboard
      held stands in front of them, and all other lines keep their order around. */
  predicate MovedAt(ed: Ed, after: Ed, start: nat, stop: nat, target: nat) {
    var t, block := ed.text, ed.clip + if start <= stop < |ed.text| then ed.text[start..stop + 1] else [];
    && start <= stop < |t|
    && if target < start then after.text == t[..target] + block + t[target..start] + t[stop + 1..]
       else stop < target < |t| && after.text == t[..start] + t[stop + 1..target + 1] + block + t[target + 1..]
  }

  // ---------------------------------------------------------------- the commands that relink

  /** `d` takes the lines out, in order, to the end of the clipboard. */
  lemma DeletesAt(ed: Ed, start: int, stop: int, target: int)
    ensures var o := Commanded(ed, Cmd('d', start, stop, target));
            && o.Open? && SameMode(ed, o.ed)
            && if 0 <= start <= stop < |ed.text| then
                 && TakenOut(ed.text, o.ed.text, start, stop - start + 1) && Clipped(ed, o.ed, start, stop - start + 1)
                 && o.ed.line == start && o.ed.error == NoError && o.ed.unsaved
               else o.ed == ed.(error := InvalidArgument)
  {
  }

  /** `c` takes one line out, and what is typed next stands in its place. */
  lemma ChangesAt(ed: Ed, start: int, stop: int, target: int)
    ensures var o := Commanded(ed, Cmd('c', start, stop, target));
            && o.Open?
            && if 0 <= start <= stop < |ed.text| then
                 && TakenOut(ed.text, o.ed.text, start, 1) && Clipped(ed, o.ed, start, 1)
                 && o.ed.line == start && o.ed.error == NoError && o.ed.unsaved
                 && o.ed.state == InputInsert && SameMode(ed.(state := InputInsert), o.ed)
               else o.ed == ed.(error := InvalidArgument)
  {
  }

  /** `x` puts the clipboard in front of the line. */
  lemma PastesAt(ed: Ed, start: int, stop: int, target: int)
    ensures var o := Commanded(ed, Cmd('x', start, stop, target));
            && o.Open? && SameMode(ed, o.ed)
            && if 0 <= start < |ed.text| && ed.clip != [] then
                 && PutIn(ed.text, o.ed.text, start, ed.clip) && o.ed.clip == []
                 && o.ed.line == start && o.ed.error == NoError && o.ed.unsaved
               else o.ed == ed.(error := if 0 <= start < |ed.text| then ClipboardEmpty else InvalidArgument)
  {
  }

  /** `j` joins two lines of any order, if they fit one. */
  lemma JoinsAt(ed: Ed, start: int, stop: int, target: int)
    ensures var o := Commanded(ed, Cmd('j', start, stop, target));
            && o.Open? && SameMode(ed, o.ed)
            && if 0 <= start < |ed.text| && 0 <= stop < |ed.text| && start != stop then
                 if |ed.text[start]| + |ed.text[stop]| <= MAXLINE then
                   JoinedAt(ed, o.ed, start, stop) && o.ed.line == start && o.ed.error == NoError && o.ed.unsaved
                 else o.ed == ed.(error := LineTooLong)
               else o.ed == ed.(error := InvalidArgument)
  {
  }

  /** `m` moves lines up or down; how far down depends on how many there are. */
  lemma MovesAt(ed: Ed, start: int, stop: int, target: int)
    ensures var o := Commanded(ed, Cmd('m', start, stop, target));
            && o.Open? && SameMode(ed, o.ed)
            && if && 0 <= start <= stop < |ed.text| && 0 <= target < |ed.text| - (stop - start)
                  && (target < start || target > stop) then
                 && MovedAt(ed, o.ed, start, stop, target) && o.ed.clip == []
                 && o.ed.line == start && o.ed.error == NoError && o.ed.unsaved
               else o.ed == ed.(error := InvalidArgument)
  {
    if MoveOk(ed, start, stop, target) {
      MovedPlaces(ed, start, stop, target);
    }
    hide Moved, MovedAt;
  }

  lemma MovedPlaces(ed: Ed, start: int, stop: int, target: int)
    requires MoveOk(ed, start, stop, target)
    ensures var m := Moved(ed, start, stop, target);
            MovedAt(ed, m, start, stop, target) && m == ed.(text := m.text, clip := [], unsaved := true)
  {
    BlockMoves(ed.text, start, stop + 1, target, ed.clip);
  }

  /** Taking a block out and putting it in again, with `clip` in front. */
  lemma BlockMoves(t: seq<string>, a: nat, b: nat, target: nat, clip: seq<string>)
    requires a < b <= |t| && target <= |t| - (b - a) && (target < a || b <= target < |t|)
    ensures var rest, block := t[..a] + t[b..], clip + t[a..b];
            var pos := if target > a then target - (b - 1 - a) else target;
            && pos <= |rest|
            && rest[..pos] + block + rest[pos..]
               == if target < a then t[..target] + block + t[target..a] + t[b..]
                  else t[..a] + t[b..target + 1] + block + t[target + 1..]
  {
    var rest := t[..a] + t[b..];
    if target < a {
      assert rest[..target] == t[..target] && rest[target..] == t[target..a] + t[b..];
    } else {
      var pos := target - (b - 1 - a);
      assert rest[..pos] == t[..a] + t[b..target + 1] && rest[pos..] == t[target + 1..];
    }
  }

  // ---------------------------------------------------------------- typed lines

  /** A typed line stands at the current place when inserting and behind it when appending, the last place being treated
      specially; all others keep their order around it, and the current line goes on by one. */
  lemma TypesAt(ed: Ed, s: string)
    requires ed.state != LineEditor.Command && 0 <= ed.line <= |ed.text| < BUFFERLINES && s != "." && |s| <= MAXLINE
    ensures var after := Typed(ed, s);
            var pos := if ed.state == InputInsert || ed.line == |ed.text| || ed.line == BUFFERLINES - 1 then ed.line
                       else ed.line + 1;
            && PutIn(ed.text, after.text, pos, [s]) && after.clip == []
            && after.state == ed.state && after.error == NoError && after.unsaved
            && after.line == if ed.line == BUFFERLINES - 1 && ed.state == InputAppend then ed.line else ed.line + 1
  {
  }

  /** "." ends typing; a full editor and a line that is too long are refused, and nothing else changes. */
  lemma RefusesTyping(ed: Ed, s: string)
    requires ed.state != LineEditor.Command && 0 <= ed.line
    ensures s == "." ==> Typed(ed, s) == ed.(state := LineEditor.Command)
    ensures s != "." && |ed.text| >= BUFFERLINES ==>
              Typed(ed, s) == ed.(state := LineEditor.Command, error := BufferFull)
    ensures s != "." && |ed.text| < BUFFERLINES && |s| > MAXLINE ==> Typed(ed, s) == ed.(error := LineTooLong)
  {
  }

  // ---------------------------------------------------------------- the commands that only look

  /** No other command touches the text or the clipboard; one that is refused changes nothing but the error, except that
      a refused `q` forgets that there are changes. */
  lemma LooksOnly(ed: Ed, r: Request)
    requires (r.Cmd? ==> !Relinks(r.letter)) && Commanded(ed, r).Open?
    ensures var after := Commanded(ed, r).ed;
            && after.text == ed.text && after.clip == ed.clip
            && (after.error != NoError ==>
                  if r.Cmd? && r.letter == 'q' then after == ed.(error := Unsaved, unsaved := false)
                  else after == ed.(error := after.error))
            && (after.error == NoError ==> r.Cmd? && after.line == r.start)
  {
  }

  /** What the letters do besides. */
  lemma LettersDo(ed: Ed, start: int, stop: int, target: int)
    ensures Commanded(ed, Cmd('Q', start, stop, target)) == Closed && Commanded(ed, WriteQuit) == Closed
    ensures Commanded(ed, Cmd('q', start, stop, target)) == Closed <==> !ed.unsaved
    ensures Commanded(ed, Cmd('w', start, stop, target)) == Open(ed.(unsaved := false, line := start, error := NoError))
    ensures var full := |ed.text| == BUFFERLINES;
            var a, i := Commanded(ed, Cmd('a', start, stop, target)), Commanded(ed, Cmd('i', start, stop, target));
            && a.Open? && i.Open?
            && (a.ed.state == InputAppend <==> ed.state == InputAppend || (!full && 0 <= start <= stop <= |ed.text|))
            && (i.ed.state == InputInsert <==> ed.state == InputInsert || (!full && 0 <= start <= stop < |ed.text|))
            && (full ==> a.ed.error == BufferFull && i.ed.error == BufferFull)
  {
  }
}
