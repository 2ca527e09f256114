/** Rust's `str::lines`: the text is cut after every '\n'; each piece loses its
    '\n' and then one '\r' before it, so both "\n" and "\r\n" end a line. The
    final line ending is optional, so a trailing '\n' does not produce an extra
    empty line, and the empty text has no lines at all. */
module TextLines {
  import opened Wrappers

  /** Index of the first '\n' in `s`, if there is one. */
  function FindNewline(s: string): (r: Option<nat>)
    ensures r.Some? ==> r.value < |s| && s[r.value] == '\n'
    ensures r.Some? ==> forall j :: 0 <= j < r.value ==> s[j] != '\n'
    ensures r.None? ==> '\n' !in s
  {
    if |s| == 0 then None
    else if s[0] == '\n' then Some(0)
    else match FindNewline(s[1..])
      case None => None
      case Some(i) => Some(i + 1)
  }

  /** Drops one trailing '\r', the remainder of a "\r\n" line ending. */
  function StripCarriageReturn(line: string): (r: string)
    ensures |line| > 0 && line[|line| - 1] == '\r' ==> r + "\r" == line
    ensures !(|line| > 0 && line[|line| - 1] == '\r') ==> r == line
  {
    if |line| > 0 && line[|line| - 1] == '\r' then line[..|line| - 1] else line
  }

  /** The lines of `s`, as `str::lines` yields them. */
  function Lines(s: string): (ls: seq<string>)
    ensures forall k :: 0 <= k < |ls| ==> '\n' !in ls[k]
    ensures |ls| == 0 <==> |s| == 0
    decreases |s|
  {
    if |s| == 0 then []
    else match FindNewline(s)
      case None => [s]
      case Some(i) => [StripCarriageReturn(s[..i])] + Lines(s[i + 1..])
  }

  /** A line that `Lines` can give back unchanged: no '\n' inside and no
      trailing '\r' that would be read as part of a "\r\n" ending. */
  predicate PlainLine(line: string) {
    '\n' !in line && !(|line| > 0 && line[|line| - 1] == '\r')
  }

  /** The text made of `ls`, each line followed by the terminator `eol`. */
  function Unlines(ls: seq<string>, eol: string): string
  {
    if |ls| == 0 then [] else ls[0] + eol + Unlines(ls[1..], eol)
  }

  /** A line ending `str::lines` recognises. */
  predicate LineEnding(eol: string) {
    eol == "\n" || eol == "\r\n"
  }

  /** Splitting undoes joining: text written line by line with "\n" or "\r\n"
      endings, followed by any further text, is read back as exactly those lines
      followed by the lines of the further text. */
  lemma {:induction false} LinesOfUnlinesThen(ls: seq<string>, eol: string, rest: string)
    requires LineEnding(eol)
    requires forall k :: 0 <= k < |ls| ==> PlainLine(ls[k])
    ensures Lines(Unlines(ls, eol) + rest) == ls + Lines(rest)
    decreases |ls|
  {
    if |ls| == 0 {
      assert Unlines(ls, eol) + rest == rest;
    } else {
      LinesOfUnlinesStep(ls, eol, rest);
      LinesOfUnlinesThen(ls[1..], eol, rest);
      ConsAppend(ls, Lines(rest));
    }
  }

  /** Re-attaching the head of a non-empty sequence. */
  lemma ConsAppend<T>(xs: seq<T>, ys: seq<T>)
    requires |xs| > 0
    ensures [xs[0]] + (xs[1..] + ys) == xs + ys
  {
  }

  /** One step of `LinesOfUnlinesThen`: the first written line is read first. */
  lemma LinesOfUnlinesStep(ls: seq<string>, eol: string, rest: string)
    requires LineEnding(eol)
    requires |ls| > 0 && PlainLine(ls[0])
    ensures Lines(Unlines(ls, eol) + rest) == [ls[0]] + Lines(Unlines(ls[1..], eol) + rest)
  {
    var tail := Unlines(ls[1..], eol) + rest;
    var head := ls[0] + eol[..|eol| - 1];
    EndedLine(ls[0], eol);
    assert Unlines(ls, eol) + rest == head + "\n" + tail;
    LinesCons(head, tail);
  }

  /** Lines written with "\n" or "\r\n" endings are read back unchanged. */
  lemma LinesOfUnlines(ls: seq<string>, eol: string)
    requires LineEnding(eol)
    requires forall k :: 0 <= k < |ls| ==> PlainLine(ls[k])
    ensures Lines(Unlines(ls, eol)) == ls
  {
    LinesOfUnlinesThen(ls, eol, "");
    assert Unlines(ls, eol) + "" == Unlines(ls, eol);
  }

  /** The first '\n' of `head + "\n" + tail` is the one after `head` when
      `head` has none of its own. */
  lemma NewlineAt(head: string, tail: string)
    requires '\n' !in head
    ensures FindNewline(head + "\n" + tail) == Some(|head|)
  {
    var s := head + "\n" + tail;
    assert s[|head|] == '\n';
    assert forall j :: 0 <= j < |head| ==> s[j] == head[j];
  }

  /** A plain line with its ending is a '\n'-free piece, that reads back as the
      line, followed by '\n'. */
  lemma EndedLine(line: string, eol: string)
    requires LineEnding(eol) && PlainLine(line)
    ensures line + eol == (line + eol[..|eol| - 1]) + "\n"
    ensures '\n' !in line + eol[..|eol| - 1]
    ensures StripCarriageReturn(line + eol[..|eol| - 1]) == line
  {
    if eol == "\r\n" {
      assert line + eol[..|eol| - 1] == line + "\r";
      assert (line + "\r")[..|line|] == line;
    } else {
      assert line + eol[..|eol| - 1] == line;
    }
  }

  /** A line without '\n' followed by "\n" is the first line of the text. */
  lemma LinesCons(head: string, tail: string)
    requires '\n' !in head
    ensures Lines(head + "\n" + tail) == [StripCarriageReturn(head)] + Lines(tail)
  {
    var s := head + "\n" + tail;
    NewlineAt(head, tail);
    assert s[..|head|] == head;
    assert s[|head| + 1..] == tail;
  }

  /** A text with no line ending is one line, itself. */
  lemma SingleLine(s: string)
    requires |s| > 0 && '\n' !in s
    ensures Lines(s) == [s]
  {
  }
}
