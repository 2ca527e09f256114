/** The seeded scratch content and the title a note is published under: the
    caller's title when one is given, otherwise the first "# " heading line of
    the edited text with every leading "# " removed. */
module Title {
  import opened Wrappers
  import opened TextLines

  /** The heading marker a title line starts with. */
  const Marker: string := "# "

  predicate IsHeading(line: string) {
    Marker <= line
  }

  /** `k` copies of `s` back to back. */
  function Repeat(s: string, k: nat): string {
    if k == 0 then [] else s + Repeat(s, k - 1)
  }

  /** The scratch file's content before the editor runs: the marker followed by
      the supplied title, or the marker alone when there is none. */
  function Template(title: Option<string>): (r: string)
    ensures IsHeading(r)
    ensures title.Some? ==> r == Marker + title.value
    ensures title.None? ==> r == Marker
  {
    Marker + title.GetOr("")
  }

  /** Rust's `trim_start_matches("# ")`: removes the marker as long as the text
      still starts with it. What is left no longer starts with the marker, and
      what was removed is a whole number of markers. */
  function StripMarkers(line: string): (r: string)
    ensures !IsHeading(r)
    ensures exists k: nat :: line == Repeat(Marker, k) + r
    decreases |line|
  {
    if IsHeading(line) then
      var r := StripMarkers(line[2..]);
      var k: nat :| line[2..] == Repeat(Marker, k) + r;
      assert line == Repeat(Marker, k + 1) + r by {
        assert line == Marker + line[2..];
      }
      r
    else
      assert line == Repeat(Marker, 0) + line;
      line
  }

  /** Stripping finds exactly the text behind any number of leading markers. */
  lemma {:induction false} StripMarkersOfRepeat(k: nat, rest: string)
    requires !IsHeading(rest)
    ensures StripMarkers(Repeat(Marker, k) + rest) == rest
  {
    if k > 0 {
      var line := Repeat(Marker, k) + rest;
      assert line == Marker + (Repeat(Marker, k - 1) + rest);
      assert line[2..] == Repeat(Marker, k - 1) + rest;
      StripMarkersOfRepeat(k - 1, rest);
    }
  }

  /** `i` is the position of the first heading line in `ls`. */
  ghost predicate IsFirstHeadingAt(ls: seq<string>, i: nat) {
    i < |ls| && IsHeading(ls[i]) && forall j :: 0 <= j < i ==> !IsHeading(ls[j])
  }

  /** Iterator `find(|v| v.starts_with("# "))` over the lines, as an index. */
  function FirstHeading(ls: seq<string>): (r: Option<nat>)
    ensures r.Some? ==> IsFirstHeadingAt(ls, r.value)
    ensures r.None? ==> forall j :: 0 <= j < |ls| ==> !IsHeading(ls[j])
  {
    if |ls| == 0 then None
    else if IsHeading(ls[0]) then Some(0)
    else match FirstHeading(ls[1..])
      case None => None
      case Some(i) => Some(i + 1)
  }

  /** No line of the text starts with the heading marker. */
  ghost predicate NoHeading(contents: string) {
    forall j :: 0 <= j < |Lines(contents)| ==> !IsHeading(Lines(contents)[j])
  }

  /** The title found in the edited text: the first heading line with all its
      leading markers removed, or nothing when no line is a heading. */
  function DeriveTitle(contents: string): (r: Option<string>)
    ensures r.None? <==> NoHeading(contents)
    ensures r.Some? ==> exists i: nat :: IsFirstHeadingAt(Lines(contents), i)
                                   && r.value == StripMarkers(Lines(contents)[i])
  {
    var ls := Lines(contents);
    match FirstHeading(ls)
    case None => None
    case Some(i) => Some(StripMarkers(ls[i]))
  }

  /** `title.or_else(...)`: the supplied title wins and the content is only read
      when there is none. */
  function DocumentTitle(title: Option<string>, contents: string): (r: Option<string>)
    ensures title.Some? ==> r == title
    ensures r.None? <==> title.None? && NoHeading(contents)
    ensures title.None? && r.Some? ==> exists i: nat :: IsFirstHeadingAt(Lines(contents), i)
                                                  && r.value == StripMarkers(Lines(contents)[i])
  {
    match title
    case Some(_) => title
    case None => DeriveTitle(contents)
  }

  /** A supplied title is used as given whatever the editor left in the file;
      without one, the title is the one derived from the file. */
  lemma SuppliedTitleIgnoresContent(t: string, c1: string, c2: string)
    ensures DocumentTitle(Some(t), c1) == DocumentTitle(Some(t), c2) == Some(t)
    ensures DocumentTitle(None, c1) == DeriveTitle(c1)
  {
  }

  /** Only the first heading counts: in a text written line by line, the title
      comes from the first heading line and from no other. */
  lemma DeriveTitleOfLines(ls: seq<string>, eol: string, i: nat)
    requires LineEnding(eol)
    requires forall k :: 0 <= k < |ls| ==> PlainLine(ls[k])
    requires IsFirstHeadingAt(ls, i)
    ensures DeriveTitle(Unlines(ls, eol)) == Some(StripMarkers(ls[i]))
  {
    LinesOfUnlines(ls, eol);
  }

  /** The seeded header reads back as the title it was seeded with, provided the
      title is a single plain line that does not itself start with the marker. */
  lemma TemplateRederivesTitle(t: string)
    requires PlainLine(t) && !IsHeading(t)
    ensures DeriveTitle(Template(Some(t))) == Some(t)
  {
    var s := Template(Some(t));
    assert '\n' !in s by {
      assert forall j :: 2 <= j < |s| ==> s[j] == t[j - 2];
    }
    SingleLine(s);
    assert StripCarriageReturn(s) == s;
    assert Repeat(Marker, 1) + t == s;
    StripMarkersOfRepeat(1, t);
  }

  /** Left untouched by the editor, the header seeded without a title yields
      the empty title rather than none. */
  lemma EmptyTemplateRederivesEmpty()
    ensures DeriveTitle(Template(None)) == Some("")
  {
    var s := Template(None);
    SingleLine(s);
    assert Repeat(Marker, 1) + "" == s;
    StripMarkersOfRepeat(1, "");
  }

  /** An introduction line before the heading and body text after it are
      ignored; the heading's marker is removed. */
  lemma HeadingAfterIntro()
    ensures DeriveTitle("intro\n# My Title\nbody") == Some("My Title")
  {
    var ls := ["intro", "# My Title", "body"];
    assert StripMarkers(ls[1]) == "My Title" by {
      assert Repeat(Marker, 1) + "My Title" == "# My Title";
      assert "My Title"[0] != Marker[0];
      StripMarkersOfRepeat(1, "My Title");
    }
    assert IsFirstHeadingAt(ls, 1);
    IntroExampleLines();
    DeriveTitleOfSplit("intro\n# My Title\nbody", ls, 1);
  }

  /** The title is read from the first heading among the lines of the text: a
      stepping stone that lets `HeadingAfterIntro` use the literal split
      without unfolding `Lines` on the literal text. */
  lemma DeriveTitleOfSplit(contents: string, ls: seq<string>, i: nat)
    requires Lines(contents) == ls && IsFirstHeadingAt(ls, i)
    ensures DeriveTitle(contents) == Some(StripMarkers(ls[i]))
  {
  }

  /** The three lines of the example text of `HeadingAfterIntro`. */
  lemma IntroExampleLines()
    ensures Lines("intro\n# My Title\nbody") == ["intro", "# My Title", "body"]
  {
    var ls := ["intro", "# My Title"];
    assert Lines(Unlines(ls, "\n") + "body") == ["intro", "# My Title", "body"] by {
      assert PlainLine(ls[0]) && PlainLine(ls[1]);
      LinesOfUnlinesThen(ls, "\n", "body");
      SingleLine("body");
      assert ls + ["body"] == ["intro", "# My Title", "body"];
    }
    IntroExampleText();
  }

  /** The example text of `HeadingAfterIntro`, written as lines. */
  lemma IntroExampleText()
    ensures "intro\n# My Title\nbody" == Unlines(["intro", "# My Title"], "\n") + "body"
  {
    var ls := ["intro", "# My Title"];
    assert Unlines(ls[1..], "\n") == "# My Title\n";
    assert Unlines(ls, "\n") == "intro\n# My Title\n";
  }

  /** Repeated markers are all removed: "# # x" gives "x". */
  lemma RepeatedMarkersStripped()
    ensures StripMarkers("# # x") == "x"
  {
    assert Repeat(Marker, 2) + "x" == "# # x";
    StripMarkersOfRepeat(2, "x");
  }
}
