/** `write` end to end, with its collaborators passed in as values: the garden
    is a map from file names to contents observed when the run starts, the
    editor is a function from the seeded text to the text it leaves behind, the
    slugging library is a function from raw titles to slugs, the terminal is
    the list of reply lines, and the random part of the scratch name is given.
    The run either publishes the edited text under a fresh name or stops at the
    end of terminal input, leaving the scratch file behind. */
module Pipeline {
  import opened Wrappers
  import opened Title
  import opened Prompt
  import opened Naming
  import opened Collision

  /** The scratch file's name: the temporary-file builder's ".tmp" prefix,
      random characters, and the ".md" suffix. */
  function ScratchName(rand: string): (r: string)
    ensures |r| > 0 && r[0] == '.'
  {
    ".tmp" + rand + ".md"
  }

  /** What the probe `dest.exists()` finds: every file of the garden, and the
      file beside the garden directory when `besideExists` holds. */
  function Places(files: map<string, string>, besideExists: bool): (r: set<Place>)
    ensures forall name :: InGarden(name) in r <==> name in files
    ensures BesideGarden in r <==> besideExists
  {
    (set name | name in files :: InGarden(name)) + (if besideExists then {BesideGarden} else {})
  }

  /** A published note's place and the garden afterwards; `BesideGarden`
      means the note was moved out of the garden. */
  datatype Outcome =
    | Published(rawTitle: string, slug: string, attempt: nat, dest: Place, garden: map<string, string>)
    | Aborted(error: IoError, garden: map<string, string>)

  /** A scratch file's name is never a place tried: it starts with a dot, and
      a file name tried starts with the slug or, for the empty slug, a dash. */
  lemma ScratchIsNoCandidate(rand: string, slug: string, n: nat)
    requires ValidSlug(slug)
    ensures Destination(slug, n) != InGarden(ScratchName(rand))
  {
    var p := Destination(slug, n);
    if p.InGarden? {
      if slug != "" {
        assert p.name[0] == slug[0];
        assert slug[0] in slug;
      } else {
        assert p.name[0] == '-';
      }
    }
  }

  /** `fs::rename`: the file `from` is moved to the free name `to`, keeping its
      content; no other file changes. */
  function Rename(files: map<string, string>, from: string, to: string): (r: map<string, string>)
    requires from in files && to !in files
    ensures r.Keys == files.Keys - {from} + {to}
    ensures r[to] == files[from]
    ensures forall name :: name in files && name != from ==> r[name] == files[name]
  {
    (files - {from})[to := files[from]]
  }

  /** Moving a freshly added file to another free name is the same as adding
      it under that name in the first place. */
  lemma RenameFresh(files: map<string, string>, scratch: string, contents: string, dest: string)
    requires scratch !in files && dest !in files && dest != scratch
    ensures Rename(files[scratch := contents], scratch, dest) == files[dest := contents]
  {
    var r := Rename(files[scratch := contents], scratch, dest);
    assert r.Keys == files[dest := contents].Keys;
  }

  /** One run of `write`: seed and edit the scratch file, settle the title,
      slug it, and rename the scratch file to the first place that does not
      exist. `besideExists` says whether the file beside the garden directory,
      named after it with ".md", exists. */
  function Write(garden: map<string, string>, title: Option<string>, rand: string,
                 edit: string -> string, slugify: string -> string, besideExists: bool,
                 input: seq<string>): (r: Outcome)
    requires ScratchName(rand) !in garden
    requires forall t :: ValidSlug(slugify(t))
    // the edited text, and the title and reply the dialogue ends with
    ensures var contents := edit(Template(title));
            var answer := ChooseRawTitle(DocumentTitle(title, contents), input);
            && (r.Aborted? <==> answer.Failure?)
            && (r.Published? ==> answer.Success? && r.rawTitle == answer.value.title)
            && (r.Published? ==> r.slug == slugify(r.rawTitle))
            && (r.Published? && r.dest.InGarden? ==> r.garden == garden[r.dest.name := contents])
            && (r.Aborted? ==> r.garden == garden[ScratchName(rand) := contents])
    // a note renamed beside the garden directory leaves the garden as it was
    ensures r.Published? && r.dest == BesideGarden ==> r.garden == garden
    // no overwrite: the destination was free and every earlier attempt taken
    ensures r.Published? ==> r.dest == Destination(r.slug, r.attempt)
                             && r.dest !in Places(garden, besideExists)
    ensures r.Published? ==> forall j: nat :: j < r.attempt ==>
                               Destination(r.slug, j) in Places(garden, besideExists)
  {
    var scratch := ScratchName(rand);
    var contents := edit(Template(title));
    var observed := garden[scratch := contents];
    match ChooseRawTitle(DocumentTitle(title, contents), input)
    case Failure(e) => Aborted(e, observed)
    case Success(answer) =>
      var slug := slugify(answer.title);
      var n := FirstFree(slug, Places(observed, besideExists));
      var dest := Destination(slug, n);
      forall j: nat | j <= n
        ensures Destination(slug, j) != InGarden(scratch)
      {
        ScratchIsNoCandidate(rand, slug, j);
      }
      if dest.InGarden? then
        RenameFresh(garden, scratch, contents, dest.name);
        Published(answer.title, slug, n, dest, Rename(observed, scratch, dest.name))
      else
        assert observed - {scratch} == garden;
        Published(answer.title, slug, n, dest, observed - {scratch})
  }

  /** No file is ever lost or overwritten: after a publish into the garden it
      holds exactly one more file; after a publish beside it, exactly the files
      it had; in both the scratch name is gone, and every file that was there
      keeps its content. After an abort the scratch file stays. */
  lemma WriteKeepsGarden(garden: map<string, string>, title: Option<string>, rand: string,
                         edit: string -> string, slugify: string -> string, besideExists: bool,
                         input: seq<string>)
    requires ScratchName(rand) !in garden
    requires forall t :: ValidSlug(slugify(t))
    ensures var r := Write(garden, title, rand, edit, slugify, besideExists, input);
            && (r.Published? ==> ScratchName(rand) !in r.garden)
            && (r.Published? && r.dest.InGarden? ==> |r.garden| == |garden| + 1)
            && (r.Published? && r.dest == BesideGarden ==> |r.garden| == |garden|)
            && (r.Aborted? ==> r.garden[ScratchName(rand)] == edit(Template(title)))
            && (forall name :: name in garden ==> name in r.garden && r.garden[name] == garden[name])
  {
    var r := Write(garden, title, rand, edit, slugify, besideExists, input);
    var contents := edit(Template(title));
    if r.Published? && r.dest.InGarden? {
      ScratchIsNoCandidate(rand, r.slug, r.attempt);
      AddFresh(garden, r.dest.name, contents);
    } else if r.Aborted? {
      AddFresh(garden, ScratchName(rand), contents);
    }
  }

  /** Adding a file under a free name adds one file and changes no other. */
  lemma AddFresh(files: map<string, string>, name: string, contents: string)
    requires name !in files
    ensures |files[name := contents]| == |files| + 1
    ensures forall other :: other in files ==> files[name := contents][other] == files[other]
  {
    assert files[name := contents].Keys == files.Keys + {name};
  }

  /** A note written with the title "Notes" into an empty garden, left as
      seeded by the editor and confirmed with an empty reply, is published as
      `notes.md` holding "# Notes". */
  lemma NotesScenario(rand: string, slugify: string -> string, besideExists: bool)
    requires forall t :: ValidSlug(slugify(t))
    requires slugify("Notes") == "notes"
    ensures Write(map[], Some("Notes"), rand, s => s, slugify, besideExists, [""])
            == Published("Notes", "notes", 0, InGarden("notes.md"), map["notes.md" := "# Notes"])
  {
    var scratch := ScratchName(rand);
    var observed := map[][scratch := "# Notes"];
    assert Template(Some("Notes")) == "# Notes";
    assert ChooseRawTitle(DocumentTitle(Some("Notes"), "# Notes"), [""])
           == Success(Answered("Notes", []));
    assert Destination("notes", 0) == InGarden("notes.md");
    assert (observed - {scratch})["notes.md" := "# Notes"] == map["notes.md" := "# Notes"];
    assert InGarden("notes.md") !in Places(observed, besideExists) by {
      ScratchIsNoCandidate(rand, "notes", 0);
    }
    FirstFreeUnique("notes", Places(observed, besideExists), 0);
  }

  /** Without a supplied title and with no heading left in the text, the first
      reply is the raw title, asked for once and taken as typed. */
  lemma NoHeadingAsksOnce(garden: map<string, string>, rand: string, edit: string -> string,
                          slugify: string -> string, besideExists: bool, reply: string, more: seq<string>)
    requires ScratchName(rand) !in garden
    requires forall t :: ValidSlug(slugify(t))
    requires DeriveTitle(edit(Template(None))).None?
    ensures Write(garden, None, rand, edit, slugify, besideExists, [reply] + more).Published?
    ensures Write(garden, None, rand, edit, slugify, besideExists, [reply] + more).rawTitle == reply
  {
  }

  /** The untitled run left as seeded: the header "# " reads back as the empty
      title, an empty reply keeps it, and its slug is empty. With nothing beside
      the garden directory, the note is moved out of the garden, which keeps
      exactly the files it had. */
  lemma UntitledNoteLeavesGarden(garden: map<string, string>, rand: string, slugify: string -> string)
    requires ScratchName(rand) !in garden
    requires forall t :: ValidSlug(slugify(t))
    requires slugify("") == ""
    ensures Write(garden, None, rand, s => s, slugify, false, [""])
            == Published("", "", 0, BesideGarden, garden)
  {
    var observed := garden[ScratchName(rand) := "# "];
    EmptyTemplateRederivesEmpty();
    assert ChooseRawTitle(DocumentTitle(None, "# "), [""]) == Success(Answered("", []));
    assert BesideGarden !in Places(observed, false);
    FirstFreeUnique("", Places(observed, false), 0);
  }

  /** The same run when the file beside the garden directory exists: the first
      attempt is taken, and the note lands in the garden as `-01.md`. */
  lemma UntitledNoteFallsBackToSuffix(garden: map<string, string>, rand: string, slugify: string -> string)
    requires ScratchName(rand) !in garden && "-01.md" !in garden
    requires forall t :: ValidSlug(slugify(t))
    requires slugify("") == ""
    ensures Write(garden, None, rand, s => s, slugify, true, [""])
            == Published("", "", 1, InGarden("-01.md"), garden["-01.md" := "# "])
  {
    var scratch := ScratchName(rand);
    var observed := garden[scratch := "# "];
    EmptyTemplateRederivesEmpty();
    assert ChooseRawTitle(DocumentTitle(None, "# "), [""]) == Success(Answered("", []));
    var places := Places(observed, true);
    assert FirstFree("", places) == 1 by {
      EmptySlugFirstSuffix();
      assert InGarden("-01.md") !in places by {
        ScratchIsNoCandidate(rand, "", 1);
      }
      assert Destination("", 0) in places;
      FirstFreeUnique("", places, 1);
    }
    EmptySlugFirstSuffix();
  }

  /** The empty slug's second attempt is `-01.md` in the garden. */
  lemma EmptySlugFirstSuffix()
    ensures Destination("", 1) == InGarden("-01.md")
  {
    Pad2Examples();
    assert "" + "-" + "01" + ".md" == "-01.md";
  }
}
