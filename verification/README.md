# digital-garden `write`: the capture-to-publish pipeline in Dafny

The `garden write` command lets a user write a note in their editor and files it
in a flat directory, the garden. It uses a name derived from the note's title
and never overwrites a file that `Path::exists` reports. This project models the decision logic
of `write` in `src/lib.rs` as pure Dafny functions, with the filesystem, the
editor and the terminal replaced by plain values, and proves properties of it.

- **Title derivation** (`title.dfy`, module `Title`). The scratch file is seeded
  with `"# "` followed by the supplied title. A supplied title wins. Otherwise
  the title is the first line of the edited text that starts with `"# "`, with
  every leading `"# "` removed: `trim_start_matches("# ")` turns `"# # x"` into
  `"x"` (`Title.StripMarkers`). Lines are cut as
  Rust's `str::lines` cuts them (`lines.dfy`, module `TextLines`).
- **Confirmation and entry** (`prompt.dfy`, module `Prompt`). The terminal is a
  list of reply lines. A `y`/`Y` reply asks for a new name and takes the next line
  verbatim. An `n`/`N`/empty reply keeps the candidate. Any other reply re-asks.
  Running out of lines is an end-of-input I/O error. The same dialogue is also
  written as a loop over explicit states (`RunDialogue`) and proved equal to the
  recursive prompts.
- **Candidate names** (`naming.dfy`, module `Naming`). Attempt 0 is `slug.md`.
  Attempt n > 0 is `slug-NN.md`, with NN printed by `{:02}`. The `.md` ending is
  added by a model of `PathBuf::set_extension`.
- **Collision resolution** (`collision.dfy`, module `Collision`). The
  destination is the first candidate not in the set of existing names. A
  pigeonhole argument shows that the unbounded loop stops within
  `|existing| + 1` attempts.
- **The whole run** (`pipeline.dfy`, module `Pipeline`). The garden is a map from
  names to contents, and the editor and `slugify` are function parameters.
  `Write` either publishes the edited text under a fresh name or stops at end of
  input with the scratch file left behind.

`slugify` comes from an external crate and is a function parameter. Every run
requires only what that crate guarantees (`Naming.ValidSlug`): a slug is made of
lower-case letters, digits and dashes, so it has no `.` and no `/`. With such a
slug, `set_extension("md")` amounts to appending `".md"`.
`Naming.DottedStemsCollapse` shows what a dotted slug would do instead.

The slug is empty when the raw title has no letter or digit. This happens on an
ordinary run: no title is supplied, the seeded `"# "` is left as it is, and the
user presses Enter. Then attempt 0 joins the empty string to the garden
directory, and `set_extension` acts on the directory's own name. The probe and
the rename therefore go to the garden's path with extension `md`, a file beside
the garden and not in it (`Naming.Place`, `BesideGarden`). Whether that file
exists is a parameter of `Write`. If it does not, the note leaves the garden
(`Pipeline.UntitledNoteLeavesGarden`). If it does, attempt 1 puts the note in
the garden as `-01.md` (`Pipeline.UntitledNoteFallsBackToSuffix`).

## Model

| member | source | states |
|---|---|---|
| TextLines.StripCarriageReturn | src/lib.rs:24-25 | a line that ended in `"\r\n"` loses exactly its one trailing `'\r'`; any other line is kept as it is |
| TextLines.Lines | src/lib.rs:24-25 | the lines of the read-back text contain no `'\n'`, and only the empty text has no lines |
| TextLines.LinesOfUnlinesThen | src/lib.rs:24-25 | text written as plain lines ending in `"\n"` or `"\r\n"`, followed by any further text, splits into exactly those lines followed by the lines of the further text |
| TextLines.LinesOfUnlines | src/lib.rs:24-25 | lines joined with `"\n"` or `"\r\n"` endings are split back into exactly those lines, with no extra empty line for the final ending |
| TextLines.SingleLine | src/lib.rs:24-25 | a non-empty text with no `'\n'` is one line, itself |
| Title.Template | src/lib.rs:17 | the seeded content starts with the heading marker; it is `"# "` followed by the supplied title, or `"# "` alone when there is none |
| Title.TemplateRederivesTitle | src/lib.rs:17-28 | a single-line title that does not itself start with `"# "` is derived back unchanged from the seeded header |
| Title.EmptyTemplateRederivesEmpty | src/lib.rs:17-28 | a header seeded without a title and left untouched gives the empty title, not no title |
| Title.StripMarkers | src/lib.rs:27 | the result no longer starts with `"# "` and the input is that result preceded by some number of `"# "` markers |
| Title.StripMarkersOfRepeat | src/lib.rs:27 | any number of leading markers in front of a non-heading text are all removed, leaving exactly that text |
| Title.RepeatedMarkersStripped | src/lib.rs:27 | `"# # x"` is trimmed to `"x"` |
| Title.FirstHeading | src/lib.rs:26 | the result is the position of a heading line with no heading line before it, and is none exactly when no line is a heading |
| Title.DeriveTitle | src/lib.rs:24-27 | the derived title is absent if and only if no line starts with `"# "`; when present it is the first such line with its markers stripped |
| Title.DeriveTitleOfLines | src/lib.rs:24-27 | in a text written line by line, the title comes from the first heading line whatever the earlier and later lines are |
| Title.DeriveTitleOfSplit | src/lib.rs:24-27 | the title is read from the first heading among the lines of the text |
| Title.HeadingAfterIntro | src/lib.rs:24-27 | `"intro\n# My Title\nbody"` yields `"My Title"` |
| Title.DocumentTitle | src/lib.rs:23-28 | a supplied title is kept; with none, the title is absent exactly when no line is a heading, and otherwise it is the first heading line with its markers stripped |
| Title.SuppliedTitleIgnoresContent | src/lib.rs:23-28 | a supplied title is used unchanged whatever the edited text is; without one the title is the derived one |
| Prompt.Classify | src/lib.rs:78-87 | a reply means yes exactly when it is `y` or `Y`, and no exactly when it is `n`, `N` or empty |
| Prompt.AskForFilename | src/lib.rs:57-63 | the entry prompt fails exactly when input is exhausted; otherwise it returns the first line verbatim and consumes only it |
| Prompt.ConfirmFilename | src/lib.rs:66-90 | a successful confirmation returns either the candidate or one of the typed lines, and consumes at least one line of input |
| Prompt.FirstDecisive | src/lib.rs:67-88 | the result is the first reply that is yes or no, with all earlier replies unrecognised; none when every reply is unrecognised |
| Prompt.ConfirmByFirstDecisive | src/lib.rs:66-90 | all replies before the first yes or no are ignored. A no keeps the candidate. A yes takes the next line verbatim. With no decisive reply, or no line after the yes, the result is the end-of-input error |
| Prompt.UnrecognisedRepliesReasked | src/lib.rs:85-88 | any number of unrecognised replies in front of the input leaves the outcome unchanged, so there is no retry limit |
| Prompt.ChooseRawTitle | src/lib.rs:30-33 | the raw title is the candidate or a typed line. It consumes at least one reply line and fails when there are none. Without a candidate it fails only then |
| Prompt.NoTitleTakesReplyAsIs | src/lib.rs:30-33 | with no title the first reply is the raw title, even one that would answer the confirmation question |
| Prompt.EmptyReplyKeepsCandidate | src/lib.rs:80-84 | candidate `"Hello World"` with an empty reply is accepted as `"Hello World"` and nothing more is read |
| Prompt.YesTakesNextLine | src/lib.rs:79 | after an unrecognised reply, `Y` followed by an empty line gives the empty title |
| Prompt.RunDialogue | src/lib.rs:30-33 | the dialogue run as a loop over the states awaiting-confirmation, awaiting-entry and done gives the same result as the recursive prompts on every reply list |
| Naming.Pad2 | src/lib.rs:40 | `{:02}` gives at least two digits, exactly two below 100, no leading zero from 10 on, and the digits read back as the number |
| Naming.Pad2Injective | src/lib.rs:40 | two attempt numbers print the same only when they are equal |
| Naming.Pad2Examples | src/lib.rs:40 | 1 prints as `01`, 6 as `06` and 100 as `100` |
| Naming.FileStem | src/lib.rs:43 | the stem is a prefix of the file name and is the whole name when the name has no dot |
| Naming.SetExtension | src/lib.rs:43 | on a dot-free file name, setting extension `md` appends `".md"` |
| Naming.Stem | src/lib.rs:37-41 | the joined component starts with the slug, is empty exactly for the empty slug's attempt 0, and has no `.` or `/` when the slug has none |
| Naming.Candidate | src/lib.rs:36-43 | for a non-empty stem, attempt 0 is `slug + ".md"` and attempt n > 0 is `slug + "-" + Pad2(n) + ".md"` |
| Naming.Destination | src/lib.rs:36-43 | an attempt points beside the garden exactly when the slug is empty and the attempt is 0; otherwise it is the candidate file in the garden |
| Naming.CandidateInjective | src/lib.rs:36-43 | for a fixed slug, two attempts propose the same name if and only if they are the same attempt |
| Naming.DestinationInjective | src/lib.rs:36-43 | for a fixed slug, including the empty one, two attempts point at the same place if and only if they are the same attempt |
| Naming.CandidateExamples | src/lib.rs:36-43 | attempt 6 is `slug-06.md` and attempt 100 is `slug-100.md` |
| Naming.DottedStemsCollapse | src/lib.rs:43 | with the dotted slug `v1.2`, attempts 1 and 2 both become `v1.md` |
| Collision.InjectiveImageCardinality | src/lib.rs:36-43 | a function that never repeats a value takes n distinct values on the first n attempts |
| Collision.TakenBelowBound | src/lib.rs:36-47 | n taken attempts need at least n names in the garden |
| Collision.SearchFrom | src/lib.rs:36-51 | searching from a point with all earlier attempts taken ends at a free place, all attempts before it taken, within the garden's size |
| Collision.FirstFree | src/lib.rs:36-51 | the chosen attempt's place does not exist, every lower attempt's place does, and the attempt is at most the number of existing places |
| Collision.FirstFreeUnique | src/lib.rs:36-51 | any attempt that is free and preceded only by taken attempts is the one chosen |
| Collision.ChooseDestination | src/lib.rs:36-51 | the probing loop ends, returning a place that does not exist with every earlier attempt's place taken; its attempt is the first free one |
| Collision.SixthAttemptExample | src/lib.rs:36-47 | with `slug.md` and `slug-01.md` to `slug-05.md` taken and `slug-06.md` free, the destination is `slug-06.md` |
| Collision.RepublishEscalates | src/lib.rs:36-51 | publishing again with the same slug after a publish lands on a strictly later attempt |
| Collision.FreeLiesBeyondTaken | src/lib.rs:36-47 | a free place's attempt lies beyond every run of taken attempts |
| Pipeline.ScratchName | src/lib.rs:11-15 | the scratch file's name starts with a dot |
| Pipeline.Places | src/lib.rs:45 | the places the existence probe finds are exactly the garden's files, plus the file beside the garden when it exists |
| Pipeline.ScratchIsNoCandidate | src/lib.rs:11-43 | no place tried is ever the scratch file, even for the empty slug |
| Pipeline.Rename | src/lib.rs:49 | renaming moves the scratch content to the new name, removes the old name and leaves every other file as it was |
| Pipeline.RenameFresh | src/lib.rs:14-49 | moving a just-created file to a free name is the same as creating it there |
| Pipeline.Write | src/lib.rs:10-55 | a run aborts exactly when the dialogue runs out of input, leaving the edited scratch file. Otherwise the edited text goes to the place of an attempt for the slugged raw title. That place did not exist and every earlier one did. A note moved beside the garden leaves the garden as it was |
| Pipeline.WriteKeepsGarden | src/lib.rs:10-55 | no existing file is removed or changed. A publish removes the scratch name. It adds exactly one file when the note goes into the garden, and none when it goes beside it. An abort keeps the edited text under the scratch name |
| Pipeline.AddFresh | src/lib.rs:45-49 | adding a file under a free name adds exactly one file and changes no other |
| Pipeline.NotesScenario | src/lib.rs:10-55 | title `"Notes"`, an empty garden, an untouched editor buffer and an empty reply publish `notes.md` holding `"# Notes"` |
| Pipeline.UntitledNoteLeavesGarden | src/lib.rs:17-49 | an untitled note left as seeded and confirmed with an empty reply has the empty slug; with nothing beside the garden it is moved there, and the garden keeps exactly its old files |
| Pipeline.UntitledNoteFallsBackToSuffix | src/lib.rs:17-49 | the same run with the file beside the garden present publishes `-01.md` in the garden |
| Pipeline.EmptySlugFirstSuffix | src/lib.rs:37-43 | the empty slug's attempt 1 is `-01.md` in the garden |
| Pipeline.NoHeadingAsksOnce | src/lib.rs:23-33 | with no supplied title and no heading left in the text, the first reply is taken as the raw title and the note is published |

## Left out

- Temporary-file creation (`Builder::tempfile_in`, `keep`), `write_all`, `edit_file`, `read_to_string` and `fs::rename` are I/O. The random part of the scratch name is a parameter and is assumed fresh. The editor is a function from the seeded text to the final text. Their failures are not modelled; the only error modelled is end of terminal input.
- The race between the `exists` check and `fs::rename` is left out. Another process could create the destination in between. The garden is the set of names seen when the run starts, and nothing else writes to it.
- Pipeline.WriteKeepsGarden: the garden holds the names for which `Path::exists` is true. That call follows symbolic links, so a dangling symlink at a candidate name counts as free, and `fs::rename` then replaces that directory entry. The model has no symlinks, so "no existing file is removed" covers only entries that `exists` reports.
- A rename that fails and leaves the scratch file in place is left out. It is an I/O error path with no pure content.
- The internals of `slug::slugify` are left out. It is a function parameter, and the model assumes only that its results have no `.` and no `/`; the empty slug is allowed.
- Coloured prompt text (`owo_colors`, the prompt strings) is left out. Only the reply lines are modelled. They arrive stripped of their line ending, as `rprompt` delivers them.
- `src/main.rs` is not part of this model: argument parsing, the default garden directory and the directory-existence check.
- `Path::join` and `set_extension` are modelled only for one-component names and for the empty name. The place beside the garden is not computed from the garden's path; its existence is a parameter. For a garden path with no file name, such as `/`, the joined path is the directory itself, which exists; passing `true` covers that case. A slug with `.` or `/` is excluded by `Naming.ValidSlug`.
- Collision.FirstFree: the attempt counter is an unbounded natural. In the source it is an `i32` that would overflow after 2^31 attempts, which the proven bound of `|existing| + 1` attempts rules out for any realistic garden.
- TextLines.Lines: follows `str::lines` in current Rust, where a lone `'\r'` at the very end of a text with no final `'\n'` is kept. Older Rust releases removed it.
