/** The interactive part of `write`: with a candidate title the user is asked
    whether they want a different one; without one they are asked for a file
    name directly. The terminal is the sequence of reply lines the user types,
    each already stripped of its line ending; running out of lines is the I/O
    error the terminal reports at end of input. */
module Prompt {
  import opened Wrappers

  /** The terminal closed before a reply line arrived. */
  datatype IoError = UnexpectedEof

  /** The raw title the dialogue settled on and the reply lines not yet read. */
  datatype Answered = Answered(title: string, rest: seq<string>)

  /** How the confirmation question reads a reply. */
  datatype Answer = Yes | No | Other

  function Classify(reply: string): (a: Answer)
    ensures a == Yes <==> reply == "y" || reply == "Y"
    ensures a == No <==> reply == "n" || reply == "N" || reply == ""
  {
    if reply == "y" || reply == "Y" then Yes
    else if reply == "n" || reply == "N" || reply == "" then No
    else Other
  }

  /** The "Enter filename" prompt: one reply line, taken as typed (empty
      included), or the end-of-input error. */
  function AskForFilename(input: seq<string>): (r: Result<Answered, IoError>)
    ensures r.Failure? <==> |input| == 0
    ensures r.Success? ==> [r.value.title] + r.value.rest == input
  {
    if |input| == 0 then Failure(UnexpectedEof)
    else Success(Answered(input[0], input[1..]))
  }

  /** The "Do you want a different title?" loop for candidate `raw`. */
  function ConfirmFilename(raw: string, input: seq<string>): (r: Result<Answered, IoError>)
    ensures r.Success? ==> r.value.title == raw || r.value.title in input
    ensures r.Success? ==> |r.value.rest| < |input|
    ensures r.Success? ==> r.value.rest == input[|input| - |r.value.rest|..]
    decreases |input|
  {
    if |input| == 0 then Failure(UnexpectedEof)
    else match Classify(input[0])
      case Yes => AskForFilename(input[1..])
      case No => Success(Answered(raw, input[1..]))
      case Other => ConfirmFilename(raw, input[1..])
  }

  /** Position of the first reply the confirmation question does not re-ask on. */
  function FirstDecisive(input: seq<string>): (r: Option<nat>)
    ensures r.Some? ==> r.value < |input| && Classify(input[r.value]) != Other
    ensures r.Some? ==> forall j :: 0 <= j < r.value ==> Classify(input[j]) == Other
    ensures r.None? ==> forall j :: 0 <= j < |input| ==> Classify(input[j]) == Other
  {
    if |input| == 0 then None
    else if Classify(input[0]) != Other then Some(0)
    else match FirstDecisive(input[1..])
      case None => None
      case Some(i) => Some(i + 1)
  }

  /** The confirmation loop, stated without the loop: every reply before the
      first "y", "Y", "n", "N" or empty one is ignored; a "no" keeps the
      candidate, a "yes" takes the line after it verbatim, and without a
      decisive reply (or without a line after the "yes") input runs out. */
  lemma {:induction false} ConfirmByFirstDecisive(raw: string, input: seq<string>)
    ensures FirstDecisive(input).None? ==>
              ConfirmFilename(raw, input) == Failure(UnexpectedEof)
    ensures FirstDecisive(input).Some? && Classify(input[FirstDecisive(input).value]) == No ==>
              ConfirmFilename(raw, input)
                == Success(Answered(raw, input[FirstDecisive(input).value + 1..]))
    ensures FirstDecisive(input).Some? && Classify(input[FirstDecisive(input).value]) == Yes ==>
              ConfirmFilename(raw, input)
                == AskForFilename(input[FirstDecisive(input).value + 1..])
    decreases |input|
  {
    if |input| > 0 && Classify(input[0]) == Other {
      ConfirmByFirstDecisive(raw, input[1..]);
      var d := FirstDecisive(input[1..]);
      if d.Some? {
        assert input[1..][d.value + 1..] == input[d.value + 2..];
      }
    }
  }

  /** Any number of unrecognised replies is simply re-asked. */
  lemma {:induction false} UnrecognisedRepliesReasked(raw: string, junk: seq<string>, input: seq<string>)
    requires forall j :: 0 <= j < |junk| ==> Classify(junk[j]) == Other
    ensures ConfirmFilename(raw, junk + input) == ConfirmFilename(raw, input)
    decreases |junk|
  {
    if |junk| > 0 {
      assert (junk + input)[0] == junk[0];
      assert (junk + input)[1..] == junk[1..] + input;
      UnrecognisedRepliesReasked(raw, junk[1..], input);
    } else {
      assert junk + input == input;
    }
  }

  /** The raw title before slugging: a candidate title is offered for
      confirmation; without one the file name is asked for directly. */
  function ChooseRawTitle(documentTitle: Option<string>, input: seq<string>): (r: Result<Answered, IoError>)
    ensures |input| == 0 ==> r.Failure?
    ensures documentTitle.None? ==> (r.Failure? <==> |input| == 0)
    ensures r.Success? ==> (documentTitle.Some? && r.value.title == documentTitle.value)
                           || r.value.title in input
    ensures r.Success? ==> |r.value.rest| < |input|
                           && r.value.rest == input[|input| - |r.value.rest|..]
  {
    match documentTitle
    case Some(t) => ConfirmFilename(t, input)
    case None => AskForFilename(input)
  }

  /** Without a candidate the first reply is the title, even one that would be
      a yes or a no to the confirmation question. */
  lemma NoTitleTakesReplyAsIs(input: seq<string>)
    requires |input| > 0
    ensures ChooseRawTitle(None, input) == Success(Answered(input[0], input[1..]))
  {
  }

  /** An empty reply keeps the candidate and asks for nothing more. */
  lemma EmptyReplyKeepsCandidate()
    ensures ConfirmFilename("Hello World", [""]) == Success(Answered("Hello World", []))
  {
  }

  /** A "Y" after an unrecognised reply takes the next line, even an empty one. */
  lemma YesTakesNextLine()
    ensures ConfirmFilename("Hello World", ["maybe", "Y", ""]) == Success(Answered("", []))
  {
    assert Classify("maybe") == Other;
    assert ["maybe", "Y", ""][1..] == ["Y", ""];
    assert ["Y", ""][1..] == [""];
  }

  /** The states of the dialogue as an explicit machine. */
  datatype State = AwaitConfirm(candidate: string) | AwaitEntry | Done(title: string)

  function Initial(documentTitle: Option<string>): State {
    match documentTitle
    case Some(t) => AwaitConfirm(t)
    case None => AwaitEntry
  }

  /** One reply read in a state that still waits for one. */
  function Step(s: State, reply: string): (t: State)
    requires !s.Done?
  {
    match s
    case AwaitConfirm(c) =>
      (match Classify(reply)
       case Yes => AwaitEntry
       case No => Done(c)
       case Other => s)
    case AwaitEntry => Done(reply)
  }

  /** What the recursive dialogue still produces from state `s` on `input`. */
  function Resume(s: State, input: seq<string>): Result<Answered, IoError> {
    match s
    case AwaitConfirm(c) => ConfirmFilename(c, input)
    case AwaitEntry => AskForFilename(input)
    case Done(t) => Success(Answered(t, input))
  }

  /** The dialogue run as a loop over machine states; it agrees with the
      recursive prompts on every reply sequence. */
  method RunDialogue(documentTitle: Option<string>, input: seq<string>) returns (r: Result<Answered, IoError>)
    ensures r == ChooseRawTitle(documentTitle, input)
  {
    var state := Initial(documentTitle);
    var i := 0;
    while !state.Done? && i < |input|
      invariant 0 <= i <= |input|
      invariant Resume(state, input[i..]) == ChooseRawTitle(documentTitle, input)
    {
      assert input[i..][1..] == input[i + 1..];
      state := Step(state, input[i]);
      i := i + 1;
    }
    if state.Done? {
      r := Success(Answered(state.title, input[i..]));
    } else {
      r := Failure(UnexpectedEof);
    }
  }
}
