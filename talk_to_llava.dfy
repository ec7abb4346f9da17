/**
 * talk_to_llava.py: a session around one fixed image. Follow-up questions go
 * to the same vision model as plain text over the flattened history; any
 * input that mentions the image's path, in any letter case, starts the
 * history over, reusing the first description instead of asking again.
 * Failed service calls become `None` rather than exceptions.
 */
module TalkToLlava {
  import opened Text
  import opened Wrappers
  import opened History
  import opened Inference

  const VisionModel: string := "llava:13b"
  const DescribeThisImage: string := "Describe this image"

  function ImageRequest(path: string, prompt: string): Request {
    Generate(VisionModel, prompt, [path])
  }

  /** generate_description: one call; any exception is swallowed and becomes None. */
  function GenerateDescription(svc: Oracle, log: seq<Request>, path: string, prompt: string): (c: Call<Option<string>>)
    ensures c.log == log + [ImageRequest(path, prompt)]
    ensures c.result.None? <==> svc(|log|, ImageRequest(path, prompt)).Raised?
    ensures c.result.Some? ==> svc(|log|, ImageRequest(path, prompt)) == Done(c.result.value)
  {
    var request := ImageRequest(path, prompt);
    match svc(|log|, request)
    case Done(text) => Call(Some(text), log + [request])
    case Raised(_) => Call(None, log + [request])
  }

  datatype Session = Session(history: seq<Turn>, initialDescription: string)

  /** The shape of every history this script builds when no call fails: user and assistant turns alternating. */
  predicate Alternating(turns: seq<Turn>) {
    |turns| % 2 == 0
    && forall k :: 0 <= k < |turns| ==> turns[k].role == (if k % 2 == 0 then User else Assistant)
  }

  /**
   * initialize_conversation: describe the image; on failure the pair
   * (None, None). Opening and showing the image is only for the user to see
   * and its failure is ignored, so it plays no part here.
   */
  function InitializeConversation(svc: Oracle, log: seq<Request>, path: string): (c: Call<Option<Session>>)
    ensures c.log == log + [ImageRequest(path, DescribeThisImage)]
    ensures c.result.None? <==> svc(|log|, ImageRequest(path, DescribeThisImage)).Raised?
    ensures c.result.Some? ==>
      var s := c.result.value;
      svc(|log|, ImageRequest(path, DescribeThisImage)) == Done(s.initialDescription)
      && s.history == [Turn(User, DescribeThisImage), Turn(Assistant, s.initialDescription)]
      && Alternating(s.history)
  {
    var described := GenerateDescription(svc, log, path, DescribeThisImage);
    match described.result
    case None => Call(None, described.log)
    case Some(description) =>
      var history := [Turn(User, DescribeThisImage), Turn(Assistant, description)];
      Call(Some(Session(history, description)), described.log)
  }

  /** What continue_conversation returns: the response (None after a failed call) and the history. */
  datatype Step = Step(response: Option<string>, history: seq<Turn>)

  /**
   * reset_conversation: ask the vision model about what is left of the input
   * once the path is removed, and rebuild the history as four turns around
   * the description passed in. When the call fails, the function reads its
   * local `message_history` before assigning it, so it raises.
   */
  function ResetConversation(svc: Oracle, log: seq<Request>, filePath: string, userInput: string, initialDescription: string): (c: Call<Outcome<Step>>)
    ensures var request := ImageRequest(filePath, Residual(userInput, filePath));
      && c.log == log + [request]
      && (c.result.Raise? <==> svc(|log|, request).Raised?)
      && (c.result.Raise? ==> c.result.error == UnboundLocalError("message_history"))
      && (c.result.Return? ==> c.result.value.response.Some? && svc(|log|, request) == Done(c.result.value.response.value))
    ensures c.result.Return? ==>
      var step := c.result.value;
      step.response.Some?
      && step.history == [
           Turn(User, DescribeThisImage),
           Turn(Assistant, initialDescription),
           Turn(User, Residual(userInput, filePath)),
           Turn(Assistant, step.response.value)]
  {
    var prompt := Residual(userInput, filePath);
    var answered := GenerateDescription(svc, log, filePath, prompt);
    match answered.result
    case None => Call(Raise(UnboundLocalError("message_history")), answered.log)
    case Some(response) =>
      var history := [
        Turn(User, DescribeThisImage),
        Turn(Assistant, initialDescription),
        Turn(User, prompt),
        Turn(Assistant, response)
      ];
      Call(Return(Step(Some(response), history)), answered.log)
  }

  /**
   * `file_path.lower() in user_input.lower()`: no suffix test, no existence
   * test. A mention in the path's own spelling is always one.
   */
  function MentionsImage(userInput: string, filePath: string): (mentioned: bool)
    ensures Contains(userInput, filePath) ==> mentioned
  {
    LowerContains(userInput, filePath);
    Contains(Lower(userInput), Lower(filePath))
  }

  /**
   * continue_conversation as a function of the history's contents: a reset
   * when the input mentions the image, otherwise the input is appended and
   * the flattened history sent as a text prompt; the answer is appended when
   * there is one.
   */
  function Continue(svc: Oracle, log: seq<Request>, turns: seq<Turn>, userInput: string, filePath: string, initialDescription: string): (c: Call<Outcome<Step>>)
    ensures MentionsImage(userInput, filePath) ==>
      c == ResetConversation(svc, log, filePath, userInput, initialDescription)
      && (c.result.Return? ==> |c.result.value.history| == 4)
    ensures !MentionsImage(userInput, filePath) ==>
      var asked := turns + [Turn(User, userInput)];
      var request := Generate(VisionModel, Prompt(asked), []);
      && c.log == log + [request]
      && c.result.Return?
      && (c.result.value.response.Some? <==> svc(|log|, request).Done?)
      && (c.result.value.response.Some? ==>
            svc(|log|, request) == Done(c.result.value.response.value)
            && c.result.value.history == asked + [Turn(Assistant, c.result.value.response.value)])
      && (c.result.value.response.None? ==> c.result.value.history == asked)
  {
    if MentionsImage(userInput, filePath) then
      ResetConversation(svc, log, filePath, userInput, initialDescription)
    else
      var asked := turns + [Turn(User, userInput)];
      var request := Generate(VisionModel, Prompt(asked), []);
      match svc(|log|, request)
      case Raised(_) => Call(Return(Step(None, asked)), log + [request])
      case Done(result) => Call(Return(Step(Some(result), asked + [Turn(Assistant, result)])), log + [request])
  }

  /** A successful turn keeps user and assistant turns alternating. */
  lemma ContinueKeepsAlternating(svc: Oracle, log: seq<Request>, turns: seq<Turn>, userInput: string, filePath: string, initialDescription: string)
    requires Alternating(turns)
    ensures var c := Continue(svc, log, turns, userInput, filePath, initialDescription);
      c.result.Return? && c.result.value.response.Some? ==> Alternating(c.result.value.history)
  {
    var c := Continue(svc, log, turns, userInput, filePath, initialDescription);
    if c.result.Return? && MentionsImage(userInput, filePath) {
      var history := c.result.value.history;
      forall k | 0 <= k < |history|
        ensures history[k].role == (if k % 2 == 0 then User else Assistant)
      {
        assert k == 0 || k == 1 || k == 2 || k == 3;
      }
    } else if c.result.Return? && c.result.value.response.Some? {
      var history := c.result.value.history;
      assert |history| == |turns| + 2;
      forall k | 0 <= k < |history|
        ensures history[k].role == (if k % 2 == 0 then User else Assistant)
      {
        if k < |turns| {
          assert history[k] == turns[k];
        }
      }
    }
  }

  /**
   * No rollback: when the text call fails, the user turn stays and the
   * history now ends with a user turn, so it no longer alternates.
   */
  lemma FailedTurnLeavesUserTurn(svc: Oracle, log: seq<Request>, turns: seq<Turn>, userInput: string, filePath: string, initialDescription: string)
    requires Alternating(turns) && !MentionsImage(userInput, filePath)
    requires svc(|log|, Generate(VisionModel, Prompt(turns + [Turn(User, userInput)]), [])).Raised?
    ensures var step := Continue(svc, log, turns, userInput, filePath, initialDescription).result.value;
      step.response.None? && step.history == turns + [Turn(User, userInput)] && !Alternating(step.history)
  {
    var step := Continue(svc, log, turns, userInput, filePath, initialDescription).result.value;
    assert |step.history| % 2 == 1;
  }

  /** A reset builds the same history whatever came before it. */
  lemma ResetForgetsHistory(svc: Oracle, log: seq<Request>, turns: seq<Turn>, others: seq<Turn>, userInput: string, filePath: string, initialDescription: string)
    requires MentionsImage(userInput, filePath)
    ensures Continue(svc, log, turns, userInput, filePath, initialDescription)
         == Continue(svc, log, others, userInput, filePath, initialDescription)
  {
  }

  /**
   * Detection ignores letter case but removal does not: when the input spells
   * the path in another case, the reset happens and the path stays in the prompt.
   */
  lemma CaseMismatchKeepsPath(userInput: string, filePath: string)
    requires MentionsImage(userInput, filePath) && !Contains(userInput, filePath)
    ensures Residual(userInput, filePath) == Strip(userInput)
  {
    RemoveAllAbsent(userInput, filePath);
  }

  /** `describe TEST.JPG` mentions `test.jpg` for detection, yet does not contain it. */
  lemma MixedCaseMentionsImage()
    ensures MentionsImage("describe TEST.JPG", "test.jpg")
    ensures !Contains("describe TEST.JPG", "test.jpg")
  {
    var userInput, filePath := "describe TEST.JPG", "test.jpg";
    var lowered := Lower(userInput);
    assert lowered[9..17] == Lower(userInput[9..17]);
    assert userInput[9..17] == "TEST.JPG";
    assert Lower("TEST.JPG") == filePath;
    assert Lower(filePath) == filePath;
    assert OccursAt(lowered, Lower(filePath), 9);
    assert 't' !in userInput;
    AbsentFirstChar(userInput, filePath);
  }

  /** The case-mismatch rule on a concrete input: the reset fires and the whole input is the prompt. */
  lemma CaseMismatchExample()
    ensures MentionsImage("describe TEST.JPG", "test.jpg")
    ensures Residual("describe TEST.JPG", "test.jpg") == "describe TEST.JPG"
  {
    var userInput := "describe TEST.JPG";
    MixedCaseMentionsImage();
    RemoveAllAbsent(userInput, "test.jpg");
    assert userInput[0] == 'd' && userInput[16] == 'G';
    StripUnpadded(userInput);
  }

  /** What continue_conversation hands back to the input loop. */
  datatype Continued = Continued(response: Option<string>, history: TurnList)

  /**
   * continue_conversation on the Python list object: the text path appends to
   * the caller's list in place and hands back that same list, with the user
   * turn kept even when the call fails; a reset hands back a new list and
   * leaves the caller's untouched.
   */
  method ContinueConversation(history: TurnList, userInput: string, filePath: string, initialDescription: string, svc: Oracle, log: seq<Request>)
    returns (out: Outcome<Continued>, newLog: seq<Request>)
    modifies history
    ensures var spec := Continue(svc, log, old(history.turns), userInput, filePath, initialDescription);
      && newLog == spec.log
      && (out.Raise? <==> spec.result.Raise?)
      && (out.Raise? ==> out.error == spec.result.error)
      && (out.Return? ==>
            out.value.response == spec.result.value.response
            && out.value.history.turns == spec.result.value.history)
    ensures MentionsImage(userInput, filePath) ==>
      history.turns == old(history.turns) && (out.Return? ==> fresh(out.value.history))
    ensures !MentionsImage(userInput, filePath) ==> out.Return? && out.value.history == history
  {
    if MentionsImage(userInput, filePath) {
      var reset := ResetConversation(svc, log, filePath, userInput, initialDescription);
      newLog := reset.log;
      match reset.result {
        case Raise(e) =>
          out := Raise(e);
        case Return(step) =>
          var rebuilt := new TurnList(step.history);
          out := Return(Continued(step.response, rebuilt));
      }
    } else {
      history.Append(Turn(User, userInput));
      var fullContext := Prompt(history.turns);
      var request := Generate(VisionModel, fullContext, []);
      newLog := log + [request];
      match svc(|log|, request) {
        case Raised(_) =>
          out := Return(Continued(None, history));
        case Done(result) =>
          history.Append(Turn(Assistant, result));
          out := Return(Continued(Some(result), history));
      }
    }
  }
}
