/**
 * choose_model.py: a session that starts from one image, answers follow-up
 * questions with a text model over the whole flattened history, and starts
 * over around a new image whenever the user's input names an image file that
 * exists on disk.
 */
module ChooseModel {
  import opened Text
  import opened Wrappers
  import opened History
  import opened Inference

  const SystemPrompt: string := "you are a master at the online gaming community of roblox"
  /** TEXT_BASED_OLLAMA_MODEL is assigned twice; the second assignment is the one in force. */
  const TextModel: string := "llama3.1"
  /** The default `model` of generate_image_description. */
  const ImageModel: string := "llava:13b"
  const DescribeThisImage: string := "Describe this image"
  const DescribeInDetail: string := "Describe this image in intricate detail."

  /** `f"{SYSTEM_PROMPT}\n\n{instruction}"`. */
  function Persona(instruction: string): string {
    SystemPrompt + "\n\n" + instruction
  }

  function ImageRequest(path: string, prompt: string): Request {
    Generate(ImageModel, prompt, [path])
  }

  /**
   * A ResponseError whose message, lower-cased, mentions both "model" and
   * "not found". No other exception qualifies, and the words count in any
   * letter case, so a message that holds them in lower case always does.
   */
  function IsModelNotFound(reply: Reply): (notFound: bool)
    ensures notFound ==> reply.Raised? && reply.error.ResponseError?
    ensures reply.Raised? && reply.error.ResponseError? ==>
      (Contains(reply.error.message, "model") && Contains(reply.error.message, "not found") ==> notFound)
  {
    if reply.Raised? && reply.error.ResponseError? then
      var message := reply.error.message;
      LowerKeepsWords(message);
      Contains(Lower(message), "model") && Contains(Lower(message), "not found")
    else
      false
  }

  /** The two words are lower case already, so lower-casing the message keeps them. */
  lemma LowerKeepsWords(message: string)
    ensures Contains(message, "model") ==> Contains(Lower(message), "model")
    ensures Contains(message, "not found") ==> Contains(Lower(message), "not found")
  {
    LowerContains(message, "model");
    LowerContains(message, "not found");
    assert Lower("model") == "model";
    assert Lower("not found") == "not found";
  }

  /**
   * generate_image_description: ask the vision model about the image; when the
   * service says the model is missing, install it and ask once more; any
   * other failure, and any failure of the install or of the retry, is raised.
   */
  function GenerateImageDescription(svc: Oracle, log: seq<Request>, path: string, prompt: string): (c: Call<Outcome<string>>)
    ensures |log| < |c.log| <= |log| + 3
    ensures c.log[..|log| + 1] == log + [ImageRequest(path, prompt)]
    ensures |c.log| > |log| + 1 <==> IsModelNotFound(svc(|log|, ImageRequest(path, prompt)))
    ensures |c.log| > |log| + 1 ==> c.log[|log| + 1] == Install(ImageModel)
    ensures |c.log| == |log| + 2 ==> svc(|log| + 1, Install(ImageModel)).Raised?
    ensures |c.log| == |log| + 3 ==> svc(|log| + 1, Install(ImageModel)).Done? && c.log[|log| + 2] == ImageRequest(path, prompt)
    ensures c.result == Passed(svc(|c.log| - 1, c.log[|c.log| - 1]))
  {
    var request := ImageRequest(path, prompt);
    var first := svc(|log|, request);
    if first.Done? || !IsModelNotFound(first) then
      Call(Passed(first), log + [request])
    else
      var installed := svc(|log| + 1, Install(ImageModel));
      if installed.Raised? then
        Call(Raise(installed.error), log + [request, Install(ImageModel)])
      else
        Call(Passed(svc(|log| + 2, request)), log + [request, Install(ImageModel), request])
  }

  /** The install-and-retry path never asks the service more than twice for the description. */
  lemma RetryAtMostOnce(svc: Oracle, log: seq<Request>, path: string, prompt: string)
    ensures var c := GenerateImageDescription(svc, log, path, prompt);
      multiset(c.log[|log|..])[ImageRequest(path, prompt)] <= 2
      && multiset(c.log[|log|..])[Install(ImageModel)] <= 1
  {
    var c := GenerateImageDescription(svc, log, path, prompt);
    var request := ImageRequest(path, prompt);
    var added := c.log[|log|..];
    assert request != Install(ImageModel);
    if |c.log| == |log| + 1 {
      assert added == [request];
    } else if |c.log| == |log| + 2 {
      assert added == [request, Install(ImageModel)];
    } else {
      assert added == [request, Install(ImageModel), request];
    }
  }

  /**
   * A session on one image: the history and the description the first image
   * call produced.
   */
  datatype Session = Session(history: seq<Turn>, initialDescription: string)

  /**
   * Every history this script builds: the system turn first, then user and
   * assistant turns alternating, ending with an assistant turn.
   */
  predicate WellFormed(turns: seq<Turn>) {
    |turns| % 2 == 1 && turns[0] == Turn(System, SystemPrompt)
    && forall k :: 1 <= k < |turns| ==> turns[k].role == (if k % 2 == 1 then User else Assistant)
  }

  /**
   * initialize_conversation: open the image, describe it under the persona,
   * and start the history with the system prompt and that exchange.
   */
  function InitializeConversation(svc: Oracle, log: seq<Request>, opens: string -> bool, path: string): (c: Call<Outcome<Session>>)
    ensures !opens(path) ==> c == Call(Raise(ImageOpenError(path)), log)
    ensures opens(path) ==> c.log == GenerateImageDescription(svc, log, path, Persona(DescribeThisImage)).log
    ensures c.result.Raise? && opens(path) ==>
      GenerateImageDescription(svc, log, path, Persona(DescribeThisImage)).result == Raise(c.result.error)
    ensures c.result.Return? ==>
      var s := c.result.value;
      GenerateImageDescription(svc, log, path, Persona(DescribeThisImage)).result == Return(s.initialDescription)
      && s.history == [Turn(System, SystemPrompt), Turn(User, DescribeThisImage), Turn(Assistant, s.initialDescription)]
      && WellFormed(s.history)
  {
    if !opens(path) then
      Call(Raise(ImageOpenError(path)), log)
    else
      var described := GenerateImageDescription(svc, log, path, Persona(DescribeThisImage));
      match described.result
      case Raise(e) => Call(Raise(e), described.log)
      case Return(description) =>
        var history := [Turn(System, SystemPrompt), Turn(User, DescribeThisImage), Turn(Assistant, description)];
        Call(Return(Session(history, description)), described.log)
  }

  /**
   * Bootstrap survives a missing model: when the first call reports it, the
   * install succeeds and the retry answers, that answer is the description.
   */
  lemma BootstrapAfterInstall(svc: Oracle, log: seq<Request>, opens: string -> bool, path: string, description: string)
    requires opens(path)
    requires IsModelNotFound(svc(|log|, ImageRequest(path, Persona(DescribeThisImage))))
    requires svc(|log| + 1, Install(ImageModel)).Done?
    requires svc(|log| + 2, ImageRequest(path, Persona(DescribeThisImage))) == Done(description)
    ensures InitializeConversation(svc, log, opens, path).result.Return?
    ensures InitializeConversation(svc, log, opens, path).result.value.initialDescription == description
  {
    var c := GenerateImageDescription(svc, log, path, Persona(DescribeThisImage));
    assert |c.log| == |log| + 3;
  }

  /** What continue_conversation returns: the response, the history, the description. */
  datatype Step = Step(response: string, history: seq<Turn>, initialDescription: string)

  /**
   * reset_conversation: drop the old history, describe the new image afresh,
   * answer what is left of the input once the path is removed, and rebuild
   * the history as five turns. The description passed in is not used.
   */
  function ResetConversation(svc: Oracle, log: seq<Request>, newPath: string, userInput: string, initialDescription: string): (c: Call<Outcome<Step>>)
    ensures var described := GenerateImageDescription(svc, log, newPath, Persona(DescribeInDetail));
      var answered := GenerateImageDescription(svc, described.log, newPath, Persona(Residual(userInput, newPath)));
      && (described.result.Raise? ==> c == Call(Raise(described.result.error), described.log))
      && (described.result.Return? ==> c.log == answered.log)
      && (described.result.Return? && answered.result.Raise? ==> c.result == Raise(answered.result.error))
      && (described.result.Return? && answered.result.Return? ==> c.result.Return?)
      && (c.result.Return? ==>
            var step := c.result.value;
            described.result == Return(step.initialDescription)
            && answered.result == Return(step.response)
            && step.history == [
                 Turn(System, SystemPrompt),
                 Turn(User, DescribeThisImage),
                 Turn(Assistant, step.initialDescription),
                 Turn(User, Residual(userInput, newPath)),
                 Turn(Assistant, step.response)])
  {
    var prompt := Residual(userInput, newPath);
    var described := GenerateImageDescription(svc, log, newPath, Persona(DescribeInDetail));
    match described.result
    case Raise(e) => Call(Raise(e), described.log)
    case Return(description) =>
      var answered := GenerateImageDescription(svc, described.log, newPath, Persona(prompt));
      match answered.result
      case Raise(e) => Call(Raise(e), answered.log)
      case Return(response) =>
        var history := [
          Turn(System, SystemPrompt),
          Turn(User, DescribeThisImage),
          Turn(Assistant, description),
          Turn(User, prompt),
          Turn(Assistant, response)
        ];
        Call(Return(Step(response, history, description)), answered.log)
  }

  // ------------------------------------------------------------ detection

  /** `word.lower().endswith(('.jpg', '.png'))`. */
  predicate IsImageName(word: string) {
    EndsWith(Lower(word), ".jpg") || EndsWith(Lower(word), ".png")
  }

  predicate IsImageToken(word: string, pathExists: string -> bool) {
    IsImageName(word) && pathExists(word)
  }

  /** `words[k]` is the first word that names an existing image. */
  predicate IsFirstImage(words: seq<string>, pathExists: string -> bool, k: int) {
    0 <= k < |words| && IsImageToken(words[k], pathExists)
    && forall j :: 0 <= j < k ==> !IsImageToken(words[j], pathExists)
  }

  /** The first word, left to right, that names an existing image file. */
  function FirstImageToken(words: seq<string>, pathExists: string -> bool): (found: Option<string>)
    ensures found.None? <==> forall k :: 0 <= k < |words| ==> !IsImageToken(words[k], pathExists)
    ensures found.Some? ==> exists k :: IsFirstImage(words, pathExists, k) && words[k] == found.value
  {
    if words == [] then None
    else if IsImageToken(words[0], pathExists) then
      assert IsFirstImage(words, pathExists, 0);
      Some(words[0])
    else
      var found := FirstImageToken(words[1..], pathExists);
      assert forall k :: 1 <= k < |words| ==> words[k] == words[1..][k - 1];
      if found.Some? then
        var k :| IsFirstImage(words[1..], pathExists, k) && words[1..][k] == found.value;
        assert IsFirstImage(words, pathExists, k + 1);
        found
      else
        found
  }

  /**
   * The image continue_conversation switches to: only when the lower-cased
   * input mentions ".jpg" or ".png" are the words of the input examined, and
   * then the first word that names an existing image is taken.
   */
  function ImageInInput(userInput: string, pathExists: string -> bool): (found: Option<string>)
    ensures found.Some? ==>
      exists k :: IsFirstImage(Split(userInput), pathExists, k) && Split(userInput)[k] == found.value
  {
    var lowered := Lower(userInput);
    if Contains(lowered, ".jpg") || Contains(lowered, ".png") then
      FirstImageToken(Split(userInput), pathExists)
    else
      None
  }

  /** A word that ends in ".jpg" or ".png" puts that suffix into the lower-cased input. */
  lemma ImageWordShowsInInput(userInput: string, k: nat)
    requires k < |Split(userInput)| && IsImageName(Split(userInput)[k])
    ensures Contains(Lower(userInput), ".jpg") || Contains(Lower(userInput), ".png")
  {
    var word := Split(userInput)[k];
    SplitWordOccurs(userInput, k);
    var i :| 0 <= i <= |userInput| - |word| && OccursAt(userInput, word, i);
    if EndsWith(Lower(word), ".jpg") {
      LowerSuffixOccurs(userInput, word, ".jpg", i);
    } else {
      LowerSuffixOccurs(userInput, word, ".png", i);
    }
  }

  /**
   * The substring test in front of the word scan never changes the outcome:
   * it only saves the scan when no word can qualify.
   */
  lemma GuardIsRedundant(userInput: string, pathExists: string -> bool)
    ensures ImageInInput(userInput, pathExists) == FirstImageToken(Split(userInput), pathExists)
  {
    var words := Split(userInput);
    var lowered := Lower(userInput);
    if !(Contains(lowered, ".jpg") || Contains(lowered, ".png")) {
      forall k | 0 <= k < |words|
        ensures !IsImageToken(words[k], pathExists)
      {
        if IsImageName(words[k]) {
          ImageWordShowsInInput(userInput, k);
        }
      }
    }
  }

  /**
   * The detected image is a whole word of the input: non-empty (so the
   * `if new_image_file_path:` test passes), free of whitespace, an image name
   * that exists, and present in the input.
   */
  lemma DetectedImageIsWord(userInput: string, pathExists: string -> bool)
    requires ImageInInput(userInput, pathExists).Some?
    ensures var path := ImageInInput(userInput, pathExists).value;
      path != [] && NoSpace(path) && IsImageToken(path, pathExists) && Contains(userInput, path)
  {
    GuardIsRedundant(userInput, pathExists);
    var words := Split(userInput);
    var k :| IsFirstImage(words, pathExists, k) && words[k] == ImageInInput(userInput, pathExists).value;
    SplitWordOccurs(userInput, k);
  }

  /** choose_model.py lines 133-140: the substring test, then the word scan that stops at the first existing image. */
  method DetectImage(userInput: string, pathExists: string -> bool) returns (newPath: Option<string>)
    ensures newPath == ImageInInput(userInput, pathExists)
  {
    newPath := None;
    var lowered := Lower(userInput);
    if Contains(lowered, ".jpg") || Contains(lowered, ".png") {
      var words := Split(userInput);
      var i := 0;
      while i < |words|
        invariant 0 <= i <= |words|
        invariant newPath == None
        invariant FirstImageToken(words[i..], pathExists) == FirstImageToken(words, pathExists)
      {
        var word := words[i];
        assert words[i..][0] == word && words[i..][1..] == words[i + 1..];
        if IsImageName(word) {
          if pathExists(word) {
            newPath := Some(word);
            break;
          }
        }
        i := i + 1;
      }
    }
  }

  // -------------------------------------------------------- continuation

  /**
   * continue_conversation as a function of the history's contents: a reset
   * when the input names an existing image, otherwise the input and the text
   * model's answer to the flattened history are appended.
   */
  function Continue(svc: Oracle, log: seq<Request>, pathExists: string -> bool, turns: seq<Turn>, userInput: string, initialDescription: string): (c: Call<Outcome<Step>>)
    ensures ImageInInput(userInput, pathExists).Some? ==>
      c == ResetConversation(svc, log, ImageInInput(userInput, pathExists).value, userInput, initialDescription)
      && (c.result.Return? ==> |c.result.value.history| == 5)
    ensures ImageInInput(userInput, pathExists).None? ==>
      var request := Generate(TextModel, Prompt(turns + [Turn(User, userInput)]), []);
      && c.log == log + [request]
      && (c.result.Raise? <==> svc(|log|, request).Raised?)
      && (c.result.Raise? ==> c.result.error == svc(|log|, request).error)
      && (c.result.Return? ==>
            svc(|log|, request) == Done(c.result.value.response)
            && c.result.value.history == turns + [Turn(User, userInput), Turn(Assistant, c.result.value.response)]
            && c.result.value.initialDescription == initialDescription)
  {
    match ImageInInput(userInput, pathExists)
    case Some(newPath) => ResetConversation(svc, log, newPath, userInput, initialDescription)
    case None =>
      var asked := turns + [Turn(User, userInput)];
      var request := Generate(TextModel, Prompt(asked), []);
      match svc(|log|, request)
      case Raised(e) => Call(Raise(e), log + [request])
      case Done(response) =>
        Call(Return(Step(response, asked + [Turn(Assistant, response)], initialDescription)), log + [request])
  }

  /** The five turns of a reset form a well-formed history. */
  lemma ResetIsWellFormed(description: string, prompt: string, response: string)
    ensures WellFormed([
      Turn(System, SystemPrompt),
      Turn(User, DescribeThisImage),
      Turn(Assistant, description),
      Turn(User, prompt),
      Turn(Assistant, response)])
  {
  }

  /** Appending a user turn and then an assistant turn keeps a history well formed. */
  lemma {:induction false} ExchangeKeepsWellFormed(turns: seq<Turn>, question: string, answer: string)
    requires WellFormed(turns)
    ensures WellFormed(turns + [Turn(User, question), Turn(Assistant, answer)])
  {
    var history := turns + [Turn(User, question), Turn(Assistant, answer)];
    forall k | 1 <= k < |history|
      ensures history[k].role == (if k % 2 == 1 then User else Assistant)
    {
      if k < |turns| {
        assert history[k] == turns[k];
      }
    }
  }

  /** Every successful turn keeps the history well formed, so the system turn is never lost. */
  lemma ContinueKeepsWellFormed(svc: Oracle, log: seq<Request>, pathExists: string -> bool, turns: seq<Turn>, userInput: string, initialDescription: string)
    requires WellFormed(turns)
    ensures var c := Continue(svc, log, pathExists, turns, userInput, initialDescription);
      c.result.Return? ==> WellFormed(c.result.value.history)
  {
    var c := Continue(svc, log, pathExists, turns, userInput, initialDescription);
    if c.result.Return? {
      var step := c.result.value;
      if ImageInInput(userInput, pathExists).Some? {
        ResetIsWellFormed(step.initialDescription, step.history[3].content, step.response);
      } else {
        ExchangeKeepsWellFormed(turns, userInput, step.response);
      }
    }
  }

  /** A reset forgets everything before it: the prior history has no influence. */
  lemma ResetForgetsHistory(svc: Oracle, log: seq<Request>, pathExists: string -> bool, turns: seq<Turn>, others: seq<Turn>, userInput: string, initialDescription: string, otherDescription: string)
    requires ImageInInput(userInput, pathExists).Some?
    ensures Continue(svc, log, pathExists, turns, userInput, initialDescription)
         == Continue(svc, log, pathExists, others, userInput, otherDescription)
  {
  }

  /** On the text path the prompt is the previous prompt plus one line for the new user turn. */
  lemma TextPromptExtendsHistory(turns: seq<Turn>, userInput: string)
    requires turns != []
    ensures Prompt(turns + [Turn(User, userInput)]) == Prompt(turns) + "\nuser: " + userInput
  {
    PromptExtends(turns, Turn(User, userInput));
  }

  /** The example path does not occur in what follows it, so that part is kept whole. */
  lemma ExampleTailKept()
    ensures RemoveAll(" in detail", "test.png") == " in detail"
  {
    var rest, path := " in detail", "test.png";
    assert rest[0] == ' ' && rest[1] == 'i' && rest[2] == 'n';
    forall j | 0 <= j <= |rest| - |path|
      ensures !OccursAt(rest, path, j)
    {
      FirstCharMismatch(rest, path, j);
    }
    RemoveAllAbsent(rest, path);
  }

  /** `replace` takes the path out of the example input and nothing else. */
  lemma RemovesExamplePath()
    ensures RemoveAll("describe test.png in detail", "test.png") == "describe " + " in detail"
  {
    var userInput, path := "describe test.png in detail", "test.png";
    var before, rest := userInput[..9], userInput[17..];
    assert before == "describe " && userInput[9..17] == path && rest == " in detail";
    assert OccursAt(userInput, path, 9);
    assert 't' !in before;
    forall j | 0 <= j < 9
      ensures !OccursAt(userInput, path, j)
    {
      assert userInput[j] == before[j];
      FirstCharMismatch(userInput, path, j);
    }
    RemoveAllLeftmost(userInput, path, 9);
    ExampleTailKept();
  }

  /** Removing the path leaves the spaces on both sides of it: they are not collapsed. */
  lemma ResidualKeepsInteriorSpaces()
    ensures Residual("describe test.png in detail", "test.png") == "describe " + " in detail"
  {
    var leftover := "describe " + " in detail";
    RemovesExamplePath();
    assert leftover[0] == 'd' && leftover[|leftover| - 1] == 'l';
    StripUnpadded(leftover);
  }

  /** What continue_conversation hands back to the input loop. */
  datatype Continued = Continued(response: string, history: TurnList, initialDescription: string)

  /**
   * continue_conversation on the Python list object: the text path appends to
   * the caller's list in place (the user turn stays even when the text model
   * fails); a reset returns a new list and leaves the caller's untouched.
   */
  method ContinueConversation(history: TurnList, userInput: string, initialDescription: string, pathExists: string -> bool, svc: Oracle, log: seq<Request>)
    returns (out: Outcome<Continued>, newLog: seq<Request>)
    modifies history
    ensures var spec := Continue(svc, log, pathExists, old(history.turns), userInput, initialDescription);
      && newLog == spec.log
      && (out.Raise? <==> spec.result.Raise?)
      && (out.Raise? ==> out.error == spec.result.error)
      && (out.Return? ==>
            out.value.response == spec.result.value.response
            && out.value.history.turns == spec.result.value.history
            && out.value.initialDescription == spec.result.value.initialDescription)
    ensures ImageInInput(userInput, pathExists).Some? ==>
      history.turns == old(history.turns) && (out.Return? ==> fresh(out.value.history))
    ensures ImageInInput(userInput, pathExists).None? ==>
      (out.Return? ==> out.value.history == history)
      && (out.Raise? ==> history.turns == old(history.turns) + [Turn(User, userInput)])
  {
    var newPath := DetectImage(userInput, pathExists);
    if newPath.Some? {
      var reset := ResetConversation(svc, log, newPath.value, userInput, initialDescription);
      newLog := reset.log;
      match reset.result {
        case Raise(e) =>
          out := Raise(e);
        case Return(step) =>
          var rebuilt := new TurnList(step.history);
          out := Return(Continued(step.response, rebuilt, step.initialDescription));
      }
    } else {
      history.Append(Turn(User, userInput));
      var fullContext := Prompt(history.turns);
      var request := Generate(TextModel, fullContext, []);
      newLog := log + [request];
      match svc(|log|, request) {
        case Raised(e) =>
          out := Raise(e);
        case Done(response) =>
          history.Append(Turn(Assistant, response));
          out := Return(Continued(response, history, initialDescription));
      }
    }
  }
}
