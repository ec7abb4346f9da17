# Conversation history with image-triggered resets

This project models, in Dafny, the conversation-history manager of two
command-line chat scripts that talk to a local multimodal model service:

- `choose_model.py`: a session opens on an image. It is described by a
  vision model (`llava:13b`) under a fixed persona. Follow-up questions go
  to a text model (`llama3.1`), which sees the whole history flattened into
  one prompt. An input that names an existing `.jpg`/`.png` file starts the
  session over around that image. A missing vision model is installed, and
  the call retried once.
- `talk_to_llava.py`: one fixed image. Follow-up questions go to the vision
  model as text. An input that mentions the image's path, in any letter
  case, rebuilds a four-turn history around the first description. A failed
  service call becomes `None`, except in the reset, which then fails with
  `UnboundLocalError`.

Modules:

- `Text`: the Python string operations the scripts use:
  - `lower` (ASCII), `in` and `endswith`;
  - `strip`, `split()` and `replace(p, "")`, over the whitespace set that
    `strip()` and `split()` use, each characterised by reference lemmas;
  - `"\n".join`.
  - `split("\n")` (`SplitLines`) is not used by the scripts. It is modelled
    only as the inverse of `"\n".join`, for `PromptLines`.
- `History`: turns, the `"role: content"` rendering, the flattened prompt,
  and the mutable list object (`TurnList`).
- `Inference`: the model service seen from outside.
  - The service is an oracle: the reply to the n-th call of a session is a
    function of n and of the request.
  - Every operation that calls it threads the log of requests issued, so the
    contracts say exactly which calls are made, in which order.
- `ChooseModel` and `TalkToLlava`: the two scripts.
  - Each operation is a function over the history's contents.
  - `continue_conversation` is also a method over the `TurnList`, proved
    against that function. It shows which list object is returned and what
    happens to the caller's list.

In these places the model follows what the code does:

- The instruction left after removing the image path is only stripped at
  its ends. Interior double spaces are kept, and an empty remainder is not
  replaced by a default instruction
  (`ChooseModel.ResidualKeepsInteriorSpaces`).
- The user turn is appended before the text model is called. It stays in
  the history when that call fails (`ChooseModel.ContinueConversation`,
  `TalkToLlava.FailedTurnLeavesUserTurn`).
- In `talk_to_llava.py` a reset builds four turns (no system turn) and
  reuses the first description instead of asking for a new one. When its
  call fails, it reads `message_history` before assigning it, so it raises
  (`TalkToLlava.ResetConversation`).
- In `talk_to_llava.py` the reset is triggered by the path appearing in the
  input in any letter case, with no existence test and no word split. The
  path is then removed case-sensitively, so a differently-cased mention
  stays in the prompt (`TalkToLlava.CaseMismatchExample`).

## Model

| member | source | states |
|---|---|---|
| Inference.Passed | choose_model.py:61-69 | a successful reply yields its text; a failed one re-raises exactly its exception |
| Text.Lower | choose_model.py:134 | same length, each character lower-cased where it is an ASCII capital |
| Text.LowerContains | talk_to_llava.py:72 | lower-casing both strings keeps every containment, so an exact-case mention survives `lower()` |
| Text.LowerSuffixOccurs | choose_model.py:134-137 | a word of the input whose lower-cased form ends with a suffix puts that suffix into the lower-cased input |
| Text.TrimStart | choose_model.py:96 | `lstrip` returns a suffix, drops only whitespace, and starts with a non-space |
| Text.TrimEnd | choose_model.py:96 | `rstrip` returns a prefix, drops only whitespace, and ends with a non-space |
| Text.Strip | choose_model.py:96 | `strip` never lengthens and leaves no whitespace at either end |
| Text.TrimStartPadded | choose_model.py:96 | `lstrip` of whitespace followed by a non-space-led text is that text |
| Text.TrimEndPadded | choose_model.py:96 | `rstrip` of a non-space-ended text followed by whitespace is that text |
| Text.StripPadded | choose_model.py:96 | `strip` removes exactly the whitespace around a text that has none at its ends |
| Text.StripUnpadded | talk_to_llava.py:53 | a text with no whitespace at its ends is its own `strip` |
| Text.StripIdempotent | choose_model.py:96 | stripping twice is stripping once |
| Text.Split | choose_model.py:135 | every word of `split()` is non-empty and has no whitespace |
| Text.SplitBlank | choose_model.py:135 | `split()` of whitespace alone is the empty list |
| Text.SplitFirstWord | choose_model.py:135 | after leading whitespace, the first word of `split()` is the whole run of non-whitespace up to the next whitespace or the end, and splitting goes on from there; with SplitBlank this determines `split()` for every input |
| Text.SplitWordOccurs | choose_model.py:135 | every word of `split()` occurs in the input |
| Text.SplitKeepsText | choose_model.py:135 | the words of `split()` concatenated are exactly the non-whitespace characters of the input, in order |
| Text.RemoveAll | choose_model.py:96 | `replace(p, "")` never lengthens |
| Text.RemoveAllAbsent | choose_model.py:96 | `replace(p, "")` leaves a string without `p` unchanged |
| Text.RemoveAllLeftmost | choose_model.py:96 | `replace(p, "")` keeps everything before the leftmost occurrence, drops it, and goes on after it |
| Text.Residual | talk_to_llava.py:53 | the instruction left once the path is removed is no longer than the input and has no whitespace at its ends |
| Text.Join | choose_model.py:148 | `"\n".join` of a non-empty list starts with the first line |
| Text.JoinEndsWithLast | choose_model.py:148 | `"\n".join` of a non-empty list ends with the last line |
| Text.JoinSnoc | choose_model.py:148 | joining one more line adds a newline and that line at the end |
| Text.SplitLinesJoin | choose_model.py:148 | splitting on newlines undoes `"\n".join` when no line contains a newline |
| History.Render | choose_model.py:148 | a rendered line is as long as the role name, `": "` and the content together; ParseRender shows it reads back into the same turn |
| History.ParseRender | choose_model.py:148 | a rendered turn can be read back into the same turn |
| History.Rendered | talk_to_llava.py:77 | the rendered lines are the history's turns rendered one by one, in order |
| History.Prompt | choose_model.py:148 | the flattened context is empty exactly when the history is |
| History.PromptEnds | talk_to_llava.py:77 | the flattened context opens with the first turn's line and closes with the latest turn's line |
| History.PromptExtends | choose_model.py:145-148 | appending a turn extends the prompt by a newline and that turn's line |
| History.PromptLines | choose_model.py:148 | with single-line contents, the prompt's lines are the rendered turns in history order |
| History.PromptDeterminesHistory | choose_model.py:148 | with single-line contents, two histories with the same prompt are equal |
| History.TurnList.constructor | choose_model.py:101-107 | a new list holds exactly the given turns |
| History.TurnList.Append | choose_model.py:145 | `append` adds the turn at the end and changes nothing else |
| ChooseModel.IsModelNotFound | choose_model.py:49-51 | only a ResponseError can count as a missing model; one whose message holds `model` and `not found` always does, whatever the case of the rest |
| ChooseModel.LowerKeepsWords | choose_model.py:51 | lower-casing the error message keeps the words `model` and `not found` wherever they appear |
| ChooseModel.GenerateImageDescription | choose_model.py:37-71 | one image request. Only a model-not-found error leads to an install, and after a successful install to one retry of the same request. The result is the last call's reply, re-raised on failure |
| ChooseModel.RetryAtMostOnce | choose_model.py:49-63 | the image request is sent at most twice and the install at most once |
| ChooseModel.InitializeConversation | choose_model.py:73-90 | an unopenable image raises before any call. Otherwise the persona prompt is sent, and the history is system, user, assistant with the description |
| ChooseModel.BootstrapAfterInstall | choose_model.py:49-60 | when the model is missing, the install succeeds and the retry answers, bootstrap succeeds with that answer |
| ChooseModel.ResetConversation | choose_model.py:92-112 | asks for a detailed description, then the persona-prefixed residual, in that order. A failure of either is raised; when both calls answer, the reset returns, and its history is the five turns built from the two answers |
| ChooseModel.FirstImageToken | choose_model.py:136-140 | the result is the first word that is an image name and exists; none only when no word qualifies |
| ChooseModel.ImageInInput | choose_model.py:133-140 | a detected path is the first word of `split()` that is an image name and exists (GuardIsRedundant: no qualifying word is missed) |
| ChooseModel.ImageWordShowsInInput | choose_model.py:134-137 | a word ending in `.jpg`/`.png` (any case) makes the lower-cased input contain that suffix |
| ChooseModel.GuardIsRedundant | choose_model.py:133-140 | the substring pre-test never changes which image is detected |
| ChooseModel.DetectedImageIsWord | choose_model.py:135-142 | a detected image is a non-empty, whitespace-free word of the input naming an existing image file |
| ChooseModel.DetectImage | choose_model.py:133-140 | the scanning loop with its early exit finds exactly the first qualifying word |
| ChooseModel.Continue | choose_model.py:127-156 | an input naming an image is exactly a reset with five turns. Otherwise it makes one text-model call on the prompt of the history plus the user turn; the call's error is raised, or the user and assistant turns are appended |
| ChooseModel.ResetIsWellFormed | choose_model.py:101-107 | the five reset turns start with the system prompt and alternate user/assistant |
| ChooseModel.ExchangeKeepsWellFormed | choose_model.py:145-151 | appending a user then an assistant turn keeps the history well formed |
| ChooseModel.ContinueKeepsWellFormed | choose_model.py:127-156 | every successful turn leaves a well-formed history (system turn first, then alternating) |
| ChooseModel.ResetForgetsHistory | choose_model.py:142-143 | a reset's outcome does not depend on the prior history or the description passed in |
| ChooseModel.TextPromptExtendsHistory | choose_model.py:145-148 | the text prompt is the previous prompt plus the line `user: <input>` |
| ChooseModel.ExampleTailKept | choose_model.py:96 | `" in detail"` has no `test.png` in it and is kept whole |
| ChooseModel.RemovesExamplePath | choose_model.py:96 | removing `test.png` from `describe test.png in detail` leaves both surrounding spaces |
| ChooseModel.ResidualKeepsInteriorSpaces | choose_model.py:96 | the residual instruction of that example keeps its double space |
| ChooseModel.ContinueConversation | choose_model.py:127-156 | agrees with `Continue`. A reset returns a new list and leaves the caller's untouched. The text path returns the caller's list, and on a failed call that list keeps the user turn |
| TalkToLlava.GenerateDescription | talk_to_llava.py:14-28 | exactly one request; the result is `None` exactly when the call raised, else the reply text |
| TalkToLlava.InitializeConversation | talk_to_llava.py:30-47 | one request. `None` exactly when it failed, else the alternating two-turn history with the description |
| TalkToLlava.ResetConversation | talk_to_llava.py:49-66 | one request with the residual instruction. `UnboundLocalError` exactly when it failed, else four turns reusing the initial description |
| TalkToLlava.MentionsImage | talk_to_llava.py:72 | the path written in its own case in the input always counts as a mention |
| TalkToLlava.Continue | talk_to_llava.py:68-91 | a mention of the path is exactly a reset. Otherwise one text request on the history plus the user turn; a failure gives `None` and keeps the user turn, a success appends the answer |
| TalkToLlava.ContinueKeepsAlternating | talk_to_llava.py:68-91 | every answered turn leaves user and assistant turns alternating |
| TalkToLlava.FailedTurnLeavesUserTurn | talk_to_llava.py:75-86 | a failed text call leaves the user turn in place, so the history stops alternating |
| TalkToLlava.ResetForgetsHistory | talk_to_llava.py:72-73 | a reset's outcome does not depend on the prior history |
| TalkToLlava.CaseMismatchKeepsPath | talk_to_llava.py:53 | when the path is mentioned only in another case, the residual is the whole stripped input |
| TalkToLlava.MixedCaseMentionsImage | talk_to_llava.py:72 | `describe TEST.JPG` mentions `test.jpg` for detection but does not contain it |
| TalkToLlava.CaseMismatchExample | talk_to_llava.py:49-73 | that input triggers the reset and the full input, path included, becomes the prompt |
| TalkToLlava.ContinueConversation | talk_to_llava.py:68-91 | agrees with `Continue`. A reset returns a new list and leaves the caller's untouched. The text path always returns the caller's list, holding the new turns |

## Left out

- The model service (`ollama.generate`) and the installer (`install_and_setup_ollama`) are an oracle, so their internals are not modelled. Only the requests sent and the replies received are.
- `os.path.exists` and the success of `Image.open` are parameters of the operations that use them.
- Text.Lower: models `str.lower()` on ASCII letters only. Other Unicode case mappings are not modelled.
- History persistence (`save_conversation_history`, `load_conversation_history`, `delete_history_file`) is left out. It is JSON file I/O whose failures the scripts do not handle.
- The interactive loops, `print`, `print_colored`, `img.show()`, service start/stop, GPU clearing and `atexit` handlers are left out. They are I/O and process lifecycle around the modelled operations.
- `generate_text_response` is not a separate member; it is the single text request inside `ChooseModel.Continue`.
- `describe_an_image.py` and `set_ollama_cache.py` are not part of this model.
- Exceptions raised by the Python runtime itself (a non-string reply, a missing `'response'` key) are not modelled. A reply is either text or one of the listed exceptions.
