/**
 * The conversation history both scripts keep: an ordered list of
 * `{"role": ..., "content": ...}` records, and the flattened prompt
 * `"\n".join(f"{role}: {content}" for each record)` sent to the text model.
 */
module History {
  import opened Text
  import opened Wrappers

  datatype Role = System | User | Assistant

  /** The string stored under "role". */
  function RoleName(role: Role): string {
    match role
    case System => "system"
    case User => "user"
    case Assistant => "assistant"
  }

  datatype Turn = Turn(role: Role, content: string)

  /** One line of the flattened prompt: `f"{msg['role']}: {msg['content']}"`. */
  function Render(turn: Turn): (line: string)
    ensures |line| == |RoleName(turn.role)| + 2 + |turn.content|
  {
    RoleName(turn.role) + ": " + turn.content
  }

  /** Reads a rendered line back into the turn it came from. */
  function ParseTurn(line: string): Option<Turn> {
    if |line| >= 8 && line[..8] == "system: " then Some(Turn(System, line[8..]))
    else if |line| >= 6 && line[..6] == "user: " then Some(Turn(User, line[6..]))
    else if |line| >= 11 && line[..11] == "assistant: " then Some(Turn(Assistant, line[11..]))
    else None
  }

  /** Rendering loses nothing: the role prefix is unambiguous. */
  lemma ParseRender(turn: Turn)
    ensures ParseTurn(Render(turn)) == Some(turn)
  {
    var line := Render(turn);
    var name := RoleName(turn.role);
    assert line[..|name| + 2] == name + ": ";
    assert line[|name| + 2..] == turn.content;
    match turn.role
    case System =>
    case User =>
      assert line[0] == 'u';
    case Assistant =>
      assert line[0] == 'a';
  }

  /** The list comprehension `[f"{msg['role']}: {msg['content']}" for msg in message_history]`. */
  function Rendered(turns: seq<Turn>): (lines: seq<string>)
    ensures |lines| == |turns|
    ensures forall k :: 0 <= k < |turns| ==> lines[k] == Render(turns[k])
  {
    seq(|turns|, k requires 0 <= k < |turns| => Render(turns[k]))
  }

  /** The flattened context sent to the text model: empty exactly when there are no turns. */
  function Prompt(turns: seq<Turn>): (p: string)
    ensures p == [] <==> turns == []
  {
    Join(Rendered(turns))
  }

  /** The prompt opens with the first turn's line and closes with the latest turn's line. */
  lemma PromptEnds(turns: seq<Turn>)
    requires turns != []
    ensures OccursAt(Prompt(turns), Render(turns[0]), 0)
    ensures EndsWith(Prompt(turns), Render(turns[|turns| - 1]))
  {
    var lines := Rendered(turns);
    assert lines[0] == Render(turns[0]) && lines[|lines| - 1] == Render(turns[|turns| - 1]);
    JoinEndsWithLast(lines);
  }

  /** Appending a turn appends its line, after a newline, to the prompt. */
  lemma PromptExtends(turns: seq<Turn>, turn: Turn)
    requires turns != []
    ensures Prompt(turns + [turn]) == Prompt(turns) + "\n" + Render(turn)
  {
    assert Rendered(turns + [turn]) == Rendered(turns) + [Render(turn)];
    JoinSnoc(Rendered(turns), Render(turn));
  }

  predicate SingleLine(turns: seq<Turn>) {
    forall k :: 0 <= k < |turns| ==> '\n' !in turns[k].content
  }

  /** When no content holds a newline, the prompt has one line per turn, in history order. */
  lemma PromptLines(turns: seq<Turn>)
    requires turns != [] && SingleLine(turns)
    ensures SplitLines(Prompt(turns)) == Rendered(turns)
  {
    var lines := Rendered(turns);
    forall k | 0 <= k < |lines|
      ensures '\n' !in lines[k]
    {
      var name := RoleName(turns[k].role);
      assert lines[k] == (name + ": ") + turns[k].content;
      assert '\n' !in name + ": ";
    }
    SplitLinesJoin(lines);
  }

  /** When no content holds a newline, the prompt determines the whole history. */
  lemma PromptDeterminesHistory(turns: seq<Turn>, others: seq<Turn>)
    requires turns != [] && SingleLine(turns)
    requires others != [] && SingleLine(others)
    requires Prompt(turns) == Prompt(others)
    ensures turns == others
  {
    PromptLines(turns);
    PromptLines(others);
    assert Rendered(turns) == Rendered(others);
    forall k | 0 <= k < |turns|
      ensures turns[k] == others[k]
    {
      ParseRender(turns[k]);
      ParseRender(others[k]);
    }
  }

  /** The Python list object holding the history, which `append` changes in place. */
  class TurnList {
    var turns: seq<Turn>

    constructor (initial: seq<Turn>)
      ensures turns == initial
    {
      turns := initial;
    }

    /** `message_history.append(turn)`. */
    method Append(turn: Turn)
      modifies this
      ensures turns == old(turns) + [turn]
    {
      turns := turns + [turn];
    }
  }
}
