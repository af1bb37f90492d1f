/**
 * The deterministic parts of llm.py: the validator that decides whether the
 * language model's chosen action must be asked for again, and the text
 * blocks of the NPC context (action queue, paused action, recent actions,
 * recent game logs).
 */
module Llm {

  import opened Wrappers
  import opened WorldMap

  // ---------------------------------------------------------------------
  // `str.split` with a one-character separator
  // ---------------------------------------------------------------------

  /**
   * Python's `s.split(sep)` for a one-character separator: the pieces
   * between separators, always at least one, possibly empty.
   */
  function Split(s: string, sep: char): (parts: seq<string>)
    ensures |parts| >= 1
    ensures forall i :: 0 <= i < |parts| ==> sep !in parts[i]
  {
    if s == [] then [""]
    else
      var init := Split(s[..|s| - 1], sep);
      var last := s[|s| - 1];
      if last == sep then init + [""]
      else init[..|init| - 1] + [init[|init| - 1] + [last]]
  }

  /** `sep.join(parts)`. */
  function Join(parts: seq<string>, sep: char): string
    requires |parts| >= 1
  {
    if |parts| == 1 then parts[0]
    else Join(parts[..|parts| - 1], sep) + [sep] + parts[|parts| - 1]
  }

  /** Joining the pieces of a split gives back the string. */
  lemma {:induction false} JoinSplit(s: string, sep: char)
    ensures Join(Split(s, sep), sep) == s
  {
    if s != [] {
      var init := s[..|s| - 1];
      var last := s[|s| - 1];
      var parts := Split(init, sep);
      JoinSplit(init, sep);
      if last != sep {
        JoinExtendLast(parts, sep, last);
      }
      assert s == init + [last];
    }
  }

  /** Extending the last piece extends the joined string. */
  lemma {:induction false} JoinExtendLast(parts: seq<string>, sep: char, c: char)
    requires |parts| >= 1
    ensures Join(parts[..|parts| - 1] + [parts[|parts| - 1] + [c]], sep) == Join(parts, sep) + [c]
  {
    var parts' := parts[..|parts| - 1] + [parts[|parts| - 1] + [c]];
    if |parts| > 1 {
      assert parts'[..|parts'| - 1] == parts[..|parts| - 1];
    }
  }

  /**
   * `s.split(':')[-1]`: the text after the last `':'`, or all of `s` when it
   * has none. It is a suffix of `s` without a colon, preceded by a colon
   * whenever it is shorter than `s`.
   */
  function LastSegment(s: string): (r: string)
    ensures ':' !in r
    ensures |r| <= |s| && r == s[|s| - |r|..]
    ensures |r| < |s| ==> s[|s| - |r| - 1] == ':'
    ensures ':' !in s ==> r == s
  {
    var parts := Split(s, ':');
    JoinSplit(s, ':');
    LastOfJoin(parts, ':');
    parts[|parts| - 1]
  }

  /** The last piece ends the joined string, behind a separator if there is more than one piece. */
  lemma LastOfJoin(parts: seq<string>, sep: char)
    requires |parts| >= 1
    ensures var j := Join(parts, sep); var r := parts[|parts| - 1];
      |r| <= |j| && r == j[|j| - |r|..] && (|parts| > 1 ==> |r| < |j| && j[|j| - |r| - 1] == sep)
      && (|parts| == 1 ==> r == j)
  {
  }

  /** A string without the separator splits into itself alone. */
  lemma {:induction false} SplitWithoutSep(s: string, sep: char)
    requires sep !in s
    ensures Split(s, sep) == [s]
  {
    if s != [] {
      SplitWithoutSep(s[..|s| - 1], sep);
      assert s == s[..|s| - 1] + [s[|s| - 1]];
    }
  }

  // ---------------------------------------------------------------------
  // check_valid_args
  // ---------------------------------------------------------------------

  /**
   * The first NPC called `name` in `names`, as the `for npc in all_npcs`
   * loop with `break` finds it.
   */
  function FindNpcByName(names: seq<string>, name: string): (r: Option<nat>)
    ensures r.Some? ==> r.value < |names| && names[r.value] == name
    ensures r.Some? ==> forall j :: 0 <= j < r.value ==> names[j] != name
    ensures r.None? <==> name !in names
  {
    if names == [] then None
    else if names[0] == name then Some(0)
    else
      match FindNpcByName(names[1..], name)
      case None => None
      case Some(k) => Some(k + 1)
  }

  /**
   * `check_valid_args`: true means "not valid, ask again". No action is
   * never valid; an action without a `target` argument always is. A
   * `converse` needs the target to name an NPC; a `pathfind` needs it to
   * name an NPC or, by the text after its last colon, a location. Every
   * other action name passes.
   *
   * `action` is the action's name, `npcNames` the names of all NPCs in
   * order.
   */
  function CheckValidArgs(action: Option<string>, args: map<string, string>, npcNames: seq<string>,
                          gameMap: GameMap): (retry: bool)
    ensures action.None? ==> retry
    ensures action.Some? && "target" !in args ==> !retry
    ensures action.Some? && "target" in args ==>
      (retry <==>
        || (action.value == "converse" && args["target"] !in npcNames)
        || (action.value == "pathfind" && args["target"] !in npcNames
            && gameMap.findLocationByName(LastSegment(args["target"])).None?))
  {
    if action.None? then true
    else if "target" !in args then false
    else
      var target := args["target"];
      var targetNpc := FindNpcByName(npcNames, target);
      var loc := LastSegment(target);
      var targetLocation := gameMap.findLocationByName(loc);
      if action.value == "converse" && targetNpc.None? then true
      else if action.value == "pathfind" && targetNpc.None? && targetLocation.None? then true
      else false
  }

  // ---------------------------------------------------------------------
  // The context text blocks of get_context
  // ---------------------------------------------------------------------

  /**
   * A queued or paused action as the context shows it: its type, the name
   * of its target if it has one, and its message.
   */
  datatype Action = Action(kind: string, target: Option<string>, message: Option<string>)

  /** Python truthiness of `a.message`: present and not empty. */
  predicate HasMessage(a: Action) {
    a.message.Some? && a.message.value != ""
  }

  /** `type: T[, target: N][, message: M]` for one action. */
  function Describe(a: Action): (d: string)
    ensures |d| >= 6 && d[..6] == "type: "
  {
    "type: " + a.kind
    + (if a.target.Some? then ", target: " + a.target.value else "")
    + (if HasMessage(a) then ", message: " + a.message.value else "")
  }

  /** The queue block before the `"None"` fallback: one described line per action, in order. */
  function QueueLines(actions: seq<Action>): string {
    if actions == [] then ""
    else QueueLines(actions[..|actions| - 1]) + Describe(actions[|actions| - 1]) + "\n"
  }

  /** Every entry followed by a newline, in order. */
  function Lines(entries: seq<string>): string {
    if entries == [] then ""
    else Lines(entries[..|entries| - 1]) + entries[|entries| - 1] + "\n"
  }

  /** `npc.logs[-3:]`: the last three entries, or all of them when there are fewer. */
  function LastThree<T>(xs: seq<T>): (r: seq<T>)
    ensures |r| == if |xs| < 3 then |xs| else 3
    ensures r == xs[|xs| - |r|..]
  {
    if |xs| <= 3 then xs else xs[|xs| - 3..]
  }

  lemma {:induction false} QueueLinesAppend(a: seq<Action>, b: seq<Action>)
    ensures QueueLines(a + b) == QueueLines(a) + QueueLines(b)
  {
    if b != [] {
      var b' := b[..|b| - 1];
      QueueLinesAppend(a, b');
      assert (a + b)[..|a + b| - 1] == a + b';
    } else {
      assert a + b == a;
    }
  }

  lemma {:induction false} LinesAppend(a: seq<string>, b: seq<string>)
    ensures Lines(a + b) == Lines(a) + Lines(b)
  {
    if b != [] {
      var b' := b[..|b| - 1];
      LinesAppend(a, b');
      assert (a + b)[..|a + b| - 1] == a + b';
    } else {
      assert a + b == a;
    }
  }

  /** The queue lines are empty exactly for an empty queue, and otherwise start with the first action. */
  lemma {:induction false} QueueLinesStart(actions: seq<Action>)
    ensures QueueLines(actions) == "" <==> actions == []
    ensures actions != [] ==> |QueueLines(actions)| >= 6 && QueueLines(actions)[..6] == "type: "
  {
    if actions != [] {
      QueueLinesAppend([actions[0]], actions[1..]);
      assert [actions[0]] + actions[1..] == actions;
      assert QueueLines([actions[0]]) == QueueLines([]) + Describe(actions[0]) + "\n";
    }
  }

  lemma AppendParts(s: string, a: string, b: string, c: string, d: string)
    ensures s + a + b + c + d == s + (a + b + c) + d
  {
  }

  /** The queue lines are never the text `None`, and are empty only for an empty queue. */
  lemma QueueLinesNotNone(actions: seq<Action>)
    ensures QueueLines(actions) == "" <==> actions == []
    ensures QueueLines(actions) != "None"
  {
    QueueLinesStart(actions);
    if actions != [] {
      var q := QueueLines(actions);
      assert q[..6] == "type: ";
      assert q[0] == 't';
    }
  }

  lemma {:induction false} LinesEmpty(entries: seq<string>)
    ensures Lines(entries) == "" <==> entries == []
  {
    if entries != [] {
      assert |Lines(entries)| >= 1;
    }
  }

  /**
   * llm.py:37-46: the queue block. `"None"` for an empty queue, and only
   * then: a non-empty queue gives one line per action, in queue order.
   */
  method FormatQueue(actions: seq<Action>) returns (s: string)
    ensures actions == [] ==> s == "None"
    ensures actions != [] ==> s == QueueLines(actions)
    ensures s == "None" <==> actions == []
  {
    s := "";
    for i := 0 to |actions|
      invariant s == QueueLines(actions[..i])
    {
      var a := actions[i];
      ghost var before := s;
      var kind := "type: " + a.kind;
      var target := if a.target.Some? then ", target: " + a.target.value else "";
      var message := if HasMessage(a) then ", message: " + a.message.value else "";
      s := s + kind;
      s := s + target;
      s := s + message;
      s := s + "\n";
      AppendParts(before, kind, target, message, "\n");
      assert actions[..i + 1][..i] == actions[..i];
    }
    assert actions[..|actions|] == actions;
    QueueLinesNotNone(actions);
    if s == "" {
      s := "None";
    }
  }

  /**
   * llm.py:47-53: the paused-action block, `"None"` when nothing is paused.
   * A paused action is described like a queued one, without the newline.
   */
  function FormatPaused(paused: Option<Action>): (s: string)
    ensures paused.None? <==> s == "None"
    ensures paused.Some? ==> s + "\n" == QueueLines([paused.value])
  {
    if paused.None? then "None" else Describe(paused.value)
  }

  /** llm.py:54-57: the recent-actions block, each entry on its own line, `"None"` when there are none. */
  method FormatLastActions(lastActions: seq<string>) returns (s: string)
    ensures lastActions == [] ==> s == "None"
    ensures lastActions != [] ==> s == Lines(lastActions)
  {
    s := "";
    for i := 0 to |lastActions|
      invariant s == Lines(lastActions[..i])
    {
      s := s + lastActions[i] + "\n";
      assert lastActions[..i + 1][..i] == lastActions[..i];
    }
    assert lastActions[..|lastActions|] == lastActions;
    LinesEmpty(lastActions);
    if s == "" {
      s := "None";
    }
  }

  /** llm.py:59-63: the game-log block: the last three log entries, each on its own line. */
  method FormatLogs(logs: seq<string>) returns (s: string)
    ensures s == Lines(LastThree(logs))
  {
    var recent := if |logs| <= 3 then logs else logs[|logs| - 3..];
    s := "";
    for i := 0 to |recent|
      invariant s == Lines(recent[..i])
    {
      s := s + recent[i];
      s := s + "\n";
      assert recent[..i + 1][..i] == recent[..i];
    }
    assert recent[..|recent|] == recent;
  }

  /** Only the last three log entries reach the context: older entries make no difference. */
  lemma LogsOnlyLastThree(older: seq<string>, logs: seq<string>)
    requires |logs| >= 3
    ensures Lines(LastThree(older + logs)) == Lines(LastThree(logs))
  {
    assert (older + logs)[|older + logs| - 3..] == logs[|logs| - 3..];
  }

  /** The log block holds at most three lines, one per recent entry, in order. */
  lemma LogBlockShape(logs: seq<string>)
    ensures |logs| >= 3 ==>
      Lines(LastThree(logs)) == logs[|logs| - 3] + "\n" + logs[|logs| - 2] + "\n" + logs[|logs| - 1] + "\n"
  {
    if |logs| >= 3 {
      var a, b, c := logs[|logs| - 3], logs[|logs| - 2], logs[|logs| - 1];
      assert LastThree(logs) == [a, b, c];
      assert [a, b, c][..2] == [a, b];
      assert [a, b][..1] == [a];
      assert Lines([a]) == a + "\n";
      assert Lines([a, b]) == a + "\n" + b + "\n";
    }
  }
}
