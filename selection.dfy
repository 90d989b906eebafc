/**
 * `run_command`: the operator's one line of input picks a command from the
 * parsed menu, and the program's exit status follows from that choice; `main`
 * composes it with the streaming loop and the menu parser.
 */
module Selection {
  import opened Wrappers
  import opened Text
  import opened CommandTable
  import opened Streaming

  /** What `run_command` decides to do with the operator's choice. */
  datatype Action =
    | Quit                             // the choice `"n"`: exit with status 0
    | Invalid(available: seq<string>)  // not a key: print the keys, in menu order, and exit with status 1
    | Execute(command: string)         // hand the command to the shell

  /** The choice, checked first against `"n"` and then against the keys of the menu, exactly as typed. */
  function Select(choice: string, options: Table): (a: Action)
    ensures a.Quit? <==> choice == "n"
    ensures a.Invalid? <==> choice != "n" && choice !in options.entries
    ensures a.Invalid? ==> a.available == options.keys
    ensures a.Execute? ==> choice in options.entries && a.command == options.entries[choice]
  {
    if choice == "n" then Quit
    else if choice !in options.entries then Invalid(options.keys)
    else Execute(options.entries[choice])
  }

  /** What `subprocess.run` did with the command it was given. */
  datatype Launch =
    | Exited(returncode: int)  // the shell ran and ended with this return code
    | Raised                   // `subprocess.run` raised instead of returning

  /** How the program ends: `sys.exit(code)`, or an uncaught exception. */
  datatype Exit = Status(code: int) | Crash

  /** The command handed to `subprocess.run`, if any, and how the program ended. */
  datatype Outcome = Outcome(launched: Option<string>, exit: Exit)

  /**
   * `run_command` as written: when `subprocess.run` raises, the handler prints
   * the error and falls through to `sys.exit(result.returncode)` with `result`
   * never assigned, so the program ends in an uncaught `UnboundLocalError`.
   */
  function RunCommandAsWritten(options: Table, choice: string, launch: Launch): (r: Outcome)
    ensures r.exit == Crash <==> Select(choice, options).Execute? && launch == Raised
  {
    match Select(choice, options)
    case Quit => Outcome(None, Status(0))
    case Invalid(_) => Outcome(None, Status(1))
    case Execute(command) =>
      match launch
      case Exited(code) => Outcome(Some(command), Status(code))
      case Raised => Outcome(Some(command), Crash)
  }

  /**
   * `run_command` with the failed launch reported as the failure status 1, the
   * status the program gives every other failure; this is the version the session uses.
   */
  function RunCommand(options: Table, choice: string, launch: Launch): (r: Outcome)
    ensures r.exit.Status?
    ensures r.launched.Some? <==> Select(choice, options).Execute?
    ensures r.launched.Some? ==> choice in options.entries && r.launched.value == options.entries[choice]
    ensures choice == "n" ==> r == Outcome(None, Status(0))
    ensures choice != "n" && choice !in options.entries ==> r == Outcome(None, Status(1))
    ensures r.launched.Some? ==> r.exit.code == (if launch.Exited? then launch.returncode else 1)
  {
    match Select(choice, options)
    case Quit => Outcome(None, Status(0))
    case Invalid(_) => Outcome(None, Status(1))
    case Execute(command) =>
      match launch
      case Exited(code) => Outcome(Some(command), Status(code))
      case Raised => Outcome(Some(command), Status(1))
  }

  /** The two versions agree on every input except a launch that raises. */
  lemma RunCommandDiffersOnlyOnRaise(options: Table, choice: string, launch: Launch)
    ensures launch.Exited? ==> RunCommandAsWritten(options, choice, launch) == RunCommand(options, choice, launch)
    ensures RunCommandAsWritten(options, choice, launch).launched == RunCommand(options, choice, launch).launched
  {
  }

  /** A command whose launch raises (one holding a NUL character, say) crashes the program as written. */
  lemma LaunchFailureCrashes()
    ensures RunCommandAsWritten(Table(["1"], map["1" := "echo \0"]), "1", Raised).exit == Crash
    ensures RunCommand(Table(["1"], map["1" := "echo \0"]), "1", Raised).exit == Status(1)
  {
  }

  /**
   * On a menu parsed from the language model's text, only a choice that is a run of digits
   * can execute, and what it executes is the last command listed under it.
   */
  lemma ParsedChoice(text: string, choice: string)
    requires Select(choice, Parse(text)).Execute?
    ensures IsKey(choice)
    ensures IsCommand(Select(choice, Parse(text)).command)
    ensures exists i :: 0 <= i < |Split(text, '\n')|
                        && Entry(Split(text, '\n')[i]) == Some((choice, Select(choice, Parse(text)).command))
                        && forall j :: i < j < |Split(text, '\n')| ==> !HasKey(Entry(Split(text, '\n')[j]), choice)
  {
    ParseWellFormed(text);
    LastLineOfKey(text, choice);
  }

  /** `"n"` is never a menu key, so checking it first shadows no command. */
  lemma QuitNeverShadowsAKey(text: string)
    ensures "n" !in Parse(text).entries
  {
    ParseWellFormed(text);
    assert !IsDigit("n"[0]);
  }

  /** No trimming: a choice with a blank in it, such as `" 1"`, is invalid on any parsed menu. */
  lemma BlankInChoiceIsInvalid(text: string, choice: string, k: nat)
    requires k < |choice| && IsSpace(choice[k])
    ensures Select(choice, Parse(text)) == Invalid(Parse(text).keys)
  {
    ParseWellFormed(text);
    BlankIsNotAKey(Parse(text), choice, k);
  }

  /** Menu keys are all digits and `"n"` has no blank, so a choice with a blank is neither. */
  lemma BlankIsNotAKey(t: Table, choice: string, k: nat)
    requires WellFormed(t) && k < |choice| && IsSpace(choice[k])
    ensures choice !in t.entries && choice != "n"
  {
    assert !IsDigit(choice[k]);
    assert !IsKey(choice);
    assert choice != "n" by {
      assert !IsSpace("n"[0]);
    }
  }

  /** The menu `{"1": "echo hi", "2": "pwd"}`. */
  const SampleMenu := Table(["1", "2"], map["1" := "echo hi", "2" := "pwd"])

  /** Decisions on a two-entry menu: a key runs its command, anything else is refused. */
  lemma SampleDecisions()
    ensures Select("1", SampleMenu) == Execute("echo hi")
    ensures Select("3", SampleMenu) == Invalid(["1", "2"])
    ensures Select(" 1", SampleMenu) == Invalid(["1", "2"])
    ensures Select("n", SampleMenu) == Quit
    ensures RunCommand(SampleMenu, "2", Exited(3)) == Outcome(Some("pwd"), Status(3))
  {
    assert " 1" != "1" && " 1" != "2";
    assert "3" != "1" && "3" != "2";
  }

  /**
   * `main` after its argument checks: stream the reply (echoing it), parse the
   * menu from the joined text, then act on the operator's choice with the
   * corrected `RunCommand`, which agrees with the code as written except when
   * the launch raises.
   */
  method Session(lines: seq<Line>, choice: string, launch: Launch) returns (echoed: seq<string>, outcome: Outcome)
    ensures echoed == Accumulated(lines)
    ensures outcome == RunCommand(Parse(Concat(Accumulated(lines))), choice, launch)
    ensures outcome.launched == RunCommandAsWritten(Parse(Concat(Accumulated(lines))), choice, launch).launched
    ensures launch.Exited? ==> outcome == RunCommandAsWritten(Parse(Concat(Accumulated(lines))), choice, launch)
  {
    var text;
    echoed, text := StreamResponse(lines);
    var options := ParseCommands(text);
    outcome := RunCommand(options, choice, launch);
    RunCommandDiffersOnlyOnRaise(options, choice, launch);
  }

  /** A stream whose only frame is the dropped first one leaves nothing to run: every choice but `"n"` fails. */
  lemma NothingStreamedNothingRuns(a: seq<Line>, x: Option<string>, b: seq<Line>, choice: string, launch: Launch)
    requires Frames(a) == [] && Frames(b) == []
    requires choice != "n"
    ensures RunCommand(Parse(Concat(Accumulated(a + [Decoded(x)] + b))), choice, launch) == Outcome(None, Status(1))
  {
    FirstFrameDropped(a, x, b);
    assert Present([]) == [];
    assert Concat([]) == [];
    ParseLine([]);
    assert Entry([]) == None;
  }
}
