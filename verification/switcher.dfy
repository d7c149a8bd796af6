/**
  The subscription switcher at the end of `main`: one line read from standard
  input either keeps the active subscription or names the subscription to
  switch to, which is passed to `az account set --subscription`.
 */
module Switcher {
  import opened GoStrings
  import opened Options

  /** What the program does with the line it read. */
  datatype Decision = Keep | Set(arg: string)

  /** A line as `bufio.Reader.ReadString('\n')` delivers it: a newline can only be its last character. */
  predicate IsReadLine(input: string)
  {
    forall i :: 0 <= i < |input| - 1 ==> input[i] != '\n'
  }

  /**
    The keep/set decision. Empty input (end of file straight away) and a bare
    newline keep the subscription; anything else is a switch whose argument is
    the input with exactly one trailing newline removed, if it had one.
   */
  function Decide(input: string): (d: Decision)
    ensures d.Keep? <==> input == "" || input == "\n"
    ensures d.Set? ==> d.arg != ""
    ensures d.Set? && HasSuffix(input, "\n") ==> d.arg + "\n" == input
    ensures d.Set? && !HasSuffix(input, "\n") ==> d.arg == input
  {
    if input == "" || input == "\n" then Keep
    else Set(TrimSuffix(input, "\n"))
  }

  /** The external command the decision leads to, as an argument vector; none for `Keep`. */
  function Command(d: Decision): (argv: Option<seq<string>>)
    ensures argv.None? <==> d.Keep?
    ensures argv.Some? ==> |argv.value| == 5 && argv.value[4] == d.arg
    ensures argv.Some? ==> argv.value[..4] == ["az", "account", "set", "--subscription"]
  {
    match d
    case Keep => None
    case Set(s) => Some(["az", "account", "set", "--subscription", s])
  }

  /**
    Whatever line is read, the program either runs no command (exactly for
    empty or newline-only input) or runs `az` with a non-empty last argument.
   */
  lemma CommandOnlyForNonBlankInput(input: string)
    ensures Command(Decide(input)).None? <==> input == "" || input == "\n"
    ensures Command(Decide(input)).Some? ==> Command(Decide(input)).value[4] != ""
  {
  }

  /** For a line read by `ReadString`, the argument handed to `az` contains no newline. */
  lemma ReadLineArgHasNoNewline(input: string)
    requires IsReadLine(input)
    ensures Decide(input).Set? ==> '\n' !in Decide(input).arg
  {
    if Decide(input).Set? {
      var a := Decide(input).arg;
      if HasSuffix(input, "\n") {
        assert a + "\n" == input;
        assert forall i :: 0 <= i < |a| ==> a[i] == input[i];
      } else {
        assert input[|input| - 1] != '\n';
      }
    }
  }

  /**
    Round trip with the reader: a non-empty subscription name without a
    newline comes back unchanged, whether the user ended it with Enter or the
    input ended at end of file.
   */
  lemma TypedNameRoundTrip(name: string)
    requires name != "" && '\n' !in name
    ensures IsReadLine(name + "\n") && IsReadLine(name)
    ensures Decide(name + "\n") == Set(name)
    ensures Decide(name) == Set(name)
  {
    TrimSuffixOfConcat(name, "\n");
    assert forall i :: 0 <= i < |name| ==> (name + "\n")[i] == name[i];
    assert name[|name| - 1] != '\n';
  }

  /** Only one newline is removed: without the reader's guarantee a newline can reach the argument. */
  lemma OnlyOneNewlineRemoved()
    ensures Decide("\n\n") == Set("\n")
  {
    assert HasSuffix("\n\n", "\n");
  }

  /** A carriage return before the newline is not stripped, so it becomes the whole argument. */
  lemma CarriageReturnIsASwitch()
    ensures Decide("\r\n") == Set("\r")
  {
    assert HasSuffix("\r\n", "\n");
  }
}
