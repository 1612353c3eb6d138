/** The Gentoo backend of update_notifier_tray/distros/gentoo.py: counting the
    packages `emerge --pretend` would merge, detection, the check interval and
    the command line of the update terminal.  Running emerge is left to the
    caller, who passes its exit status and output. */
module Gentoo {
  import opened Text

  /** The emerge invocation whose output is counted. */
  const CheckForUpdatesCommand: seq<string> := [
    "emerge", "--ignore-default-opts", "--pretend", "--verbose", "--color", "n",
    "--complete-graph", "--deep", "--newuse", "--update", "@world"]

  /** The emerge invocation the update terminal runs. */
  const UpdateCommand: seq<string> := [
    "emerge", "--ask", "--verbose", "--tree", "--quiet",
    "--complete-graph", "--deep", "--newuse", "--update", "--keep-going", "@world"]

  /** The marker that begins every line for a package emerge would build. */
  const EbuildMarker: string := "[ebuild"

  /** The result of the probe: a count, or the error a non-zero exit raises. */
  datatype CountResult = Count(count: nat) | CalledProcessError(returnCode: int)

  function DescribeUpdateGuiAction(): string {
    "Run \"emerge --ask --&update ...\""
  }

  /** detected: "Gentoo" occurs in the output of `lsb_release -a`. */
  predicate Detected(lsbReleaseOutput: string) {
    Contains(lsbReleaseOutput, "Gentoo")
  }

  lemma DetectedIffGentooOccurs(lsbReleaseOutput: string)
    ensures Detected(lsbReleaseOutput) <==> IsSubstring("Gentoo", lsbReleaseOutput)
  {
    ContainsIsSubstring(lsbReleaseOutput, "Gentoo");
  }

  function CommandLineName(): string {
    "gentoo"
  }

  /** get_check_interval_seconds: the dependency graph is expensive, so twelve hours. */
  function CheckIntervalSeconds(): (seconds: nat)
    ensures seconds == 43200
  {
    60 * 60 * 12
  }

  /** The number of `lines` that begin with the ebuild marker. */
  function CountEbuildLines(lines: seq<string>): (n: nat)
    ensures n <= |lines|
    decreases |lines|
  {
    if lines == [] then 0
    else (if StartsWith(lines[0], EbuildMarker) then 1 else 0) + CountEbuildLines(lines[1..])
  }

  /** The count for the text emerge printed: its '\n'-separated lines that
      begin with the marker. */
  function EbuildLineCount(output: string): (n: nat)
    ensures n <= |Split(output, '\n')|
  {
    CountEbuildLines(Split(output, '\n'))
  }

  /** get_updateable_package_count, given what running the check command gave:
      a non-zero exit status is an error, not a count. */
  function GetUpdateablePackageCount(exitStatus: int, output: string): (r: CountResult)
    ensures exitStatus != 0 <==> r.CalledProcessError?
    ensures r.CalledProcessError? ==> r.returnCode == exitStatus
    ensures r.Count? ==> r.count <= |Split(output, '\n')|
  {
    if exitStatus != 0 then CalledProcessError(exitStatus) else Count(EbuildLineCount(output))
  }

  lemma {:induction false} CountEbuildLinesAppend(l1: seq<string>, l2: seq<string>)
    ensures CountEbuildLines(l1 + l2) == CountEbuildLines(l1) + CountEbuildLines(l2)
    decreases |l1|
  {
    if l1 == [] {
      assert l1 + l2 == l2;
    } else {
      assert (l1 + l2)[1..] == l1[1..] + l2;
      CountEbuildLinesAppend(l1[1..], l2);
    }
  }

  /** The count is zero exactly when no line begins with the marker. */
  lemma {:induction false} CountZeroIffNoMarkedLine(lines: seq<string>)
    ensures CountEbuildLines(lines) == 0 <==> forall i :: 0 <= i < |lines| ==> !StartsWith(lines[i], EbuildMarker)
    decreases |lines|
  {
    if lines != [] {
      CountZeroIffNoMarkedLine(lines[1..]);
      assert forall i :: 1 <= i < |lines| ==> lines[i] == lines[1..][i - 1];
    }
  }

  /** Counting is additive over the line break: the output of two runs joined
      by a newline counts as both. */
  lemma CountIsAdditive(a: string, b: string)
    ensures EbuildLineCount(a + "\n" + b) == EbuildLineCount(a) + EbuildLineCount(b)
  {
    SplitAppend(a, b, '\n');
    CountEbuildLinesAppend(Split(a, '\n'), Split(b, '\n'));
  }

  /** A single line counts once if it begins with the marker and not at all
      otherwise, in particular when the marker appears later in the line.
      With CountIsAdditive this determines the count of every output. */
  lemma SingleLineCount(line: string)
    requires '\n' !in line
    ensures EbuildLineCount(line) == if StartsWith(line, EbuildMarker) then 1 else 0
  {
    SplitSeparatorFree(line, [], '\n');
  }

  /** An example: of three lines, only the one that begins with the marker
      counts, not the indented one nor the blocker. */
  lemma ExampleOutputCount(l1: string, l2: string, l3: string)
    requires l1 == "[ebuild  U] a" && l2 == " [ebuild] b" && l3 == "[blocks] c"
    ensures EbuildLineCount(l1 + "\n" + l2 + "\n" + l3) == 1
  {
    assert l1 + "\n" + l2 + "\n" + l3 == l1 + "\n" + (l2 + "\n" + l3);
    CountIsAdditive(l1, l2 + "\n" + l3);
    CountIsAdditive(l2, l3);
    assert EbuildLineCount(l1) == 1 by {
      SingleLineCount(l1);
      assert l1[..7] == EbuildMarker;
    }
    assert EbuildLineCount(l2) == 0 by {
      SingleLineCount(l2);
      assert l2[0] != EbuildMarker[0];
    }
    assert EbuildLineCount(l3) == 0 by {
      SingleLineCount(l3);
      assert l3[1] != EbuildMarker[1];
    }
  }

  /** _get_update_command: a shell line that echoes and runs the update with
      sudo, then leaves an interactive shell in the home directory. */
  function GetUpdateCommand(): string {
    "(set -x; sudo " + Join(' ', UpdateCommand) + ") ; cd ~; bash -i"
  }

  lemma UpdateWordsHaveNoSpace()
    ensures forall p :: p in UpdateCommand ==> ' ' !in p
  {
    forall p | p in UpdateCommand ensures ' ' !in p {
    }
  }

  /** The probe only asks emerge what it would do, while the update command
      merges and asks the user first. */
  lemma ProbeOnlyPretends()
    ensures "--pretend" in CheckForUpdatesCommand && "--ask" !in CheckForUpdatesCommand
    ensures "--ask" in UpdateCommand && "--pretend" !in UpdateCommand
  {
  }

  /** The shell line embeds the update command so that splitting it at spaces
      gives back the argument vector. */
  lemma UpdateCommandRoundTrip()
    ensures exists inner :: GetUpdateCommand() == "(set -x; sudo " + inner + ") ; cd ~; bash -i"
                            && Split(inner, ' ') == UpdateCommand
  {
    UpdateWordsHaveNoSpace();
    SplitJoin(UpdateCommand, ' ');
    var inner := Join(' ', UpdateCommand);
    assert GetUpdateCommand() == "(set -x; sudo " + inner + ") ; cd ~; bash -i";
  }

  /** start_update_gui: the argument vector of the terminal it launches. */
  function StartUpdateGuiArgv(): seq<string> {
    ["terminator", "-e", GetUpdateCommand()]
  }
}
