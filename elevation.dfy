/** Relaunching as administrator: the arguments handed to the elevated
    instance, and how a starting instance picks its pre-selected file.
    `osArgs` is the process's argument list, program path first. */
module Elevation {

  /** Whether `x` occurs in `s`, scanning from the front. */
  method Contains(s: seq<string>, x: string) returns (found: bool)
    ensures found <==> x in s
  {
    for i := 0 to |s|
      invariant forall j :: 0 <= j < i ==> s[j] != x
    {
      if s[i] == x {
        return true;
      }
    }
    return false;
  }

  /** The arguments forwarded to the elevated instance: the current
      arguments after the program path, with the selected file appended when
      one is selected and not already among them. */
  function ForwardedArgs(osArgs: seq<string>, selected: string): (args: seq<string>)
    requires |osArgs| >= 1
    ensures |osArgs| - 1 <= |args| <= |osArgs|
    ensures args[..|osArgs| - 1] == osArgs[1..]
    ensures selected != "" ==> selected in args
    ensures multiset(args)[selected] ==
              if selected != "" && selected !in osArgs[1..] then 1 else multiset(osArgs[1..])[selected]
    ensures forall x :: x != selected ==> multiset(args)[x] == multiset(osArgs[1..])[x]
  {
    var rest := osArgs[1..];
    if selected != "" && selected !in rest then
      assert (rest + [selected])[..|rest|] == rest;
      rest + [selected]
    else rest
  }

  /** The relaunch handler's argument building, as written. */
  method RelaunchArgs(osArgs: seq<string>, selected: string) returns (args: seq<string>)
    requires |osArgs| >= 1
    ensures args == ForwardedArgs(osArgs, selected)
  {
    args := osArgs[1..];
    var present := Contains(args, selected);
    if selected != "" && !present {
      args := args + [selected];
    }
  }

  /** The file an instance starts with: its first argument after the program
      path, or none. */
  function InitialSelection(osArgs: seq<string>): (selected: string)
    ensures selected != "" ==> |osArgs| > 1
    ensures |osArgs| > 1 ==> selected == osArgs[1]
  {
    if |osArgs| > 1 then osArgs[1] else ""
  }

  /** An instance started with file `launched` whose user then chose `chosen`
      relaunches an elevated instance that selects `launched` again: the new
      choice is forwarded second, where startup does not look. The elevated
      instance's arguments are taken to be the forwarded list; the program
      joins them with spaces and no quoting (main.go:556), so this holds only
      when no forwarded argument contains a space or a quote. */
  lemma RelaunchDropsNewSelection(exe: string, launched: string, chosen: string)
    requires launched != "" && chosen != "" && launched != chosen
    ensures ForwardedArgs([exe, launched], chosen) == [launched, chosen]
    ensures InitialSelection([exe] + ForwardedArgs([exe, launched], chosen)) == launched
  {
    assert [exe, launched][1..] == [launched];
  }

  /** Forwarding the selected file as the only argument, and the current
      arguments when nothing is selected. */
  function CorrectedForwardedArgs(osArgs: seq<string>, selected: string): seq<string>
    requires |osArgs| >= 1
  {
    if selected != "" then [selected] else osArgs[1..]
  }

  /** With the corrected forwarding, the elevated instance starts with the
      file the user had selected, and with the same file as before when
      nothing was selected. As above, this takes the forwarded list to arrive
      intact, which joining with spaces and no quoting (main.go:556) gives
      only for arguments without spaces or quotes. */
  lemma CorrectedRelaunchPreservesSelection(exe: string, osArgs: seq<string>, selected: string)
    requires |osArgs| >= 1
    ensures selected != "" ==> InitialSelection([exe] + CorrectedForwardedArgs(osArgs, selected)) == selected
    ensures selected == "" ==> InitialSelection([exe] + CorrectedForwardedArgs(osArgs, selected)) == InitialSelection(osArgs)
  {
    var args := [exe] + CorrectedForwardedArgs(osArgs, selected);
    if selected == "" && |osArgs| > 1 {
      assert args[1] == osArgs[1];
    }
  }
}
