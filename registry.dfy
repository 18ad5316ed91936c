/** One opened registry key holding environment variables (the user key
    `HKEY_CURRENT_USER\Environment` or the system key under
    `HKEY_LOCAL_MACHINE`). The operating system's answers that the model
    cannot see are inputs: whether the key opens, which calls fail, and the
    order in which it enumerates its names. */
module Registry {
  import opened EnvConfig
  import opened ApplySpec
  import opened ReadSpec

  class EnvKey {
    /** The key's values, by `NameKey`. */
    var vals: Store

    /** The key's values are filed under lower-cased names only, as the
        registry's case-blind matching makes them. */
    predicate Valid()
      reads this
    {
      KeysFolded(vals)
    }

    constructor (initial: Store)
      requires KeysFolded(initial)
      ensures Valid() && vals == initial
    {
      vals := initial;
    }

    /** Applies `variables` in order, best effort: an error only when the key
        cannot be opened, and then nothing changes; otherwise one outcome per
        entry and the key as the entries, applied in turn, leave it. */
    method ApplyVariables(variables: seq<Variable>, access: WriteAccess) returns (r: Result<seq<Outcome>>)
      requires Valid()
      modifies this
      ensures Valid()
      ensures !access.canOpen ==> r == Err(OpenFailed) && vals == old(vals)
      ensures access.canOpen ==>
                r == Ok(Outcomes(old(vals), variables, access.failing)) &&
                vals == Run(old(vals), variables, access.failing)
    {
      if !access.canOpen {
        return Err(OpenFailed);
      }
      var outcomes: seq<Outcome> := [];
      var i := 0;
      while i < |variables|
        invariant 0 <= i <= |variables|
        invariant vals == Run(old(vals), variables[..i], access.failing)
        invariant outcomes == Outcomes(old(vals), variables[..i], access.failing)
      {
        var v := variables[i];
        var key := NameKey(v.name);
        var fails := i in access.failing;
        assert variables[..i + 1][..i] == variables[..i];
        if v.operation == SetOp {
          if fails {
            outcomes := outcomes + [Failed];
          } else {
            vals := vals[key := StringValue(v.value)];
            outcomes := outcomes + [Applied];
          }
        } else if v.operation == DeleteOp {
          if key !in vals {
            outcomes := outcomes + [AlreadyAbsent];
          } else if fails {
            outcomes := outcomes + [Failed];
          } else {
            vals := vals - {key};
            outcomes := outcomes + [Applied];
          }
        } else {
          outcomes := outcomes + [Unknown];
        }
        i := i + 1;
      }
      assert variables[..i] == variables;
      RunKeepsKeysFolded(old(vals), variables, access.failing);
      r := Ok(outcomes);
    }

    /** Reads every variable of the key: an error when it cannot be opened or
        enumerated, otherwise a "set" entry for each readable name, in
        enumeration order. */
    method ReadVariables(access: ReadAccess) returns (r: Result<seq<Variable>>)
      ensures r == ReadKey(access, vals)
    {
      if !access.canOpen {
        return Err(OpenFailed);
      }
      if access.enumeration.None? {
        return Err(EnumerateFailed);
      }
      var names := access.enumeration.value;
      var variables: seq<Variable> := [];
      var i := 0;
      while i < |names|
        invariant 0 <= i <= |names|
        invariant variables == ReadableEntries(names[..i], vals)
      {
        var name := names[i];
        assert names[..i + 1][..i] == names[..i];
        i := i + 1;
        var key := NameKey(name);
        if key !in vals || !vals[key].HoldsText() {
          continue;
        }
        variables := variables + [Variable(name, vals[key].text, SetOp)];
      }
      assert names[..i] == names;
      r := Ok(variables);
    }
  }
}
