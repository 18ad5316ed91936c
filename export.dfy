/** Exporting the current variables: the user key is always read, the
    system key only when the process runs as administrator. */
module Export {
  import opened EnvConfig
  import opened ReadSpec
  import opened Registry

  /** Any read error ends the export with that error; otherwise the user list
      is the user key's readable entries and the system list is the system
      key's when `isAdmin`, and empty when not. `systemRead` records whether
      the system key was read at all. */
  method ExportEnvironmentVariables(isAdmin: bool, user: EnvKey, system: EnvKey,
                                    userAccess: ReadAccess, systemAccess: ReadAccess)
    returns (r: Result<Config>, ghost systemRead: bool)
    ensures systemRead <==> isAdmin && ReadKey(userAccess, user.vals).Ok?
    ensures ReadKey(userAccess, user.vals).Err? ==> r == Err(ReadKey(userAccess, user.vals).error)
    ensures ReadKey(userAccess, user.vals).Ok? && !isAdmin ==>
              r == Ok(Config(ReadKey(userAccess, user.vals).value, []))
    ensures ReadKey(userAccess, user.vals).Ok? && isAdmin && ReadKey(systemAccess, system.vals).Err? ==>
              r == Err(ReadKey(systemAccess, system.vals).error)
    ensures ReadKey(userAccess, user.vals).Ok? && isAdmin && ReadKey(systemAccess, system.vals).Ok? ==>
              r == Ok(Config(ReadKey(userAccess, user.vals).value, ReadKey(systemAccess, system.vals).value))
  {
    systemRead := false;
    var userVars := user.ReadVariables(userAccess);
    if userVars.Err? {
      return Err(userVars.error), systemRead;
    }
    var systemVars: seq<Variable> := [];
    if isAdmin {
      systemRead := true;
      var read := system.ReadVariables(systemAccess);
      if read.Err? {
        return Err(read.error), systemRead;
      }
      systemVars := read.value;
    }
    r := Ok(Config(userVars.value, systemVars));
  }
}
