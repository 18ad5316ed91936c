/** The "Apply Variables" action: the file-path checks made before anything is
    read, then the user list, then the system list (only with administrator
    rights), then one broadcast that the environment changed. Reading and
    parsing the file are an input (`load`); so are the registry's answers and
    the broadcast's success. */
module Workflow {
  import opened EnvConfig
  import opened PathGuard
  import opened ApplySpec
  import opened Registry

  /** What reading and parsing the selected file produced. */
  datatype LoadResult = ReadFailed | ParseFailed | Loaded(config: Config)

  /** How the action ends: a dialog before the file is read, or the last
      status the action shows. */
  datatype ApplyStatus =
    | NoFileSelected
    | InvalidFileType
    | FileReadError
    | UnmarshalError
    | UserApplyError
    | SystemApplyError
    | SystemIgnored
    | BroadcastError
    | AppliedSuccessfully

  /** The user list is applied: the file passed the checks and parsed. */
  predicate ReachesUser(path: string, load: LoadResult) {
    path != "" && IsValidYAMLFile(path) && load.Loaded?
  }

  /** The system list is applied: the user key opened and the process is administrator. */
  predicate ReachesSystem(path: string, load: LoadResult, isAdmin: bool, userAccess: WriteAccess) {
    ReachesUser(path, load) && userAccess.canOpen && isAdmin
  }

  /** The broadcast is sent: both applications that were attempted opened their
      key, and no system entry was left unapplied for want of rights. */
  predicate ReachesBroadcast(path: string, load: LoadResult, isAdmin: bool,
                             userAccess: WriteAccess, systemAccess: WriteAccess)
  {
    ReachesUser(path, load) && userAccess.canOpen &&
    (if isAdmin then systemAccess.canOpen else |load.config.systemVariables| == 0)
  }

  method ApplyEnvVars(selectedFilePath: string, load: LoadResult, isAdmin: bool,
                      user: EnvKey, system: EnvKey,
                      userAccess: WriteAccess, systemAccess: WriteAccess, broadcastOk: bool)
    returns (status: ApplyStatus, ghost fileRead: bool, broadcasts: nat)
    requires user != system
    requires user.Valid() && system.Valid()
    modifies user, system
    ensures user.Valid() && system.Valid()
    // the path checks come before any read
    ensures fileRead <==> selectedFilePath != "" && IsValidYAMLFile(selectedFilePath)
    ensures selectedFilePath == "" ==> status == NoFileSelected
    ensures selectedFilePath != "" && !IsValidYAMLFile(selectedFilePath) ==> status == InvalidFileType
    ensures fileRead && load == ReadFailed ==> status == FileReadError
    ensures fileRead && load == ParseFailed ==> status == UnmarshalError
    // the user list first; an error there stops everything after it
    ensures user.vals == if ReachesUser(selectedFilePath, load) && userAccess.canOpen
                         then Run(old(user.vals), load.config.userVariables, userAccess.failing)
                         else old(user.vals)
    ensures ReachesUser(selectedFilePath, load) && !userAccess.canOpen ==> status == UserApplyError
    // the system list only with administrator rights
    ensures system.vals == if ReachesSystem(selectedFilePath, load, isAdmin, userAccess) && systemAccess.canOpen
                           then Run(old(system.vals), load.config.systemVariables, systemAccess.failing)
                           else old(system.vals)
    ensures ReachesSystem(selectedFilePath, load, isAdmin, userAccess) && !systemAccess.canOpen ==>
              status == SystemApplyError
    ensures (ReachesUser(selectedFilePath, load) && userAccess.canOpen && !isAdmin &&
             |load.config.systemVariables| > 0) ==> status == SystemIgnored
    // at most one broadcast, and success is reported only when it succeeds
    ensures broadcasts == if ReachesBroadcast(selectedFilePath, load, isAdmin, userAccess, systemAccess) then 1 else 0
    ensures ReachesBroadcast(selectedFilePath, load, isAdmin, userAccess, systemAccess) ==>
              status == if broadcastOk then AppliedSuccessfully else BroadcastError
    ensures status == AppliedSuccessfully <==>
              ReachesBroadcast(selectedFilePath, load, isAdmin, userAccess, systemAccess) && broadcastOk
  {
    fileRead := false;
    broadcasts := 0;
    if selectedFilePath == "" {
      return NoFileSelected, fileRead, broadcasts;
    }
    if !IsValidYAMLFile(selectedFilePath) {
      return InvalidFileType, fileRead, broadcasts;
    }
    fileRead := true;
    if load.ReadFailed? {
      return FileReadError, fileRead, broadcasts;
    }
    if load.ParseFailed? {
      return UnmarshalError, fileRead, broadcasts;
    }
    var config := load.config;
    var userResult := user.ApplyVariables(config.userVariables, userAccess);
    if userResult.Err? {
      return UserApplyError, fileRead, broadcasts;
    }
    if isAdmin {
      var systemResult := system.ApplyVariables(config.systemVariables, systemAccess);
      if systemResult.Err? {
        return SystemApplyError, fileRead, broadcasts;
      }
    } else if |config.systemVariables| > 0 {
      return SystemIgnored, fileRead, broadcasts;
    }
    broadcasts := broadcasts + 1;
    if broadcastOk {
      status := AppliedSuccessfully;
    } else {
      status := BroadcastError;
    }
  }
}
