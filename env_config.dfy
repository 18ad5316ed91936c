/** The data model shared by every part of the environment-variable manager:
    one declared variable, a configuration holding the user and the system
    lists, and the small result types used for the registry's error paths. */
module EnvConfig {

  /** The two operation strings the manager recognises; matching is exact. */
  const SetOp: string := "set"
  const DeleteOp: string := "delete"

  /** One entry of a configuration file. `operation` is kept as the string
      read from the file, so an unrecognised operation is still data. */
  datatype Variable = Variable(name: string, value: string, operation: string)

  /** A parsed configuration: the user list and the system list, in file order. */
  datatype Config = Config(userVariables: seq<Variable>, systemVariables: seq<Variable>)

  datatype Option<T> = None | Some(value: T)

  /** Why a registry key could not be used as a whole. */
  datatype StoreError = OpenFailed | EnumerateFailed

  datatype Result<T> = Ok(value: T) | Err(error: StoreError)

  /** ASCII lower-casing of one character. */
  function LowerChar(c: char): char {
    if 'A' <= c <= 'Z' then (c as int + 32) as char else c
  }

  function ToLower(s: string): string {
    seq(|s|, i requires 0 <= i < |s| => LowerChar(s[i]))
  }

  /** One value stored under a registry key: a plain string (REG_SZ), an
      expandable string whose `%NAME%` references Windows expands
      (REG_EXPAND_SZ), or a value of another registry type (a number or
      binary data). The manager reads both string types; it always writes
      a plain string. */
  datatype RegValue = StringValue(text: string) | ExpandStringValue(text: string) | OtherValue
  {
    /** The manager can read this value as a string. */
    predicate HoldsText() {
      StringValue? || ExpandStringValue?
    }
  }

  /** The name under which the registry files a value. The registry matches
      value names without regard to case, so `Path` and `PATH` name the same
      value; a key's values are indexed by the lower-cased name. */
  function NameKey(name: string): (key: string)
    ensures |key| == |name|
    ensures forall i :: 0 <= i < |name| ==> key[i] == LowerChar(name[i])
  {
    ToLower(name)
  }

  /** The values of one registry key, by `NameKey`. */
  type Store = map<string, RegValue>

  /** Every index of the store is a lower-cased name, as `NameKey` makes them. */
  predicate KeysFolded(m: Store) {
    forall k :: k in m ==> NameKey(k) == k
  }

  /** Lower-casing a name twice gives the same index as once. */
  lemma NameKeyIdempotent(name: string)
    ensures NameKey(NameKey(name)) == NameKey(name)
  {
  }
}
