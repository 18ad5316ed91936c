/** What reading every variable of one registry key yields, stated on values:
    the names come in the order the key enumerates them, and a name whose
    value cannot be read as a string (it is missing, or of another type) is
    skipped. */
module ReadSpec {
  import opened EnvConfig

  /** How a read of one key goes: whether the key opens for reading, and the
      names it enumerates (None when enumeration fails). */
  datatype ReadAccess = ReadAccess(canOpen: bool, enumeration: Option<seq<string>>)

  /** The key holds a string value under `name`, in any case. */
  predicate Readable(vals: Store, name: string) {
    NameKey(name) in vals && vals[NameKey(name)].HoldsText()
  }

  /** The entry exported for a readable name: its string, operation "set". */
  function ReadEntry(vals: Store, name: string): Variable
    requires Readable(vals, name)
  {
    Variable(name, vals[NameKey(name)].text, SetOp)
  }

  /** One "set" entry per readable name, in enumeration order. */
  function ReadableEntries(names: seq<string>, vals: Store): (vs: seq<Variable>)
    ensures |vs| <= |names|
    ensures forall v :: v in vs ==> Readable(vals, v.name) && v == ReadEntry(vals, v.name)
    decreases |names|
  {
    if names == [] then []
    else
      var k := |names| - 1;
      var pre := ReadableEntries(names[..k], vals);
      if Readable(vals, names[k]) then pre + [ReadEntry(vals, names[k])] else pre
  }

  /** The whole read of one key: an error when it cannot be opened or its
      names cannot be enumerated, otherwise its readable entries. */
  function ReadKey(access: ReadAccess, vals: Store): (r: Result<seq<Variable>>)
    ensures r.Err? <==> !access.canOpen || access.enumeration.None?
    ensures !access.canOpen ==> r == Err(OpenFailed)
  {
    if !access.canOpen then Err(OpenFailed)
    else if access.enumeration.None? then Err(EnumerateFailed)
    else Ok(ReadableEntries(access.enumeration.value, vals))
  }

  function NamesOf(vs: seq<Variable>): seq<string> {
    seq(|vs|, i requires 0 <= i < |vs| => vs[i].name)
  }

  /** `a` is obtained from `b` by leaving some elements out. */
  ghost predicate IsSubsequence<T>(a: seq<T>, b: seq<T>)
    decreases |b|
  {
    if b == [] then a == []
    else
      (a != [] && a[|a| - 1] == b[|b| - 1] && IsSubsequence(a[..|a| - 1], b[..|b| - 1]))
      || IsSubsequence(a, b[..|b| - 1])
  }

  /** The names read are the enumerated names with the unreadable ones left
      out, in enumeration order. */
  lemma {:induction false} ReadNamesAreSubsequence(names: seq<string>, vals: Store)
    ensures IsSubsequence(NamesOf(ReadableEntries(names, vals)), names)
    decreases |names|
  {
    if names != [] {
      var k := |names| - 1;
      var pre := ReadableEntries(names[..k], vals);
      ReadNamesAreSubsequence(names[..k], vals);
      if Readable(vals, names[k]) {
        var r := pre + [ReadEntry(vals, names[k])];
        assert NamesOf(r)[..|r| - 1] == NamesOf(pre);
      }
    }
  }

  /** Every enumerated name that can be read is exported with its string. */
  lemma {:induction false} ReadEntriesComplete(names: seq<string>, vals: Store)
    ensures forall n :: n in names && Readable(vals, n) ==> ReadEntry(vals, n) in ReadableEntries(names, vals)
    decreases |names|
  {
    if names != [] {
      var k := |names| - 1;
      ReadEntriesComplete(names[..k], vals);
      assert forall n :: n in names ==> n in names[..k] || n == names[k];
    }
  }

  /** When every enumerated name can be read, the export lists them all, in order. */
  lemma {:induction false} ReadAllWhenReadable(names: seq<string>, vals: Store)
    requires forall i :: 0 <= i < |names| ==> Readable(vals, names[i])
    ensures NamesOf(ReadableEntries(names, vals)) == names
    decreases |names|
  {
    if names != [] {
      var k := |names| - 1;
      ReadAllWhenReadable(names[..k], vals);
      assert names == names[..k] + [names[k]];
    }
  }
}
