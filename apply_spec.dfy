/** What applying a list of variables does to one registry key, stated on
    values: the key is a `Store`, indexed by `NameKey`, so entries whose names
    differ only in case address the same value; an entry whose registry call
    is made to fail is named by its position in the list. */
module ApplySpec {
  import opened EnvConfig

  /** The result recorded for one entry of the list. */
  datatype Outcome = Applied | Failed | AlreadyAbsent | Unknown

  /** How writes to one key go: whether it opens for writing, and the
      positions in the list whose set or delete call fails. */
  datatype WriteAccess = WriteAccess(canOpen: bool, failing: set<nat>)

  function Lookup(m: Store, key: string): Option<RegValue> {
    if key in m then Some(m[key]) else None
  }

  /** The key after one entry; `fails` says its set or delete call fails. A
      set stores a plain string value, replacing a value of any type (an
      expandable string included); a delete removes a value of any type.
      Only the entry's own name is touched. */
  function Step(m: Store, v: Variable, fails: bool): (r: Store)
    ensures v.operation == SetOp && !fails ==> Lookup(r, NameKey(v.name)) == Some(StringValue(v.value))
    ensures v.operation == DeleteOp && !fails ==> NameKey(v.name) !in r
    ensures forall k :: k != NameKey(v.name) ==> Lookup(r, k) == Lookup(m, k)
    ensures fails || (v.operation != SetOp && v.operation != DeleteOp) ==> r == m
  {
    if v.operation == SetOp && !fails then m[NameKey(v.name) := StringValue(v.value)]
    else if v.operation == DeleteOp && !fails then m - {NameKey(v.name)}
    else m
  }

  /** The outcome of one entry, judged against the key before it. Deleting a
      name that is not there reports AlreadyAbsent whether or not the call was
      made to fail, since the registry then answers "not found". */
  function StepOutcome(m: Store, v: Variable, fails: bool): (o: Outcome)
    ensures o == Unknown <==> v.operation != SetOp && v.operation != DeleteOp
    ensures o == AlreadyAbsent <==> v.operation == DeleteOp && NameKey(v.name) !in m
    ensures o == Failed ==> fails
  {
    if v.operation == SetOp then (if fails then Failed else Applied)
    else if v.operation == DeleteOp then
      (if NameKey(v.name) !in m then AlreadyAbsent else if fails then Failed else Applied)
    else Unknown
  }

  /** The key after every entry of `vs`, in order. */
  function Run(m: Store, vs: seq<Variable>, failing: set<nat>): Store
    decreases |vs|
  {
    if vs == [] then m
    else
      var k := |vs| - 1;
      Step(Run(m, vs[..k], failing), vs[k], k in failing)
  }

  /** The outcomes of every entry of `vs`, in order. */
  function Outcomes(m: Store, vs: seq<Variable>, failing: set<nat>): (r: seq<Outcome>)
    ensures |r| == |vs|
    decreases |vs|
  {
    if vs == [] then []
    else
      var k := |vs| - 1;
      Outcomes(m, vs[..k], failing) + [StepOutcome(Run(m, vs[..k], failing), vs[k], k in failing)]
  }

  /** Entry `i` changes the key: a recognised operation whose call succeeds. */
  predicate Effective(v: Variable, i: nat, failing: set<nat>) {
    i !in failing && (v.operation == SetOp || v.operation == DeleteOp)
  }

  /** An independent reading of one value: scanning back from the end of
      the list, the last effective entry whose name files under `key` decides
      it; without one the value stays `initial`. */
  function Resolve(initial: Option<RegValue>, vs: seq<Variable>, failing: set<nat>, key: string): Option<RegValue>
    decreases |vs|
  {
    if vs == [] then initial
    else
      var k := |vs| - 1;
      if NameKey(vs[k].name) == key && Effective(vs[k], k, failing) then
        (if vs[k].operation == SetOp then Some(StringValue(vs[k].value)) else None)
      else Resolve(initial, vs[..k], failing, key)
  }

  /** Running the list and resolving each value by its last effective entry agree. */
  lemma {:induction false} RunResolves(m: Store, vs: seq<Variable>, failing: set<nat>, key: string)
    ensures Lookup(Run(m, vs, failing), key) == Resolve(Lookup(m, key), vs, failing, key)
    decreases |vs|
  {
    if vs != [] {
      RunResolves(m, vs[..|vs| - 1], failing, key);
    }
  }

  /** A value no entry names, in any case, keeps its contents (or stays absent). */
  lemma {:induction false} UnmentionedUnchanged(m: Store, vs: seq<Variable>, failing: set<nat>, key: string)
    requires forall i :: 0 <= i < |vs| ==> NameKey(vs[i].name) != key
    ensures Lookup(Run(m, vs, failing), key) == Lookup(m, key)
    decreases |vs|
  {
    if vs != [] {
      var k := |vs| - 1;
      assert NameKey(vs[k].name) != key;
      UnmentionedUnchanged(m, vs[..k], failing, key);
    }
  }

  lemma {:induction false} ResolveAfterLast(initial: Option<RegValue>, vs: seq<Variable>, failing: set<nat>, key: string, j: nat)
    requires j < |vs| && NameKey(vs[j].name) == key && Effective(vs[j], j, failing)
    requires forall i :: j < i < |vs| && NameKey(vs[i].name) == key ==> !Effective(vs[i], i, failing)
    ensures Resolve(initial, vs, failing, key) == if vs[j].operation == SetOp then Some(StringValue(vs[j].value)) else None
    decreases |vs|
  {
    var k := |vs| - 1;
    if j < k {
      assert vs[..k][j] == vs[j];
      ResolveAfterLast(initial, vs[..k], failing, key, j);
    }
  }

  /** For repeated names, compared without regard to case, the last
      effective entry wins: a set leaves its string, a delete leaves the value
      absent. Unknown operations and failed calls after it do not count. */
  lemma LastEffectiveWins(m: Store, vs: seq<Variable>, failing: set<nat>, j: nat)
    requires j < |vs| && Effective(vs[j], j, failing)
    requires forall i :: j < i < |vs| && NameKey(vs[i].name) == NameKey(vs[j].name) ==> !Effective(vs[i], i, failing)
    ensures vs[j].operation == SetOp ==>
              Lookup(Run(m, vs, failing), NameKey(vs[j].name)) == Some(StringValue(vs[j].value))
    ensures vs[j].operation == DeleteOp ==> NameKey(vs[j].name) !in Run(m, vs, failing)
  {
    RunResolves(m, vs, failing, NameKey(vs[j].name));
    ResolveAfterLast(Lookup(m, NameKey(vs[j].name)), vs, failing, NameKey(vs[j].name), j);
  }

  /** Names that differ only in case address one value: setting `Path` and
      then `PATH` leaves the one value with the second string, and deleting
      `PATH` removes a value filed as `Path` and reports it applied. */
  lemma CaseVariantsShareOneValue(m: Store, a: string, b: string, x: string, y: string)
    requires NameKey(a) == NameKey(b)
    ensures Run(m, [Variable(a, x, SetOp), Variable(b, y, SetOp)], {}) == m[NameKey(a) := StringValue(y)]
    ensures NameKey(a) in m ==>
              Run(m, [Variable(b, "", DeleteOp)], {}) == m - {NameKey(a)} &&
              Outcomes(m, [Variable(b, "", DeleteOp)], {}) == [Applied]
  {
    var sets := [Variable(a, x, SetOp), Variable(b, y, SetOp)];
    assert sets[..1] == [Variable(a, x, SetOp)];
    assert sets[..1][..0] == [];
    assert Run(m, sets[..1][..0], {}) == m;
    var once := Run(m, sets[..1], {});
    assert once == m[NameKey(a) := StringValue(x)];
    assert Run(m, sets, {}) == once[NameKey(b) := StringValue(y)];
    var del := [Variable(b, "", DeleteOp)];
    assert del[..0] == [];
    assert Run(m, del[..0], {}) == m;
  }

  /** Applying a list keeps every index of the key a lower-cased name. */
  lemma {:induction false} RunKeepsKeysFolded(m: Store, vs: seq<Variable>, failing: set<nat>)
    requires KeysFolded(m)
    ensures KeysFolded(Run(m, vs, failing))
    decreases |vs|
  {
    if vs != [] {
      var k := |vs| - 1;
      RunKeepsKeysFolded(m, vs[..k], failing);
      NameKeyIdempotent(vs[k].name);
    }
  }

  lemma {:induction false} ResolveIdempotent(initial: Option<RegValue>, vs: seq<Variable>, failing: set<nat>, key: string)
    ensures Resolve(Resolve(initial, vs, failing, key), vs, failing, key) == Resolve(initial, vs, failing, key)
    decreases |vs|
  {
    if vs != [] {
      var k := |vs| - 1;
      if !(NameKey(vs[k].name) == key && Effective(vs[k], k, failing)) {
        ResolveIdempotent(initial, vs[..k], failing, key);
      }
    }
  }

  /** Applying the same list twice, with the same calls failing, leaves the
      key as applying it once; in particular when no call fails. */
  lemma RunIdempotent(m: Store, vs: seq<Variable>, failing: set<nat>)
    ensures Run(Run(m, vs, failing), vs, failing) == Run(m, vs, failing)
  {
    var once := Run(m, vs, failing);
    var twice := Run(once, vs, failing);
    forall key ensures Lookup(twice, key) == Lookup(once, key) {
      RunResolves(m, vs, failing, key);
      RunResolves(once, vs, failing, key);
      ResolveIdempotent(Lookup(m, key), vs, failing, key);
    }
    forall key | key in twice ensures key in once && twice[key] == once[key] {
      assert Lookup(twice, key) == Lookup(once, key);
    }
    forall key | key in once ensures key in twice {
      assert Lookup(twice, key) == Lookup(once, key);
    }
  }

  /** Entry `i`'s outcome is judged against the key as the entries before it left it. */
  lemma {:induction false} OutcomeAt(m: Store, vs: seq<Variable>, failing: set<nat>, i: nat)
    requires i < |vs|
    ensures Outcomes(m, vs, failing)[i] == StepOutcome(Run(m, vs[..i], failing), vs[i], i in failing)
    decreases |vs|
  {
    var k := |vs| - 1;
    if i < k {
      assert vs[..k][..i] == vs[..i];
      OutcomeAt(m, vs[..k], failing, i);
    }
  }

  /** What each entry reports: Unknown exactly for an unrecognised operation
      (matching is exact, so "Set" is unknown); AlreadyAbsent exactly for a
      delete of a name the key no longer holds in any case and of any type;
      Failed only for an entry whose call was made to fail, so a run without
      injected failures reports none. */
  lemma OutcomeClassification(m: Store, vs: seq<Variable>, failing: set<nat>, i: nat)
    requires i < |vs|
    ensures Outcomes(m, vs, failing)[i] == Unknown <==> vs[i].operation != SetOp && vs[i].operation != DeleteOp
    ensures Outcomes(m, vs, failing)[i] == AlreadyAbsent <==>
              (vs[i].operation == DeleteOp && NameKey(vs[i].name) !in Run(m, vs[..i], failing))
    ensures Outcomes(m, vs, failing)[i] == Failed ==> i in failing
    ensures Outcomes(m, vs, failing)[i] == Applied <==>
              (Effective(vs[i], i, failing) && (vs[i].operation == SetOp || NameKey(vs[i].name) in Run(m, vs[..i], failing)))
  {
    OutcomeAt(m, vs, failing, i);
  }

  /** Without injected failures no entry reports Failed; in particular a
      second run of the same list reports none. */
  lemma NoFailedWithoutInjectedFailures(m: Store, vs: seq<Variable>)
    ensures Failed !in Outcomes(m, vs, {})
  {
    var r := Outcomes(m, vs, {});
    forall i | 0 <= i < |r| ensures r[i] != Failed {
      OutcomeClassification(m, vs, {}, i);
    }
  }

  /** An entry with an unrecognised operation changes nothing. */
  lemma {:induction false} UnknownChangesNothing(m: Store, vs: seq<Variable>, failing: set<nat>, i: nat)
    requires i < |vs| && vs[i].operation != SetOp && vs[i].operation != DeleteOp
    ensures Run(m, vs[..i + 1], failing) == Run(m, vs[..i], failing)
  {
    assert vs[..i + 1][..i] == vs[..i];
  }
}
