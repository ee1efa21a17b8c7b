/**
 * One contributor's environment-variable mutators: an insertion-ordered map
 * from variable name to a mutator, built from three parallel arrays, diffed
 * against another collection, and applied to a process environment.
 */
module EnvironmentVariableCollections {
  import opened Results
  import opened OrderedMaps

  /** How a mutator combines its value with the variable's current value. */
  datatype MutatorType = Replace | Append | Prepend

  /** A mutator: the value it contributes and how (`type` in the interface). */
  datatype Mutator = Mutator(value: string, kind: MutatorType)

  /** The entries of a collection, in iteration order. */
  type Entries = OrderedMap<string, Mutator>

  /** The error the constructor throws. */
  datatype ConstructionError = LengthMismatch

  // ---------------------------------------------------------------------------
  // Construction from parallel arrays
  // ---------------------------------------------------------------------------

  /** The entries after the first `n` iterations of the constructor's loop. */
  function Fill(variables: seq<string>, values: seq<string>, types: seq<MutatorType>, n: nat): Entries
    requires |values| == |variables| && |types| == |variables| && n <= |variables|
  {
    if n == 0 then Empty()
    else Fill(variables, values, types, n - 1).Put(variables[n - 1], Mutator(values[n - 1], types[n - 1]))
  }

  /**
   * What the constructor produces: an empty collection when any of the three
   * arrays is omitted, the length-mismatch error when they differ in length,
   * and otherwise one entry per index, later indices overwriting earlier ones.
   */
  function Construct(variables: Option<seq<string>>, values: Option<seq<string>>, types: Option<seq<MutatorType>>)
    : Result<Entries, ConstructionError>
  {
    if variables.None? || values.None? || types.None? then Success(Empty())
    else if |variables.value| != |values.value| || |variables.value| != |types.value| then Failure(LengthMismatch)
    else Success(Fill(variables.value, values.value, types.value, |variables.value|))
  }

  /** The constructor's loop keeps the map well formed. */
  lemma {:induction false} FillValid(variables: seq<string>, values: seq<string>, types: seq<MutatorType>, n: nat)
    requires |values| == |variables| && |types| == |variables| && n <= |variables|
    ensures Fill(variables, values, types, n).Valid()
  {
    if n > 0 {
      FillValid(variables, values, types, n - 1);
      PutValid(Fill(variables, values, types, n - 1), variables[n - 1], Mutator(values[n - 1], types[n - 1]));
    }
  }

  /** After `n` iterations every key is one of the first `n` names. */
  lemma {:induction false} FillDomain(variables: seq<string>, values: seq<string>, types: seq<MutatorType>, n: nat)
    requires |values| == |variables| && |types| == |variables| && n <= |variables|
    ensures forall v :: v in Fill(variables, values, types, n).keys ==> v in variables[..n]
  {
    if n > 0 {
      FillDomain(variables, values, types, n - 1);
      var prev := Fill(variables, values, types, n - 1);
      forall v | v in Fill(variables, values, types, n).keys ensures v in variables[..n] {
        if v in prev.keys {
          var q :| 0 <= q < n - 1 && variables[..n - 1][q] == v;
          assert variables[..n][q] == v;
        } else {
          assert variables[..n][n - 1] == v;
        }
      }
    }
  }

  /**
   * After `n` iterations each of the first `n` names is a key holding the
   * value and type of its last occurrence among them.
   */
  lemma {:induction false} FillLastWins(variables: seq<string>, values: seq<string>, types: seq<MutatorType>, n: nat, v: string)
    requires |values| == |variables| && |types| == |variables| && n <= |variables|
    requires v in variables[..n]
    ensures v in Fill(variables, values, types, n).values
    ensures var i := LastIndex(variables[..n], v);
      Fill(variables, values, types, n).values[v] == Mutator(values[i], types[i])
  {
    if variables[n - 1] != v {
      assert variables[..n][..n - 1] == variables[..n - 1];
      assert variables[..n] == variables[..n - 1] + [variables[n - 1]];
      FillLastWins(variables, values, types, n - 1, v);
    }
  }

  /** After `n` iterations the keys are ordered by each name's first occurrence. */
  lemma {:induction false} FillOrder(variables: seq<string>, values: seq<string>, types: seq<MutatorType>, n: nat)
    requires |values| == |variables| && |types| == |variables| && n <= |variables|
    ensures OrderedBy(Fill(variables, values, types, n).keys, variables)
  {
    if n > 0 {
      FillOrder(variables, values, types, n - 1);
      var x := variables[n - 1];
      if x !in Fill(variables, values, types, n - 1).values {
        if x in variables[..n - 1] {
          FillLastWins(variables, values, types, n - 1, x);
        }
        FillDomain(variables, values, types, n - 1);
        AppendInOrder(Fill(variables, values, types, n - 1).keys, variables, n - 1);
      }
    }
  }

  /**
   * Construction: an omitted array gives the empty collection; differing
   * lengths give the error and no collection; otherwise the keys are exactly
   * the given names, each name maps to the value and type at its LAST index,
   * and the keys keep the order of each name's FIRST occurrence.
   */
  lemma ConstructSpec(variables: Option<seq<string>>, values: Option<seq<string>>, types: Option<seq<MutatorType>>)
    ensures variables.None? || values.None? || types.None? ==> Construct(variables, values, types) == Success(Empty())
    ensures variables.Some? && values.Some? && types.Some? ==>
      (Construct(variables, values, types).Failure? <==>
        |variables.value| != |values.value| || |variables.value| != |types.value|)
    ensures Construct(variables, values, types).Failure? ==> Construct(variables, values, types).error == LengthMismatch
    ensures Construct(variables, values, types).Success? ==>
      var e := Construct(variables, values, types).value;
      && e.Valid()
      && (variables.Some? && values.Some? && types.Some? ==>
        var vs, vals, ts := variables.value, values.value, types.value;
        && (forall v :: v in e.values ==> v in vs)
        && (forall v :: v in vs ==>
              && v in e.values
              && var i := LastIndex(vs, v); e.values[v] == Mutator(vals[i], ts[i]))
        && OrderedBy(e.keys, vs))
  {
    if variables.Some? && values.Some? && types.Some? {
      var vs := variables.value;
      if |vs| == |values.value| && |vs| == |types.value| {
        assert vs[..|vs|] == vs;
        FillValid(vs, values.value, types.value, |vs|);
        FillDomain(vs, values.value, types.value, |vs|);
        forall v | v in vs
          ensures v in Construct(variables, values, types).value.values
          ensures var i := LastIndex(vs, v); Construct(variables, values, types).value.values[v] == Mutator(values.value[i], types.value[i])
        {
          FillLastWins(vs, values.value, types.value, |vs|, v);
        }
        FillOrder(vs, values.value, types.value, |vs|);
      }
    }
  }

  // ---------------------------------------------------------------------------
  // Additions and modifications
  // ---------------------------------------------------------------------------

  /** `other`'s mutator for `variable` is new to `current` or differs from it in type or value. */
  predicate Differs(current: Entries, variable: string, m: Mutator)
  {
    variable !in current.values
    || current.values[variable].kind != m.kind
    || current.values[variable].value != m.value
  }

  /** The additions found among the first `n` entries of `other`. */
  function AdditionsUpTo(current: Entries, other: Entries, n: nat): Entries
    requires other.KeysHaveValues() && n <= |other.keys|
  {
    if n == 0 then Empty()
    else
      var r := AdditionsUpTo(current, other, n - 1);
      var v := other.keys[n - 1];
      if Differs(current, v, other.values[v]) then r.Put(v, other.values[v]) else r
  }

  /** The diff `current.getNewAdditions(other)`: `None` when nothing qualifies. */
  function NewAdditions(current: Entries, other: Entries): Option<Entries>
    requires other.KeysHaveValues()
  {
    var r := AdditionsUpTo(current, other, |other.keys|);
    if |r.keys| == 0 then None else Some(r)
  }

  /** The additions form a well-formed map. */
  lemma {:induction false} AdditionsValid(current: Entries, other: Entries, n: nat)
    requires other.KeysHaveValues() && n <= |other.keys|
    ensures AdditionsUpTo(current, other, n).Valid()
  {
    if n > 0 {
      AdditionsValid(current, other, n - 1);
      var x := other.keys[n - 1];
      PutValid(AdditionsUpTo(current, other, n - 1), x, other.values[x]);
    }
  }

  /**
   * Everything found among the first `n` entries of `other` is one of them,
   * differs from `current`, and carries `other`'s mutator.
   */
  lemma {:induction false} AdditionsFound(current: Entries, other: Entries, n: nat, v: string)
    requires other.KeysHaveValues() && n <= |other.keys|
    requires v in AdditionsUpTo(current, other, n).values
    ensures v in other.keys[..n]
    ensures Differs(current, v, other.values[v])
    ensures AdditionsUpTo(current, other, n).values[v] == other.values[v]
  {
    if n > 0 {
      assert other.keys[..n] == other.keys[..n - 1] + [other.keys[n - 1]];
      var x := other.keys[n - 1];
      if x != v || !Differs(current, x, other.values[x]) {
        AdditionsFound(current, other, n - 1, v);
      }
    }
  }

  /** Every one of the first `n` entries of `other` that differs from `current` is found. */
  lemma {:induction false} AdditionsComplete(current: Entries, other: Entries, n: nat, v: string)
    requires other.KeysHaveValues() && n <= |other.keys|
    requires v in other.keys[..n] && Differs(current, v, other.values[v])
    ensures v in AdditionsUpTo(current, other, n).values
  {
    if other.keys[n - 1] != v {
      assert other.keys[..n] == other.keys[..n - 1] + [other.keys[n - 1]];
      AdditionsComplete(current, other, n - 1, v);
    }
  }

  /** A differing entry of `other` is new to the additions found before it and is placed last. */
  lemma AdditionsAppend(current: Entries, other: Entries, n: nat)
    requires other.Valid() && 0 < n <= |other.keys|
    requires Differs(current, other.keys[n - 1], other.values[other.keys[n - 1]])
    ensures AdditionsUpTo(current, other, n).keys == AdditionsUpTo(current, other, n - 1).keys + [other.keys[n - 1]]
  {
    var x := other.keys[n - 1];
    var prev := AdditionsUpTo(current, other, n - 1);
    if x in prev.values {
      AdditionsFound(current, other, n - 1, x);
    }
  }

  /** Every addition found among the first `n` entries of `other` is one of them. */
  lemma {:induction false} AdditionsDomain(current: Entries, other: Entries, n: nat)
    requires other.KeysHaveValues() && n <= |other.keys|
    ensures forall y :: y in AdditionsUpTo(current, other, n).keys ==> y in other.keys[..n]
  {
    if n > 0 {
      AdditionsDomain(current, other, n - 1);
      var prev := AdditionsUpTo(current, other, n - 1);
      forall y | y in AdditionsUpTo(current, other, n).keys ensures y in other.keys[..n] {
        if y in prev.keys {
          var q :| 0 <= q < n - 1 && other.keys[..n - 1][q] == y;
          assert other.keys[..n][q] == y;
        } else {
          assert other.keys[..n][n - 1] == y;
        }
      }
    }
  }

  /** The additions keep `other`'s order. */
  lemma {:induction false} AdditionsOrder(current: Entries, other: Entries, n: nat)
    requires other.Valid() && n <= |other.keys|
    ensures OrderedBy(AdditionsUpTo(current, other, n).keys, other.keys)
  {
    if n > 0 {
      AdditionsOrder(current, other, n - 1);
      var x := other.keys[n - 1];
      if Differs(current, x, other.values[x]) {
        AdditionsOrderStep(current, other, n);
      }
    }
  }

  /** The step of AdditionsOrder where the last entry visited is an addition. */
  lemma AdditionsOrderStep(current: Entries, other: Entries, n: nat)
    requires other.Valid() && 0 < n <= |other.keys|
    requires Differs(current, other.keys[n - 1], other.values[other.keys[n - 1]])
    requires OrderedBy(AdditionsUpTo(current, other, n - 1).keys, other.keys)
    ensures OrderedBy(AdditionsUpTo(current, other, n).keys, other.keys)
  {
    AdditionsAppend(current, other, n);
    AdditionsDomain(current, other, n - 1);
    DistinctNotBefore(other.keys, n - 1);
    AppendInOrder(AdditionsUpTo(current, other, n - 1).keys, other.keys, n - 1);
  }

  /**
   * `getNewAdditions`: the result is absent exactly when every entry of
   * `other` is present in `current` with the same type and value; otherwise it
   * holds exactly the entries of `other` that are new or changed, in `other`'s
   * order. Variables only in `current` are never reported.
   */
  lemma NewAdditionsSpec(current: Entries, other: Entries)
    requires other.Valid()
    ensures NewAdditions(current, other).None? <==>
      forall v :: v in other.values ==> !Differs(current, v, other.values[v])
    ensures NewAdditions(current, other).Some? ==>
      var r := NewAdditions(current, other).value;
      && r.Valid()
      && (forall v :: v in r.values ==> v in other.values && Differs(current, v, other.values[v]) && r.values[v] == other.values[v])
      && (forall v :: v in other.values && Differs(current, v, other.values[v]) ==> v in r.values)
      && OrderedBy(r.keys, other.keys)
  {
    var n := |other.keys|;
    assert other.keys[..n] == other.keys;
    forall v | v in AdditionsUpTo(current, other, n).values
      ensures v in other.values && Differs(current, v, other.values[v]) && AdditionsUpTo(current, other, n).values[v] == other.values[v]
    {
      AdditionsFound(current, other, n, v);
    }
    AdditionsOrder(current, other, n);
    AdditionsValid(current, other, n);
    forall v | v in other.values && Differs(current, v, other.values[v])
      ensures v in AdditionsUpTo(current, other, n).values
    {
      AdditionsComplete(current, other, n, v);
    }
    var r := AdditionsUpTo(current, other, n);
    if |r.keys| != 0 {
      assert r.keys[0] in r.values;
    }
  }

  /** A collection has nothing new relative to itself, and nothing is new in an empty collection. */
  lemma NothingNew(c: Entries)
    requires c.Valid()
    ensures NewAdditions(c, c) == None
    ensures NewAdditions(c, Empty()) == None
  {
    NewAdditionsSpec(c, c);
  }

  // ---------------------------------------------------------------------------
  // Application to a process environment
  // ---------------------------------------------------------------------------

  /** `env[variable] || ''`: an absent variable reads as the empty string. */
  function Lookup(env: map<string, string>, variable: string): string
  {
    if variable in env then env[variable] else ""
  }

  /** The new value a mutator gives a variable whose current value is `current`. */
  function ApplyMutator(m: Mutator, current: string): string
  {
    match m.kind
    case Append => current + m.value
    case Prepend => m.value + current
    case Replace => m.value
  }

  /**
   * The environment after applying every entry of `c` once: each variable of
   * `c` gets its mutator's result, every other variable is unchanged.
   */
  function Applied(c: Entries, env: map<string, string>): (r: map<string, string>)
    ensures r.Keys == env.Keys + c.values.Keys
    ensures forall v :: v in env && v !in c.values ==> r[v] == env[v]
  {
    map v | v in env.Keys + c.values.Keys ::
      if v in c.values then ApplyMutator(c.values[v], Lookup(env, v)) else env[v]
  }

  /**
   * The environment after applying, one after the other, the mutators of the
   * variables in `done`; each reads the value left by the ones before it.
   */
  function ApplyInOrder(c: Entries, env: map<string, string>, done: seq<string>): map<string, string>
    requires forall v :: v in done ==> v in c.values
  {
    if done == [] then env
    else
      var before := ApplyInOrder(c, env, done[..|done| - 1]);
      var x := done[|done| - 1];
      before[x := ApplyMutator(c.values[x], Lookup(before, x))]
  }

  /** The environment after applying the mutators of the variables in `done`, each to the original value. */
  function ApplyEach(c: Entries, env: map<string, string>, done: seq<string>): map<string, string>
    requires forall v :: v in done ==> v in c.values
  {
    map v | v in env.Keys + (set k | k in done) ::
      if v in done then ApplyMutator(c.values[v], Lookup(env, v)) else env[v]
  }

  /** One more variable's mutator, applied to the original value, changes only that variable. */
  lemma ApplyEachStep(c: Entries, env: map<string, string>, done: seq<string>, x: string)
    requires forall v :: v in done ==> v in c.values
    requires x in c.values && x !in done
    ensures Lookup(ApplyEach(c, env, done), x) == Lookup(env, x)
    ensures ApplyEach(c, env, done + [x]) == ApplyEach(c, env, done)[x := ApplyMutator(c.values[x], Lookup(env, x))]
  {
  }

  /**
   * When no variable repeats, applying the mutators one after the other is the
   * same as applying each to the original environment: the order of
   * application does not matter.
   */
  lemma {:induction false} InOrderIsEach(c: Entries, env: map<string, string>, done: seq<string>)
    requires forall v :: v in done ==> v in c.values
    requires Distinct(done)
    ensures ApplyInOrder(c, env, done) == ApplyEach(c, env, done)
  {
    if done != [] {
      var prefix := done[..|done| - 1];
      var x := done[|done| - 1];
      assert done == prefix + [x];
      InOrderIsEach(c, env, prefix);
      ApplyEachStep(c, env, prefix, x);
    }
  }

  /** Applying every key's mutator is the whole application. */
  lemma EachKeyIsApplied(c: Entries, env: map<string, string>)
    requires c.Valid()
    ensures ApplyEach(c, env, c.keys) == Applied(c, env)
  {
  }

  /**
   * When `current.getNewAdditions(other)` is absent, applying `current` already
   * gives every variable of `other` the value applying `other` would give it.
   */
  lemma NoAdditionsSameEffect(current: Entries, other: Entries, env: map<string, string>)
    requires other.Valid()
    requires NewAdditions(current, other) == None
    ensures forall v :: v in other.values ==> v in Applied(current, env) && Applied(current, env)[v] == Applied(other, env)[v]
  {
    NewAdditionsSpec(current, other);
  }

  // ---------------------------------------------------------------------------
  // The objects
  // ---------------------------------------------------------------------------

  /** A process environment, a string-to-string dictionary written in place. */
  class ProcessEnvironment {
    var vars: map<string, string>

    constructor (initial: map<string, string>)
      ensures vars == initial
    {
      vars := initial;
    }
  }

  class EnvironmentVariableCollection {
    var entries: Entries

    ghost predicate Valid()
      reads this
    {
      entries.Valid()
    }

    /** `new EnvironmentVariableCollection()` with no arrays: empty. */
    constructor ()
      ensures Valid() && entries == Empty()
    {
      entries := Empty();
    }

    /** `entries.set(variable, mutator)`. */
    method SetEntry(variable: string, mutator: Mutator)
      modifies this
      ensures entries == old(entries).Put(variable, mutator)
    {
      entries := entries.Put(variable, mutator);
    }

    /**
     * The constructor with three parallel arrays: it fails with the
     * length-mismatch error instead of throwing.
     */
    static method Create(variables: Option<seq<string>>, values: Option<seq<string>>, types: Option<seq<MutatorType>>)
      returns (r: Result<EnvironmentVariableCollection, ConstructionError>)
      ensures r.Failure? <==> Construct(variables, values, types).Failure?
      ensures r.Failure? ==> r.error == Construct(variables, values, types).error
      ensures r.Success? ==> fresh(r.value) && r.value.Valid() && Construct(variables, values, types) == Success(r.value.entries)
    {
      var c := new EnvironmentVariableCollection();
      if variables.Some? && values.Some? && types.Some? {
        var vs, vals, ts := variables.value, values.value, types.value;
        if |vs| != |vals| || |vs| != |ts| {
          return Failure(LengthMismatch);
        }
        for i := 0 to |vs|
          invariant c.entries == Fill(vs, vals, ts, i)
        {
          c.SetEntry(vs[i], Mutator(vals[i], ts[i]));
        }
        FillValid(vs, vals, ts, |vs|);
      }
      r := Success(c);
    }

    /** The entries of `other` that are new or changed here; `None` when there are none. */
    method GetNewAdditions(other: EnvironmentVariableCollection) returns (r: Option<Entries>)
      requires other.Valid()
      ensures r == NewAdditions(entries, other.entries)
    {
      var result := Empty();
      var current, incoming := entries, other.entries;
      for i := 0 to |incoming.keys|
        invariant result == AdditionsUpTo(current, incoming, i)
      {
        var variable := incoming.keys[i];
        var newMutator := incoming.values[variable];
        if Differs(current, variable, newMutator) {
          result := result.Put(variable, newMutator);
        }
      }
      r := if |result.keys| == 0 then None else Some(result);
    }

    /** Rewrites `env` in place, one entry at a time in iteration order. */
    method ApplyToProcessEnvironment(env: ProcessEnvironment)
      requires Valid()
      modifies env
      ensures env.vars == Applied(entries, old(env.vars))
    {
      ghost var original := env.vars;
      for i := 0 to |entries.keys|
        invariant env.vars == ApplyInOrder(entries, original, entries.keys[..i])
      {
        var variable := entries.keys[i];
        var mutator := entries.values[variable];
        assert entries.keys[..i + 1][..i] == entries.keys[..i];
        match mutator.kind
        case Append =>
          env.vars := env.vars[variable := Lookup(env.vars, variable) + mutator.value];
        case Prepend =>
          env.vars := env.vars[variable := mutator.value + Lookup(env.vars, variable)];
        case Replace =>
          env.vars := env.vars[variable := mutator.value];
      }
      assert entries.keys[..|entries.keys|] == entries.keys;
      InOrderIsEach(entries, original, entries.keys);
      EachKeyIsApplied(entries, original);
    }
  }
}
