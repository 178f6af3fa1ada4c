/** The table of resources by long name and the index of short aliases beside it.

    Every public operation of the manager runs under its mutex, so a run is a sequence of whole
    operations.  Hash-table iteration order is not known: where it matters a step is a relation. */
module ResourceManager {
  import opened Wrappers
  import opened Sequences
  import opened ResourceNames

  /** A non-null shared pointer, by identity. */
  datatype Resource = Resource(id: nat)

  datatype ManagerError = EmptyName | Duplicate | NotFound | FactoryFailed

  datatype State = State(resources: map<string, Resource>, aliases: map<string, string>)

  const EMPTY := State(map[], map[])

  // ----- what each operation does to the state

  function Lookup(st: State, name: string): Option<Resource> {
    if name in st.resources then Some(st.resources[name])
    else if name in st.aliases && st.aliases[name] in st.resources then Some(st.resources[st.aliases[name]])
    else None
  }

  /** `unordered_map::emplace`: an existing entry is left alone. */
  function Emplace<K, V>(m: map<K, V>, k: K, v: V): map<K, V> {
    if k in m then m else m[k := v]
  }

  /** Adding under a long name: the last segment becomes an alias unless it is one already. */
  function AddLong(st: State, name: string, r: Resource): Result<State, ManagerError> {
    if name in st.resources then Failure(Duplicate)
    else
      var shortcut := ShortcutName(name);
      Success(State(st.resources[name := r],
                    if shortcut == name then st.aliases else Emplace(st.aliases, shortcut, name)))
  }

  function AddNamed(st: State, n: Name, r: Resource): Result<State, ManagerError> {
    if n.name == "" then Failure(EmptyName) else AddLong(st, ShortName(n), r)
  }

  function StateOr(r: Result<State, ManagerError>, st: State): State {
    if r.Success? then r.value else st
  }

  function ErrorOf(r: Result<State, ManagerError>): Option<ManagerError> {
    if r.Failure? then Some(r.error) else None
  }

  /** A live key, other than `key`, with the same last segment. */
  predicate Shares(st: State, key: string, k: string) {
    k in st.resources && k != key && ShortcutName(k) == ShortcutName(key)
  }

  ghost predicate IsShared(st: State, key: string) {
    exists k :: Shares(st, key, k)
  }

  /** `st'` is `st` after the live `key` was removed: its segment's alias goes, and comes back for
      some live key that shares the segment, but only when `key` was qualified. */
  ghost predicate Removed(st: State, key: string, st': State) {
    var s := ShortcutName(key);
    && st'.resources == st.resources - {key}
    && st'.aliases - {s} == st.aliases - {s}
    && (s in st'.aliases <==> s != key && IsShared(st, key))
    && (s in st'.aliases ==> Shares(st, key, st'.aliases[s]))
  }

  /** The argument of `replace_all`: an unordered map, whose keys are equal when they print alike. */
  type Table = map<string, (Name, Resource)>

  /** `order` lists `keys`, each once. */
  ghost predicate Enumerates(order: seq<string>, keys: set<string>) {
    Distinct(order) && forall k :: k in order <==> k in keys
  }

  /** The order in which a loop over a hash table meets its keys: any order at all. */
  method IterationOrder(keys: set<string>) returns (order: seq<string>)
    ensures Enumerates(order, keys)
  {
    order := [];
    var unseen := keys;
    while unseen != {}
      invariant unseen <= keys
      invariant Distinct(order)
      invariant forall k :: k in order <==> k in keys && k !in unseen
      decreases unseen
    {
      var k :| k in unseen;
      order := order + [k];
      unseen := unseen - {k};
    }
  }

  /** The aliases after the loop of a removal has met the keys of `order`. */
  function Restore(aliases: map<string, string>, key: string, order: seq<string>): map<string, string> {
    if order == [] then aliases
    else RestoreNext(Restore(aliases, key, order[..|order| - 1]), key, order[|order| - 1])
  }

  function RestoreNext(aliases: map<string, string>, key: string, k: string): map<string, string> {
    if ShortcutName(k) == ShortcutName(key) && ShortcutName(k) != key then Emplace(aliases, ShortcutName(key), k)
    else aliases
  }

  /** A removal whose loop meets the remaining keys in the given order. */
  function RemovedInOrder(st: State, key: string, order: seq<string>): State {
    State(st.resources - {key}, Restore(st.aliases - {ShortcutName(key)}, key, order))
  }

  lemma RestoreStep(aliases: map<string, string>, key: string, order: seq<string>, i: nat)
    requires i < |order|
    ensures Restore(aliases, key, order[..i + 1]) == RestoreNext(Restore(aliases, key, order[..i]), key, order[i])
  {
    assert order[..i + 1][..i] == order[..i];
  }

  /** `order[i]` is the first of the keys whose last segment is `s`. */
  ghost predicate IsFirstEnding(order: seq<string>, s: string, i: int) {
    0 <= i < |order| && ShortcutName(order[i]) == s && forall j :: 0 <= j < i ==> ShortcutName(order[j]) != s
  }

  lemma FirstEndingStays(order: seq<string>, n: nat, s: string, i: int)
    requires n <= |order| && IsFirstEnding(order[..n], s, i)
    ensures IsFirstEnding(order, s, i) && order[i] == order[..n][i]
  {
    forall j | 0 <= j < i ensures ShortcutName(order[j]) != s {
      assert order[j] == order[..n][j];
    }
  }

  lemma RestoreNextOthers(aliases: map<string, string>, key: string, k: string)
    ensures RestoreNext(aliases, key, k) - {ShortcutName(key)} == aliases - {ShortcutName(key)}
  {
  }

  /** The loop gives the alias to the first key it meets that ends in the segment, if `key` itself
      was qualified. */
  lemma {:induction false} RestoreResult(aliases: map<string, string>, key: string, order: seq<string>)
    requires ShortcutName(key) !in aliases
    ensures var s, after := ShortcutName(key), Restore(aliases, key, order);
      && after - {s} == aliases
      && (s in after <==> s != key && exists k :: k in order && ShortcutName(k) == s)
      && (s in after ==> exists i :: IsFirstEnding(order, s, i) && after[s] == order[i])
  {
    var s, after := ShortcutName(key), Restore(aliases, key, order);
    if order == [] {
      assert aliases - {s} == aliases;
    } else {
      var n := |order| - 1;
      RestoreResult(aliases, key, order[..n]);
      assert forall k :: k in order <==> k in order[..n] || k == order[n];
      var before := Restore(aliases, key, order[..n]);
      RestoreNextOthers(before, key, order[n]);
      if s in before {
        var i :| IsFirstEnding(order[..n], s, i) && before[s] == order[..n][i];
        FirstEndingStays(order, n, s, i);
      } else if s in after {
        assert IsFirstEnding(order, s, n);
      }
    }
  }

  lemma InOrderIsRemoved(st: State, key: string, order: seq<string>)
    requires Enumerates(order, st.resources.Keys - {key})
    ensures Removed(st, key, RemovedInOrder(st, key, order))
  {
    var s := ShortcutName(key);
    RestoreResult(st.aliases - {s}, key, order);
    forall k ensures k in order && ShortcutName(k) == s <==> Shares(st, key, k) {
      assert k in order <==> k in st.resources.Keys - {key};
    }
  }

  lemma {:induction false} SomeOrder(keys: set<string>) returns (order: seq<string>)
    ensures Enumerates(order, keys)
    decreases keys
  {
    if keys == {} {
      order := [];
    } else {
      var k :| k in keys;
      var rest := SomeOrder(keys - {k});
      order := [k] + rest;
    }
  }

  lemma RemovedHasOrder(st: State, key: string, st': State)
    requires Removed(st, key, st')
    ensures exists order :: Enumerates(order, st.resources.Keys - {key}) && st' == RemovedInOrder(st, key, order)
  {
    var s := ShortcutName(key);
    var keys := st.resources.Keys - {key};
    var order;
    if s in st'.aliases {
      var k := st'.aliases[s];
      var rest := SomeOrder(keys - {k});
      order := [k] + rest;
    } else {
      order := SomeOrder(keys);
    }
    assert Enumerates(order, keys);
    RestoreResult(st.aliases - {s}, key, order);
    InOrderIsRemoved(st, key, order);
    var found := RemovedInOrder(st, key, order);
    assert s in st'.aliases ==> found.aliases[s] == order[0];
    assert forall a :: a != s ==>
      (a in st'.aliases <==> a in st'.aliases - {s}) && (a in found.aliases <==> a in found.aliases - {s});
    assert found.aliases == st'.aliases;
  }

  /** The relation for removals is exact: it holds for just the states that some iteration order
      over the remaining keys gives. */
  lemma RemovedIffSomeOrder(st: State, key: string, st': State)
    ensures Removed(st, key, st') <==>
      exists order :: Enumerates(order, st.resources.Keys - {key}) && st' == RemovedInOrder(st, key, order)
  {
    if Removed(st, key, st') {
      RemovedHasOrder(st, key, st');
    }
    if order :| Enumerates(order, st.resources.Keys - {key}) && st' == RemovedInOrder(st, key, order) {
      InOrderIsRemoved(st, key, order);
    }
  }

  /** How far `replace_all` has come: the state, and whether an entry was rejected. */
  datatype Loading = Loading(st: State, stopped: bool)

  /** Adds entries of `table` one by one to an empty manager and stops at the first that is
      rejected. */
  function Load(table: Table, order: seq<string>): Loading
    requires forall k :: k in order ==> k in table
  {
    if order == [] then Loading(EMPTY, false)
    else LoadNext(Load(table, order[..|order| - 1]), table[order[|order| - 1]])
  }

  function LoadNext(before: Loading, entry: (Name, Resource)): Loading {
    if before.stopped then before
    else
      var added := AddNamed(before.st, entry.0, entry.1);
      Loading(StateOr(added, before.st), added.Failure?)
  }

  lemma {:induction false} StoppedStays(table: Table, order: seq<string>, i: nat)
    requires i <= |order| && forall k :: k in order ==> k in table
    requires Load(table, order[..i]).stopped
    ensures Load(table, order) == Load(table, order[..i])
  {
    if i == |order| {
      assert order[..i] == order;
    } else {
      var n := |order| - 1;
      assert order[..n][..i] == order[..i];
      StoppedStays(table, order[..n], i);
    }
  }

  lemma LoadStep(table: Table, order: seq<string>, i: nat)
    requires i < |order| && forall k :: k in order ==> k in table
    ensures Load(table, order[..i + 1]) == LoadNext(Load(table, order[..i]), table[order[i]])
  {
    assert order[..i + 1][..i] == order[..i];
  }

  datatype Op =
    | Add(n: Name, r: Resource)
    | AddByString(key: string, r: Resource)
    | Remove(n: Name)
    | ReplaceOne(n: Name, created: Option<Resource>)
    | ReplaceAll(table: Table)

  /** One whole operation. */
  ghost predicate Step(st: State, op: Op, st': State) {
    match op
    case Add(n, r) => st' == StateOr(AddNamed(st, n, r), st)
    case AddByString(key, r) => st' == StateOr(AddLong(st, key, r), st)
    case Remove(n) =>
      if ShortName(n) in st.resources then Removed(st, ShortName(n), st') else st' == st
    case ReplaceOne(n, created) =>
      if ShortName(n) in st.resources then
        exists mid :: Removed(st, ShortName(n), mid) && st' == Recreated(mid, n, created)
      else st' == st
    case ReplaceAll(table) => Replaced(table, st')
  }

  /** `st` holds what is left of `table` after adding its entries in some order. */
  ghost predicate Replaced(table: Table, st: State) {
    exists order :: Enumerates(order, table.Keys) && st == Load(table, order).st
  }

  /** The second half of `replace_one`: call the factory, then add what it made. */
  function Recreated(mid: State, n: Name, created: Option<Resource>): State {
    match created
    case None => mid
    case Some(r) => StateOr(AddNamed(mid, n, r), mid)
  }

  // ----- the manager

  class ResourceManager {
    var resources: map<string, Resource>
    var aliases: map<string, string>

    constructor ()
      ensures Value() == EMPTY
    {
      resources, aliases := map[], map[];
    }

    ghost function Value(): State
      reads this
    {
      State(resources, aliases)
    }

    method Find(name: string) returns (r: Option<Resource>)
      ensures r == Lookup(Value(), name)
    {
      if name in resources {
        return Some(resources[name]);
      }
      if name in aliases {
        var target := aliases[name];
        if target in resources {
          return Some(resources[target]);
        }
      }
      return None;
    }

    method DoAddLong(name: string, r: Resource) returns (error: Option<ManagerError>)
      modifies this
      ensures Value() == StateOr(AddLong(old(Value()), name, r), old(Value()))
      ensures error == ErrorOf(AddLong(old(Value()), name, r))
    {
      if name in resources {
        return Some(Duplicate);
      }
      var shortcut := ShortcutName(name);
      if shortcut != name {
        if shortcut in aliases {
          aliases := Emplace(aliases, shortcut, "");
        } else {
          aliases := Emplace(aliases, shortcut, name);
        }
      }
      resources := Emplace(resources, name, r);
      return None;
    }

    method DoAdd(n: Name, r: Resource) returns (error: Option<ManagerError>)
      modifies this
      ensures Value() == StateOr(AddNamed(old(Value()), n, r), old(Value()))
      ensures error == ErrorOf(AddNamed(old(Value()), n, r))
    {
      if n.name == "" {
        return Some(EmptyName);
      }
      error := DoAddLong(ShortName(n), r);
    }

    method DoRemove(n: Name) returns (error: Option<ManagerError>)
      modifies this
      ensures error == if ShortName(n) in old(resources) then None else Some(NotFound)
      ensures error.Some? ==> Value() == old(Value())
      ensures error.None? ==> Removed(old(Value()), ShortName(n), Value())
    {
      var key := ShortName(n);
      if key !in resources {
        return Some(NotFound);
      }
      resources := resources - {key};
      var shortcut := ShortcutName(key);
      if shortcut in aliases {
        aliases := aliases - {shortcut};
      }
      ghost var cleared := aliases;
      assert cleared == old(aliases) - {shortcut};

      var order := IterationOrder(resources.Keys);
      for i := 0 to |order|
        invariant resources == old(resources) - {key}
        invariant aliases == Restore(cleared, key, order[..i])
      {
        var k := order[i];
        RestoreStep(cleared, key, order, i);
        if shortcut == ShortcutName(k) && key != ShortcutName(k) {
          if shortcut in aliases {
            aliases := Emplace(aliases, shortcut, "");
          } else {
            aliases := Emplace(aliases, shortcut, k);
          }
        }
      }
      assert order[..|order|] == order;
      InOrderIsRemoved(old(Value()), key, order);
      return None;
    }

    /** Logs the error of a rejected addition and carries on. */
    method AddResource(n: Name, r: Resource)
      modifies this
      ensures Step(old(Value()), Add(n, r), Value())
    {
      var _ := DoAdd(n, r);
    }

    /** Reports the error of a rejected addition. */
    method AddResourceByString(name: string, r: Resource) returns (error: Option<ManagerError>)
      modifies this
      ensures Step(old(Value()), AddByString(name, r), Value())
      ensures error == if name in old(resources) then Some(Duplicate) else None
    {
      error := DoAddLong(name, r);
    }

    method RemoveResource(n: Name)
      modifies this
      ensures Step(old(Value()), Remove(n), Value())
    {
      var _ := DoRemove(n);
    }

    /** `created` is what the factory returns when it is called, `None` when it throws. */
    method ReplaceResource(n: Name, created: Option<Resource>)
      returns (called: bool, error: Option<ManagerError>)
      modifies this
      ensures Step(old(Value()), ReplaceOne(n, created), Value())
      ensures called <==> ShortName(n) in old(resources)
      ensures error.None? <==> called && created.Some? && n.name != ""
    {
      called := false;
      error := DoRemove(n);
      if error.Some? {
        return;
      }
      ghost var mid := Value();
      called := true;
      if created.None? {
        error := Some(FactoryFailed);
        return;
      }
      error := DoAdd(n, created.value);
      assert Value() == Recreated(mid, n, created);
    }

    method ReplaceResources(table: Table)
      modifies this
      ensures Replaced(table, Value())
    {
      resources, aliases := map[], map[];
      var order := IterationOrder(table.Keys);
      for i := 0 to |order|
        invariant Load(table, order[..i]) == Loading(Value(), false)
      {
        LoadStep(table, order, i);
        var error := DoAdd(table[order[i]].0, table[order[i]].1);
        if error.Some? {
          StoppedStays(table, order, i + 1);
          return;
        }
      }
      assert order[..|order|] == order;
    }
  }
}
