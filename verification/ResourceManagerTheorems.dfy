/** What every run of the resource manager keeps. */
module ResourceManagerTheorems {
  import opened Wrappers
  import opened Sequences
  import opened ResourceNames
  import opened ResourceManager

  // ----- runs

  /** `states[i + 1]` comes from `states[i]` by `ops[i]`. */
  ghost predicate IsRun(states: seq<State>, ops: seq<Op>) {
    && |states| == |ops| + 1
    && states[0] == EMPTY
    && forall i :: 0 <= i < |ops| ==> StepAt(states, ops, i)
  }

  ghost predicate StepAt(states: seq<State>, ops: seq<Op>, i: int)
    requires 0 <= i < |ops| < |states|
  {
    Step(states[i], ops[i], states[i + 1])
  }

  // ----- soundness of the alias index

  /** Every alias stands for a live key whose last segment it is. */
  ghost predicate Sound(st: State) {
    forall s :: s in st.aliases ==> st.aliases[s] in st.resources && ShortcutName(st.aliases[s]) == s
  }

  lemma AddLongKeepsSound(st: State, key: string, r: Resource)
    requires Sound(st)
    ensures Sound(StateOr(AddLong(st, key, r), st))
  {
  }

  /** A removal touches no alias but that of the removed key's segment. */
  lemma OtherAliasStays(st: State, key: string, st': State, a: string)
    requires Removed(st, key, st')
    ensures a != ShortcutName(key) && a in st'.aliases ==> a in st.aliases && st.aliases[a] == st'.aliases[a]
    ensures a != ShortcutName(key) && a in st.aliases ==> a in st'.aliases
  {
    var s := ShortcutName(key);
    assert a != s ==> (a in st'.aliases <==> a in st'.aliases - {s});
    assert a != s ==> (a in st.aliases <==> a in st.aliases - {s});
  }

  lemma RemovedKeepsSound(st: State, key: string, st': State)
    requires Sound(st) && Removed(st, key, st')
    ensures Sound(st')
  {
    var s := ShortcutName(key);
    forall a | a in st'.aliases ensures st'.aliases[a] in st'.resources && ShortcutName(st'.aliases[a]) == a {
      OtherAliasStays(st, key, st', a);
    }
  }

  lemma {:induction false} LoadKeepsSound(table: Table, order: seq<string>)
    requires forall k :: k in order ==> k in table
    ensures Sound(Load(table, order).st)
  {
    if order != [] {
      var n := |order| - 1;
      LoadKeepsSound(table, order[..n]);
      var entry := table[order[n]];
      AddLongKeepsSound(Load(table, order[..n]).st, ShortName(entry.0), entry.1);
    }
  }

  lemma StepKeepsSound(st: State, op: Op, st': State)
    requires Sound(st) && Step(st, op, st')
    ensures Sound(st')
  {
    match op
    case Add(n, r) =>
      AddLongKeepsSound(st, ShortName(n), r);
    case AddByString(key, r) =>
      AddLongKeepsSound(st, key, r);
    case Remove(n) =>
      if ShortName(n) in st.resources {
        RemovedKeepsSound(st, ShortName(n), st');
      }
    case ReplaceOne(n, created) =>
      if ShortName(n) in st.resources {
        var mid :| Removed(st, ShortName(n), mid) && st' == Recreated(mid, n, created);
        RemovedKeepsSound(st, ShortName(n), mid);
        if created.Some? {
          AddLongKeepsSound(mid, ShortName(n), created.value);
        }
      }
    case ReplaceAll(table) =>
      var order :| Enumerates(order, table.Keys) && st' == Load(table, order).st;
      LoadKeepsSound(table, order);
  }

  /** The index is sound in every state of every run. */
  lemma {:induction false} RunIsSound(states: seq<State>, ops: seq<Op>, i: nat)
    requires IsRun(states, ops) && i < |states|
    ensures Sound(states[i])
  {
    if i > 0 {
      RunIsSound(states, ops, i - 1);
      assert StepAt(states, ops, i - 1);
      StepKeepsSound(states[i - 1], ops[i - 1], states[i]);
    }
  }

  /** What a lookup can return: the resource stored under the very name, which no alias shadows,
      or otherwise one stored under a qualified live key that ends in it. */
  lemma LookupMeaning(st: State, name: string)
    requires Sound(st)
    ensures name in st.resources ==> Lookup(st, name) == Some(st.resources[name])
    ensures name !in st.resources && Lookup(st, name).Some? ==>
      exists k :: k in st.resources && ':' in k && ShortcutName(k) == name && Lookup(st, name).value == st.resources[k]
  {
    if name !in st.resources && Lookup(st, name).Some? {
      var k := st.aliases[name];
      ShortcutIsPlain(k);
      assert k in st.resources && ':' in k;
    }
  }

  // ----- completeness and its exact boundary

  predicate Resolves(st: State, name: string) {
    Lookup(st, name).Some?
  }

  predicate SegmentResolves(st: State, key: string) {
    key in st.resources ==> Resolves(st, ShortcutName(key))
  }

  /** Every live key can be found by its last segment. */
  ghost predicate Complete(st: State) {
    forall k :: SegmentResolves(st, k)
  }

  /** Removing `key` takes an alias away from qualified keys that still need it. */
  ghost predicate Strands(st: State, key: string) {
    key in st.resources && ':' !in key && IsShared(st, key)
  }

  /** The operations that break completeness: removing a colon-free name that is also the last
      segment of a live qualified key, or failing to build it again after removing it. */
  ghost predicate Orphaning(st: State, op: Op) {
    match op
    case Remove(n) => Strands(st, ShortName(n))
    case ReplaceOne(n, created) => Strands(st, ShortName(n)) && (created.None? || n.name == "")
    case _ => false
  }

  lemma AddLongKeepsComplete(st: State, key: string, r: Resource)
    requires Sound(st) && Complete(st)
    ensures Complete(StateOr(AddLong(st, key, r), st))
  {
    var st' := StateOr(AddLong(st, key, r), st);
    AddLongKeepsSound(st, key, r);
    forall k ensures SegmentResolves(st', k) {
      assert SegmentResolves(st, k);
    }
  }

  /** Removing a qualified key leaves its segment resolvable exactly when another live key shares
      it; removing a colon-free one never does. */
  lemma SegmentAfterRemoval(st: State, key: string, st': State)
    requires key in st.resources && Removed(st, key, st')
    ensures ':' in key ==> (Resolves(st', ShortcutName(key)) <==> IsShared(st, key))
    ensures ':' !in key ==> Lookup(st', key) == None
  {
    ShortcutIsPlain(key);
    var s := ShortcutName(key);
    if s in st'.resources {
      ShortcutIsPlain(s);
      assert s != key ==> Shares(st, key, s);
    }
  }

  lemma OtherSegmentAfterRemoval(st: State, key: string, st': State, name: string)
    requires Sound(st) && Removed(st, key, st')
    requires name != ShortcutName(key)
    ensures name != key && Resolves(st, name) ==> Resolves(st', name)
  {
    OtherAliasStays(st, key, st', name);
  }

  lemma OthersStayComplete(st: State, key: string, st': State, k: string)
    requires Sound(st) && SegmentResolves(st, k) && Removed(st, key, st') && k in st'.resources
    requires ShortcutName(k) == ShortcutName(key) ==> ':' in key
    requires key in st.resources
    ensures SegmentResolves(st', k)
  {
    ShortcutIsPlain(key);
    ShortcutIsPlain(k);
    if ShortcutName(k) == ShortcutName(key) {
      SegmentAfterRemoval(st, key, st');
      assert Shares(st, key, k);
    } else {
      OtherSegmentAfterRemoval(st, key, st', ShortcutName(k));
    }
  }

  /** Exactly the stranding removals break completeness. */
  lemma RemovedCompleteIff(st: State, key: string, st': State)
    requires Sound(st) && Complete(st)
    requires key in st.resources && Removed(st, key, st')
    ensures Complete(st') <==> !Strands(st, key)
  {
    ShortcutIsPlain(key);
    if Strands(st, key) {
      SegmentAfterRemoval(st, key, st');
      var k :| Shares(st, key, k);
      assert !SegmentResolves(st', k);
    } else {
      forall k ensures SegmentResolves(st', k) {
        if k in st'.resources {
          assert SegmentResolves(st, k);
          assert ShortcutName(k) == ShortcutName(key) ==> Shares(st, key, k);
          OthersStayComplete(st, key, st', k);
        }
      }
    }
  }

  lemma {:induction false} LoadIsComplete(table: Table, order: seq<string>)
    requires forall k :: k in order ==> k in table
    ensures Complete(Load(table, order).st)
  {
    if order != [] {
      var n := |order| - 1;
      LoadIsComplete(table, order[..n]);
      LoadKeepsSound(table, order[..n]);
      var entry := table[order[n]];
      AddLongKeepsComplete(Load(table, order[..n]).st, ShortName(entry.0), entry.1);
    }
  }

  lemma ReaddedSegment(st: State, key: string, mid: State, r: Resource, name: string)
    requires Sound(st) && Removed(st, key, mid) && name != ShortcutName(key) && name != key
    requires Resolves(st, name)
    ensures Resolves(StateOr(AddLong(mid, key, r), mid), name)
  {
    OtherSegmentAfterRemoval(st, key, mid, name);
  }

  /** Adding a removed colon-free key again makes up for any segment it had stranded. */
  lemma ReaddedIsComplete(st: State, key: string, mid: State, r: Resource)
    requires Sound(st) && Complete(st) && key in st.resources && ':' !in key && Removed(st, key, mid)
    ensures Complete(StateOr(AddLong(mid, key, r), mid))
  {
    ShortcutIsPlain(key);
    var st' := StateOr(AddLong(mid, key, r), mid);
    assert key in st'.resources;
    forall k ensures SegmentResolves(st', k) {
      if k in st'.resources && ShortcutName(k) != key {
        assert SegmentResolves(st, k);
        ReaddedSegment(st, key, mid, r, ShortcutName(k));
      }
    }
  }

  lemma ReplaceOneCompleteIff(st: State, n: Name, created: Option<Resource>, st': State)
    requires Sound(st) && Complete(st) && ShortName(n) in st.resources
    requires Step(st, ReplaceOne(n, created), st')
    ensures Complete(st') <==> !Orphaning(st, ReplaceOne(n, created))
  {
    var key := ShortName(n);
    var mid :| Removed(st, key, mid) && st' == Recreated(mid, n, created);
    RemovedCompleteIff(st, key, mid);
    RemovedKeepsSound(st, key, mid);
    if created.Some? && n.name != "" {
      if Complete(mid) {
        AddLongKeepsComplete(mid, key, created.value);
      } else {
        ReaddedIsComplete(st, key, mid, created.value);
      }
    }
  }

  /** From a sound and complete state, an operation ends in a complete one exactly when it is not
      orphaning. */
  lemma StepCompleteIff(st: State, op: Op, st': State)
    requires Sound(st) && Complete(st) && Step(st, op, st')
    ensures Complete(st') <==> !Orphaning(st, op)
  {
    match op
    case Add(n, r) =>
      AddLongKeepsComplete(st, ShortName(n), r);
    case AddByString(key, r) =>
      AddLongKeepsComplete(st, key, r);
    case Remove(n) =>
      if ShortName(n) in st.resources {
        RemovedCompleteIff(st, ShortName(n), st');
      }
    case ReplaceOne(n, created) =>
      if ShortName(n) in st.resources {
        ReplaceOneCompleteIff(st, n, created, st');
      }
    case ReplaceAll(table) =>
      var order :| Enumerates(order, table.Keys) && st' == Load(table, order).st;
      LoadIsComplete(table, order);
  }

  ghost predicate OrphansAt(states: seq<State>, ops: seq<Op>, i: int)
    requires 0 <= i < |ops| < |states|
  {
    Orphaning(states[i], ops[i])
  }

  lemma CompleteNext(states: seq<State>, ops: seq<Op>, i: nat)
    requires IsRun(states, ops) && i < |ops|
    ensures Complete(states[i]) ==> (Complete(states[i + 1]) <==> !OrphansAt(states, ops, i))
  {
    RunIsSound(states, ops, i);
    assert StepAt(states, ops, i);
    if Complete(states[i]) {
      StepCompleteIff(states[i], ops[i], states[i + 1]);
    }
  }

  lemma EmptyIsComplete()
    ensures Complete(EMPTY)
  {
  }

  lemma {:induction false} CompleteSoFar(states: seq<State>, ops: seq<Op>, n: nat)
    requires IsRun(states, ops) && n < |states|
    ensures (forall i :: 0 <= i < n ==> !OrphansAt(states, ops, i)) ==> Complete(states[n])
  {
    if n == 0 {
      EmptyIsComplete();
    } else {
      CompleteSoFar(states, ops, n - 1);
      CompleteNext(states, ops, n - 1);
    }
  }

  /** A run stays complete throughout exactly when none of its operations is orphaning. */
  lemma RunCompleteIff(states: seq<State>, ops: seq<Op>)
    requires IsRun(states, ops)
    ensures (forall i :: 0 <= i < |states| ==> Complete(states[i])) <==>
            (forall i :: 0 <= i < |ops| ==> !OrphansAt(states, ops, i))
  {
    if forall i :: 0 <= i < |states| ==> Complete(states[i]) {
      forall i | 0 <= i < |ops| ensures !OrphansAt(states, ops, i) {
        CompleteNext(states, ops, i);
      }
    }
    if forall i :: 0 <= i < |ops| ==> !OrphansAt(states, ops, i) {
      forall i | 0 <= i < |states| ensures Complete(states[i]) {
        CompleteSoFar(states, ops, i);
      }
    }
  }

  // ----- the empty name

  /** An alias for the resource stored under the empty name. */
  ghost predicate NamesEmptyKey(st: State) {
    exists s :: s in st.aliases && st.aliases[s] == ""
  }

  /** Only the string overload of `add` can store a resource under the empty name, and while none
      is stored no alias maps to it. */
  lemma {:induction false} NoEmptyTarget(states: seq<State>, ops: seq<Op>, i: nat)
    requires IsRun(states, ops) && i < |states|
    requires forall k, r :: 0 <= k < |ops| ==> ops[k] != AddByString("", r)
    ensures "" !in states[i].resources && !NamesEmptyKey(states[i])
  {
    RunIsSound(states, ops, i);
    if i > 0 {
      NoEmptyTarget(states, ops, i - 1);
      assert StepAt(states, ops, i - 1);
      EmptyKeyStaysAbsent(states[i - 1], ops[i - 1], states[i]);
    }
  }

  lemma {:induction false} LoadHasNoEmptyKey(table: Table, order: seq<string>)
    requires forall k :: k in order ==> k in table
    ensures "" !in Load(table, order).st.resources
  {
    if order != [] {
      LoadHasNoEmptyKey(table, order[..|order| - 1]);
    }
  }

  lemma EmptyKeyStaysAbsent(st: State, op: Op, st': State)
    requires Step(st, op, st') && "" !in st.resources
    requires !(op.AddByString? && op.key == "")
    ensures "" !in st'.resources
  {
    match op
    case ReplaceOne(n, created) =>
      if ShortName(n) in st.resources {
        var mid :| Removed(st, ShortName(n), mid) && st' == Recreated(mid, n, created);
      }
    case ReplaceAll(table) =>
      var order :| Enumerates(order, table.Keys) && st' == Load(table, order).st;
      LoadHasNoEmptyKey(table, order);
    case _ =>
  }

  /** Taking `key` away can leave the empty segment's alias to the resource under the empty name. */
  predicate Exposes(st: State, key: string) {
    key in st.resources && key != "" && ShortcutName(key) == "" && "" in st.resources
  }

  /** Removing `key` can make an alias map to the empty name exactly when a resource is stored under
      it and `key` is another one that ends in a colon. */
  lemma EmptyTargetArisesIff(st: State, key: string)
    requires Sound(st) && key in st.resources && !NamesEmptyKey(st)
    ensures (exists st' :: Removed(st, key, st') && NamesEmptyKey(st')) <==> Exposes(st, key)
  {
    PlainName("");
    var s := ShortcutName(key);
    if st' :| Removed(st, key, st') && NamesEmptyKey(st') {
      var a :| a in st'.aliases && st'.aliases[a] == "";
      OtherAliasStays(st, key, st', a);
    }
    if Exposes(st, key) {
      var st' := State(st.resources - {key}, st.aliases[s := ""]);
      assert Shares(st, key, "");
      assert st'.aliases - {s} == st.aliases - {s};
      assert Removed(st, key, st');
      assert st'.aliases[s] == "";
    }
  }

  /** The operations that can make an alias map to the empty name: those that remove a live key
      ending in a colon while a resource is stored under the empty name. */
  predicate Exposing(st: State, op: Op) {
    match op
    case Remove(n) => Exposes(st, ShortName(n))
    case ReplaceOne(n, _) => Exposes(st, ShortName(n))
    case _ => false
  }

  lemma AddLongEmptyTarget(st: State, key: string, r: Resource)
    ensures NamesEmptyKey(StateOr(AddLong(st, key, r), st)) <==> NamesEmptyKey(st)
  {
    PlainName("");
    var st' := StateOr(AddLong(st, key, r), st);
    if s :| s in st.aliases && st.aliases[s] == "" {
      assert s in st'.aliases && st'.aliases[s] == "";
    }
  }

  lemma RecreatedEmptyTarget(mid: State, n: Name, created: Option<Resource>)
    ensures NamesEmptyKey(Recreated(mid, n, created)) <==> NamesEmptyKey(mid)
  {
    if created.Some? {
      AddLongEmptyTarget(mid, ShortName(n), created.value);
    }
  }

  lemma LoadHasNoEmptyTarget(table: Table, order: seq<string>)
    requires forall k :: k in order ==> k in table
    ensures !NamesEmptyKey(Load(table, order).st)
  {
    LoadHasNoEmptyKey(table, order);
    LoadKeepsSound(table, order);
  }

  lemma EmptyTargetNeedsExposing(st: State, op: Op, st': State)
    requires Sound(st) && !NamesEmptyKey(st) && Step(st, op, st') && NamesEmptyKey(st')
    ensures Exposing(st, op)
  {
    match op
    case Add(n, r) => AddLongEmptyTarget(st, ShortName(n), r);
    case AddByString(key, r) => AddLongEmptyTarget(st, key, r);
    case Remove(n) => EmptyTargetArisesIff(st, ShortName(n));
    case ReplaceOne(n, created) =>
      var mid :| Removed(st, ShortName(n), mid) && st' == Recreated(mid, n, created);
      RecreatedEmptyTarget(mid, n, created);
      EmptyTargetArisesIff(st, ShortName(n));
    case ReplaceAll(table) =>
      var order :| Enumerates(order, table.Keys) && st' == Load(table, order).st;
      LoadHasNoEmptyTarget(table, order);
  }

  lemma ExposingCanHitEmpty(st: State, op: Op) returns (st': State)
    requires Sound(st) && !NamesEmptyKey(st) && Exposing(st, op)
    ensures Step(st, op, st') && NamesEmptyKey(st')
  {
    EmptyTargetArisesIff(st, ShortName(op.n));
    st' :| Removed(st, ShortName(op.n), st') && NamesEmptyKey(st');
    if op.ReplaceOne? {
      RecreatedEmptyTarget(st', op.n, op.created);
      st' := Recreated(st', op.n, op.created);
    }
  }

  /** From a sound state without such an alias, an operation can end in one with it exactly when it
      is exposing. */
  lemma EmptyTargetStepIff(st: State, op: Op)
    requires Sound(st) && !NamesEmptyKey(st)
    ensures (exists st' :: Step(st, op, st') && NamesEmptyKey(st')) <==> Exposing(st, op)
  {
    if st' :| Step(st, op, st') && NamesEmptyKey(st') {
      EmptyTargetNeedsExposing(st, op, st');
    }
    if Exposing(st, op) {
      var st' := ExposingCanHitEmpty(st, op);
    }
  }

  ghost predicate NamesEmptyAt(states: seq<State>, i: int) {
    0 <= i < |states| && NamesEmptyKey(states[i])
  }

  ghost predicate ExposesAt(states: seq<State>, ops: seq<Op>, i: int) {
    0 <= i < |ops| < |states| && Exposing(states[i], ops[i])
  }

  /** The first alias that maps to the empty name comes from an exposing operation. */
  lemma {:induction false} EmptyTargetWasExposed(states: seq<State>, ops: seq<Op>, i: nat)
    requires IsRun(states, ops) && i < |states| && NamesEmptyKey(states[i])
    ensures exists k :: 0 <= k < i && ExposesAt(states, ops, k)
  {
    if i > 0 && !NamesEmptyKey(states[i - 1]) {
      RunIsSound(states, ops, i - 1);
      assert StepAt(states, ops, i - 1);
      EmptyTargetNeedsExposing(states[i - 1], ops[i - 1], states[i]);
      assert ExposesAt(states, ops, i - 1);
    } else if i > 0 {
      EmptyTargetWasExposed(states, ops, i - 1);
    }
  }

  // ----- no operation is ever stuck

  lemma SomeRemoval(st: State, key: string) returns (st': State)
    ensures Removed(st, key, st')
  {
    var order := SomeOrder(st.resources.Keys - {key});
    InOrderIsRemoved(st, key, order);
    st' := RemovedInOrder(st, key, order);
  }

  lemma SomeStep(st: State, op: Op) returns (st': State)
    ensures Step(st, op, st')
  {
    match op
    case Add(n, r) => st' := StateOr(AddNamed(st, n, r), st);
    case AddByString(key, r) => st' := StateOr(AddLong(st, key, r), st);
    case Remove(n) =>
      st' := st;
      if ShortName(n) in st.resources {
        st' := SomeRemoval(st, ShortName(n));
      }
    case ReplaceOne(n, created) =>
      st' := st;
      if ShortName(n) in st.resources {
        var mid := SomeRemoval(st, ShortName(n));
        st' := Recreated(mid, n, created);
      }
    case ReplaceAll(table) =>
      var order := SomeOrder(table.Keys);
      st' := Load(table, order).st;
  }

  lemma SameStep(states: seq<State>, ops: seq<Op>, others: seq<State>, ops': seq<Op>, i: nat)
    requires i < |ops| < |states| && i < |ops'| < |others|
    requires states[i] == others[i] && states[i + 1] == others[i + 1] && ops[i] == ops'[i]
    ensures StepAt(states, ops, i) ==> StepAt(others, ops', i)
  {
  }

  lemma RunSnoc(states: seq<State>, ops: seq<Op>, op: Op, st': State)
    requires IsRun(states, ops) && Step(states[|ops|], op, st')
    ensures IsRun(states + [st'], ops + [op])
  {
    var longer, done := states + [st'], ops + [op];
    forall i | 0 <= i < |done| ensures StepAt(longer, done, i) {
      if i < |ops| {
        SameStep(states, ops, longer, done, i);
      }
    }
  }

  lemma RunNext(states: seq<State>, ops: seq<Op>, n: nat, st': State)
    requires n < |ops| && IsRun(states, ops[..n]) && Step(states[n], ops[n], st')
    ensures IsRun(states + [st'], ops[..n + 1])
  {
    RunSnoc(states, ops[..n], ops[n], st');
    assert ops[..n + 1] == ops[..n] + [ops[n]];
  }

  /** A run of the first `n` operations can go on to all of them. */
  lemma {:induction false} RunGoesOn(states: seq<State>, ops: seq<Op>, n: nat) returns (full: seq<State>)
    requires n <= |ops| && IsRun(states, ops[..n])
    ensures IsRun(full, ops) && states <= full
    decreases |ops| - n
  {
    if n == |ops| {
      assert ops[..n] == ops;
      full := states;
    } else {
      var st' := SomeStep(states[n], ops[n]);
      RunNext(states, ops, n, st');
      full := RunGoesOn(states + [st'], ops, n + 1);
    }
  }

  lemma RunPrefix(states: seq<State>, ops: seq<Op>, n: nat)
    requires IsRun(states, ops) && n <= |ops|
    ensures IsRun(states[..n + 1], ops[..n])
  {
    var shorter, done := states[..n + 1], ops[..n];
    forall i | 0 <= i < |done| ensures StepAt(shorter, done, i) {
      SameStep(states, ops, shorter, done, i);
    }
  }

  /** Some run of the same operations, equal up to the exposing one, has the alias by then. */
  lemma ExposedRun(states: seq<State>, ops: seq<Op>, i: nat) returns (others: seq<State>)
    requires IsRun(states, ops) && ExposesAt(states, ops, i)
    ensures IsRun(others, ops) && others[..i + 1] == states[..i + 1]
    ensures NamesEmptyKey(others[i]) || NamesEmptyKey(others[i + 1])
  {
    if NamesEmptyKey(states[i]) {
      others := states;
    } else {
      RunIsSound(states, ops, i);
      var st' := ExposingCanHitEmpty(states[i], ops[i]);
      RunPrefix(states, ops, i);
      RunNext(states[..i + 1], ops, i, st');
      others := RunGoesOn(states[..i + 1] + [st'], ops, i + 1);
      assert others[i + 1] == st';
    }
  }

  /** The given operations can bring an alias to the empty name exactly when some run of them meets
      an exposing one. */
  lemma EmptyTargetRunIff(ops: seq<Op>)
    ensures (exists states, i :: IsRun(states, ops) && NamesEmptyAt(states, i)) <==>
            (exists states, i :: IsRun(states, ops) && ExposesAt(states, ops, i))
  {
    if states, i :| IsRun(states, ops) && NamesEmptyAt(states, i) {
      EmptyTargetWasExposed(states, ops, i);
    }
    if states, i :| IsRun(states, ops) && ExposesAt(states, ops, i) {
      var others := ExposedRun(states, ops, i);
      assert NamesEmptyAt(others, i) || NamesEmptyAt(others, i + 1);
    }
  }

  // ----- what an operation leaves alone

  /** The one key an operation is about. */
  function OwnKey(op: Op): string
    requires !op.ReplaceAll?
  {
    match op
    case Add(n, _) => ShortName(n)
    case AddByString(key, _) => key
    case Remove(n) => ShortName(n)
    case ReplaceOne(n, _) => ShortName(n)
  }

  /** Additions are rejected for a live key and, by name, for an empty one; the others for a key that
      is not live.  `replace_all` itself is never rejected. */
  predicate Rejected(st: State, op: Op) {
    match op
    case Add(n, _) => n.name == "" || ShortName(n) in st.resources
    case AddByString(key, _) => key in st.resources
    case Remove(n) => ShortName(n) !in st.resources
    case ReplaceOne(n, _) => ShortName(n) !in st.resources
    case ReplaceAll(_) => false
  }

  /** `key` has the same resource in both states, or none. */
  predicate SameAt(a: State, b: State, key: string) {
    (key in a.resources <==> key in b.resources) && (key in a.resources ==> a.resources[key] == b.resources[key])
  }

  /** An operation does nothing to any key but its own, unless it replaces all. */
  lemma OtherKeysStay(st: State, op: Op, st': State, key: string)
    requires Step(st, op, st') && !op.ReplaceAll? && key != OwnKey(op)
    ensures SameAt(st, st', key)
  {
    if op.ReplaceOne? {
      ReplaceOneOutcomes(st, op.n, op.created, st');
    }
  }

  /** A rejected operation changes nothing, aliases included. */
  lemma RejectedChangesNothing(st: State, op: Op, st': State)
    requires Step(st, op, st') && Rejected(st, op)
    ensures st' == st
  {
  }

  /** An accepted addition stores its resource, keeps every alias and adds at most that of its own
      segment; an accepted removal takes its key away. */
  lemma AcceptedOutcome(st: State, op: Op, st': State)
    requires Step(st, op, st') && !Rejected(st, op)
    ensures op.Add? || op.AddByString? ==>
      && OwnKey(op) in st'.resources && st'.resources[OwnKey(op)] == op.r
      && forall s :: s in st.aliases || (s in st'.aliases && s != ShortcutName(OwnKey(op))) ==>
           s in st.aliases && s in st'.aliases && st'.aliases[s] == st.aliases[s]
    ensures op.Remove? ==> OwnKey(op) !in st'.resources
  {
  }

  /** An addition that is rejected says why: an empty name first, then a key that is taken. */
  lemma AdditionError(st: State, n: Name, r: Resource)
    ensures ErrorOf(AddNamed(st, n, r)) == Some(EmptyName) <==> n.name == ""
    ensures ErrorOf(AddNamed(st, n, r)) == Some(Duplicate) <==> n.name != "" && ShortName(n) in st.resources
    ensures ErrorOf(AddNamed(st, n, r)) == None <==> n.name != "" && ShortName(n) !in st.resources
  {
  }

  /** Operation `k` is about `key` or about everything, and is not rejected. */
  ghost predicate ActsOn(states: seq<State>, ops: seq<Op>, k: int, key: string)
    requires 0 <= k < |ops| < |states|
  {
    !Rejected(states[k], ops[k]) && (ops[k].ReplaceAll? || OwnKey(ops[k]) == key)
  }

  /** In every run a key keeps its resource, or stays without one, until an accepted operation on
      that key or a `replace_all`. */
  lemma {:induction false} KeyStays(states: seq<State>, ops: seq<Op>, i: nat, j: nat, key: string)
    requires IsRun(states, ops) && i <= j < |states|
    requires forall k :: i <= k < j ==> !ActsOn(states, ops, k, key)
    ensures SameAt(states[i], states[j], key)
  {
    if i < j {
      KeyStays(states, ops, i, j - 1, key);
      assert StepAt(states, ops, j - 1) && !ActsOn(states, ops, j - 1, key);
      if Rejected(states[j - 1], ops[j - 1]) {
        RejectedChangesNothing(states[j - 1], ops[j - 1], states[j]);
      } else {
        OtherKeysStay(states[j - 1], ops[j - 1], states[j], key);
      }
    }
  }

  // ----- replacing one resource

  /** What `replace_one` can do.  An absent key changes nothing; a factory that throws, and equally
      a name whose last part is empty, ends as a removal; otherwise the key gets the new resource
      and every other key keeps its own. */
  lemma ReplaceOneOutcomes(st: State, n: Name, created: Option<Resource>, st': State)
    requires Step(st, ReplaceOne(n, created), st')
    ensures var key := ShortName(n);
      if key !in st.resources then st' == st
      else if created.None? || n.name == "" then Removed(st, key, st')
      else st'.resources == st.resources[key := created.value] && Resolves(st', ShortcutName(key))
  {
    var key := ShortName(n);
    if key in st.resources {
      var mid :| Removed(st, key, mid) && st' == Recreated(mid, n, created);
      if created.Some? && n.name != "" {
        assert mid.resources[key := created.value] == st.resources[key := created.value];
        ReaddedResolves(st, key, mid, created.value);
      }
    }
  }

  lemma ReaddedResolves(st: State, key: string, mid: State, r: Resource)
    requires key in st.resources && Removed(st, key, mid)
    ensures key !in mid.resources
    ensures Resolves(AddLong(mid, key, r).value, ShortcutName(key))
  {
    var s := ShortcutName(key);
    if s in mid.aliases {
      assert Shares(st, key, mid.aliases[s]);
    }
  }

  /** A concrete run that makes the empty name the target of an alias. */
  lemma EmptyTargetRun(api: API, r: Resource, r': Resource) returns (states: seq<State>, ops: seq<Op>)
    ensures IsRun(states, ops) && |states| == 4 && NamesEmptyKey(states[3])
    ensures ops == [AddByString("", r), AddByString("r:", r'), Remove(Name(api, "r", ""))]
  {
    PlainName("");
    QualifiedName("r", "");
    assert "r" + ":" + "" == "r:";
    var s1 := State(map["" := r], map[]);
    var s2 := State(map["" := r, "r:" := r'], map["" := "r:"]);
    var s3 := State(map["" := r], map["" := ""]);
    states := [EMPTY, s1, s2, s3];
    ops := [AddByString("", r), AddByString("r:", r'), Remove(Name(api, "r", ""))];
    assert StepAt(states, ops, 0);
    assert StepAt(states, ops, 1);
    assert Shares(s2, "r:", "");
    assert s3.resources == s2.resources - {"r:"};
    assert s3.aliases - {""} == s2.aliases - {""};
    assert Removed(s2, "r:", s3);
    assert StepAt(states, ops, 2);
    assert s3.aliases[""] == "";
  }

  // ----- adding only

  /** The key under which an addition asks to store its resource, unless its name is empty. */
  function AddedKey(op: Op): Option<string> {
    match op
    case Add(n, _) => if n.name == "" then None else Some(ShortName(n))
    case AddByString(key, _) => Some(key)
    case _ => None
  }

  predicate AddsOnly(ops: seq<Op>) {
    forall i :: 0 <= i < |ops| ==> ops[i].Add? || ops[i].AddByString?
  }

  /** `op` asks for a qualified key that ends in `s`. */
  predicate Offers(op: Op, s: string) {
    AddedKey(op).Some? && ':' in AddedKey(op).value && ShortcutName(AddedKey(op).value) == s
  }

  /** What one addition does to the set of live keys. */
  lemma LiveAfterAdding(st: State, op: Op, st': State, key: string)
    requires (op.Add? || op.AddByString?) && Step(st, op, st')
    ensures key in st'.resources <==> key in st.resources || AddedKey(op) == Some(key)
  {
  }

  ghost predicate WasAdded(ops: seq<Op>, n: nat, key: string)
    requires n <= |ops|
  {
    exists i :: 0 <= i < n && AddedKey(ops[i]) == Some(key)
  }

  lemma WasAddedNext(ops: seq<Op>, n: nat, key: string)
    requires n < |ops|
    ensures WasAdded(ops, n + 1, key) <==> WasAdded(ops, n, key) || AddedKey(ops[n]) == Some(key)
  {
  }

  lemma {:induction false} LiveKeysWereAdded(states: seq<State>, ops: seq<Op>, n: nat, key: string)
    requires IsRun(states, ops) && AddsOnly(ops) && n < |states|
    ensures key in states[n].resources <==> WasAdded(ops, n, key)
  {
    if n > 0 {
      LiveKeysWereAdded(states, ops, n - 1, key);
      assert StepAt(states, ops, n - 1);
      LiveAfterAdding(states[n - 1], ops[n - 1], states[n], key);
      WasAddedNext(ops, n - 1, key);
    }
  }

  ghost predicate FirstOffer(ops: seq<Op>, n: nat, s: string, i: int)
    requires n <= |ops|
  {
    0 <= i < n && Offers(ops[i], s) && forall k :: 0 <= k < i ==> !Offers(ops[k], s)
  }

  /** The alias `s` of `st` stands for the first of `n` operations that offered it, if any did. */
  ghost predicate FirstOfferStands(st: State, ops: seq<Op>, n: nat, s: string)
    requires n <= |ops|
  {
    && (s !in st.aliases ==> forall i :: 0 <= i < n ==> !Offers(ops[i], s))
    && (s in st.aliases ==> exists i :: FirstOffer(ops, n, s, i) && st.aliases[s] == AddedKey(ops[i]).value)
  }

  /** What one addition does to the alias `s`. */
  lemma AliasAfterAdding(st: State, op: Op, st': State, s: string)
    requires (op.Add? || op.AddByString?) && Step(st, op, st')
    ensures s in st.aliases ==> s in st'.aliases && st'.aliases[s] == st.aliases[s]
    ensures s !in st.aliases && !Offers(op, s) ==> s !in st'.aliases
    ensures s !in st.aliases && Offers(op, s) && AddedKey(op).value !in st.resources ==>
      s in st'.aliases && st'.aliases[s] == AddedKey(op).value
  {
    if AddedKey(op).Some? {
      ShortcutIsPlain(AddedKey(op).value);
    }
  }

  lemma EarlierOfferStands(st: State, ops: seq<Op>, n: nat, s: string, st': State)
    requires n < |ops| && FirstOfferStands(st, ops, n, s)
    requires s in st.aliases && s in st'.aliases && st'.aliases[s] == st.aliases[s]
    ensures FirstOfferStands(st', ops, n + 1, s)
  {
    var i :| FirstOffer(ops, n, s, i) && st.aliases[s] == AddedKey(ops[i]).value;
    assert FirstOffer(ops, n + 1, s, i);
  }

  /** A key offered for the first time is not live yet. */
  lemma FirstOfferIsNew(states: seq<State>, ops: seq<Op>, n: nat, s: string)
    requires IsRun(states, ops) && AddsOnly(ops) && n < |ops|
    requires Offers(ops[n], s) && forall i :: 0 <= i < n ==> !Offers(ops[i], s)
    ensures AddedKey(ops[n]).value !in states[n].resources
    ensures FirstOffer(ops, n + 1, s, n)
  {
    LiveKeysWereAdded(states, ops, n, AddedKey(ops[n]).value);
  }

  lemma FirstOfferNext(states: seq<State>, ops: seq<Op>, n: nat, s: string)
    requires IsRun(states, ops) && AddsOnly(ops) && n < |ops|
    ensures FirstOfferStands(states[n], ops, n, s) ==> FirstOfferStands(states[n + 1], ops, n + 1, s)
  {
    assert StepAt(states, ops, n);
    AliasAfterAdding(states[n], ops[n], states[n + 1], s);
    if s in states[n].aliases {
      if FirstOfferStands(states[n], ops, n, s) {
        EarlierOfferStands(states[n], ops, n, s, states[n + 1]);
      }
    } else if Offers(ops[n], s) && FirstOfferStands(states[n], ops, n, s) {
      FirstOfferIsNew(states, ops, n, s);
    }
  }

  lemma {:induction false} AliasIsFirstOffer(states: seq<State>, ops: seq<Op>, n: nat, s: string)
    requires IsRun(states, ops) && AddsOnly(ops) && n < |states|
    ensures FirstOfferStands(states[n], ops, n, s)
  {
    if n > 0 {
      AliasIsFirstOffer(states, ops, n - 1, s);
      FirstOfferNext(states, ops, n - 1, s);
    }
  }

  /** After additions only, a segment that is no name itself resolves to the earliest added key
      that ends in it, and to nothing when there is none. */
  lemma FirstAddedWins(states: seq<State>, ops: seq<Op>, s: string)
    requires IsRun(states, ops) && AddsOnly(ops)
    requires var st := states[|ops|]; s !in st.resources
    ensures var st := states[|ops|];
      && (Resolves(st, s) <==> exists i :: 0 <= i < |ops| && Offers(ops[i], s))
      && forall i :: FirstOffer(ops, |ops|, s, i) ==>
           && AddedKey(ops[i]).value in st.resources
           && Lookup(st, s) == Some(st.resources[AddedKey(ops[i]).value])
  {
    var n := |ops|;
    AliasIsFirstOffer(states, ops, n, s);
    RunIsSound(states, ops, n);
    forall i | FirstOffer(ops, n, s, i)
      ensures AddedKey(ops[i]).value in states[n].resources
      ensures Lookup(states[n], s) == Some(states[n].resources[AddedKey(ops[i]).value])
    {
      var j :| FirstOffer(ops, n, s, j) && states[n].aliases[s] == AddedKey(ops[j]).value;
      assert i == j;
    }
  }

  // ----- replacing everything

  /** No entry has an empty name and no two entries have the same short name. */
  ghost predicate Clean(table: Table) {
    CleanOn(table, table.Keys)
  }

  ghost predicate CleanOn(table: Table, keys: set<string>)
    requires keys <= table.Keys
  {
    && (forall k :: k in keys ==> table[k].0.name != "")
    && (forall k, k' :: k in keys && k' in keys && k != k' ==> ShortName(table[k].0) != ShortName(table[k'].0))
  }

  /** The resources of `st` are those of `table` under `keys`, each by its short name. */
  ghost predicate Stores(st: State, table: Table, keys: set<string>)
    requires keys <= table.Keys
  {
    && (forall k :: k in keys ==>
          ShortName(table[k].0) in st.resources && st.resources[ShortName(table[k].0)] == table[k].1)
    && (forall key :: key in st.resources ==> exists k :: k in keys && ShortName(table[k].0) == key)
  }

  /** The aliases of `st` are the last segments of its qualified keys. */
  ghost predicate AliasesAllSegments(st: State) {
    && (forall key :: key in st.resources && ':' in key ==> ShortcutName(key) in st.aliases)
    && (forall s :: s in st.aliases ==> exists key :: key in st.resources && ':' in key && ShortcutName(key) == s)
  }

  lemma AddLongAliases(st: State, key: string, r: Resource)
    requires AliasesAllSegments(st) && key !in st.resources
    ensures AliasesAllSegments(AddLong(st, key, r).value)
  {
    ShortcutIsPlain(key);
    var st' := AddLong(st, key, r).value;
    forall s | s in st'.aliases
      ensures exists k :: k in st'.resources && ':' in k && ShortcutName(k) == s
    {
      if s in st.aliases {
        var k :| k in st.resources && ':' in k && ShortcutName(k) == s;
        assert k in st'.resources;
      } else {
        assert key in st'.resources;
      }
    }
  }

  /** An addition to the loaded entries succeeds exactly when the entry keeps them clean. */
  lemma LoadOneIff(table: Table, keys: set<string>, st: State, k: string)
    requires keys <= table.Keys && k in table && k !in keys
    requires CleanOn(table, keys) && Stores(st, table, keys)
    ensures AddNamed(st, table[k].0, table[k].1).Success? <==> CleanOn(table, keys + {k})
  {
    var key := ShortName(table[k].0);
    if key in st.resources {
      var k' :| k' in keys && ShortName(table[k'].0) == key;
      assert k' in keys + {k} && k in keys + {k};
    }
  }

  lemma LoadOneStores(table: Table, keys: set<string>, st: State, k: string)
    requires keys <= table.Keys && k in table && k !in keys
    requires Stores(st, table, keys)
    requires ShortName(table[k].0) !in st.resources
    ensures Stores(AddLong(st, ShortName(table[k].0), table[k].1).value, table, keys + {k})
  {
    var key := ShortName(table[k].0);
    var st' := AddLong(st, key, table[k].1).value;
    forall other | other in st'.resources
      ensures exists q :: q in keys + {k} && ShortName(table[q].0) == other
    {
      if other != key {
        var q :| q in keys && ShortName(table[q].0) == other;
        assert q in keys + {k};
      } else {
        assert k in keys + {k};
      }
    }
  }

  lemma AddLongCounts(st: State, key: string, r: Resource)
    requires key !in st.resources
    ensures |AddLong(st, key, r).value.resources| == |st.resources| + 1
  {
    assert AddLong(st, key, r).value.resources.Keys == st.resources.Keys + {key};
  }

  /** As far as the loading has come, the entries met are stored exactly when they are clean. */
  ghost predicate LoadedAs(table: Table, keys: set<string>, l: Loading)
    requires keys <= table.Keys
  {
    && (l.stopped <==> !CleanOn(table, keys))
    && (if l.stopped then |l.st.resources| < |keys| else |l.st.resources| == |keys|)
    && (!l.stopped ==> Stores(l.st, table, keys) && AliasesAllSegments(l.st))
  }

  lemma LoadedAsNext(table: Table, keys: set<string>, l: Loading, k: string)
    requires keys <= table.Keys && k in table && k !in keys
    ensures LoadedAs(table, keys, l) ==> LoadedAs(table, keys + {k}, LoadNext(l, table[k]))
  {
    if !l.stopped && LoadedAs(table, keys, l) {
      LoadOneIff(table, keys, l.st, k);
      var key := ShortName(table[k].0);
      if key !in l.st.resources {
        LoadOneStores(table, keys, l.st, k);
        AddLongCounts(l.st, key, table[k].1);
        AddLongAliases(l.st, key, table[k].1);
      }
    }
  }

  lemma {:induction false} LoadedState(table: Table, order: seq<string>)
    requires forall k :: k in order ==> k in table
    requires Distinct(order)
    ensures Members(order) <= table.Keys
    ensures LoadedAs(table, Members(order), Load(table, order))
  {
    if order == [] {
      assert Members(order) == {};
    } else {
      var n := |order| - 1;
      LoadedState(table, order[..n]);
      MembersLast(order);
      LoadedAsNext(table, Members(order[..n]), Load(table, order[..n]), order[n]);
    }
  }

  lemma {:induction false} LoadStoresOnlyGiven(table: Table, order: seq<string>, key: string)
    requires forall k :: k in order ==> k in table
    requires key in Load(table, order).st.resources
    ensures exists k :: k in table && ShortName(table[k].0) == key && Load(table, order).st.resources[key] == table[k].1
  {
    var n := |order| - 1;
    if key in Load(table, order[..n]).st.resources {
      LoadStoresOnlyGiven(table, order[..n], key);
    } else {
      assert order[n] in table;
    }
  }

  /** `replace_all` leaves nothing but given resources, whatever was there before.  It leaves all
      of them, under exactly their short names, when the table is clean, in every iteration order;
      and when it is not, it leaves fewer than were given. */
  lemma ReplaceAllOutcome(table: Table, st: State)
    requires Replaced(table, st)
    ensures forall key :: key in st.resources ==>
      exists k :: k in table && ShortName(table[k].0) == key && st.resources[key] == table[k].1
    ensures Clean(table) ==> Stores(st, table, table.Keys) && AliasesAllSegments(st)
    ensures |st.resources| == |table| <==> Clean(table)
  {
    var order :| Enumerates(order, table.Keys) && st == Load(table, order).st;
    LoadedState(table, order);
    assert Members(order) == table.Keys;
    forall key | key in st.resources
      ensures exists k :: k in table && ShortName(table[k].0) == key && st.resources[key] == table[k].1
    {
      LoadStoresOnlyGiven(table, order, key);
    }
  }

  // ----- which tables come out the same in every iteration order

  /** No entry is rejected for its name. */
  predicate NoneEmpty(table: Table) {
    forall k :: k in table ==> table[k].0.name != ""
  }

  predicate AllEmpty(table: Table) {
    forall k :: k in table ==> table[k].0.name == ""
  }

  /** All entries clash with each other. */
  predicate OneShortName(table: Table) {
    forall k, k' :: k in table && k' in table ==> ShortName(table[k].0) == ShortName(table[k'].0)
  }

  predicate OneResource(table: Table) {
    forall k, k' :: k in table && k' in table ==> table[k].1 == table[k'].1
  }

  function ShortNames(table: Table): set<string> {
    set k | k in table :: ShortName(table[k].0)
  }

  /** Some iteration order begins as given. */
  lemma OrderFrom(keys: set<string>, first: seq<string>) returns (order: seq<string>)
    requires Distinct(first) && Members(first) <= keys
    ensures Enumerates(order, keys) && first <= order
  {
    var rest := SomeOrder(keys - Members(first));
    order := first + rest;
    DistinctConcat(first, rest);
    forall k ensures k in order <==> k in keys {
      assert k in first <==> k in Members(first);
    }
  }

  /** A loading that stops within some first entries can be the whole of `replace_all`. */
  lemma StoppedIsOutcome(table: Table, first: seq<string>)
    requires Distinct(first) && Members(first) <= table.Keys
    requires (forall k :: k in first ==> k in table) && Load(table, first).stopped
    ensures Replaced(table, Load(table, first).st)
  {
    var order := OrderFrom(table.Keys, first);
    assert order[..|first|] == first;
    StoppedStays(table, order, |first|);
  }

  lemma LoadOfOne(table: Table, k: string)
    requires k in table
    ensures Load(table, [k]) == LoadNext(Loading(EMPTY, false), table[k])
  {
    assert [k][..0] == [];
    assert Load(table, [k][..0]) == Loading(EMPTY, false);
  }

  /** An entry without a name can come first and leave nothing. */
  lemma EmptyFirst(table: Table, k: string)
    requires k in table && table[k].0.name == ""
    ensures Replaced(table, EMPTY)
  {
    LoadOfOne(table, k);
    StoppedIsOutcome(table, [k]);
  }

  /** Two clashing entries can come first and leave one of them alone. */
  lemma ClashFirst(table: Table, k: string, k': string) returns (st: State)
    requires k in table && k' in table && k != k' && table[k].0.name != ""
    requires ShortName(table[k].0) == ShortName(table[k'].0)
    ensures Replaced(table, st) && st.resources == map[ShortName(table[k].0) := table[k].1]
  {
    var first := [k, k'];
    LoadOfOne(table, k);
    assert first[..1] == [k];
    assert Load(table, first) == LoadNext(Load(table, [k]), table[k']);
    st := Load(table, first).st;
    StoppedIsOutcome(table, first);
  }

  predicate Holds(l: Loading, key: string, r: Resource) {
    key in l.st.resources && l.st.resources[key] == r
  }

  lemma LoadNextHolds(before: Loading, entry: (Name, Resource), key: string, r: Resource)
    ensures Holds(before, key, r) ==> Holds(LoadNext(before, entry), key, r)
  {
  }

  lemma {:induction false} LoadHolds(table: Table, order: seq<string>, i: nat, key: string, r: Resource)
    requires i <= |order| && forall k :: k in order ==> k in table
    ensures Holds(Load(table, order[..i]), key, r) ==> Holds(Load(table, order), key, r)
    decreases |order| - i
  {
    if i == |order| {
      assert order[..i] == order;
    } else {
      LoadStep(table, order, i);
      LoadNextHolds(Load(table, order[..i]), table[order[i]], key, r);
      LoadHolds(table, order, i + 1, key, r);
    }
  }

  /** An entry with a name can come first and is stored then. */
  lemma NamedFirst(table: Table, k: string) returns (st: State)
    requires k in table && table[k].0.name != ""
    ensures Replaced(table, st)
    ensures ShortName(table[k].0) in st.resources && st.resources[ShortName(table[k].0)] == table[k].1
  {
    var order := OrderFrom(table.Keys, [k]);
    assert order[..1] == [k];
    LoadOfOne(table, k);
    assert Holds(Load(table, [k]), ShortName(table[k].0), table[k].1);
    LoadHolds(table, order, 1, ShortName(table[k].0), table[k].1);
    st := Load(table, order).st;
  }

  lemma {:induction false} AllEmptyLeavesNothing(table: Table, order: seq<string>)
    requires AllEmpty(table) && forall k :: k in order ==> k in table
    ensures Load(table, order).st == EMPTY
  {
    if order != [] {
      AllEmptyLeavesNothing(table, order[..|order| - 1]);
    }
  }

  /** What is left when only an entry of this name and resource is stored. */
  function OnlyOne(s: string, r: Resource): State {
    AddLong(EMPTY, s, r).value
  }

  lemma ClashIsRejected(before: Loading, entry: (Name, Resource), r: Resource)
    requires before.st == OnlyOne(ShortName(entry.0), r)
    ensures LoadNext(before, entry).st == before.st
  {
  }

  /** Of entries that all clash the first one met is stored. */
  lemma {:induction false} OneNameLeavesFirst(table: Table, order: seq<string>, s: string)
    requires NoneEmpty(table) && forall k :: k in table ==> ShortName(table[k].0) == s
    requires order != [] && forall k :: k in order ==> k in table
    ensures Load(table, order).st == OnlyOne(s, table[order[0]].1)
  {
    var n := |order| - 1;
    if n == 0 {
      assert order == [order[0]];
      LoadOfOne(table, order[0]);
    } else {
      OneNameLeavesFirst(table, order[..n], s);
      ClashIsRejected(Load(table, order[..n]), table[order[n]], table[order[0]].1);
    }
  }

  lemma OneNameOutcome(table: Table, st: State) returns (k: string)
    requires NoneEmpty(table) && OneShortName(table) && table != map[] && Replaced(table, st)
    ensures k in table && st == OnlyOne(ShortName(table[k].0), table[k].1)
  {
    var order :| Enumerates(order, table.Keys) && st == Load(table, order).st;
    var some :| some in table;
    assert some in order;
    k := order[0];
    OneNameLeavesFirst(table, order, ShortName(table[k].0));
  }

  /** Nothing clashes, nothing has a name, or everything clashes but is the same resource. */
  ghost predicate OrderFree(table: Table) {
    Clean(table) || AllEmpty(table) || (NoneEmpty(table) && OneShortName(table) && OneResource(table))
  }

  lemma UncleanHasClash(table: Table) returns (k: string, k': string)
    requires NoneEmpty(table) && !Clean(table)
    ensures k in table && k' in table && k != k' && ShortName(table[k].0) == ShortName(table[k'].0)
  {
    k, k' :| k in table && k' in table && k != k' && ShortName(table[k].0) == ShortName(table[k'].0);
  }

  lemma OtherShortName(table: Table, s: string) returns (k: string)
    requires !OneShortName(table)
    ensures k in table && ShortName(table[k].0) != s
  {
    var a, b :| a in table && b in table && ShortName(table[a].0) != ShortName(table[b].0);
    k := if ShortName(table[a].0) != s then a else b;
  }

  /** The keys left are those of the whole table, in every iteration order, exactly when no entry is
      without a name and either none of them clash or all do. */
  lemma ReplaceAllKeepsNamesIff(table: Table)
    ensures (forall st :: Replaced(table, st) ==> st.resources.Keys == ShortNames(table)) <==>
            NoneEmpty(table) && (Clean(table) || OneShortName(table))
  {
    if NoneEmpty(table) && (Clean(table) || OneShortName(table)) {
      forall st | Replaced(table, st) ensures st.resources.Keys == ShortNames(table) {
        KeepsNames(table, st);
      }
    } else {
      var st := LosesNames(table);
    }
  }

  lemma StoredNames(table: Table, st: State)
    requires Stores(st, table, table.Keys)
    ensures st.resources.Keys == ShortNames(table)
  {
    forall key ensures key in st.resources <==> key in ShortNames(table) {
      if key in st.resources {
        var k :| k in table.Keys && ShortName(table[k].0) == key;
      }
    }
  }

  lemma KeepsNames(table: Table, st: State)
    requires NoneEmpty(table) && (Clean(table) || OneShortName(table)) && Replaced(table, st)
    ensures st.resources.Keys == ShortNames(table)
  {
    if Clean(table) {
      ReplaceAllOutcome(table, st);
      StoredNames(table, st);
    } else {
      var k := OneNameOutcome(table, st);
      assert ShortName(table[k].0) in ShortNames(table);
    }
  }

  lemma LosesNames(table: Table) returns (st: State)
    requires !(NoneEmpty(table) && (Clean(table) || OneShortName(table)))
    ensures Replaced(table, st) && st.resources.Keys != ShortNames(table)
  {
    if !NoneEmpty(table) {
      var k :| k in table && table[k].0.name == "";
      EmptyFirst(table, k);
      st := EMPTY;
      assert ShortName(table[k].0) in ShortNames(table);
    } else {
      var k, k' := UncleanHasClash(table);
      st := ClashFirst(table, k, k');
      var other := OtherShortName(table, ShortName(table[k].0));
      assert ShortName(table[other].0) in ShortNames(table);
    }
  }

  /** Two iteration orders leave different resources for every other table. */
  lemma OrderMatters(table: Table) returns (a: State, b: State)
    requires !OrderFree(table)
    ensures Replaced(table, a) && Replaced(table, b) && a.resources != b.resources
  {
    if !NoneEmpty(table) {
      var k :| k in table && table[k].0.name == "";
      var k' :| k' in table && table[k'].0.name != "";
      EmptyFirst(table, k);
      a := EMPTY;
      b := NamedFirst(table, k');
    } else if OneShortName(table) {
      var k, k' :| k in table && k' in table && table[k].1 != table[k'].1;
      a := NamedFirst(table, k);
      b := NamedFirst(table, k');
    } else {
      var k, k' := UncleanHasClash(table);
      var other := OtherShortName(table, ShortName(table[k].0));
      a := ClashFirst(table, k, k');
      b := NamedFirst(table, other);
    }
  }

  // ----- iteration order decides only where an alias points

  /** The same resources, and aliases for the same segments. */
  ghost predicate SameIndex(a: State, b: State) {
    a.resources == b.resources && a.aliases.Keys == b.aliases.Keys
  }

  lemma AddLongSameIndex(a: State, b: State, key: string, r: Resource)
    requires SameIndex(a, b)
    ensures SameIndex(StateOr(AddLong(a, key, r), a), StateOr(AddLong(b, key, r), b))
  {
  }

  lemma RemovedSameIndex(a: State, b: State, key: string, a': State, b': State)
    requires SameIndex(a, b) && Removed(a, key, a') && Removed(b, key, b')
    ensures SameIndex(a', b')
  {
    forall s ensures s in a'.aliases <==> s in b'.aliases {
      OtherAliasStays(a, key, a', s);
      OtherAliasStays(b, key, b', s);
      if IsShared(a, key) {
        var k :| Shares(a, key, k);
        assert Shares(b, key, k);
      }
      if IsShared(b, key) {
        var k :| Shares(b, key, k);
        assert Shares(a, key, k);
      }
    }
    assert a'.aliases.Keys == b'.aliases.Keys;
  }

  lemma StoresSame(table: Table, a: State, b: State)
    requires Stores(a, table, table.Keys) && Stores(b, table, table.Keys)
    ensures a.resources == b.resources
  {
    forall key | key in a.resources || key in b.resources
      ensures key in a.resources && key in b.resources && a.resources[key] == b.resources[key]
    {
      var k :| k in table && ShortName(table[k].0) == key;
    }
    assert a.resources.Keys == b.resources.Keys;
  }

  lemma AliasesSame(a: State, b: State)
    requires a.resources == b.resources && AliasesAllSegments(a) && AliasesAllSegments(b)
    ensures a.aliases.Keys == b.aliases.Keys
  {
  }

  lemma ReplacedSameIndex(table: Table, a: State, b: State)
    requires OrderFree(table) && Replaced(table, a) && Replaced(table, b)
    ensures SameIndex(a, b)
  {
    if Clean(table) {
      ReplaceAllOutcome(table, a);
      ReplaceAllOutcome(table, b);
      StoresSame(table, a, b);
      AliasesSame(a, b);
    } else if AllEmpty(table) {
      AllEmptyOutcome(table, a);
      AllEmptyOutcome(table, b);
    } else {
      var k := OneNameOutcome(table, a);
      var k' := OneNameOutcome(table, b);
    }
  }

  lemma AllEmptyOutcome(table: Table, st: State)
    requires AllEmpty(table) && Replaced(table, st)
    ensures st == EMPTY
  {
    var order :| Enumerates(order, table.Keys) && st == Load(table, order).st;
    AllEmptyLeavesNothing(table, order);
  }

  lemma AllOutcomesAgree(table: Table)
    requires OrderFree(table)
    ensures forall a, b :: Replaced(table, a) && Replaced(table, b) ==> SameIndex(a, b)
  {
    forall a, b | Replaced(table, a) && Replaced(table, b) ensures SameIndex(a, b) {
      ReplacedSameIndex(table, a, b);
    }
  }

  /** What two iteration orders of `replace_all` leave is the same resources exactly for order-free
      tables, and then the same segments have aliases. */
  lemma OrderFreeIff(table: Table)
    ensures (forall a, b :: Replaced(table, a) && Replaced(table, b) ==> a.resources == b.resources) <==>
            OrderFree(table)
    ensures OrderFree(table) ==> forall a, b :: Replaced(table, a) && Replaced(table, b) ==> SameIndex(a, b)
  {
    if OrderFree(table) {
      AllOutcomesAgree(table);
    } else {
      var a, b := OrderMatters(table);
    }
  }

  ghost predicate ReplacesOrderFree(op: Op) {
    op.ReplaceAll? ==> OrderFree(op.table)
  }

  lemma StepSameIndex(a: State, b: State, op: Op, a': State, b': State)
    requires SameIndex(a, b) && ReplacesOrderFree(op)
    requires Step(a, op, a') && Step(b, op, b')
    ensures SameIndex(a', b')
  {
    match op
    case Add(n, r) =>
      AddLongSameIndex(a, b, ShortName(n), r);
    case AddByString(key, r) =>
      AddLongSameIndex(a, b, key, r);
    case Remove(n) =>
      if ShortName(n) in a.resources {
        RemovedSameIndex(a, b, ShortName(n), a', b');
      }
    case ReplaceOne(n, created) =>
      if ShortName(n) in a.resources {
        var ma :| Removed(a, ShortName(n), ma) && a' == Recreated(ma, n, created);
        var mb :| Removed(b, ShortName(n), mb) && b' == Recreated(mb, n, created);
        RemovedSameIndex(a, b, ShortName(n), ma, mb);
        if created.Some? {
          AddLongSameIndex(ma, mb, ShortName(n), created.value);
        }
      }
    case ReplaceAll(table) =>
      ReplacedSameIndex(table, a', b');
  }

  /** Two runs of the same operations, with any iteration orders, hold the same resources and
      resolve the same names at every point, provided every `replace_all` is given an order-free table. */
  lemma {:induction false} RunsAgree(states: seq<State>, others: seq<State>, ops: seq<Op>, i: nat)
    requires IsRun(states, ops) && IsRun(others, ops) && i < |states|
    requires forall k :: 0 <= k < |ops| ==> ReplacesOrderFree(ops[k])
    ensures states[i].resources == others[i].resources
    ensures forall name :: Resolves(states[i], name) <==> Resolves(others[i], name)
  {
    RunsSameIndex(states, others, ops, i);
    RunIsSound(states, ops, i);
    RunIsSound(others, ops, i);
  }

  /** With order-free tables, any one run of the operations tells whether they can bring an alias to the
      empty name. */
  lemma AnyRunTellsEmptyTarget(states: seq<State>, ops: seq<Op>)
    requires IsRun(states, ops) && forall k :: 0 <= k < |ops| ==> ReplacesOrderFree(ops[k])
    ensures (exists others, i :: IsRun(others, ops) && NamesEmptyAt(others, i)) <==>
            (exists i :: ExposesAt(states, ops, i))
  {
    EmptyTargetRunIff(ops);
    if others, i :| IsRun(others, ops) && ExposesAt(others, ops, i) {
      RunsAgree(states, others, ops, i);
      assert ExposesAt(states, ops, i);
    }
  }

  /** At point `i` two runs hold the same resources and resolve the same names. */
  ghost predicate AgreeAt(states: seq<State>, others: seq<State>, i: int) {
    0 <= i < |states| && i < |others| ==>
      && states[i].resources == others[i].resources
      && forall name :: Resolves(states[i], name) <==> Resolves(others[i], name)
  }

  lemma DisagreeingRuns(ops: seq<Op>, k: nat) returns (states: seq<State>, others: seq<State>)
    requires k < |ops| && !ReplacesOrderFree(ops[k])
    ensures IsRun(states, ops) && IsRun(others, ops) && !AgreeAt(states, others, k + 1)
  {
    assert IsRun([EMPTY], ops[..0]);
    var run := RunGoesOn([EMPTY], ops, 0);
    var before := run[..k + 1];
    RunPrefix(run, ops, k);
    var a, b := OrderMatters(ops[k].table);
    RunNext(before, ops, k, a);
    RunNext(before, ops, k, b);
    states := RunGoesOn(before + [a], ops, k + 1);
    others := RunGoesOn(before + [b], ops, k + 1);
    assert states[k + 1] == a && others[k + 1] == b;
  }

  /** All runs of the same operations agree throughout exactly when every `replace_all` among them is
      given an order-free table. */
  lemma RunsAgreeIff(ops: seq<Op>)
    ensures (forall states, others, i :: IsRun(states, ops) && IsRun(others, ops) ==> AgreeAt(states, others, i)) <==>
            (forall k :: 0 <= k < |ops| ==> ReplacesOrderFree(ops[k]))
  {
    if forall k :: 0 <= k < |ops| ==> ReplacesOrderFree(ops[k]) {
      forall states, others, i | IsRun(states, ops) && IsRun(others, ops) ensures AgreeAt(states, others, i) {
        if 0 <= i < |states| {
          RunsAgree(states, others, ops, i);
        }
      }
    } else {
      var k :| 0 <= k < |ops| && !ReplacesOrderFree(ops[k]);
      var states, others := DisagreeingRuns(ops, k);
    }
  }

  lemma {:induction false} RunsSameIndex(states: seq<State>, others: seq<State>, ops: seq<Op>, i: nat)
    requires IsRun(states, ops) && IsRun(others, ops) && i < |states|
    requires forall k :: 0 <= k < |ops| ==> ReplacesOrderFree(ops[k])
    ensures SameIndex(states[i], others[i])
  {
    if i > 0 {
      RunsSameIndex(states, others, ops, i - 1);
      assert StepAt(states, ops, i - 1) && StepAt(others, ops, i - 1);
      StepSameIndex(states[i - 1], others[i - 1], ops[i - 1], states[i], others[i]);
    }
  }
}
