/** `RobotClient::refresh`: the client's name list and resource manager as a cache of the last
    response to a request for the robot's resource names. */
module RobotClient {
  import opened Wrappers
  import opened ResourceNames
  import opened ResourceManager
  import opened ResourceManagerTheorems

  /** One call of `refresh`: the response, and for each of its entries the client that constructing
      one would give, `None` when the construction throws. */
  datatype Round = Round(response: seq<ResourceName>, created: seq<Option<Resource>>)

  type ValidRound = r: Round | |r.response| == |r.created| witness Round([], [])

  datatype ClientState = ClientState(names: seq<Name>, manager: State)

  function ApiOf(p: ResourceName): API {
    API(p.namespace, p.resourceType, p.subtype)
  }

  /** The entries for which a client is made: no remotes, and only registered kinds. */
  predicate IsKept(registry: set<API>, p: ResourceName) {
    p.subtype != "remote" && ApiOf(p) in registry
  }

  /** The name under which a kept entry is stored. */
  function KeptName(p: ResourceName): Name {
    Name(ApiOf(p), "", p.name)
  }

  function Names(response: seq<ResourceName>): seq<Name> {
    seq(|response|, i requires 0 <= i < |response| => NameFromProto(response[i]))
  }

  predicate SameNames(a: seq<Name>, b: seq<Name>) {
    |a| == |b| && forall i :: 0 <= i < |a| ==> SameName(a[i], b[i])
  }

  /** The resources made from the first `n` entries. */
  function Made(registry: set<API>, round: ValidRound, n: nat): Table
    requires n <= |round.response|
  {
    if n == 0 then map[]
    else
      var before := Made(registry, round, n - 1);
      var p, client := round.response[n - 1], round.created[n - 1];
      if IsKept(registry, p) && client.Some? then
        Emplace(before, NameToString(KeptName(p)), (KeptName(p), client.value))
      else before
  }

  function AllMade(registry: set<API>, round: ValidRound): Table {
    Made(registry, round, |round.response|)
  }

  /** An unchanged name list leaves everything as it was; another one rebuilds the manager. */
  ghost predicate Refreshed(registry: set<API>, c: ClientState, round: ValidRound, c': ClientState) {
    if SameNames(Names(round.response), c.names) then c' == c
    else c'.names == Names(round.response) && Replaced(AllMade(registry, round), c'.manager)
  }

  class RobotClient {
    var resourceNames: seq<Name>
    const manager: ResourceManager

    constructor ()
      ensures Value() == ClientState([], EMPTY)
    {
      resourceNames := [];
      manager := new ResourceManager();
    }

    ghost function Value(): ClientState
      reads this, manager
    {
      ClientState(resourceNames, manager.Value())
    }

    method Refresh(registry: set<API>, round: ValidRound)
      modifies this, manager
      ensures Refreshed(registry, old(Value()), round, Value())
    {
      var newResources: Table := map[];
      var currentResources: seq<Name> := [];
      for i := 0 to |round.response|
        invariant currentResources == Names(round.response)[..i]
        invariant newResources == Made(registry, round, i)
        invariant Value() == old(Value())
      {
        var p := round.response[i];
        currentResources := currentResources + [NameFromProto(p)];
        if p.subtype == "remote" {
          continue;
        }
        if ApiOf(p) in registry {
          if round.created[i].Some? {
            newResources := Emplace(newResources, NameToString(KeptName(p)), (KeptName(p), round.created[i].value));
          }
        }
      }
      if SameNames(currentResources, resourceNames) {
        return;
      }
      resourceNames := currentResources;
      manager.ReplaceResources(newResources);
    }
  }

  // ----- what the cache holds, in every run

  ghost predicate IsClientRun(registry: set<API>, states: seq<ClientState>, rounds: seq<ValidRound>) {
    && |states| == |rounds| + 1
    && states[0] == ClientState([], EMPTY)
    && forall i :: 0 <= i < |rounds| ==> RoundAt(registry, states, rounds, i)
  }

  ghost predicate RoundAt(registry: set<API>, states: seq<ClientState>, rounds: seq<ValidRound>, i: int)
    requires 0 <= i < |rounds| < |states|
  {
    Refreshed(registry, states[i], rounds[i], states[i + 1])
  }

  /** The client holds exactly what `round` would have built from nothing. */
  ghost predicate BuiltFrom(registry: set<API>, c: ClientState, round: ValidRound) {
    c.names == Names(round.response) && Replaced(AllMade(registry, round), c.manager)
  }

  const NOTHING: ValidRound := Round([], [])

  lemma NothingBuilt(registry: set<API>)
    ensures BuiltFrom(registry, ClientState([], EMPTY), NOTHING)
  {
    var table := AllMade(registry, NOTHING);
    assert Enumerates([], table.Keys) && Load(table, []).st == EMPTY;
  }

  /** Refresh `k` meets another name list than the client has. */
  predicate RebuildsAt(states: seq<ClientState>, rounds: seq<ValidRound>, k: int)
    requires 0 <= k < |rounds| < |states|
  {
    !SameNames(Names(rounds[k].response), states[k].names)
  }

  /** The last of the first `n` refreshes that rebuilt the manager, or -1. */
  function LastRebuild(states: seq<ClientState>, rounds: seq<ValidRound>, n: nat): (k: int)
    requires n <= |rounds| < |states|
    ensures -1 <= k < n
    ensures k >= 0 ==> RebuildsAt(states, rounds, k)
    ensures forall m :: k < m < n ==> !RebuildsAt(states, rounds, m)
  {
    if n == 0 then -1
    else if RebuildsAt(states, rounds, n - 1) then n - 1
    else LastRebuild(states, rounds, n - 1)
  }

  function RoundOrNothing(rounds: seq<ValidRound>, k: int): ValidRound
    requires k < |rounds|
  {
    if k < 0 then NOTHING else rounds[k]
  }

  /** The client holds what the last rebuild made and nothing since has touched; the names of every
      later response print like those of the one it was built from. */
  ghost predicate CachedAt(registry: set<API>, states: seq<ClientState>, rounds: seq<ValidRound>, n: nat)
    requires n <= |rounds| < |states|
  {
    var k := LastRebuild(states, rounds, n);
    && states[n] == states[k + 1]
    && BuiltFrom(registry, states[n], RoundOrNothing(rounds, k))
    && PrintAlikeBetween(rounds, k + 1, n, states[n])
  }

  predicate PrintsAlike(rounds: seq<ValidRound>, m: int, c: ClientState)
    requires 0 <= m < |rounds|
  {
    SameNames(Names(rounds[m].response), c.names)
  }

  predicate PrintAlikeBetween(rounds: seq<ValidRound>, i: nat, j: nat, c: ClientState)
    requires i <= j <= |rounds|
  {
    forall m :: i <= m < j ==> PrintsAlike(rounds, m, c)
  }

  lemma {:induction false} Unchanged(
    registry: set<API>, states: seq<ClientState>, rounds: seq<ValidRound>, i: nat, j: nat)
    requires IsClientRun(registry, states, rounds) && i <= j < |states|
    requires forall m :: i <= m < j ==> !RebuildsAt(states, rounds, m)
    ensures states[i] == states[j]
  {
    if i < j {
      Unchanged(registry, states, rounds, i, j - 1);
      assert RoundAt(registry, states, rounds, j - 1);
      assert !RebuildsAt(states, rounds, j - 1);
    }
  }

  lemma RebuiltAt(registry: set<API>, states: seq<ClientState>, rounds: seq<ValidRound>, k: int)
    requires IsClientRun(registry, states, rounds) && -1 <= k < |rounds|
    requires k >= 0 ==> RebuildsAt(states, rounds, k)
    ensures BuiltFrom(registry, states[k + 1], RoundOrNothing(rounds, k))
  {
    if k < 0 {
      NothingBuilt(registry);
    } else {
      assert RoundAt(registry, states, rounds, k);
    }
  }

  /** In every run, at every point, the cache is what the last rebuild made. */
  lemma CacheInvariant(registry: set<API>, states: seq<ClientState>, rounds: seq<ValidRound>, n: nat)
    requires IsClientRun(registry, states, rounds) && n < |states|
    ensures CachedAt(registry, states, rounds, n)
  {
    var k := LastRebuild(states, rounds, n);
    RebuiltAt(registry, states, rounds, k);
    Unchanged(registry, states, rounds, k + 1, n);
    forall m | k + 1 <= m < n ensures PrintsAlike(rounds, m, states[n]) {
      Unchanged(registry, states, rounds, m, n);
      assert !RebuildsAt(states, rounds, m);
    }
  }

  // ----- names that print alike

  /** Fields free of the separators of the printed form. */
  predicate PlainField(s: string) {
    ':' !in s && '/' !in s
  }

  predicate PlainApi(a: API) {
    PlainField(a.namespace) && PlainField(a.resourceType) && PlainField(a.subtype)
  }

  lemma PlainApiHasNoSlash(a: API)
    requires PlainApi(a)
    ensures '/' !in ApiToString(a)
  {
    forall c | c in ApiToString(a) ensures c != '/' {
      assert c in a.namespace || c in a.resourceType || c in a.subtype || c == ':';
    }
  }

  /** The printed form fixes the API and what follows the slash. */
  lemma PrintedParts(a: API, b: API, s: string, t: string)
    requires PlainApi(a) && PlainApi(b)
    requires ApiToString(a) + "/" + s == ApiToString(b) + "/" + t
    ensures a == b && s == t
  {
    PlainApiHasNoSlash(a);
    PlainApiHasNoSlash(b);
    PrefixBeforeSlash(ApiToString(a), s, ApiToString(b), t);
    ThreeFields(a.namespace, a.resourceType, a.subtype);
    ThreeFields(b.namespace, b.resourceType, b.subtype);
    var parts := Split(ApiToString(a), ':');
    assert parts[0] == a.namespace == b.namespace;
    assert parts[1] == a.resourceType == b.resourceType;
    assert parts[2] == a.subtype == b.subtype;
  }

  lemma PrefixBeforeSlash(x: string, s: string, y: string, t: string)
    requires '/' !in x && '/' !in y
    requires x + "/" + s == y + "/" + t
    ensures x == y && s == t
  {
    var whole := x + "/" + s;
    assert forall i :: 0 <= i < |x| ==> whole[i] == x[i];
    assert forall i :: 0 <= i < |y| ==> whole[i] == y[i];
    assert whole[|x|] == '/' && whole[|y|] == '/';
    assert |x| == |y|;
    assert x == whole[..|x|] && y == whole[..|y|];
    assert s == whole[|x| + 1..] && t == whole[|y| + 1..];
  }

  /** Two entries have equal names exactly when their APIs, a slash, and their long names, shortened
      as printing does, make the same string.  With no separators in the APIs, these and the
      shortened names must each agree. */
  lemma SameNameIff(p: ResourceName, q: ResourceName)
    ensures SameName(NameFromProto(p), NameFromProto(q)) <==>
      ApiToString(ApiOf(p)) + "/" + Printed(p.name) == ApiToString(ApiOf(q)) + "/" + Printed(q.name)
    ensures PlainApi(ApiOf(p)) && PlainApi(ApiOf(q)) ==>
      (SameName(NameFromProto(p), NameFromProto(q)) <==> ApiOf(p) == ApiOf(q) && Printed(p.name) == Printed(q.name))
  {
    TailOfMessage(p);
    TailOfMessage(q);
    if PlainApi(ApiOf(p)) && PlainApi(ApiOf(q)) && SameName(NameFromProto(p), NameFromProto(q)) {
      PrintedParts(ApiOf(p), ApiOf(q), Printed(p.name), Printed(q.name));
    }
  }

  /** Two responses are taken for the same exactly when they are equally long and agree, entry by
      entry, in what is printed of API and name; remotes and unregistered kinds count too. */
  lemma SameResponseIff(a: seq<ResourceName>, b: seq<ResourceName>)
    ensures SameNames(Names(a), Names(b)) <==> |a| == |b| && forall i :: 0 <= i < |a| ==> PrintSame(a[i], b[i])
  {
    forall i | 0 <= i < |a| && i < |b| ensures SameName(Names(a)[i], Names(b)[i]) <==> PrintSame(a[i], b[i]) {
      SameNameIff(a[i], b[i]);
    }
  }

  predicate PrintSame(p: ResourceName, q: ResourceName) {
    p.namespace + ":" + p.resourceType + ":" + p.subtype + "/" + Printed(p.name) ==
    q.namespace + ":" + q.resourceType + ":" + q.subtype + "/" + Printed(q.name)
  }

  // ----- what one response builds

  /** A client for entry `i` is made and offered to the manager. */
  predicate MakesClient(registry: set<API>, round: ValidRound, i: int)
    requires 0 <= i < |round.response|
  {
    IsKept(registry, round.response[i]) && round.created[i].Some?
  }

  /** The names of the entries for which clients are made. */
  function ServedNames(registry: set<API>, round: ValidRound): set<string> {
    set i | 0 <= i < |round.response| && MakesClient(registry, round, i) :: round.response[i].name
  }

  /** The names of the kept entries. */
  function LongNames(registry: set<API>, response: seq<ResourceName>): set<string> {
    set i | 0 <= i < |response| && IsKept(registry, response[i]) :: response[i].name
  }

  /** The clients made have names, and no two have the same one or print alike. */
  predicate Storable(registry: set<API>, round: ValidRound) {
    var response := round.response;
    && (forall i | 0 <= i < |response| && MakesClient(registry, round, i) :: response[i].name != "")
    && (forall i, j | 0 <= i < j < |response| && MakesClient(registry, round, i) && MakesClient(registry, round, j) ::
          response[i].name != response[j].name &&
          NameToString(KeptName(response[i])) != NameToString(KeptName(response[j])))
  }

  /** With no separators in the APIs, different names print differently. */
  lemma PlainIsStorable(registry: set<API>, round: ValidRound)
    requires forall i | 0 <= i < |round.response| && MakesClient(registry, round, i) ::
      round.response[i].name != "" && PlainApi(ApiOf(round.response[i]))
    requires forall i, j | 0 <= i < j < |round.response| &&
        MakesClient(registry, round, i) && MakesClient(registry, round, j) ::
      round.response[i].name != round.response[j].name
    ensures Storable(registry, round)
  {
    forall i, j | 0 <= i < j < |round.response| && MakesClient(registry, round, i) && MakesClient(registry, round, j)
      ensures NameToString(KeptName(round.response[i])) != NameToString(KeptName(round.response[j]))
    {
      var p, q := round.response[i], round.response[j];
      if NameToString(KeptName(p)) == NameToString(KeptName(q)) {
        PrintedParts(ApiOf(p), ApiOf(q), p.name, q.name);
      }
    }
  }

  /** The entry under `k` is the name and the client of entry `i`. */
  ghost predicate MadeBy(registry: set<API>, round: ValidRound, i: int, k: string, entry: (Name, Resource))
    requires 0 <= i < |round.response|
  {
    && MakesClient(registry, round, i)
    && k == NameToString(KeptName(round.response[i]))
    && entry == (KeptName(round.response[i]), round.created[i].value)
  }

  /** Every resource made comes from an entry that makes a client. */
  lemma {:induction false} MadeComesFrom(registry: set<API>, round: ValidRound, n: nat, k: string) returns (i: nat)
    requires n <= |round.response| && k in Made(registry, round, n)
    ensures i < n && MadeBy(registry, round, i, k, Made(registry, round, n)[k])
  {
    if k in Made(registry, round, n - 1) {
      i := MadeComesFrom(registry, round, n - 1, k);
    } else {
      i := n - 1;
    }
  }

  /** Every client made has something stored under its printed name. */
  lemma {:induction false} ClientIsMade(registry: set<API>, round: ValidRound, n: nat, i: nat)
    requires i < n <= |round.response| && MakesClient(registry, round, i)
    ensures NameToString(KeptName(round.response[i])) in Made(registry, round, n)
  {
    if i < n - 1 {
      ClientIsMade(registry, round, n - 1, i);
    }
  }

  /** No entry before `i` makes a client whose name prints the same. */
  predicate IsFirstToPrint(registry: set<API>, round: ValidRound, i: nat)
    requires i < |round.response|
  {
    forall j :: 0 <= j < i && MakesClient(registry, round, j) ==>
      NameToString(KeptName(round.response[j])) != NameToString(KeptName(round.response[i]))
  }

  lemma {:induction false} MadeByFirst(registry: set<API>, round: ValidRound, n: nat, i: nat)
    requires i < n <= |round.response| && MakesClient(registry, round, i) && IsFirstToPrint(registry, round, i)
    ensures var p := round.response[i];
      && NameToString(KeptName(p)) in Made(registry, round, n)
      && Made(registry, round, n)[NameToString(KeptName(p))] == (KeptName(p), round.created[i].value)
  {
    if i < n - 1 {
      MadeByFirst(registry, round, n - 1, i);
    } else if NameToString(KeptName(round.response[i])) in Made(registry, round, i) {
      var j := MadeComesFrom(registry, round, i, NameToString(KeptName(round.response[i])));
    }
  }

  /** Of clients that print alike the first one counts; if those that count do not clash, each of them
      is stored under its name. */
  lemma FirstClientIsStored(registry: set<API>, c: ClientState, round: ValidRound, i: nat)
    requires BuiltFrom(registry, c, round) && Clean(AllMade(registry, round))
    requires i < |round.response| && MakesClient(registry, round, i) && IsFirstToPrint(registry, round, i)
    ensures round.response[i].name in c.manager.resources
    ensures c.manager.resources[round.response[i].name] == round.created[i].value
  {
    MadeByFirst(registry, round, |round.response|, i);
    ReplaceAllOutcome(AllMade(registry, round), c.manager);
    assert NameToString(KeptName(round.response[i])) in AllMade(registry, round).Keys;
  }

  lemma MadeIsClean(registry: set<API>, round: ValidRound)
    requires Storable(registry, round)
    ensures Clean(AllMade(registry, round))
  {
    var table := AllMade(registry, round);
    forall k | k in table ensures table[k].0.name != "" {
      var i := MadeComesFrom(registry, round, |round.response|, k);
    }
    forall k, k' | k in table && k' in table && k != k'
      ensures ShortName(table[k].0) != ShortName(table[k'].0)
    {
      var i := MadeComesFrom(registry, round, |round.response|, k);
      var j := MadeComesFrom(registry, round, |round.response|, k');
      assert i != j;
    }
  }

  /** If nothing clashes, each client is stored under the printed name of its own entry. */
  lemma ClientIsMadeByItself(registry: set<API>, round: ValidRound, i: nat)
    requires Storable(registry, round)
    requires i < |round.response| && MakesClient(registry, round, i)
    ensures var k := NameToString(KeptName(round.response[i]));
      k in AllMade(registry, round) && MadeBy(registry, round, i, k, AllMade(registry, round)[k])
  {
    var k := NameToString(KeptName(round.response[i]));
    ClientIsMade(registry, round, |round.response|, i);
    var j := MadeComesFrom(registry, round, |round.response|, k);
    assert i == j;
  }

  lemma MadeNames(registry: set<API>, round: ValidRound, name: string)
    requires Storable(registry, round)
    ensures name in ServedNames(registry, round) <==>
      exists k :: k in AllMade(registry, round) && ShortName(AllMade(registry, round)[k].0) == name
  {
    var table := AllMade(registry, round);
    if name in ServedNames(registry, round) {
      var i: nat :| i < |round.response| && MakesClient(registry, round, i) && round.response[i].name == name;
      ClientIsMadeByItself(registry, round, i);
    }
    if k :| k in table && ShortName(table[k].0) == name {
      var i := MadeComesFrom(registry, round, |round.response|, k);
    }
  }

  /** Each client made is stored under the name of its own entry. */
  ghost predicate HoldsClients(registry: set<API>, st: State, round: ValidRound) {
    forall i :: 0 <= i < |round.response| && MakesClient(registry, round, i) ==>
      && round.response[i].name in st.resources
      && round.created[i] == Some(st.resources[round.response[i].name])
  }

  /** `r` is the client made for an entry of this name, which is not a remote's and whose kind, spelled
      out, is registered. */
  predicate IsClientFor(registry: set<API>, p: ResourceName, created: Option<Resource>, name: string, r: Resource) {
    && p.name == name && created == Some(r)
    && p.subtype != "remote" && API(p.namespace, p.resourceType, p.subtype) in registry
  }

  predicate StoresUnder(st: State, name: string, r: Resource) {
    name in st.resources && st.resources[name] == r
  }

  /** The manager holds such clients of the round, under their names, and nothing else. */
  ghost predicate HoldsExactly(registry: set<API>, st: State, round: ValidRound) {
    forall name, r :: StoresUnder(st, name, r) <==>
      exists i :: 0 <= i < |round.response| && IsClientFor(registry, round.response[i], round.created[i], name, r)
  }

  /** What a rebuild stores if no clients clash. */
  lemma BuiltHolds(registry: set<API>, c: ClientState, round: ValidRound)
    requires Storable(registry, round) && BuiltFrom(registry, c, round)
    ensures HoldsExactly(registry, c.manager, round)
  {
    BuiltExactly(registry, c, round);
    forall name, r
      ensures StoresUnder(c.manager, name, r) <==>
        exists i :: 0 <= i < |round.response| && IsClientFor(registry, round.response[i], round.created[i], name, r)
    {
      if StoresUnder(c.manager, name, r) {
        var i :| 0 <= i < |round.response| && MakesClient(registry, round, i) && round.response[i].name == name;
        assert IsClientFor(registry, round.response[i], round.created[i], name, r);
      }
      if i :| 0 <= i < |round.response| && IsClientFor(registry, round.response[i], round.created[i], name, r) {
        assert MakesClient(registry, round, i);
      }
    }
  }

  /** And if no construction fails, its keys are just the names of the entries of registered kinds
      that are not a remote's. */
  lemma BuiltKeys(registry: set<API>, c: ClientState, round: ValidRound, name: string)
    requires Storable(registry, round) && BuiltFrom(registry, c, round)
    requires forall i :: 0 <= i < |round.created| ==> round.created[i].Some?
    ensures name in c.manager.resources <==>
      exists p :: p in round.response && p.name == name &&
        p.subtype != "remote" && API(p.namespace, p.resourceType, p.subtype) in registry
  {
    BuiltHolds(registry, c, round);
    if name in c.manager.resources {
      assert StoresUnder(c.manager, name, c.manager.resources[name]);
    }
    if p :| p in round.response && p.name == name && p.subtype != "remote" && ApiOf(p) in registry {
      var i :| 0 <= i < |round.response| && round.response[i] == p;
      assert IsClientFor(registry, round.response[i], round.created[i], name, round.created[i].value);
      assert StoresUnder(c.manager, name, round.created[i].value);
    }
  }

  lemma BuiltExactly(registry: set<API>, c: ClientState, round: ValidRound)
    requires Storable(registry, round) && BuiltFrom(registry, c, round)
    ensures c.manager.resources.Keys == ServedNames(registry, round)
    ensures HoldsClients(registry, c.manager, round)
  {
    MadeIsClean(registry, round);
    ReplaceAllOutcome(AllMade(registry, round), c.manager);
    forall name ensures name in c.manager.resources <==> name in ServedNames(registry, round) {
      MadeNames(registry, round, name);
    }
    forall i: nat | i < |round.response| && MakesClient(registry, round, i)
      ensures round.response[i].name in c.manager.resources
      ensures round.created[i] == Some(c.manager.resources[round.response[i].name])
    {
      ClientIsMadeByItself(registry, round, i);
    }
  }

  // ----- responses whose names print in full are cached exactly

  /** Printing the entry's name loses nothing. */
  predicate PrintsInFull(p: ResourceName) {
    PlainApi(ApiOf(p)) && Printed(p.name) == p.name
  }

  predicate AllPrintInFull(response: seq<ResourceName>) {
    forall i :: 0 <= i < |response| ==> PrintsInFull(response[i])
  }

  lemma SameNamesSameResponse(a: seq<ResourceName>, b: seq<ResourceName>)
    requires AllPrintInFull(a) && AllPrintInFull(b) && SameNames(Names(a), Names(b))
    ensures a == b
  {
    forall i | 0 <= i < |a| ensures a[i] == b[i] {
      assert SameName(Names(a)[i], Names(b)[i]);
      assert PrintsInFull(a[i]) && PrintsInFull(b[i]);
      SameNameIff(a[i], b[i]);
    }
  }

  predicate NoFailure(registry: set<API>, round: ValidRound) {
    forall i :: 0 <= i < |round.response| && IsKept(registry, round.response[i]) ==> MakesClient(registry, round, i)
  }

  lemma NoFailureServesAll(registry: set<API>, round: ValidRound)
    requires NoFailure(registry, round)
    ensures ServedNames(registry, round) == LongNames(registry, round.response)
  {
  }

  /** Over any run of refreshes whose entries print in full and whose clients do not clash, the
      response last built is the latest one and the client's names are its names.  The manager holds
      exactly the clients that were made at that rebuild, each under the name of its own entry; what
      later refreshes made was dropped, for entries without a client too. */
  lemma RunIsExact(registry: set<API>, states: seq<ClientState>, rounds: seq<ValidRound>, n: nat)
    requires IsClientRun(registry, states, rounds) && 0 < n < |states|
    requires forall i :: 0 <= i < |rounds| ==> AllPrintInFull(rounds[i].response) && Storable(registry, rounds[i])
    ensures var built := RoundOrNothing(rounds, LastRebuild(states, rounds, n));
      && built.response == rounds[n - 1].response
      && states[n].names == Names(rounds[n - 1].response)
      && states[n].manager.resources.Keys == ServedNames(registry, built)
      && HoldsClients(registry, states[n].manager, built)
      && (NoFailure(registry, built) ==>
            states[n].manager.resources.Keys == LongNames(registry, rounds[n - 1].response))
      && HoldsExactly(registry, states[n].manager, built)
  {
    var k := LastRebuild(states, rounds, n);
    CacheInvariant(registry, states, rounds, n);
    if k < n - 1 {
      assert PrintsAlike(rounds, n - 1, states[n]);
      SameNamesSameResponse(rounds[n - 1].response, RoundOrNothing(rounds, k).response);
    }
    BuiltExactly(registry, states[n], RoundOrNothing(rounds, k));
    BuiltHolds(registry, states[n], RoundOrNothing(rounds, k));
    if NoFailure(registry, RoundOrNothing(rounds, k)) {
      NoFailureServesAll(registry, RoundOrNothing(rounds, k));
    }
  }

  // ----- when the cache is right

  /** Whatever the iteration order, building from `round` stores something for every name served. */
  ghost predicate BuildsAllNames(registry: set<API>, round: ValidRound) {
    forall c :: BuiltFrom(registry, c, round) ==> c.manager.resources.Keys == ServedNames(registry, round)
  }

  /** Of clients that print alike only the first is kept.  The ones kept must have all the names
      served, none of them empty, and clash either never or always. */
  ghost predicate CanServe(registry: set<API>, round: ValidRound) {
    var table := AllMade(registry, round);
    && ShortNames(table) == ServedNames(registry, round)
    && NoneEmpty(table) && (Clean(table) || OneShortName(table))
  }

  lemma MadeNamesAreServed(registry: set<API>, round: ValidRound)
    ensures ShortNames(AllMade(registry, round)) <= ServedNames(registry, round)
  {
    var table := AllMade(registry, round);
    forall k | k in table ensures ShortName(table[k].0) in ServedNames(registry, round) {
      var i := MadeComesFrom(registry, round, |round.response|, k);
    }
  }

  lemma StoredNamesWereMade(table: Table, st: State)
    requires Replaced(table, st)
    ensures st.resources.Keys <= ShortNames(table)
  {
    ReplaceAllOutcome(table, st);
  }

  lemma SomeOutcome(table: Table) returns (st: State)
    ensures Replaced(table, st)
  {
    var order := SomeOrder(table.Keys);
    st := Load(table, order).st;
  }

  lemma BuildsAllNamesIff(registry: set<API>, round: ValidRound)
    ensures BuildsAllNames(registry, round) <==> CanServe(registry, round)
  {
    var table, served := AllMade(registry, round), ServedNames(registry, round);
    ReplaceAllKeepsNamesIff(table);
    if BuildsAllNames(registry, round) {
      forall st | Replaced(table, st) ensures st.resources.Keys == served {
        assert BuiltFrom(registry, ClientState(Names(round.response), st), round);
      }
      var st := SomeOutcome(table);
      StoredNamesWereMade(table, st);
      MadeNamesAreServed(registry, round);
    }
  }

  /** The manager's keys are the names of the clients that the latest response would make. */
  ghost predicate ExactAt(registry: set<API>, states: seq<ClientState>, rounds: seq<ValidRound>, n: int)
    requires 0 < n <= |rounds| < |states|
  {
    states[n].manager.resources.Keys == ServedNames(registry, rounds[n - 1])
  }

  ghost predicate AlwaysExact(registry: set<API>, states: seq<ClientState>, rounds: seq<ValidRound>)
    requires |rounds| < |states|
  {
    forall n :: 0 < n <= |rounds| ==> ExactAt(registry, states, rounds, n)
  }

  /** Response `n` prints like the one before it, or is empty and the first. */
  predicate Repeats(rounds: seq<ValidRound>, n: nat)
    requires n < |rounds|
  {
    if n == 0 then rounds[0].response == []
    else SameNames(Names(rounds[n].response), Names(rounds[n - 1].response))
  }

  /** A response that prints like the one before it asks for clients of the same names, and any other
      can be served. */
  ghost predicate FitsCache(registry: set<API>, rounds: seq<ValidRound>, n: nat)
    requires n < |rounds|
  {
    if Repeats(rounds, n) then n == 0 || ServedNames(registry, rounds[n - 1]) == ServedNames(registry, rounds[n])
    else CanServe(registry, rounds[n])
  }

  /** The manager is rebuilt exactly at responses that do not repeat the one before. */
  lemma RebuildsIff(registry: set<API>, states: seq<ClientState>, rounds: seq<ValidRound>, n: nat)
    requires IsClientRun(registry, states, rounds) && n < |rounds|
    ensures RebuildsAt(states, rounds, n) <==> !Repeats(rounds, n)
  {
    if n > 0 {
      CacheInvariant(registry, states, rounds, n);
      var k := LastRebuild(states, rounds, n);
      assert k < n - 1 ==> PrintsAlike(rounds, n - 1, states[n]);
    }
  }

  lemma RepeatedIsExactIff(registry: set<API>, states: seq<ClientState>, rounds: seq<ValidRound>, n: nat)
    requires IsClientRun(registry, states, rounds) && n < |rounds| && Repeats(rounds, n)
    requires n > 0 ==> ExactAt(registry, states, rounds, n)
    ensures ExactAt(registry, states, rounds, n + 1) <==> FitsCache(registry, rounds, n)
  {
    assert RoundAt(registry, states, rounds, n);
    RebuildsIff(registry, states, rounds, n);
  }

  lemma RebuiltIsExact(registry: set<API>, states: seq<ClientState>, rounds: seq<ValidRound>, n: nat)
    requires IsClientRun(registry, states, rounds) && n < |rounds|
    requires !Repeats(rounds, n) && CanServe(registry, rounds[n])
    ensures ExactAt(registry, states, rounds, n + 1)
  {
    RebuildsIff(registry, states, rounds, n);
    RebuiltAt(registry, states, rounds, n);
    BuildsAllNamesIff(registry, rounds[n]);
  }

  lemma {:induction false} ExactSoFar(registry: set<API>, states: seq<ClientState>, rounds: seq<ValidRound>, n: nat)
    requires IsClientRun(registry, states, rounds) && n < |rounds|
    requires forall m: nat :: m < |rounds| ==> FitsCache(registry, rounds, m)
    ensures ExactAt(registry, states, rounds, n + 1)
  {
    assert FitsCache(registry, rounds, n);
    if !Repeats(rounds, n) {
      RebuiltIsExact(registry, states, rounds, n);
    } else {
      if n > 0 {
        ExactSoFar(registry, states, rounds, n - 1);
      }
      RepeatedIsExactIff(registry, states, rounds, n);
    }
  }

  // ----- every list of responses has runs

  lemma SomeRefresh(registry: set<API>, c: ClientState, round: ValidRound) returns (c': ClientState)
    ensures Refreshed(registry, c, round, c')
  {
    if SameNames(Names(round.response), c.names) {
      c' := c;
    } else {
      var st := SomeOutcome(AllMade(registry, round));
      c' := ClientState(Names(round.response), st);
    }
  }

  lemma ClientRunNext(
    registry: set<API>, states: seq<ClientState>, rounds: seq<ValidRound>, n: nat, c': ClientState)
    requires n < |rounds| && IsClientRun(registry, states, rounds[..n]) && Refreshed(registry, states[n], rounds[n], c')
    ensures IsClientRun(registry, states + [c'], rounds[..n + 1])
  {
    var longer, done := states + [c'], rounds[..n + 1];
    forall i | 0 <= i < |done| ensures RoundAt(registry, longer, done, i) {
      if i < n {
        assert RoundAt(registry, states, rounds[..n], i);
      }
    }
  }

  lemma {:induction false} ClientRunGoesOn(
    registry: set<API>, states: seq<ClientState>, rounds: seq<ValidRound>, n: nat)
    returns (full: seq<ClientState>)
    requires n <= |rounds| && IsClientRun(registry, states, rounds[..n])
    ensures IsClientRun(registry, full, rounds) && states <= full
    decreases |rounds| - n
  {
    if n == |rounds| {
      assert rounds[..n] == rounds;
      full := states;
    } else {
      var c' := SomeRefresh(registry, states[n], rounds[n]);
      ClientRunNext(registry, states, rounds, n, c');
      full := ClientRunGoesOn(registry, states + [c'], rounds, n + 1);
    }
  }

  lemma SomeClientRun(registry: set<API>, rounds: seq<ValidRound>) returns (states: seq<ClientState>)
    ensures IsClientRun(registry, states, rounds)
  {
    assert IsClientRun(registry, [ClientState([], EMPTY)], rounds[..0]);
    states := ClientRunGoesOn(registry, [ClientState([], EMPTY)], rounds, 0);
  }

  lemma ClientRunPrefix(registry: set<API>, states: seq<ClientState>, rounds: seq<ValidRound>, n: nat)
    requires IsClientRun(registry, states, rounds) && n <= |rounds|
    ensures IsClientRun(registry, states[..n + 1], rounds[..n])
  {
    var shorter, done := states[..n + 1], rounds[..n];
    forall i | 0 <= i < |done| ensures RoundAt(registry, shorter, done, i) {
      assert RoundAt(registry, states, rounds, i);
    }
  }

  /** Any state that a rebuild from response `n` can leave is met in some run. */
  lemma RunThrough(registry: set<API>, rounds: seq<ValidRound>, n: nat, c: ClientState)
    returns (states: seq<ClientState>)
    requires n < |rounds| && !Repeats(rounds, n) && BuiltFrom(registry, c, rounds[n])
    ensures IsClientRun(registry, states, rounds) && states[n + 1] == c
  {
    var run := SomeClientRun(registry, rounds);
    RebuildsIff(registry, run, rounds, n);
    ClientRunPrefix(registry, run, rounds, n);
    ClientRunNext(registry, run[..n + 1], rounds, n, c);
    states := ClientRunGoesOn(registry, run[..n + 1] + [c], rounds, n + 1);
  }

  lemma ExactRunsFit(registry: set<API>, rounds: seq<ValidRound>, n: nat)
    requires forall states :: IsClientRun(registry, states, rounds) ==> AlwaysExact(registry, states, rounds)
    requires n < |rounds|
    ensures FitsCache(registry, rounds, n)
  {
    if Repeats(rounds, n) {
      var states := SomeClientRun(registry, rounds);
      assert ExactAt(registry, states, rounds, n + 1) && (n > 0 ==> ExactAt(registry, states, rounds, n));
      RepeatedIsExactIff(registry, states, rounds, n);
    } else {
      forall c | BuiltFrom(registry, c, rounds[n])
        ensures c.manager.resources.Keys == ServedNames(registry, rounds[n])
      {
        var states := RunThrough(registry, rounds, n, c);
        assert ExactAt(registry, states, rounds, n + 1);
      }
      BuildsAllNamesIff(registry, rounds[n]);
    }
  }

  /** In every run over given responses, whatever the iteration orders, the manager's keys are always
      what the latest response asks for, exactly when every response fits: one that prints like the
      one before it asks for clients of the same names, and any other can be served. */
  lemma CacheIsExactIff(registry: set<API>, rounds: seq<ValidRound>)
    ensures (forall states :: IsClientRun(registry, states, rounds) ==> AlwaysExact(registry, states, rounds)) <==>
            (forall n: nat :: n < |rounds| ==> FitsCache(registry, rounds, n))
  {
    if forall states :: IsClientRun(registry, states, rounds) ==> AlwaysExact(registry, states, rounds) {
      forall n: nat | n < |rounds| ensures FitsCache(registry, rounds, n) {
        ExactRunsFit(registry, rounds, n);
      }
    }
    if forall n: nat :: n < |rounds| ==> FitsCache(registry, rounds, n) {
      forall states, n | IsClientRun(registry, states, rounds) && 0 < n <= |rounds|
        ensures ExactAt(registry, states, rounds, n)
      {
        ExactSoFar(registry, states, rounds, n - 1);
      }
    }
  }

  /** Clients that do not clash can be served, in every iteration order alike. */
  lemma StorableCanServe(registry: set<API>, round: ValidRound)
    requires Storable(registry, round)
    ensures CanServe(registry, round) && OrderFree(AllMade(registry, round))
  {
    MadeIsClean(registry, round);
    forall c | BuiltFrom(registry, c, round)
      ensures c.manager.resources.Keys == ServedNames(registry, round)
    {
      BuiltExactly(registry, c, round);
    }
    BuildsAllNamesIff(registry, round);
  }

  /** When order does not matter for the responses, any one run of them tells. */
  lemma AnyRunTellsExactness(registry: set<API>, states: seq<ClientState>, rounds: seq<ValidRound>)
    requires IsClientRun(registry, states, rounds)
    requires forall n :: 0 <= n < |rounds| ==> OrderFree(AllMade(registry, rounds[n]))
    ensures AlwaysExact(registry, states, rounds) <==> forall n: nat :: n < |rounds| ==> FitsCache(registry, rounds, n)
  {
    CacheIsExactIff(registry, rounds);
    if AlwaysExact(registry, states, rounds) {
      forall n: nat | n < |rounds| ensures FitsCache(registry, rounds, n) {
        OneRunFits(registry, states, rounds, n);
      }
    }
  }

  lemma OneRunFits(registry: set<API>, states: seq<ClientState>, rounds: seq<ValidRound>, n: nat)
    requires IsClientRun(registry, states, rounds) && AlwaysExact(registry, states, rounds)
    requires n < |rounds| && OrderFree(AllMade(registry, rounds[n]))
    ensures FitsCache(registry, rounds, n)
  {
    assert ExactAt(registry, states, rounds, n + 1) && (n > 0 ==> ExactAt(registry, states, rounds, n));
    if Repeats(rounds, n) {
      RepeatedIsExactIff(registry, states, rounds, n);
    } else {
      RebuildsIff(registry, states, rounds, n);
      RebuiltAt(registry, states, rounds, n);
      OrderFreeIff(AllMade(registry, rounds[n]));
      BuildsAllNamesIff(registry, rounds[n]);
    }
  }

  // ----- two runs in which it is not

  lemma OneEntryBuilt(registry: set<API>, p: ResourceName, r: Resource)
    requires IsKept(registry, p) && p.name != "" && ':' !in p.name
    ensures BuiltFrom(registry, ClientState(Names([p]), State(map[p.name := r], map[])), Round([p], [Some(r)]))
  {
    PlainName(p.name);
    var round: ValidRound := Round([p], [Some(r)]);
    var k := NameToString(KeptName(p));
    var table := AllMade(registry, round);
    assert Made(registry, round, 0) == map[];
    assert table == map[k := (KeptName(p), r)];
    assert Enumerates([k], table.Keys);
    assert Load(table, [k][..0]) == Loading(EMPTY, false);
    assert Load(table, [k]).st == State(map[p.name := r], map[]);
  }

  /** A response that puts one colon, or two, in front of a plain name is taken for no change: the
      manager keeps the plain name, which the response does not have. */
  lemma LeadingColonIsMissed(registry: set<API>, p: ResourceName, colons: string, r: Resource, r': Resource)
    returns (states: seq<ClientState>, rounds: seq<ValidRound>)
    requires IsKept(registry, p) && p.name != "" && ':' !in p.name && colons in {":", "::"}
    ensures IsClientRun(registry, states, rounds) && |rounds| == 2
    ensures rounds[0] == Round([p], [Some(r)]) && rounds[1] == Round([p.(name := colons + p.name)], [Some(r')])
    ensures states[2].manager.resources.Keys == {p.name}
    ensures LongNames(registry, rounds[1].response) == {colons + p.name}
    ensures colons + p.name != p.name
  {
    var q := p.(name := colons + p.name);
    var c := ClientState(Names([p]), State(map[p.name := r], map[]));
    states, rounds := [ClientState([], EMPTY), c, c], [Round([p], [Some(r)]), Round([q], [Some(r')])];
    OneEntryBuilt(registry, p, r);
    assert RoundAt(registry, states, rounds, 0);
    PrintedAlike(p, q);
    assert RoundAt(registry, states, rounds, 1);
    assert IsKept(registry, q) && rounds[1].response[0] == q;
  }

  lemma PrintedAlike(p: ResourceName, q: ResourceName)
    requires ApiOf(p) == ApiOf(q) && FormOf(p.name, p.name) && FormOf(q.name, p.name)
    ensures SameNames(Names([q]), Names([p]))
  {
    FormIsPrinted(p.name, p.name);
    FormIsPrinted(q.name, p.name);
    SameNameIff(p, q);
  }

  /** Every refresh makes the clients of all kept entries, before it compares the names.  So one whose
      construction failed at first is made at the next refresh, and dropped since the names are
      unchanged. */
  lemma RetriedClientIsDropped(registry: set<API>, p: ResourceName, r: Resource)
    returns (states: seq<ClientState>, rounds: seq<ValidRound>)
    requires IsKept(registry, p)
    ensures IsClientRun(registry, states, rounds)
    ensures rounds == [Round([p], [None]), Round([p], [Some(r)])]
    ensures MakesClient(registry, rounds[1], 0) && states[2] == states[1]
    ensures states[2].manager.resources == map[]
    ensures ServedNames(registry, rounds[1]) == LongNames(registry, rounds[1].response) == {p.name}
  {
    var c := ClientState(Names([p]), EMPTY);
    states, rounds := [ClientState([], EMPTY), c, c], [Round([p], [None]), Round([p], [Some(r)])];
    var table := AllMade(registry, rounds[0]);
    assert Made(registry, rounds[0], 0) == map[];
    assert Enumerates([], table.Keys) && Load(table, []).st == EMPTY;
    assert RoundAt(registry, states, rounds, 0) && RoundAt(registry, states, rounds, 1);
    assert MakesClient(registry, rounds[1], 0) && rounds[1].response[0] == p;
  }
}
