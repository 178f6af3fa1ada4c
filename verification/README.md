# A verified model of the Viam C++ SDK's core logic

The SDK is mostly transport code around gRPC. This project models the pieces that carry algorithms,
state or arithmetic of their own, and proves properties of them:

- **`UrdfChain`, `UrdfChainTheorems`**: ordering the joints of a URDF into one serial chain.
  A joint is an edge between two links; the walk is given the edges in any order and must return
  them as one simple path from the root, or reject them. The theorems say that it succeeds exactly
  on such graphs, that the input order does not matter, and what every rejection says about the
  graph.
- **`ModelTable`**: the per-joint table built from a chain and its (n, 10) tensor form.
- **`ResourceNames`**: splitting and joining names on colons, printed and protobuf forms of names,
  APIs and models, and the regular expressions that guard the parsers.
- **`ResourceManager`, `ResourceManagerTheorems`**: the table of resources by long name and the index
  of short aliases beside it, which additions extend and removals repair. The theorems are about
  every run of the public operations and every hash-table iteration order.
- **`RobotClient`**: `refresh`, which keeps the client's name list and resource manager as a cache of
  the last response, over every run of refreshes.
- **`ProtoValues`, `ProtoLifetime`**: the dynamic value type: its conversion to and from protobuf
  messages, its equality, and the lifetime protocol of its hand-written virtual table over raw
  storage.
- **`DepthMap`**: the depth-map codec, byte by byte, on hosts of either byte order and with 64-bit size
  arithmetic.
- **`TimeConversions`**: durations and time points to and from protobuf seconds and nanoseconds.
- **`InstanceProtocol`**: the lock-free singleton, as interleaved atomic steps of any number of threads.
- **`Wrappers`, `Sequences`**: optional values and results, where a `Failure` stands for a throw, and
  sequences as listings of sets.

Code that changes state step by step is modelled by methods with loops, and by classes with the
source's fields; each such method is proved against a specification, and the lemmas are about that
specification. Loops over hash tables visit the keys in an arbitrary order. Every operation of the
resource manager holds its mutex throughout, so a run is a sequence of whole operations.

`dafny verify dfyconfig.toml` checks the whole project.

## Where the code differs from what is said about it

- The comment at `src/viam/sdk/components/camera.cpp:124` says that the size check guarantees that the
  payload fills the map. This holds exactly when header and payload together are shorter than 2^64
  bytes: the expected size is computed modulo 2^64 (`DepthMap.PayloadFillsMapIff`).  A bare header of
  24 bytes is accepted as a map of 2^32 by 2^32 values (`DepthMap.HeaderOnlyIsAccepted`).
- `src/viam/sdk/common/utils.cpp:35` calls its whole seconds `sec_floor`, but the cast rounds towards
  zero. Time points before the epoch that are not whole seconds are written with negative
  nanoseconds, which `google.protobuf.Timestamp` does not allow (`TimeConversions.TimestampIsForwardIff`).
- `src/viam/sdk/common/utils.cpp:42-46` reads any `google.protobuf.Timestamp`, but as 64-bit nanoseconds:
  allowed messages before September 1677 or after April 2262, such as the last second of 9999, overflow
  (`TimeConversions.TimestampReadFitsIff`, `TimeConversions.ProtobufTimestampFitsIff`).  Allowed
  `google.protobuf.Duration` messages never do (`TimeConversions.ProtobufDurationFits`).
- `src/viam/sdk/resource/resource_manager.cpp:87` and `:125` read as if an ambiguous alias were marked
  with an empty target. `emplace` leaves an existing entry alone, so the first key keeps the alias
  (`ResourceManagerTheorems.FirstAddedWins`). An alias can still come to map to the empty name:
  `remove` and `replace_one` can do this, exactly when they take away a key that ends in a colon while
  a resource is stored under the empty name, and no other operation can
  (`ResourceManagerTheorems.EmptyTargetStepIff`, and for runs `EmptyTargetRunIff`).
- The comment at `src/viam/sdk/resource/resource_manager.hpp:28` says that looking up an unknown name
  throws. The code returns a null pointer, here `None` (`ResourceManager.ResourceManager.Find`).
- `replace_all` stops at the first entry that is rejected, so one clash or one empty name can cost
  unrelated resources, and which ones depends on the iteration order.  When all short names are kept,
  and when order does not matter, is exact in `ResourceManagerTheorems.ReplaceAllKeepsNamesIff` and
  `ResourceManagerTheorems.OrderFreeIff`.
- `replace_one` removes before it adds, so a factory that throws, or a name whose last part is empty,
  ends as a removal (`ResourceManagerTheorems.ReplaceOneOutcomes`).
- `refresh` compares names by their printed form, which drops one colon or two in front of a plain
  name, so a response that only adds or removes them is taken for no change
  (`RobotClient.LeadingColonIsMissed`).  Clients are made at every refresh, and dropped when
  the names are unchanged, so one that could not be made at first stays missing
  (`RobotClient.RetriedClientIsDropped`).  `RobotClient.CacheIsExactIff` says exactly when the
  manager's keys are what every response asks for.
- `Instance::current` with creation on demand can throw "duplicate instance" although an instance
  exists (`InstanceProtocol.CurrentCanBeOvertaken`), exactly when another constructor overtook the
  call (`InstanceProtocol.DuplicateIffOvertaken`).  A reference it returns can be to an object whose
  constructor has not ended or whose destructor has begun
  (`InstanceProtocol.ReturnedWhileConstructing`, `InstanceProtocol.ReturnedWhileDying`).

## Model

| member | source | states |
|---|---|---|
| UrdfChain.IndexJoints | src/viam/sdk/referenceframe/kinematics_model_table.cpp:104-111 | the index holds, for every link, the joints that leave it in input order, and the parent and child sets are complete |
| UrdfChain.FindRoots | src/viam/sdk/referenceframe/kinematics_model_table.cpp:113-118 | the roots found are the parents that are no child, each once |
| UrdfChain.FollowChain | src/viam/sdk/referenceframe/kinematics_model_table.cpp:129-156 | from the single root, the loop ends in the outcome that describes the joints, on cyclic and branching inputs too |
| UrdfChain.WalkUrdfChain | src/viam/sdk/referenceframe/kinematics_model_table.cpp:103-157 | every result is justified by the graph: the one forced trail from the only root closes, branches, stops early or uses every joint |
| UrdfChain.OutgoingContents | src/viam/sdk/referenceframe/kinematics_model_table.cpp:108 | the joints leaving a link are exactly the input joints with that parent, with their multiplicity |
| UrdfChain.TrailIsConnected | src/viam/sdk/referenceframe/kinematics_model_table.cpp:129-150 | what the loop has ordered is connected, made of input joints, and uses none twice |
| UrdfChainTheorems.SucceedsIffChain | src/viam/sdk/referenceframe/kinematics_model_table.cpp:103-157 | the walk returns normally if and only if the joints can be ordered as one non-empty simple path; the result is that path, the only one, and starts at the only root |
| UrdfChainTheorems.SucceedsIffRootedAndSimple | src/viam/sdk/referenceframe/kinematics_model_table.cpp:103-157 | the accepted inputs are exactly the graphs with one root in which no link has two outgoing or two incoming joints and no joints form a cycle |
| UrdfChainTheorems.OrderDoesNotMatter | src/viam/sdk/referenceframe/kinematics_model_table.cpp:103-157 | every permutation of the joints gives the same chain or the same error |
| UrdfChainTheorems.ChainIsUnique | src/viam/sdk/referenceframe/kinematics_model_table.cpp:103-157 | joints can be ordered as a simple path in at most one way |
| UrdfChainTheorems.TrailsAgree | src/viam/sdk/referenceframe/kinematics_model_table.cpp:133-150 | the walk is forced: two trails from the root agree as far as both go |
| UrdfChainTheorems.NotOneRootIff | src/viam/sdk/referenceframe/kinematics_model_table.cpp:113-128 | the root error comes exactly when the links that are a parent but never a child are not just one, for no joints too, and names those links |
| UrdfChainTheorems.BranchingCounts | src/viam/sdk/referenceframe/kinematics_model_table.cpp:142-146 | the branching error counts the joints that leave its link |
| UrdfChainTheorems.IncompleteCounts | src/viam/sdk/referenceframe/kinematics_model_table.cpp:151-155 | the error of unused joints counts all joints, and those on the walk from the root to a link that none leaves |
| UrdfChainTheorems.BranchingMeansTwoOutgoing | src/viam/sdk/referenceframe/kinematics_model_table.cpp:142-146 | the branching error names a link with two outgoing joints |
| UrdfChainTheorems.CycleMeansTwoIncoming | src/viam/sdk/referenceframe/kinematics_model_table.cpp:134-137 | the cycle error names a link with two incoming joints |
| UrdfChainTheorems.IncompleteMeansDetachedCycle | src/viam/sdk/referenceframe/kinematics_model_table.cpp:151-155 | when the walk stops at a leaf with joints left over, those contain a directed cycle |
| UrdfChainTheorems.ErrorMeansNoChain | src/viam/sdk/referenceframe/kinematics_model_table.cpp:119-155 | an error is reported only for joints that form no chain |
| ModelTable.FromJoints | src/viam/sdk/referenceframe/kinematics_model_table.cpp:198-207 | the table has the rows of the chain in order, or reports the chain's error or the first joint that has no row |
| ModelTable.UrdfAcceptedIff | src/viam/sdk/referenceframe/kinematics_model_table.cpp:198-207 | a table comes out exactly when the joints form a chain and every one has a supported type and no zero axis unless fixed |
| ModelTable.RowMeaning | src/viam/sdk/referenceframe/kinematics_model_table.cpp:159-192 | a row keeps its joint's name, offsets and type, and has no axis when fixed, else the given one or the x axis; exactly joints of unknown type and moving joints with a zero axis are rejected, by name |
| ModelTable.UrdfTable | src/viam/sdk/referenceframe/kinematics_model_table.cpp:159-192 | a table from a URDF has one row per joint, is never empty, and has a zero axis exactly on fixed joints |
| ModelTable.ToTensor | src/viam/sdk/referenceframe/kinematics_model_table.cpp:209-231 | fails exactly on the empty table; otherwise cell (i, c) is column c of row i |
| ModelTable.FromTensor | src/viam/sdk/referenceframe/kinematics_model_table.cpp:233-280 | accepts or names the first thing wrong: dimension, width, emptiness, or the first row whose type is no integer or no known code |
| ModelTable.TensorAcceptedIff | src/viam/sdk/referenceframe/kinematics_model_table.cpp:233-272 | a tensor is accepted exactly when it is 2-D, ten wide, not empty and holds a type code in every row's last column |
| ModelTable.TensorColumns | src/viam/sdk/referenceframe/kinematics_model_table.cpp:209-280 | the ten columns of a row, written or read, are offset, rotation, axis and the number of the type, one by one |
| ModelTable.UrdfColumns | src/viam/sdk/referenceframe/kinematics_model_table.cpp:159-231 | from URDF to tensor: row by row, the columns are what the URDF says of the joints of the chain in order |
| ModelTable.TableRoundTrip | src/viam/sdk/referenceframe/kinematics_model_table.cpp:209-280 | reading back the tensor of a non-empty table gives the table with its names blanked |
| ModelTable.TensorRoundTrip | src/viam/sdk/referenceframe/kinematics_model_table.cpp:209-280 | writing the table read from an accepted tensor gives that tensor |
| ResourceNames.JoinOfSplit | src/viam/sdk/common/utils.cpp:162-172 | accumulating the parts of a name with colons gives the name back |
| ResourceNames.QualifiedName | src/viam/sdk/common/utils.cpp:156-175 | splitting recovers remote and name from `remote:name` for any remote and colon-free name |
| ResourceNames.SplitLongName | src/viam/sdk/common/utils.cpp:156-175 | a long name is divided at its last colon |
| ResourceNames.ShortcutIsPlain | src/viam/sdk/resource/resource_manager.cpp:61-67 | a shortcut has no colon, ends its name, and is the name itself exactly when that has no colon |
| ResourceNames.NameProtoRoundTrip | src/viam/sdk/resource/resource_api.cpp:123-141 | a name survives the trip through protobuf exactly when its last part has no colon |
| ResourceNames.ShortNameRoundTrip | src/viam/sdk/resource/resource_api.cpp:93-98 | the short name is what protobuf carries, and splits back into remote and name exactly when the name has no colon |
| ResourceNames.ProtoNameRoundTrip | src/viam/sdk/resource/resource_api.cpp:123-141 | a message survives exactly when its name is not a plain name with a colon in front |
| ResourceNames.ApiThroughProto | src/viam/sdk/resource/resource_api.cpp:123-141 | the API goes through protobuf field by field |
| ResourceNames.TailOfMessage | src/viam/sdk/resource/resource_api.cpp:86-91 | what is printed of a message's name is all of it, but for one colon or two in front of a plain name |
| ResourceNames.PrintedAlikeIff | src/viam/sdk/resource/resource_api.cpp:86-91 | two long names print alike exactly when they are equal or the same plain name with up to two colons in front |
| ResourceNames.ThreeFieldLanguage | src/viam/sdk/resource/resource_api.cpp:25 | the pattern matches exactly the strings made of three word fields between colons |
| ResourceNames.ApiRoundTrip | src/viam/sdk/resource/resource_api.cpp:30-56 | an API is read back from its printed form exactly when its parts are word fields |
| ResourceNames.ModelRoundTrip | src/viam/sdk/resource/resource_api.cpp:216-241 | a model is read back from its printed form exactly when its parts are word fields |
| ResourceNames.WordCharacters | src/viam/sdk/resource/resource_api.cpp:22-28 | the characters of a field, one by one |
| ResourceNames.ThreeFieldsAreRead | src/viam/sdk/resource/resource_api.cpp:49-56 | three fields are read in order as namespace, type and subtype of an API, and as namespace, family and name of a model |
| ResourceNames.ShortModel | src/viam/sdk/resource/resource_api.cpp:216-226 | a single field is read as the model of that name in the built-in family |
| ResourceNames.ReadSucceedsIff | src/viam/sdk/resource/resource_api.cpp:49-56 | reading succeeds exactly on three fields, and for a model on one as well |
| ResourceNames.PrintedModel | src/viam/sdk/resource/resource_api.cpp:228-241 | a model is printed without the parts in front that are empty |
| ResourceNames.NameFromStringSucceedsIff | src/viam/sdk/resource/resource_api.cpp:100-119 | parsing succeeds exactly on one-line strings with a slash and three word fields before the first one |
| ResourceNames.NameLanguage | src/viam/sdk/resource/resource_api.cpp:22 | the pattern of names matches exactly the one-line strings that begin with three fields |
| ResourceNames.NameErrors | src/viam/sdk/resource/resource_api.cpp:100-119 | each error of reading a name has its exact condition; an API alone runs out of range |
| ResourceNames.QualifiedNameIsRead | src/viam/sdk/resource/resource_api.cpp:100-119 | behind the slash, remote and name are read up to the next colon or slash, and what follows is dropped |
| ResourceNames.PlainNameIsRead | src/viam/sdk/resource/resource_api.cpp:100-119 | without a colon there the remote is empty |
| ResourceNames.NameStringRoundTrip | src/viam/sdk/resource/resource_api.cpp:86-119 | a name is read back from its printed form exactly when its API is well formed and remote and name hold no colon, slash or line break |
| ResourceManager.ResourceManager.Find | src/viam/sdk/resource/resource_manager.cpp:24-41 | the lookup by exact name first and by alias second |
| ResourceManager.ResourceManager.DoAddLong | src/viam/sdk/resource/resource_manager.cpp:78-93 | duplicates are rejected unchanged; otherwise the entry and, unless taken, its alias are added |
| ResourceManager.ResourceManager.DoAdd | src/viam/sdk/resource/resource_manager.cpp:69-76 | names with an empty last part are rejected unchanged |
| ResourceManager.ResourceManager.DoRemove | src/viam/sdk/resource/resource_manager.cpp:104-131 | for every iteration order: only the key and its segment's alias go, and the alias comes back for a sharing key exactly when the removed key was qualified |
| ResourceManager.RemovedIffSomeOrder | src/viam/sdk/resource/resource_manager.cpp:119-130 | the relation proved of removals holds for just the states that some iteration order gives |
| ResourceManager.RestoreResult | src/viam/sdk/resource/resource_manager.cpp:119-130 | the repair loop gives the alias to the first sharing key it meets, if the removed key was qualified, and touches no other alias |
| ResourceManager.ResourceManager.AddResource | src/viam/sdk/resource/resource_manager.cpp:95-102 | an addition by name that swallows its error is one step of the manager |
| ResourceManager.ResourceManager.AddResourceByString | src/viam/sdk/resource/resource_manager.cpp:159-163 | an addition by string that reports its error is one step of the manager |
| ResourceManager.ResourceManager.RemoveResource | src/viam/sdk/resource/resource_manager.cpp:133-140 | a removal is one step of the manager |
| ResourceManager.ResourceManager.ReplaceResource | src/viam/sdk/resource/resource_manager.cpp:142-152 | the factory is called exactly when the key is live; the result is one step of the manager |
| ResourceManager.ResourceManager.ReplaceResources | src/viam/sdk/resource/resource_manager.cpp:43-59 | the manager ends with what adding the entries in some order up to the first rejection gives |
| ResourceManagerTheorems.StepKeepsSound | src/viam/sdk/resource/resource_manager.cpp:43-152 | every operation keeps every alias on a live key that ends in it |
| ResourceManagerTheorems.RunIsSound | src/viam/sdk/resource/resource_manager.cpp:43-152 | the alias index is sound in every state of every run |
| ResourceManagerTheorems.LookupMeaning | src/viam/sdk/resource/resource_manager.cpp:24-41 | a lookup returns the resource under the exact name, never shadowed by an alias, or one under a qualified live key that ends in the name |
| ResourceManagerTheorems.OtherKeysStay | src/viam/sdk/resource/resource_manager.cpp:69-152 | an operation other than a bulk replacement does nothing to any key but its own |
| ResourceManagerTheorems.RejectedChangesNothing | src/viam/sdk/resource/resource_manager.cpp:69-152 | a duplicate or empty name for an addition, or an absent key for a removal or replacement, leaves everything as it was, aliases included |
| ResourceManagerTheorems.AcceptedOutcome | src/viam/sdk/resource/resource_manager.cpp:69-131 | an accepted addition stores its resource, keeps all aliases and adds at most one; an accepted removal takes its key away |
| ResourceManagerTheorems.AdditionError | src/viam/sdk/resource/resource_manager.cpp:69-82 | an addition by name fails for an empty name first, then for a live key |
| ResourceManagerTheorems.KeyStays | src/viam/sdk/resource/resource_manager.cpp:43-152 | in every run a key keeps its resource, or stays absent, until an accepted operation on that key or a bulk replacement |
| ResourceManagerTheorems.StepCompleteIff | src/viam/sdk/resource/resource_manager.cpp:78-152 | from a sound and complete index an operation ends in a complete one exactly when it strands no qualified key |
| ResourceManagerTheorems.RunCompleteIff | src/viam/sdk/resource/resource_manager.cpp:78-152 | every live key's segment resolves throughout a run exactly when no operation of it removes for good a colon-free name that a live qualified key ends in |
| ResourceManagerTheorems.SegmentAfterRemoval | src/viam/sdk/resource/resource_manager.cpp:104-131 | removing a qualified key leaves its segment resolvable exactly when another live key shares it; a removed colon-free name never resolves |
| ResourceManagerTheorems.NoEmptyTarget | src/viam/sdk/resource/resource_manager.cpp:78-131 | unless the string overload stores a resource under the empty name, no alias of any run maps to it |
| ResourceManagerTheorems.EmptyTargetArisesIff | src/viam/sdk/resource/resource_manager.cpp:104-131 | a removal can make an alias map to the empty name exactly when a resource is stored under it and the removed key is another one ending in a colon |
| ResourceManagerTheorems.EmptyTargetStepIff | src/viam/sdk/resource/resource_manager.cpp:43-152 | from a sound index without such an alias, an operation of any kind can end in one with it exactly when it removes or replaces such a key |
| ResourceManagerTheorems.EmptyTargetWasExposed | src/viam/sdk/resource/resource_manager.cpp:43-152 | in every run, the alias comes after such an operation |
| ResourceManagerTheorems.EmptyTargetRunIff | src/viam/sdk/resource/resource_manager.cpp:43-152 | given operations have a run with such an alias exactly when they have a run that meets such an operation |
| ResourceManagerTheorems.AnyRunTellsEmptyTarget | src/viam/sdk/resource/resource_manager.cpp:43-152 | and when iteration order matters for no bulk replacement, any single run of them tells |
| ResourceManagerTheorems.EmptyTargetRun | src/viam/sdk/resource/resource_manager.cpp:119-130 | a run of three operations that does so |
| ResourceManagerTheorems.FirstAddedWins | src/viam/sdk/resource/resource_manager.cpp:78-93 | after additions only, a segment that is no name resolves to the earliest added key that ends in it |
| ResourceManagerTheorems.ReplaceOneOutcomes | src/viam/sdk/resource/resource_manager.cpp:142-152 | the outcomes of replacing one resource, and the whole table after each |
| ResourceManagerTheorems.ReplaceAllOutcome | src/viam/sdk/resource/resource_manager.cpp:43-59 | only given resources remain; all of them under exactly their short names when no name is empty and no two short names clash, and fewer than given exactly when not |
| ResourceManagerTheorems.ReplaceAllKeepsNamesIff | src/viam/sdk/resource/resource_manager.cpp:43-59 | a key is left for every given short name, in every iteration order, exactly when no name is empty and the short names clash either never or all of them |
| ResourceManagerTheorems.OrderFreeIff | src/viam/sdk/resource/resource_manager.cpp:43-59 | every iteration order leaves the same resources exactly when nothing clashes, or all names are empty, or everything clashes but is one resource |
| ResourceManagerTheorems.RunsAgree | src/viam/sdk/resource/resource_manager.cpp:43-152 | iteration order never changes which resources are stored or which names resolve, if it does not matter for any bulk replacement |
| ResourceManagerTheorems.RunsAgreeIff | src/viam/sdk/resource/resource_manager.cpp:43-152 | and exactly then: for any other operations there are two runs that hold different resources |
| RobotClient.RobotClient.Refresh | src/viam/sdk/robot/client.cpp:380-416 | one refresh keeps everything when the name list prints the same, else it takes the list and rebuilds the manager from the kept entries |
| RobotClient.CacheInvariant | src/viam/sdk/robot/client.cpp:380-416 | in every run the client is as the last rebuild left it, which built exactly that response, and the names of every response since print like that one's |
| RobotClient.BuiltHolds | src/viam/sdk/robot/client.cpp:388-415 | if no clients clash, a rebuild stores exactly the clients made for entries of registered kinds that are not a remote's, each under its entry's name |
| RobotClient.BuiltKeys | src/viam/sdk/robot/client.cpp:388-415 | and if no construction fails either, the keys are just the names of those entries |
| RobotClient.FirstClientIsStored | src/viam/sdk/robot/client.cpp:402-404 | of clients whose names print alike the first in the response is the one stored |
| RobotClient.RunIsExact | src/viam/sdk/robot/client.cpp:380-416 | over responses whose names print in full and whose clients do not clash, the last rebuild was from the latest response; the manager holds exactly the clients made at that rebuild for its entries of registered kinds that are not a remote's, each under its own entry's name, and all such names if none failed |
| RobotClient.BuildsAllNamesIff | src/viam/sdk/robot/client.cpp:388-415 | whatever the iteration order, a rebuild stores something under every name asked for, exactly when the clients kept have all those names, none empty, and clash either never or always |
| RobotClient.CacheIsExactIff | src/viam/sdk/robot/client.cpp:380-416 | in all runs over any responses the keys are always what the latest one asks for, exactly when each response either prints like the one before it and asks for clients of the same names, or can be served in that sense |
| RobotClient.AnyRunTellsExactness | src/viam/sdk/robot/client.cpp:380-416 | if iteration order matters for none of the responses, any single run tells |
| RobotClient.SameNameIff | src/viam/sdk/resource/resource_api.cpp:160-162 | names from responses are equal exactly when their APIs and shortened long names make the same string, and for APIs without separators exactly when each agrees |
| RobotClient.SameResponseIff | src/viam/sdk/robot/client.cpp:409-411 | two responses are taken for the same exactly when they are equally long and agree in each printed API and name, entries that make no client included |
| RobotClient.LeadingColonIsMissed | src/viam/sdk/robot/client.cpp:388-415 | a run of two refreshes: the second response puts one colon or two in front of a kept plain name, and the manager keeps the old key |
| RobotClient.RetriedClientIsDropped | src/viam/sdk/robot/client.cpp:388-411 | a run of two refreshes: a client that could not be made at first is made at the second refresh and dropped, since the names are unchanged |
| RobotClient.PlainIsStorable | src/viam/sdk/robot/client.cpp:402-404 | clients do not clash if their names are different and not empty and their APIs hold no separators |
| RobotClient.StorableCanServe | src/viam/sdk/robot/client.cpp:402-415 | clients that do not clash can be served, in every iteration order alike |
| ProtoValues.ValueRoundTrip | src/viam/sdk/common/proto_value.cpp:207-294 | reading what was written gives the value back, at any nesting |
| ProtoValues.MessageRoundTrip | src/viam/sdk/common/proto_value.cpp:207-294 | writing what was read gives the message with every unset kind made null, at any depth |
| ProtoValues.WrittenAtEveryPath | src/viam/sdk/common/proto_value.cpp:207-244 | at the end of every path into lists and structs the written message holds the same kind and content as the value, and it has no other paths |
| ProtoValues.ReadAtEveryPath | src/viam/sdk/common/proto_value.cpp:246-294 | the same for the value read from a message |
| ProtoValues.KindMeaning | src/viam/sdk/common/proto_value.cpp:70-72 | the kind of a value is that of what it holds |
| ProtoValues.MessageSurvivesIff | src/viam/sdk/common/proto_value.cpp:207-294 | a message survives exactly when a kind is set everywhere in it |
| ProtoValues.NormalizeIsIdempotent | src/viam/sdk/common/proto_value.cpp:270-274 | replacing unset kinds by null is idempotent |
| ProtoValues.ReadAlikeIff | src/viam/sdk/common/proto_value.cpp:246-275 | two messages are read as the same value exactly when they differ only in unset kinds |
| ProtoValues.WriteValue | src/viam/sdk/common/proto_value.cpp:225-235 | the loops over elements and over entries in any order write the specified message |
| ProtoValues.ReadValue | src/viam/sdk/common/proto_value.cpp:246-294 | the loops that read list and struct messages give the specified value |
| ProtoValues.EqualIffSame | src/viam/sdk/common/proto_value.cpp:144-153 | the equality operator holds exactly for values that hold the same |
| ProtoValues.EqualIffWrittenAlike | src/viam/sdk/common/proto_value.cpp:61-63 | and so exactly for values written as the same message |
| ProtoLifetime.Memory.VtableCopy | src/viam/sdk/common/proto_value.cpp:124-127 | constructs into raw storage from a live object of the table's kind |
| ProtoLifetime.Memory.VtableMove | src/viam/sdk/common/proto_value.cpp:129-132 | constructs into raw storage and leaves some object of the same kind behind |
| ProtoLifetime.Memory.VtableDtor | src/viam/sdk/common/proto_value.cpp:119-122 | destroys a live object of the table's kind |
| ProtoLifetime.Memory.ConstructValue | src/viam/sdk/common/proto_value.cpp:28-30 | a new value's table is for the object in its storage |
| ProtoLifetime.Memory.CopyConstructValue | src/viam/sdk/common/proto_value.cpp:43-44 | the copy holds what its source holds |
| ProtoLifetime.Memory.MoveConstructValue | src/viam/sdk/common/proto_value.cpp:40-41 | the new value holds what its source held; the source keeps its kind |
| ProtoLifetime.Memory.SwapStorage | src/viam/sdk/common/proto_value.cpp:184-201 | two objects are exchanged around a temporary, each moved and destroyed by the table of its own kind |
| ProtoLifetime.Memory.SwapValue | src/viam/sdk/common/proto_value.cpp:65-68 | the tables follow the exchanged objects |
| ProtoLifetime.Memory.CopyAssignValue | src/viam/sdk/common/proto_value.cpp:52-55 | the target holds what the source held, also when they are the same |
| ProtoLifetime.Memory.MoveAssignValue | src/viam/sdk/common/proto_value.cpp:46-50 | the target holds what the source held, also when they are the same; the source keeps its kind |
| ProtoLifetime.Memory.DestroyValue | src/viam/sdk/common/proto_value.cpp:57-59 | the value's object and table go, and nothing else |
| ProtoLifetime.Memory.Run | src/viam/sdk/common/proto_value.cpp:28-68 | any legal program runs with every table matching its object and with constructions minus destructions equal to the live values |
| ProtoLifetime.UntouchedStays | src/viam/sdk/common/proto_value.cpp:28-68 | in every run a value is unchanged until it is assigned, moved from, swapped or destroyed |
| ProtoLifetime.RunLive | src/viam/sdk/common/proto_value.cpp:28-68 | the values live at the end are those the program's constructions and destructions leave |
| ProtoLifetime.StatementMeaning | src/viam/sdk/common/proto_value.cpp:28-68 | what each statement leaves at the addresses it names |
| ProtoLifetime.Memory.CopyConstructPart | src/viam/sdk/common/proto_value.cpp:43-44 | the new value holds what an element, at any depth, of a live value holds |
| ProtoLifetime.Memory.MoveConstructPart | src/viam/sdk/common/proto_value.cpp:40-41 | the new value holds what the element held, which keeps its kind within its list or struct |
| ProtoLifetime.Memory.CopyAssignPart | src/viam/sdk/common/proto_value.cpp:52-55 | the target holds what the element held, also when it is the element's own list or struct |
| ProtoLifetime.Memory.MoveAssignPart | src/viam/sdk/common/proto_value.cpp:46-50 | the same by move; the element keeps its kind unless it went with the target's old value |
| ProtoLifetime.WholeIsPart | src/viam/sdk/common/proto_value.cpp:40-50 | moving a whole value is the case of a part at the empty path |
| ProtoLifetime.SelfAssignment | src/viam/sdk/common/proto_value.cpp:46-55 | assigning a value to itself, by copy or move, changes nothing |
| ProtoLifetime.MoveOutAndBack | src/viam/sdk/common/proto_value.cpp:40-50 | moving a value out and back restores it |
| ProtoLifetime.ThreeRelocationsSwap | src/viam/sdk/common/proto_value.cpp:192-200 | three relocations around a temporary are a swap |
| DepthMap.AppendBigEndian | src/viam/sdk/components/camera.cpp:38-46 | fails exactly past the end, and otherwise writes the word's bytes and nothing else |
| DepthMap.ReadBigEndian | src/viam/sdk/components/camera.cpp:50-62 | fails exactly past the end, and otherwise reads the word |
| DepthMap.StoredIsBigEndian | src/viam/sdk/components/camera.cpp:43-44 | a converted and stored word has the same bytes on either kind of host |
| DepthMap.LoadedIsBigEndian | src/viam/sdk/components/camera.cpp:57-58 | a loaded and converted word has the same value on either kind of host |
| DepthMap.WriteHeader | src/viam/sdk/components/camera.cpp:85-88 | the first 24 bytes are magic number, width and height; with room for them no bounds check fails |
| DepthMap.WritePayload | src/viam/sdk/components/camera.cpp:92-94 | the bytes behind the header are the values, and the header stays |
| DepthMap.EncodeDepthMap | src/viam/sdk/components/camera.cpp:73-97 | rejects exactly maps that are not 2-D; otherwise gives header and payload, and its bounds checks never fail |
| DepthMap.ReadPayload | src/viam/sdk/components/camera.cpp:126-132 | copying and converting in place gives the big-endian words |
| DepthMap.DecodeDepthMap | src/viam/sdk/components/camera.cpp:99-134 | gives the map or the first of the three errors; after the length check no read fails |
| DepthMap.EncodeThenDecode | src/viam/sdk/components/camera.cpp:73-134 | decoding an encoded map gives the map, zero-sized dimensions included |
| DepthMap.DecodeThenEncode | src/viam/sdk/components/camera.cpp:73-134 | encoding what was decoded gives the data |
| DepthMap.PayloadFillsMapIff | src/viam/sdk/components/camera.cpp:116-126 | the size check makes the payload fill the map exactly when the size did not wrap around |
| DepthMap.HeaderOnlyIsAccepted | src/viam/sdk/components/camera.cpp:116-126 | an accepted input where it did: 24 bytes that decode to a map of 2^32 rows and columns and no values |
| DepthMap.AcceptedIffEncoding | src/viam/sdk/components/camera.cpp:99-134 | apart from wrapped sizes the accepted inputs are exactly the encodings of maps |
| DepthMap.EncodingBytes | src/viam/sdk/components/camera.cpp:38-94 | an encoding is the letters DEPTHMAP, width, height and the values in turn, byte by byte |
| DepthMap.DecodeErrors | src/viam/sdk/components/camera.cpp:99-122 | each of the three errors has its exact condition on the bytes |
| DepthMap.WordRoundTrip | src/viam/sdk/components/camera.cpp:43-44 | a word is its big-endian bytes read back |
| DepthMap.BytesRoundTrip | src/viam/sdk/components/camera.cpp:57-58 | and bytes are the word they make, written back |
| DepthMap.BigEndianByte | src/viam/sdk/components/camera.cpp:43-44 | each byte of a word, counted from the front |
| TimeConversions.DurationRoundTrip | src/viam/sdk/common/utils.cpp:48-74 | every duration is read back exactly |
| TimeConversions.DurationToProtoMeaning | src/viam/sdk/common/utils.cpp:48-57 | the message stands for exactly the duration, with less than a second of nanoseconds of the same sign |
| TimeConversions.DurationOrder | src/viam/sdk/common/utils.cpp:48-57 | messages are ordered by seconds, then nanoseconds, strictly as the durations are |
| TimeConversions.DurationRoundsAwayIff | src/viam/sdk/common/utils.cpp:59-74 | reading rounds the time away from zero exactly when there is nothing to round or the nanoseconds point away from zero; normalised messages always do |
| TimeConversions.DurationFromProtoMonotone | src/viam/sdk/common/utils.cpp:59-74 | reading is monotone on those messages |
| TimeConversions.DurationMessageRoundTrip | src/viam/sdk/common/utils.cpp:48-74 | a message survives exactly when it is normalised and whole microseconds, and is read without overflow as well exactly when those fit 64 bits |
| TimeConversions.ProtobufDurationFits | src/viam/sdk/common/utils.cpp:59-74 | every duration message that protobuf allows is read without overflow |
| TimeConversions.DurationNoOverflow | src/viam/sdk/common/utils.cpp:48-74 | no intermediate value of a 64-bit count leaves its type |
| TimeConversions.TimestampRoundTrip | src/viam/sdk/common/utils.cpp:32-46 | every time point, before the epoch too, is read back exactly |
| TimeConversions.TimestampMeaning | src/viam/sdk/common/utils.cpp:32-46 | reading gives the time any message stands for, and the written message stands for the time |
| TimeConversions.TimestampFromProtoMonotone | src/viam/sdk/common/utils.cpp:42-46 | reading is strictly monotone on the messages protobuf allows |
| TimeConversions.TimestampMessageRoundTrip | src/viam/sdk/common/utils.cpp:32-46 | a message is read without overflow and survives exactly when seconds and nanoseconds agree in sign, the nanoseconds are less than a second and the time fits 64 bits |
| TimeConversions.TimestampReadFitsIff | src/viam/sdk/common/utils.cpp:42-46 | the first and the last time, to the nanosecond, that is read without overflow |
| TimeConversions.ProtobufTimestampFitsIff | src/viam/sdk/common/utils.cpp:42-46 | of the timestamps that protobuf allows exactly those between them are read without overflow; the last second of the year 9999 is not |
| TimeConversions.TimestampIsForwardIff | src/viam/sdk/common/utils.cpp:32-40 | the written nanoseconds are what protobuf allows exactly since the epoch and for whole seconds before it |
| TimeConversions.TimestampNoOverflow | src/viam/sdk/common/utils.cpp:32-46 | no intermediate value of a 64-bit count leaves its type |
| InstanceProtocol.StepKeepsInv | src/viam/sdk/common/instance.cpp:22-57 | every atomic step of every thread keeps the protocol's invariant |
| InstanceProtocol.AtMostOneWinner | src/viam/sdk/common/instance.cpp:22-57 | in no interleaving do two constructors win, and the second load never sees null |
| InstanceProtocol.ReturnedIsTheInstance | src/viam/sdk/common/instance.cpp:50-56 | a returned reference is to the one installed object, never to null or the sentinel; that object is alive exactly when no thread is in its constructor or destructor |
| InstanceProtocol.ReturnedWhileConstructing | src/viam/sdk/common/instance.cpp:25-56 | a concrete interleaving in which the returned object is still under construction |
| InstanceProtocol.ReturnedWhileDying | src/viam/sdk/common/instance.cpp:32-56 | a concrete interleaving in which its destructor has begun |
| InstanceProtocol.PointerIsMonotone | src/viam/sdk/common/instance.cpp:25-36 | the pointer only moves from null to the one instance to the sentinel, and no step skips one of them |
| InstanceProtocol.EveryCallCanEnd | src/viam/sdk/common/instance.cpp:22-57 | no call is stuck at any point of any run: its thread can proceed, or waits for the static object's guard and the thread that runs the guard can; at most eight such steps end the call |
| InstanceProtocol.EveryCallAnswers | src/viam/sdk/common/instance.cpp:40-57 | the step that ends a call of `current` adds just one event: a returned reference or one of the three errors |
| InstanceProtocol.FirstLoadOutcome | src/viam/sdk/common/instance.cpp:40-48 | the first load throws exactly when an existing instance was asked for and there is none; it goes on to create one exactly when that was allowed |
| InstanceProtocol.OpenExistingCreatesNothing | src/viam/sdk/common/instance.cpp:40-48 | as long as no caller allows creation, the static object and its guard are never touched |
| InstanceProtocol.ExchangeOutcome | src/viam/sdk/common/instance.cpp:22-27 | a constructor installs its object exactly when none did before, and otherwise throws and leaves the pointer, and for the static object its guard, as before the call |
| InstanceProtocol.SecondLoadOutcome | src/viam/sdk/common/instance.cpp:50-56 | the second load throws exactly when some destructor has marked the instance, for good, and else returns the installed object |
| InstanceProtocol.GuardMeaning | src/viam/sdk/common/instance.cpp:43 | the static object's guard is done exactly when it was the one to win and its constructor has ended |
| InstanceProtocol.DuplicateIffOvertaken | src/viam/sdk/common/instance.cpp:40-48 | a call that found no instance and gets to the static object's exchange throws exactly when some constructor won in between |
| InstanceProtocol.OvertakeFrom | src/viam/sdk/common/instance.cpp:40-48 | whenever a thread is about to install the static object, an idle one can overtake it |
| InstanceProtocol.CurrentCanBeOvertaken | src/viam/sdk/common/instance.cpp:40-48 | a concrete interleaving in which that happens |

## Left out

- XML parsing of the URDF, reading numbers from text, and the wording of error messages; the walk starts
  from parsed joints, and an error keeps its kind and the values it names.
- Floating-point detail: NaN, negative zero and rounding; `real` stands for `double`, and a type cell too
  large for an `int`, whose conversion is undefined, is read as the integer it is.
- Null shared pointers stored as resources: a stored resource is not null, so a null lookup result means
  that nothing was found.
- The manager's mutex itself, logging, and `resources()`, which hands out the table.
- Everything `refresh` does over the network; the response and the outcome of each client construction
  are inputs, and the set of registered APIs is fixed for a run.
- Maps whose encoded size wraps around 64 bits: no object of that size exists. For wrapped sizes
  `DecodeDepthMap` gives the dimensions and the payload's words, and what xtensor allocates for such
  dimensions is not part of this model.
- The contents of moved-from values beyond their kind: they are arbitrary.
- Lifetimes of the elements inside a list or struct value: the standard containers manage them, and here
  they are part of the value. Elements can be the source of a construction or assignment, not its target,
  and programs of many statements name whole values only.
- Exceptions thrown by copying a value or by the initialisation after a won exchange in the constructor
  of `Instance`; the initialisation is assumed not to throw. A call of `current` from inside it counts as
  a call of another thread.
- What reading gives when its signed arithmetic overflows: undefined in the source. The model says for
  which messages that happens.
- The regular-expression engine: the accepted languages are predicates on strings, with `\w` read as
  ASCII letters, digits and the underscore.
- Clients and servers of the single components, dialing, logging sinks, tracing, the registry, modules,
  and the field-by-field conversions of poses, geometries and kinematics.
