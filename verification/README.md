# Environment variable collections and the service that merges them

This project models the terminal's environment-variable contribution service
in Dafny.

Each extension contributes an **environment variable collection**. A
collection is an insertion-ordered map from a variable name to a **mutator**,
which is a value plus a type: replace, append or prepend.

A collection can be:

- built from three parallel arrays (names, values, types);
- compared with another collection, to find the entries that are new or
  changed (`getNewAdditions`);
- applied to a process environment, rewriting the variables it names.

The **environment variable service** keeps the registered collections in
registration order, keyed by extension identifier. After every `set` or
`delete` it recomputes one merged collection. The merge visits the collections
in registration order and their entries in iteration order. The first
collection that defines a variable decides that variable's mutator, and later
collections never override it.

Modules:

- `Results`: `Option` (a value or `undefined`) and `Result` (a value or
  the error a constructor throws).
- `OrderedMaps`: the JavaScript `Map` as a key sequence plus a map. `Put` is
  `Map.set`: a key that is already present keeps its position, and a new key
  goes last. `Remove` is `Map.delete`. `OrderedBy` states that one sequence
  keeps the first-occurrence order of another.
- `EnvironmentVariableCollections`: the mutator types, the collection class,
  and the process environment. There are specification functions for
  construction (`Fill`, `Construct`), for the diff (`Differs`,
  `AdditionsUpTo`, `NewAdditions`) and for application (`ApplyMutator`,
  `ApplyInOrder`, `ApplyEach`, `Applied`). Lemmas relate each of them to what
  the code promises.
- `EnvironmentVariableServices`: the merge (`AddMissing`, `Merge`) with its
  lemmas, and the service class. The class invariant `Valid()` states that
  the cached merged collection always equals the merge of the registered
  collections.

Construction removes duplicates. When a variable name repeats, the collection
holds one entry for it, at the position of its first occurrence, with the
value and type of its last occurrence, because the code fills a `Map`. A
collection built from n names therefore has one entry per distinct name, which
is fewer than n when names repeat.

## Model

| member | source | states |
|---|---|---|
| OrderedMaps.OrderedMap.Put | src/vs/workbench/contrib/terminal/common/environmentVariableService.ts:97 | `Map.set`: the key gets the new value, and every other key keeps its value. A key already present keeps its place in the iteration order; a new key is placed last. |
| OrderedMaps.OrderedMap.Remove | src/vs/workbench/contrib/terminal/common/environmentVariableService.ts:103 | `Map.delete`: the map stays well formed and the key is gone. Every other key keeps its value and the remaining keys keep their relative order. Deleting an absent key changes nothing. |
| OrderedMaps.PutValid | src/vs/workbench/contrib/terminal/common/environmentVariableService.ts:25 | `Map.set` keeps every key exactly once, and the keys stay equal to the keys that have values. |
| OrderedMaps.RemoveTwice | src/vs/workbench/contrib/terminal/common/environmentVariableService.ts:102-106 | Deleting the same extension identifier twice gives the same registry as deleting it once. |
| EnvironmentVariableCollections.FillValid | src/vs/workbench/contrib/terminal/common/environmentVariableService.ts:24-26 | Every iteration of the constructor's loop leaves a well-formed map. |
| EnvironmentVariableCollections.FillLastWins | src/vs/workbench/contrib/terminal/common/environmentVariableService.ts:24-26 | After the first n iterations, each name among the first n is a key. It holds the value and type at that name's last index. |
| EnvironmentVariableCollections.FillOrder | src/vs/workbench/contrib/terminal/common/environmentVariableService.ts:24-26 | The keys are in the order of each name's first occurrence in the names array. |
| EnvironmentVariableCollections.ConstructSpec | src/vs/workbench/contrib/terminal/common/environmentVariableService.ts:14-28 | An omitted array gives an empty collection. Failure happens exactly when the three arrays differ in length, and the error is the length mismatch. Otherwise the keys are exactly the given names, last value wins, first-occurrence order holds, and the map is well formed. |
| EnvironmentVariableCollections.EnvironmentVariableCollection.constructor | src/vs/workbench/contrib/terminal/common/environmentVariableService.ts:14-20 | Constructing with no arrays gives an empty, well-formed collection. |
| EnvironmentVariableCollections.EnvironmentVariableCollection.SetEntry | src/vs/workbench/contrib/terminal/common/environmentVariableService.ts:25 | `entries.set` changes the entries exactly as `Map.set` does. |
| EnvironmentVariableCollections.EnvironmentVariableCollection.Create | src/vs/workbench/contrib/terminal/common/environmentVariableService.ts:14-28 | The loop builds a fresh, well-formed collection whose entries are exactly the constructor's specification (see ConstructSpec). It fails exactly when the specification says the constructor throws, and with the same error. |
| EnvironmentVariableCollections.AdditionsValid | src/vs/workbench/contrib/terminal/common/environmentVariableService.ts:47-53 | The map of additions is well formed. |
| EnvironmentVariableCollections.AdditionsFound | src/vs/workbench/contrib/terminal/common/environmentVariableService.ts:48-52 | Every addition is a variable of the other collection. It is missing from this collection or differs from it in type or value, and it carries the other collection's mutator. |
| EnvironmentVariableCollections.AdditionsComplete | src/vs/workbench/contrib/terminal/common/environmentVariableService.ts:48-52 | Every variable of the other collection that is missing here, or differs here in type or value, is an addition. |
| EnvironmentVariableCollections.AdditionsOrder | src/vs/workbench/contrib/terminal/common/environmentVariableService.ts:48-53 | The additions are in the other collection's iteration order. |
| EnvironmentVariableCollections.NewAdditionsSpec | src/vs/workbench/contrib/terminal/common/environmentVariableService.ts:46-55 | The result is `undefined` exactly when every entry of the other collection is present here with the same type and value. Otherwise it holds exactly the new or changed entries, with the other collection's mutators and in its order. Variables only in this collection are never reported. |
| EnvironmentVariableCollections.NothingNew | src/vs/workbench/contrib/terminal/common/environmentVariableService.ts:46-55 | A collection has no new additions relative to itself, and no collection finds new additions in an empty collection. |
| EnvironmentVariableCollections.EnvironmentVariableCollection.GetNewAdditions | src/vs/workbench/contrib/terminal/common/environmentVariableService.ts:46-55 | The loop's result is the diff that NewAdditionsSpec characterises. |
| EnvironmentVariableCollections.Applied | src/vs/workbench/contrib/terminal/common/environmentVariableService.ts:57-71 | After application the environment's variables are its own plus the collection's. A variable the collection does not name keeps its value. |
| EnvironmentVariableCollections.ApplyEachStep | src/vs/workbench/contrib/terminal/common/environmentVariableService.ts:58-70 | Applying one more mutator to the original environment changes only that variable. |
| EnvironmentVariableCollections.InOrderIsEach | src/vs/workbench/contrib/terminal/common/environmentVariableService.ts:58-70 | When no variable repeats, applying the mutators one after another gives the same environment as applying each to the original value. The order of application does not matter. |
| EnvironmentVariableCollections.EachKeyIsApplied | src/vs/workbench/contrib/terminal/common/environmentVariableService.ts:58-70 | Visiting every key of a well-formed collection applies the whole collection. |
| EnvironmentVariableCollections.EnvironmentVariableCollection.ApplyToProcessEnvironment | src/vs/workbench/contrib/terminal/common/environmentVariableService.ts:57-71 | The in-place loop leaves the environment equal to `Applied`. Append gives old value (or empty) followed by the mutator's value, prepend gives the mutator's value followed by the old value (or empty), replace gives the mutator's value. Other variables are untouched. |
| EnvironmentVariableCollections.NoAdditionsSameEffect | src/vs/workbench/contrib/terminal/common/environmentVariableService.ts:46-71 | When there are no new additions, applying this collection already gives every variable of the other collection the value that applying the other collection would give it. |
| EnvironmentVariableServices.AddMissingValid | src/vs/workbench/contrib/terminal/common/environmentVariableService.ts:116-120 | Visiting a collection during the merge keeps the merged map well formed. |
| EnvironmentVariableServices.AddMissingKeeps | src/vs/workbench/contrib/terminal/common/environmentVariableService.ts:117-119 | The `has` check never overrides: every entry already merged keeps its mutator, and its keys stay in front in the same order. |
| EnvironmentVariableServices.AddMissingFrom | src/vs/workbench/contrib/terminal/common/environmentVariableService.ts:116-120 | Every merged variable was already merged or is a key of the visited collection. |
| EnvironmentVariableServices.AddMissingAdds | src/vs/workbench/contrib/terminal/common/environmentVariableService.ts:116-120 | A variable that was not merged yet gets the visited collection's mutator. |
| EnvironmentVariableServices.AddMissingNewFrom | src/vs/workbench/contrib/terminal/common/environmentVariableService.ts:116-120 | The variables added by one visit are keys of the visited collection. |
| EnvironmentVariableServices.AddMissingOrder | src/vs/workbench/contrib/terminal/common/environmentVariableService.ts:116-120 | The variables added by one visit follow the visited collection's iteration order. |
| EnvironmentVariableServices.MergeValid | src/vs/workbench/contrib/terminal/common/environmentVariableService.ts:113-123 | The merged collection is a well-formed map. |
| EnvironmentVariableServices.MergeFrom | src/vs/workbench/contrib/terminal/common/environmentVariableService.ts:113-123 | Every merged variable is defined by some registered collection. |
| EnvironmentVariableServices.MergeFirstWins | src/vs/workbench/contrib/terminal/common/environmentVariableService.ts:113-123 | A variable takes the mutator of the first collection, in registration order, that defines it. |
| EnvironmentVariableServices.MergeHas | src/vs/workbench/contrib/terminal/common/environmentVariableService.ts:113-123 | Every variable that some registered collection defines is merged. |
| EnvironmentVariableServices.MergeDomain | src/vs/workbench/contrib/terminal/common/environmentVariableService.ts:113-123 | The merged variables are exactly the union of the registered collections' variables (both directions). |
| EnvironmentVariableServices.MergeExtend | src/vs/workbench/contrib/terminal/common/environmentVariableService.ts:113-123 | A collection registered later never overrides. Every merged mutator is kept, and the earlier merged keys stay in front. The variables the later collection adds follow them, in that collection's order. |
| EnvironmentVariableServices.SourcesOf | src/vs/workbench/contrib/terminal/common/environmentVariableService.ts:115 | The collections visited are those of the registered identifiers, one per identifier and in registration order. |
| EnvironmentVariableServices.RegisterValid | src/vs/workbench/contrib/terminal/common/environmentVariableService.ts:97 | Registering a well-formed collection keeps the registry well formed. |
| EnvironmentVariableServices.UnregisterValid | src/vs/workbench/contrib/terminal/common/environmentVariableService.ts:103 | Unregistering keeps the registry well formed. |
| EnvironmentVariableServices.EnvironmentVariableService.constructor | src/vs/workbench/contrib/terminal/common/environmentVariableService.ts:80-90 | A new service has no collections, an empty merged collection, and no pending notification. The class invariant holds. |
| EnvironmentVariableServices.EnvironmentVariableService.MergedCollection | src/vs/workbench/contrib/terminal/common/environmentVariableService.ts:92-94 | The getter returns the cached collection, which is the merge of the currently registered collections. |
| EnvironmentVariableServices.EnvironmentVariableService.Set | src/vs/workbench/contrib/terminal/common/environmentVariableService.ts:96-100 | The registry becomes `Map.set` of the identifier with the collection's entries, so re-setting a known identifier keeps its position. The merged collection is a fresh merge of the new registry, the invariant is kept, and a notification is requested. |
| EnvironmentVariableServices.EnvironmentVariableService.Delete | src/vs/workbench/contrib/terminal/common/environmentVariableService.ts:102-106 | The registry becomes `Map.delete` of the identifier. Deleting an unknown identifier leaves the registry and the merged entries as they were. The merged collection is the merge of the new registry, the invariant is kept, and a notification is requested. |
| EnvironmentVariableServices.EnvironmentVariableService.ResolveMergedCollection | src/vs/workbench/contrib/terminal/common/environmentVariableService.ts:113-123 | The nested loops build a fresh, well-formed collection equal to the first-writer-wins merge of the registered collections, in registration order. |
| EnvironmentVariableServices.EnvironmentVariableService.AddMissingEntries | src/vs/workbench/contrib/terminal/common/environmentVariableService.ts:116-120 | One inner loop adds each entry whose variable is not yet present, and the collection stays well formed. |

## Left out

- Change notification: the `onDidChangeCollections` emitter and the one-second debounce of `_notifyCollectionUpdates` (lines 84-85, 108-111) are timers and events. Their place is taken by a `notificationRequested` flag that `Set` and `Delete` raise. Which merged collection a listener sees after several quick changes is not modelled.
- `_serviceBrand` (line 78) is a dependency-injection marker with no behaviour.
- The commented-out `equals` (lines 30-43) is not code, and neither are the TODO comments at lines 83 and 88-89 (a per-terminal summary of changes, loading persisted collections, firing an event when collections change).
- EnvironmentVariableServices.EnvironmentVariableService.Set: the registry stores each collection's entries as they are at `set` time, not a reference to the collection object. A collection mutated after it was registered, and then merged again, is not modelled. Nothing in this file mutates a collection after registration.
- EnvironmentVariableServices.EnvironmentVariableService.Set: the service accepts any object implementing the collection interface. The model accepts the concrete collection class, whose entries are a well-formed map (required as `collection.Valid()`).
- EnvironmentVariableServices.EnvironmentVariableService.ResolveMergedCollection takes the registry as a parameter instead of reading the private field. `Set` and `Delete` store the result.
- EnvironmentVariableCollections.EnvironmentVariableCollection.Create: the throwing constructor becomes a static method that returns a `Result`. When the lengths differ it returns the length-mismatch error instead of throwing.
- EnvironmentVariableCollections.ApplyMutator: process-environment entries whose value is `undefined` are modelled as absent. `env[variable] || ''` then reads an absent variable and an empty one alike as the empty string.
- EnvironmentVariableServices.AddMissing also skips a key that has no value. A well-formed collection never has one, so the function is total without changing the merge.
- The mutator type's numeric enum values and the mutator interface's other possible fields are not modelled. A mutator is its value and one of the three types.
