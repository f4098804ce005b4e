# ConditionManager, modelled in Dafny

This project models the condition registry of the Android Settings dashboard,
`ConditionManager`. The registry owns the list of "conditions": the dashboard
cards for airplane mode, hotspot, do-not-disturb, battery saver, cellular
data, background data and work mode. It does the following:

- It restores the list from a state file when it is constructed.
- It then completes the catalog, adding a default condition for every one of the
  seven types that is missing.
- It keeps the list sorted by each condition's last-change time.
- It answers lookups by class and "which conditions are visible".
- It writes the opted-in conditions back to the file.
- It notifies its listeners when something changes.

Modules:

- `Conditions` (`conditions.dfy`): the closed catalog of the seven condition
  types and their simple class names. Also the observable state of a condition
  (last change, shown, persist flag, bundle) and `createCondition`.
- `Sequences` (`sequences.dfy`): two list operations. The first keeps the
  elements that pass a test, in order. The registry's own loops in
  `getVisibleConditions` and `saveToXml` do this. The second is
  `ArrayList.remove(Object)`, used by `remListener`.
- `Ordering` (`ordering.dfy`): `CONDITION_COMPARATOR`, a `Long.compare` on
  last change, and the result of `Collections.sort`. That sort is stable, so its
  result is unique. A stable insertion sort function specifies it here.
- `Persistence` (`persistence.dfy`): three parts of the state file.
  - What `saveToXml` selects and how it names each element.
  - The PKG prefixing of class names on read, and the `Class.forName` lookup.
  - What `readFromXml` builds from the file's elements.
  The file is modelled as the sequence of its condition elements: class
  attribute plus bundle.
- `Registry` (`registry.dfy`): catalog completion as a function on lists, and
  the class `ConditionManager`. The class has the fields `conditions`,
  `listeners` and `xmlFile`, and its methods update them in place.

A condition's own behaviour is logic of the concrete subclasses, which are not
part of this model. The model takes it as parameters:
- `refresh` stands for `refreshState`.
- `restore` stands for `restoreState`.
- The `persist` and `shown` fields stand for the results of `saveState` and
  `shouldShow`.
- `loadable` is the set of other class names the runtime could load.

A malformed entry in the state file is not skipped and read past:
- A class name that cannot be loaded raises `ClassNotFoundException`. That
  exception is caught outside the loop, so reading stops there and keeps the
  conditions read before it.
- A loadable class that is not one of the seven catalog classes makes
  `createCondition` throw an uncaught `RuntimeException`, so construction fails. This happens only when
  that class comes before the first unloadable name, because the read stops
  there.

The code does not keep one condition per type by itself. It keeps it only when
no two elements read before the first unloadable name resolve to the same
class. Two different strings can name one class: the simple name and the fully
qualified name both load it (`Persistence.TwoSpellingsReadTwice`). The model
proves the following:
- Completion never creates a duplicate.
- A list without duplicates stays without duplicates.
- A file saved from such a list reloads into a complete list without
  duplicates.

## Model

| member | source | states |
|---|---|---|
| Conditions.CreateCondition | src/com/android/settings/dashboard/conditional/ConditionManager.java:153-170 | yields a fresh condition of exactly the requested type for each of the seven catalog classes, and fails for every other class |
| Conditions.CatalogListsEveryTypeOnce | src/com/android/settings/dashboard/conditional/ConditionManager.java:135-142 | the seven `addIfMissing` calls name every condition type, each exactly once |
| Conditions.SimpleNameInjective | src/com/android/settings/dashboard/conditional/ConditionManager.java:120 | two types with the same simple class name are the same type, so the saved name identifies the type |
| Ordering.Compare | src/com/android/settings/dashboard/conditional/ConditionManager.java:229-234 | the comparator returns -1, 0 or 1, and is negative or zero exactly when the left last change is smaller or equal |
| Ordering.SortIsSortedPermutation | src/com/android/settings/dashboard/conditional/ConditionManager.java:143 | `SortByLastChange`, the sort: after the sort the list is ascending by last change and holds the same conditions, with the same multiplicities |
| Ordering.SortIsStable | src/com/android/settings/dashboard/conditional/ConditionManager.java:143 | `SortByLastChange`: conditions with equal last change keep their relative order through the sort |
| Ordering.SortOfSortedIsIdentity | src/com/android/settings/dashboard/conditional/ConditionManager.java:203 | `SortByLastChange`: sorting a list that is already in order leaves it unchanged |
| Ordering.SortKeepsDistinct | src/com/android/settings/dashboard/conditional/ConditionManager.java:143 | `SortByLastChange`: the sort never makes two conditions share a type |
| Persistence.Qualify | src/com/android/settings/dashboard/conditional/ConditionManager.java:84-87 | the class name read from the file is fully qualified: it starts with PKG, and is either the stored name or PKG followed by it |
| Persistence.QualifyIdempotent | src/com/android/settings/dashboard/conditional/ConditionManager.java:85-87 | qualifying an already qualified name changes nothing |
| Persistence.ForNameCatalog | src/com/android/settings/dashboard/conditional/ConditionManager.java:88 | `ForName`, the class loader: `Class.forName` yields a catalog class exactly for that class's fully qualified name |
| Persistence.SavedNameResolves | src/com/android/settings/dashboard/conditional/ConditionManager.java:84-88 | the simple name written by the save step qualifies and loads back as the catalog class of the same type |
| Persistence.SaveSelection | src/com/android/settings/dashboard/conditional/ConditionManager.java:115-125 | the elements written are, in list order, one per condition whose `saveState` returns true, each with its simple class name and bundle |
| Persistence.OmittedNotSaved | src/com/android/settings/dashboard/conditional/ConditionManager.java:118 | when types are unique, a condition whose `saveState` returns false has no element in the file |
| Persistence.ReadKeepsPrefix | src/com/android/settings/dashboard/conditional/ConditionManager.java:81-100 | `ReadEntries`, the read (one `ReadStep` per element): a read yields conditions created and restored from a prefix of the elements, each of the type its element names. The read stops at the first name that loads no class. It fails only for a loadable class that is not one of the seven catalog classes |
| Persistence.ReadFatalExactly | src/com/android/settings/dashboard/conditional/ConditionManager.java:81-100 | `ReadEntries`: a read fails exactly when some element names a loadable class that is not one of the seven catalog classes and every element before it names a catalog class; the error names that element's qualified class |
| Persistence.ReadWellNamed | src/com/android/settings/dashboard/conditional/ConditionManager.java:81-98 | `ReadEntries`: elements that all carry catalog simple names are all read, each restored from its own bundle |
| Persistence.SaveThenRead | src/com/android/settings/dashboard/conditional/ConditionManager.java:84-92 | reading back what was saved yields, in order, one condition per opted-in condition, of the same type, restored from its own bundle |
| Persistence.TwoSpellingsReadTwice | src/com/android/settings/dashboard/conditional/ConditionManager.java:84-92 | a file holding a class's simple name and its fully qualified name, two different strings, reads back two conditions of that one type |
| Persistence.SavedFileReadsDistinct | src/com/android/settings/dashboard/conditional/ConditionManager.java:81-98 | a file saved from a list without duplicate types reads back without duplicate types |
| Registry.LookupFirst | src/com/android/settings/dashboard/conditional/ConditionManager.java:176-184 | `Lookup`, the search of `getCondition`: lookup returns nothing exactly when no condition has the type, and otherwise the condition at the first index of that type |
| Registry.CompleteLookupFinds | src/com/android/settings/dashboard/conditional/ConditionManager.java:176-184 | `Lookup`: on a list holding every catalog type, lookup finds a condition of each type |
| Registry.AddedIfMissingFacts | src/com/android/settings/dashboard/conditional/ConditionManager.java:146-151 | `AddedIfMissing`, one `addIfMissing` call: `addIfMissing` appends one default condition exactly when the type is missing, keeps the old list as prefix, loses no type and never duplicates one |
| Registry.AddAllIsAppendDefaults | src/com/android/settings/dashboard/conditional/ConditionManager.java:135-142 | the seven calls append exactly the defaults of the missing types, in catalog order, after the loaded list |
| Registry.AddAllOnComplete | src/com/android/settings/dashboard/conditional/ConditionManager.java:146-151 | on a list that already has every type the calls add nothing |
| Registry.CompletionCoversCatalog | src/com/android/settings/dashboard/conditional/ConditionManager.java:135-144 | `CompleteCatalog`, the completion of `addMissingConditions`: after completion every one of the seven types is present |
| Registry.CompletionIsSortedPermutation | src/com/android/settings/dashboard/conditional/ConditionManager.java:135-144 | `CompleteCatalog`: the completed list is the loaded list plus the new defaults, reordered ascending by last change |
| Registry.CompletionKeepsTypesUnique | src/com/android/settings/dashboard/conditional/ConditionManager.java:135-151 | `CompleteCatalog`: completion of a list without duplicate types has no duplicate types |
| Registry.CompletionOfCompleteSorted | src/com/android/settings/dashboard/conditional/ConditionManager.java:135-144 | `CompleteCatalog`: completion of a complete, sorted list returns it unchanged |
| Registry.CompletionIdempotent | src/com/android/settings/dashboard/conditional/ConditionManager.java:135-144 | `CompleteCatalog`: running completion a second time changes nothing |
| Registry.ReloadOfSavedList | src/com/android/settings/dashboard/conditional/ConditionManager.java:56-64 | constructing from a file saved from a list without duplicate types succeeds and leaves each of the seven types exactly once |
| Registry.ConditionManager.constructor | src/com/android/settings/dashboard/conditional/ConditionManager.java:54-59 | starts with no conditions, no listeners and the given file |
| Registry.ConditionManager.Create | src/com/android/settings/dashboard/conditional/ConditionManager.java:56-64 | construction fails exactly when the read fails, which `ReadFatalExactly` characterises: the first element whose name is not a catalog class names a loadable class. Otherwise the list is the completion of what was read, so every type is present, and there are no listeners |
| Registry.ConditionManager.RefreshAll | src/com/android/settings/dashboard/conditional/ConditionManager.java:66-71 | every condition, at its own index, takes the state its refresh computes. The types and the completeness of the list are kept |
| Registry.ConditionManager.ReadFromXml | src/com/android/settings/dashboard/conditional/ConditionManager.java:73-103 | appends exactly the conditions the file's elements yield, stopping at the first unloadable name. It reports failure exactly when the read fails, which `ReadFatalExactly` characterises: the first element whose name is not a catalog class names a loadable class. A missing file adds nothing |
| Registry.ConditionManager.SavedEntries | src/com/android/settings/dashboard/conditional/ConditionManager.java:115-125 | the selection loop writes exactly the save selection of the current list |
| Registry.ConditionManager.SaveToXml | src/com/android/settings/dashboard/conditional/ConditionManager.java:105-133 | the file afterwards holds exactly the save selection of the current list |
| Registry.ConditionManager.AddMissingConditions | src/com/android/settings/dashboard/conditional/ConditionManager.java:135-144 | the list becomes the catalog completion of the old list: all seven types present, sorted, and the same conditions plus the defaults |
| Registry.ConditionManager.AddIfMissing | src/com/android/settings/dashboard/conditional/ConditionManager.java:146-151 | appends a default condition of the type only when `getCondition` finds none; otherwise the list is unchanged |
| Registry.ConditionManager.GetCondition | src/com/android/settings/dashboard/conditional/ConditionManager.java:176-184 | returns the first condition of the class, or none when no condition has it. A class outside the catalog is never found. On a registry that holds every type, which construction ensures, every catalog class is found. Nothing changes |
| Registry.ConditionManager.GetVisibleConditions | src/com/android/settings/dashboard/conditional/ConditionManager.java:190-199 | returns a new list of exactly the conditions that should show, in list order; the registry is unchanged |
| Registry.ConditionManager.NotifyChanged | src/com/android/settings/dashboard/conditional/ConditionManager.java:201-208 | saves the selection of the list as it was before sorting, then sorts it into an ascending permutation of itself, then calls every listener once per registration, in order |
| Registry.ConditionManager.DispatchChange | src/com/android/settings/dashboard/conditional/ConditionManager.java:204-207 | calls `onConditionsChanged` once per entry of the listener list, in index order, so a listener registered twice is called twice |
| Registry.ConditionManager.AddListener | src/com/android/settings/dashboard/conditional/ConditionManager.java:210-212 | appends the listener at the end, with no deduplication |
| Registry.ConditionManager.RemListener | src/com/android/settings/dashboard/conditional/ConditionManager.java:214-216 | removes only the first registration of the listener |
| Sequences.FilterMembers | src/com/android/settings/dashboard/conditional/ConditionManager.java:190-199 | `Filter`, the selection loop: the filtered list holds exactly the elements that pass the test, and is no longer than the list |
| Sequences.FilterAppend | src/com/android/settings/dashboard/conditional/ConditionManager.java:190-199 | `Filter`: filtering preserves relative order: filtering a concatenation is concatenating the filtered parts |
| Sequences.RemoveAbsent | src/com/android/settings/dashboard/conditional/ConditionManager.java:214-216 | `RemoveFirst`, `ArrayList.remove(Object)`: removing a listener that is not registered changes nothing |
| Sequences.RemoveFirstAt | src/com/android/settings/dashboard/conditional/ConditionManager.java:214-216 | `RemoveFirst`: removal takes out the first occurrence only and keeps all other entries in order |
| Sequences.RemoveFirstCount | src/com/android/settings/dashboard/conditional/ConditionManager.java:214-216 | `RemoveFirst`: removal takes exactly one copy out of the list, if it held one |
| Sequences.AppendThenRemove | src/com/android/settings/dashboard/conditional/ConditionManager.java:210-216 | `RemoveFirst` after an append: adding a listener that was not registered and then removing it restores the listener list |

## Left out

- XML parsing and serialisation, `PersistableBundle` encoding and the file I/O
  (`FileReader`, `FileWriter`) are library calls. The file is the sequence of its
  condition elements (`Option<seq<Entry>>`, where `None` means no file).
- An `XmlPullParserException` or `IOException` during read or write is not
  modelled. On read it would stop the load, keeping what was read, like an
  unloadable name. On write the file would be left partly written.
- A condition element without a `cls` attribute makes the read throw a
  `NullPointerException`. This is not modelled: every element carries a class
  name.
- Logging and the DEBUG flag have no effect on state and are left out.
- The Android `Context`, `getContext` and the static lazy singleton `get` are
  platform plumbing with no logic and are left out. The constructor is
  `Registry.ConditionManager.Create`.
- `getConditions` returns the live list object. The model reads the field
  `conditions` instead; the aliasing of that list by callers is not modelled.
- The concrete Condition subclasses are not part of this model. Their detection
  logic behind `refreshState`, `restoreState`, `saveState` and `shouldShow`
  becomes the parameters `refresh` and `restore` and the fields `shown` and
  `persist`. A new condition starts in a fixed default state.
- Re-entrancy is not modelled. `refreshState` may call back into
  `notifyChanged` and re-sort the list in the middle of `refreshAll`, and a
  listener may call back into the registry during dispatch.
  `Registry.ConditionManager.RefreshAll` visits indices 0 to N-1 of a list that
  no one else changes.
- Registry.ConditionManager.ReadFromXml: when it reports failure, the list it
  leaves is not specified. Construction is abandoned in that case.
- Bundle contents are opaque to the registry, which only hands them to
  `restoreState` and writes them back. Only long, boolean and string values are
  modelled; int, double, array and nested-bundle values are not.
- Last-change times are unbounded integers. `Long.compare` does not subtract, so
  64-bit overflow cannot change the comparison.
