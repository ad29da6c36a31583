# Named domain object collection: a Dafny model

This project models Gradle's `DefaultNamedDomainObjectCollection`. It is a collection
over an ordered backing store that:

- refuses to `add` an element whose name, as computed by the collection's `Namer`,
  is already taken;
- looks elements up by name, first directly and then through rules;
- calls the rules for a missing name once, in registration order, behind a
  re-entrancy guard (`applyingRulesFor`);
- derives `getByName`, `removeByName` and the sorted `getAsMap` from those lookups;
- makes filtered views that share the parent's store but start with no rules.

Layout, one module per file:

- `results.dfy` (`Results`): `Option` stands for a `null` return. `Outcome`, `Result` and `Error` stand for
  the exceptions that escape: `UnknownDomainObjectException`, and whatever a rule throws.
- `string_order.dfy` (`StringOrder`): `String.compareTo` as a lexicographic order, proved strict and total.
- `sorted_maps.dfy` (`SortedMaps`): the `TreeMap<String, T>` built by `getAsMap`. It is a sequence of entries
  with strictly increasing keys, plus `Get` and `Put`.
- `naming.dfy` (`Naming`): pure functions over the store's contents. They cover filtering, first-match
  lookup, name uniqueness, the effect of a name-checked `add`, and `remove`.
- `rules.dfy` (`Rules`): rules as data. It also holds the left-to-right run of the rule list (`RunRules`)
  and the value-level meaning of `findByName` (`Resolve`).
- `messages.dfy` (`Messages`): the display name and the not-found message, each with the function that
  reads it back.
- `named_collections.dfy` (`NamedCollections`): the classes.
  - `Store` is the shared backing store.
  - `DefaultNamedDomainObjectCollection` holds the store, a filter, the namer, the rule list and the
    guard set. Its methods are proved against the functions above.

A rule is `Rule(description, reentrant, action)`. When a rule is applied to a requested name:

1. A `reentrant` rule first calls `findByName` for that same name on the collection. This models a rule
   whose factory calls back into the container.
2. Its `action` then either ignores the name, `add`s an element, or throws.

The nested call meets the guard, so it runs no rule. The collection keeps a ghost log of rule
applications. After a top-level lookup that misses and is not already guarded, the log shows each rule
applied at most once, in registration order, up to and including the first rule that throws. A direct
hit, or a name already being resolved, applies no rule at all. The same guard is what proves that
the mutual recursion `FindByName` → `ApplyRules` → `ApplyRule` → `FindByName` terminates.

Two behaviours of the code are easy to misread, and the model keeps both:

- `removeByName` resolves the name with `getByName` (line 143), so rules do run and an unresolved name
  fails with the not-found exception. Because `getByName` never returns `null`, the `return null` branch
  (lines 151-152) has no counterpart.
- With a store whose `remove` drops the first equal element, `remove` cannot report `false` for an element
  just found in that store. The `IllegalStateException` branch (lines 147-149) is proved unreachable.

The map returned by `GetAsMap` is a sequence value, so later changes to the collection cannot alter it.

## Model

| member | source | states |
|---|---|---|
| `NamedCollections.DefaultNamedDomainObjectCollection.constructor` | subprojects/core/src/main/groovy/org/gradle/api/internal/DefaultNamedDomainObjectCollection.java:40-44 | its filter accepts every element, so in every later state of the store the collection sees exactly the store's elements; it starts with no rules and nothing being resolved |
| `NamedCollections.DefaultNamedDomainObjectCollection.FilteredFrom` | subprojects/core/src/main/groovy/org/gradle/api/internal/DefaultNamedDomainObjectCollection.java:53-54 | a view shares the parent's store and namer, sees the parent's elements narrowed by the filter, and starts with an empty rule list of its own (line 37) |
| `NamedCollections.DefaultNamedDomainObjectCollection.Filtered` | subprojects/core/src/main/groovy/org/gradle/api/internal/DefaultNamedDomainObjectCollection.java:92-94 | returns a fresh view over the same store with this collection's namer, an empty rule list and an empty guard set; its elements are this collection's elements that pass the filter |
| `NamedCollections.ViewTracksParent` | subprojects/core/src/main/groovy/org/gradle/api/internal/DefaultNamedDomainObjectCollection.java:53-54 | in every later state of the shared store, a view's elements are its parent's elements filtered, so the view is live and copies nothing |
| `Naming.FilterCompose` | subprojects/core/src/main/groovy/org/gradle/api/internal/DefaultNamedDomainObjectCollection.java:53-54 | filtering an already filtered store equals filtering once by the conjunction of both filters |
| `NamedCollections.DefaultNamedDomainObjectCollection.FindByNameWithoutRules` | subprojects/core/src/main/groovy/org/gradle/api/internal/DefaultNamedDomainObjectCollection.java:133-140 | the linear scan returns the first element in store order with the requested name, or none, and changes nothing |
| `Naming.FirstIndexNamed` | subprojects/core/src/main/groovy/org/gradle/api/internal/DefaultNamedDomainObjectCollection.java:133-140 | the returned position holds the name and no earlier position does; the store's length means no element has it |
| `Naming.FirstNamed` | subprojects/core/src/main/groovy/org/gradle/api/internal/DefaultNamedDomainObjectCollection.java:133-140 | the lookup is absent exactly when no element has the name; a present one is a store element with that name |
| `NamedCollections.DefaultNamedDomainObjectCollection.HasWithName` | subprojects/core/src/main/groovy/org/gradle/api/internal/DefaultNamedDomainObjectCollection.java:129-131 | true exactly when some element the collection sees has the name |
| `NamedCollections.DefaultNamedDomainObjectCollection.Add` | subprojects/core/src/main/groovy/org/gradle/api/internal/DefaultNamedDomainObjectCollection.java:60-67 | appends and returns true exactly when no visible element has the new element's name; otherwise the hook (lines 77-79) does nothing, the store is unchanged and it returns false; distinct names stay distinct |
| `Naming.AddEffect` | subprojects/core/src/main/groovy/org/gradle/api/internal/DefaultNamedDomainObjectCollection.java:60-67 | an add only ever appends, and by at most one element |
| `Naming.AddKeepsNamesDistinct` | subprojects/core/src/main/groovy/org/gradle/api/internal/DefaultNamedDomainObjectCollection.java:60-67 | if the visible names are pairwise distinct before an add, they are after it |
| `Naming.AddAll` | subprojects/core/src/main/groovy/org/gradle/api/internal/DefaultNamedDomainObjectCollection.java:60-67 | a sequence of adds only extends the store |
| `Naming.AddAllKeepsNamesDistinct` | subprojects/core/src/main/groovy/org/gradle/api/internal/DefaultNamedDomainObjectCollection.java:60-67 | pairwise-distinct visible names stay pairwise distinct after any sequence of adds |
| `NamedCollections.DefaultNamedDomainObjectCollection.ApplyRule` | subprojects/core/src/main/groovy/org/gradle/api/internal/DefaultNamedDomainObjectCollection.java:191 | one `rule.apply(name)`: it is logged once, any nested lookup of the guarded name leaves the store alone, and the store and outcome are those of `StepRule` |
| `Rules.StepRule` | subprojects/core/src/main/groovy/org/gradle/api/internal/DefaultNamedDomainObjectCollection.java:191 | a rule only extends the store, and it fails exactly when its action throws |
| `NamedCollections.DefaultNamedDomainObjectCollection.ApplyRules` | subprojects/core/src/main/groovy/org/gradle/api/internal/DefaultNamedDomainObjectCollection.java:184-196 | for a name already being resolved, nothing runs; otherwise the rules run once each in registration order until one throws; on every exit the guard set is exactly as it was |
| `Rules.RunRules` | subprojects/core/src/main/groovy/org/gradle/api/internal/DefaultNamedDomainObjectCollection.java:189-195 | on success every rule ran and none threw; on failure the last rule run is the one that threw, every earlier one did not, and the later ones did not run; the store only grows |
| `Rules.Invocations` | subprojects/core/src/main/groovy/org/gradle/api/internal/DefaultNamedDomainObjectCollection.java:190-192 | the log of a run holds one application per rule, in list order, all for the requested name |
| `Rules.RunRulesStopsAtFailure` | subprojects/core/src/main/groovy/org/gradle/api/internal/DefaultNamedDomainObjectCollection.java:189-195 | once a prefix of the rules has thrown, the rest of the list changes neither store nor outcome |
| `Rules.RunRulesKeepsNamesDistinct` | subprojects/core/src/main/groovy/org/gradle/api/internal/DefaultNamedDomainObjectCollection.java:190-192 | rules cannot break name uniqueness, since they add through the name-checked add |
| `Rules.IgnoringRulesChangeNothing` | subprojects/core/src/main/groovy/org/gradle/api/internal/DefaultNamedDomainObjectCollection.java:190-192 | when every rule ignores the name, a run leaves the store unchanged and succeeds, so repeated misses stay misses |
| `NamedCollections.DefaultNamedDomainObjectCollection.FindByName` | subprojects/core/src/main/groovy/org/gradle/api/internal/DefaultNamedDomainObjectCollection.java:120-127 | store, result and rule log are those of `Resolve`; the rule list and guard set are unchanged; pairwise-distinct visible names stay distinct |
| `Rules.Resolve` | subprojects/core/src/main/groovy/org/gradle/api/internal/DefaultNamedDomainObjectCollection.java:120-127 | a direct hit, or a name already being resolved, runs no rule and returns the direct lookup; a found element is visible and has the name; an empty result means no visible element has it; with no rules, as for a new view, the lookup is the direct one |
| `Rules.CreatedNameIsVisible` | subprojects/core/src/main/groovy/org/gradle/api/internal/DefaultNamedDomainObjectCollection.java:125-126 | after a run in which a rule created a visible element with the requested name, some visible element has that name |
| `Rules.ResolveFindsCreated` | subprojects/core/src/main/groovy/org/gradle/api/internal/DefaultNamedDomainObjectCollection.java:120-127 | if a rule creates a visible element with the name and no rule up to it throws, the lookup does not return absent |
| `Rules.ResolveKeepsNamesDistinct` | subprojects/core/src/main/groovy/org/gradle/api/internal/DefaultNamedDomainObjectCollection.java:120-127 | a lookup, rules included, keeps visible names pairwise distinct |
| `NamedCollections.DefaultNamedDomainObjectCollection.GetByName` | subprojects/core/src/main/groovy/org/gradle/api/internal/DefaultNamedDomainObjectCollection.java:156-162 | returns the element `findByName` finds, which is visible and has the name; or fails with the not-found exception; or passes on the rule's failure; pairwise-distinct visible names stay distinct |
| `NamedCollections.DefaultNamedDomainObjectCollection.CreateNotFoundException` | subprojects/core/src/main/groovy/org/gradle/api/internal/DefaultNamedDomainObjectCollection.java:226-229 | the exception is an unknown-domain-object error whose message gives back the requested name for this collection's type display name |
| `Messages.NotFoundMessage` | subprojects/core/src/main/groovy/org/gradle/api/internal/DefaultNamedDomainObjectCollection.java:227-228 | the message starts with the type display name and is 24 characters longer than the type name and the requested name together |
| `Messages.NotFoundMessageNamesTheName` | subprojects/core/src/main/groovy/org/gradle/api/internal/DefaultNamedDomainObjectCollection.java:226-229 | the requested name can be read back from the not-found message |
| `Messages.NotFoundMessageInjective` | subprojects/core/src/main/groovy/org/gradle/api/internal/DefaultNamedDomainObjectCollection.java:226-229 | different requested names give different messages |
| `NamedCollections.DefaultNamedDomainObjectCollection.DisplayName` | subprojects/core/src/main/groovy/org/gradle/api/internal/DefaultNamedDomainObjectCollection.java:96-98 | the display name gives back the type display name once the " container" suffix is removed |
| `Messages.DisplayName` | subprojects/core/src/main/groovy/org/gradle/api/internal/DefaultNamedDomainObjectCollection.java:96-98 | the display name starts with the type display name and is 10 characters longer |
| `Messages.DisplayNameRoundTrip` | subprojects/core/src/main/groovy/org/gradle/api/internal/DefaultNamedDomainObjectCollection.java:96-98 | removing the " container" suffix recovers the type display name |
| `NamedCollections.DefaultNamedDomainObjectCollection.RemoveByName` | subprojects/core/src/main/groovy/org/gradle/api/internal/DefaultNamedDomainObjectCollection.java:142-154 | resolves with `getByName`, rules included; when found, returns the element and removes its first occurrence from the store after resolution; otherwise fails with not-found or the rule's failure and leaves the store as resolution left it; pairwise-distinct visible names stay distinct |
| `Naming.RemoveFirst` | subprojects/core/src/main/groovy/org/gradle/api/internal/DefaultNamedDomainObjectCollection.java:145 | removing a present element cuts out its first occurrence and keeps the other elements in order, which takes exactly one copy out; removing an absent one changes nothing |
| `NamedCollections.DefaultNamedDomainObjectCollection.GetAsMap` | subprojects/core/src/main/groovy/org/gradle/api/internal/DefaultNamedDomainObjectCollection.java:100-106 | keys strictly sorted; key set exactly the names of the visible elements; each key maps to the last element of that name; the store is not touched |
| `Naming.LastNamed` | subprojects/core/src/main/groovy/org/gradle/api/internal/DefaultNamedDomainObjectCollection.java:102-104 | absent exactly when no element has the name; a present one is the element at the last position carrying that name |
| `Naming.LastIndexNamed` | subprojects/core/src/main/groovy/org/gradle/api/internal/DefaultNamedDomainObjectCollection.java:102-104 | the returned position holds the name and no later position does; the store's length means no element has it |
| `Naming.DistinctFirstIsLast` | subprojects/core/src/main/groovy/org/gradle/api/internal/DefaultNamedDomainObjectCollection.java:100-106 | with distinct names, the map's entry for a name is the element the direct lookup finds |
| `SortedMaps.Put` | subprojects/core/src/main/groovy/org/gradle/api/internal/DefaultNamedDomainObjectCollection.java:103 | `put` keeps the keys strictly sorted, adds the key, maps it to the new value, and leaves every other key's value alone |
| `SortedMaps.Get` | subprojects/core/src/main/groovy/org/gradle/api/internal/DefaultNamedDomainObjectCollection.java:101 | a key has a value exactly when it is among the map's keys |
| `StringOrder.LessTotal` | subprojects/core/src/main/groovy/org/gradle/api/internal/DefaultNamedDomainObjectCollection.java:101 | two different names are always ordered one way or the other, so a `TreeMap` can place every key |
| `StringOrder.LessTransitive` | subprojects/core/src/main/groovy/org/gradle/api/internal/DefaultNamedDomainObjectCollection.java:101 | the key order is transitive |
| `NamedCollections.DefaultNamedDomainObjectCollection.Elements` | subprojects/core/src/main/groovy/org/gradle/api/internal/DefaultNamedDomainObjectCollection.java:134 | what iterating the store yields: at most the store's elements, and exactly those that pass the collection's filter |
| `Naming.Filter` | subprojects/core/src/main/groovy/org/gradle/api/internal/DefaultNamedDomainObjectCollection.java:54 | a filtered store holds exactly the store's elements that pass the filter, and no more elements than the store |
| `NamedCollections.Store.Add` | subprojects/core/src/main/groovy/org/gradle/api/internal/DefaultNamedDomainObjectCollection.java:62 | the store appends the new element at the end and reports a change |
| `NamedCollections.Store.Remove` | subprojects/core/src/main/groovy/org/gradle/api/internal/DefaultNamedDomainObjectCollection.java:145 | the store reports a change exactly when it held the element, and drops its first occurrence |
| `Naming.IndexOf` | subprojects/core/src/main/groovy/org/gradle/api/internal/DefaultNamedDomainObjectCollection.java:145 | the returned position holds the first copy of the element; the store's length means it is absent |
| `Naming.RemoveFirstKeepsNamesDistinct` | subprojects/core/src/main/groovy/org/gradle/api/internal/DefaultNamedDomainObjectCollection.java:142-154 | removing an element keeps pairwise-distinct visible names distinct |
| `NamedCollections.DefaultNamedDomainObjectCollection.HandleAttemptToAddItemWithNonUniqueName` | subprojects/core/src/main/groovy/org/gradle/api/internal/DefaultNamedDomainObjectCollection.java:77-79 | the default duplicate hook changes neither the store nor the rules |
| `NamedCollections.DefaultNamedDomainObjectCollection.TypeDisplayName` | subprojects/core/src/main/groovy/org/gradle/api/internal/DefaultNamedDomainObjectCollection.java:231-233 | the type display name is the element type's simple name, fixed when the collection is made |
| `Messages.NotFoundName` | subprojects/core/src/main/groovy/org/gradle/api/internal/DefaultNamedDomainObjectCollection.java:226-229 | a name read back from a message is one whose not-found message is exactly that message |
| `Messages.ContainerTypeName` | subprojects/core/src/main/groovy/org/gradle/api/internal/DefaultNamedDomainObjectCollection.java:96-98 | a type name read back from a display name is one whose display name is exactly that string |
| `NamedCollections.DefaultNamedDomainObjectCollection.AddRule` | subprojects/core/src/main/groovy/org/gradle/api/internal/DefaultNamedDomainObjectCollection.java:198-201 | appends the rule at the end of the rule list and returns that same rule |
| `NamedCollections.DefaultNamedDomainObjectCollection.AddRuleFor` | subprojects/core/src/main/groovy/org/gradle/api/internal/DefaultNamedDomainObjectCollection.java:203-220 | builds a rule carrying the given description and action, appends it at the end, and returns it |
| `NamedCollections.DefaultNamedDomainObjectCollection.GetRules` | subprojects/core/src/main/groovy/org/gradle/api/internal/DefaultNamedDomainObjectCollection.java:222-224 | the rules in registration order, as a snapshot the caller cannot modify (the source's live view is under "Left out") |

## Left out

- The backing store and its change events belong to `DefaultDomainObjectCollection`, which is not part of
  this model. The store is modelled as a shared ordered sequence: `add` appends and reports a change, and
  `remove` drops the first equal element. Events are not modelled.
- Adding through a filtered view appends to the shared store. The view's own `filteredStore` is not part
  of this model, so the model does not capture how that store rejects or forwards writes.
- `withType` and `matching(Spec)` (lines 108-114) both reach `filtered(createFilter(...))`. They are
  modelled by `Filtered`, with the type test or the spec given as a predicate. `createFilter` and Java's
  runtime type checks are not part of this model.
- The object behind `ClassGenerator.newInstance` (line 93) is modelled as a plain object. It creates a
  runtime subclass; the model constructs the view directly.
- `getByName(name, Closure)`, `getAt` and `matching(Closure)` (lines 116-118, 164-172) are left out. They
  hand closures to `ConfigureUtil` and closure-to-spec conversion, which are foreign code.
- `ContainerDynamicObject` and `ContainerElementsDynamicObject` (lines 235-289) are left out. They are
  Groovy's dynamic property and method dispatch layered over `findByName` and `getAsMap`.
- `getNamer` and `getClassGenerator` (lines 81-87) are plain accessors. `getAsDynamicObject` (lines
  180-182) belongs to the dynamic layer above.
- `getTypeDisplayName` (lines 231-233) is the type's simple name. It is modelled as a constant string
  given at construction. Subclasses that override it, or override the duplicate hook to throw, are not
  modelled.
- The rule's `toString` (lines 213-216) is diagnostic text only.
- GetRules: the source returns `Collections.unmodifiableList(rules)`, a read-only view that later `addRule`
  calls show through. The model returns the rule sequence as a snapshot, so a caller's copy does not see
  rules added afterwards.
- Rules are data, and this limits what a rule can do:
  - A rule's `action` is a pure function of the requested name. It cannot consult the store or the
    collection's state before acting.
  - Each application does at most one thing: one `add` or one throw. Rules that add several elements,
    or that add and then throw, are not modelled.
  - A rule's nested lookup, when it has one, is for the name it was asked about. Rules that look up other
    names, or that register further rules while running, are not modelled.
- `StringOrder.Less` compares Unicode scalar values. Java compares UTF-16 code units, so the two orders can
  differ for characters outside the Basic Multilingual Plane.
- Renaming an element after insertion is out of scope. The namer is a pure function of the element's
  value, so names cannot change.
- `OutputClearingTaskOutputPacker` is left out. It only does file-system I/O and delegates to an inner
  packer.
