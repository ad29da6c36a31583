/**
 * `DefaultNamedDomainObjectCollection`: a collection over an ordered backing store
 * that keeps element names unique on `add`, looks elements up by name, and on a miss
 * lets its rules create the missing element, guarded against re-entrant resolution
 * of a name that is already being resolved.
 */
module NamedCollections {
  import opened Results
  import opened Naming
  import opened Rules
  import opened SortedMaps
  import Messages

  /**
   * The ordered backing store the collection is handed. It is shared: a filtered
   * view sees the same store object as the collection it was made from.
   */
  class Store<T(==)> {
    var elements: seq<T>

    constructor(initial: seq<T>)
      ensures elements == initial
    {
      elements := initial;
    }

    /** `store.add(o)` on a list: appends and reports a change. */
    method Add(o: T) returns (changed: bool)
      modifies this
      ensures elements == old(elements) + [o] && changed
    {
      elements := elements + [o];
      changed := true;
    }

    /** `store.remove(o)`: drops the first equal element and reports whether there was one. */
    method Remove(o: T) returns (changed: bool)
      modifies this
      ensures changed == (o in old(elements))
      ensures elements == RemoveFirst(old(elements), o)
    {
      changed := o in elements;
      elements := RemoveFirst(elements, o);
    }
  }

  class DefaultNamedDomainObjectCollection<T(==)> {
    /** The simple name of the element type, which `getTypeDisplayName` reports. */
    const typeName: string
    const backing: Store<T>
    /** Which elements of the backing store this collection sees: all of them, or a view's filter. */
    const filter: T -> bool
    const namer: T -> string
    var rules: seq<Rule<T>>
    /** The names whose rules are running right now. */
    var applyingRulesFor: set<string>
    /** Every `rule.apply(name)` this collection has made, oldest first. */
    ghost var applications: seq<Application<T>>

    /** What iterating over `getStore()` yields. */
    function Elements(): (r: seq<T>)
      reads backing
      ensures |r| <= |backing.elements|
      ensures forall o :: o in r ==> o in backing.elements && filter(o)
      ensures forall o :: o in backing.elements && filter(o) ==> o in r
    {
      Filter(backing.elements, filter)
    }

    /** A collection over the whole of `store`. */
    constructor(typeName: string, store: Store<T>, namer: T -> string)
      ensures this.typeName == typeName && backing == store && this.namer == namer
      ensures forall o :: filter(o)
      ensures Elements() == store.elements
      ensures rules == [] && applyingRulesFor == {} && applications == []
    {
      this.typeName := typeName;
      backing := store;
      filter := _ => true;
      this.namer := namer;
      rules := [];
      applyingRulesFor := {};
      applications := [];
      new;
      FilterAll(store.elements, filter);
    }

    /**
     * A view over what `parent` sees, narrowed by `f`: same backing store and namer,
     * a rule list of its own that starts empty.
     */
    constructor FilteredFrom(parent: DefaultNamedDomainObjectCollection<T>, typeName: string, f: T -> bool)
      ensures backing == parent.backing && forall o :: filter(o) == (parent.filter(o) && f(o))
      ensures this.typeName == typeName && namer == parent.namer
      ensures Elements() == Filter(parent.Elements(), f)
      ensures rules == [] && applyingRulesFor == {} && applications == []
    {
      this.typeName := typeName;
      backing := parent.backing;
      var pf := parent.filter;
      filter := o => pf(o) && f(o);
      namer := parent.namer;
      rules := [];
      applyingRulesFor := {};
      applications := [];
      new;
      FilterCompose(backing.elements, pf, f, filter);
    }

    /** `filtered(filter)`, which `withType` and `matching` reach: a fresh view of this collection. */
    method Filtered(typeName: string, f: T -> bool) returns (view: DefaultNamedDomainObjectCollection<T>)
      ensures fresh(view) && view.backing == backing && forall o :: view.filter(o) == (filter(o) && f(o))
      ensures view.typeName == typeName && view.namer == namer
      ensures view.rules == [] && view.applyingRulesFor == {} && view.applications == []
      ensures view.Elements() == Filter(Elements(), f)
    {
      view := new DefaultNamedDomainObjectCollection.FilteredFrom(this, typeName, f);
    }

    /** Looks the store up by name, in store order, without consulting any rule. */
    method FindByNameWithoutRules(name: string) returns (r: Option<T>)
      ensures r == FirstNamed(Elements(), namer, name)
    {
      var elems := Elements();
      var i := 0;
      while i < |elems|
        invariant 0 <= i <= |elems|
        invariant forall j :: 0 <= j < i ==> namer(elems[j]) != name
      {
        if name == namer(elems[i]) {
          return Some(elems[i]);
        }
        i := i + 1;
      }
      return None;
    }

    method HasWithName(name: string) returns (b: bool)
      ensures b <==> exists j :: 0 <= j < |Elements()| && namer(Elements()[j]) == name
      ensures b == FirstNamed(Elements(), namer, name).Some?
    {
      var found := FindByNameWithoutRules(name);
      b := found.Some?;
    }

    /** The hook for an add whose name is taken; this collection does nothing there. */
    method HandleAttemptToAddItemWithNonUniqueName(o: T)
      ensures backing.elements == old(backing.elements) && rules == old(rules)
    {
    }

    /** Adds `o` unless an element this collection sees already carries its name. */
    method Add(o: T) returns (added: bool)
      modifies backing
      ensures added <==> forall j :: 0 <= j < |old(Elements())| ==> namer(old(Elements())[j]) != namer(o)
      ensures backing.elements == if added then old(backing.elements) + [o] else old(backing.elements)
      ensures backing.elements == AddEffect(old(backing.elements), filter, namer, o)
      ensures NamesDistinct(old(Elements()), namer) ==> NamesDistinct(Elements(), namer)
    {
      if NamesDistinct(Elements(), namer) {
        AddKeepsNamesDistinct(backing.elements, filter, namer, o);
      }
      var taken := HasWithName(namer(o));
      if !taken {
        added := backing.Add(o);
      } else {
        HandleAttemptToAddItemWithNonUniqueName(o);
        added := false;
      }
    }

    /** `rule.apply(name)`, run against this collection while `name` is being resolved. */
    method ApplyRule(rule: Rule<T>, name: string) returns (outcome: Outcome)
      requires name in applyingRulesFor
      modifies this, backing
      decreases 0, 3
      ensures rules == old(rules) && applyingRulesFor == old(applyingRulesFor)
      ensures applications == old(applications) + [Application(rule, name)]
      ensures Step(backing.elements, outcome) == StepRule(old(backing.elements), filter, namer, rule, name)
    {
      applications := applications + [Application(rule, name)];
      if rule.reentrant {
        var _ := FindByName(name);
      }
      match rule.action(name)
      case Ignore =>
        outcome := Pass;
      case Create(o) =>
        var _ := Add(o);
        outcome := Pass;
      case Throw(m) =>
        outcome := Fail(m);
    }

    /**
     * Runs every rule for `name`, in registration order, unless `name` is already
     * being resolved; the guard is released however the rules end.
     */
    method ApplyRules(name: string) returns (outcome: Outcome)
      modifies this, backing
      decreases if name in applyingRulesFor then 0 else 1, 1
      ensures rules == old(rules) && applyingRulesFor == old(applyingRulesFor)
      ensures name in old(applyingRulesFor) ==>
        backing.elements == old(backing.elements) && applications == old(applications) && outcome == Pass
      ensures name !in old(applyingRulesFor) ==>
        var run := RunRules(old(backing.elements), filter, namer, old(rules), name);
        backing.elements == run.store && outcome == run.outcome &&
        applications == old(applications) + Invocations(old(rules)[..run.ran], name)
    {
      if name in applyingRulesFor {
        return Pass;
      }
      applyingRulesFor := applyingRulesFor + {name};
      var rs := rules;
      var i := 0;
      outcome := Pass;
      while i < |rs| && outcome.Pass?
        invariant 0 <= i <= |rs|
        invariant rules == rs == old(rules) && applyingRulesFor == old(applyingRulesFor) + {name}
        invariant RunRules(old(backing.elements), filter, namer, rs[..i], name) == RulesRun(backing.elements, i, outcome)
        invariant applications == old(applications) + Invocations(rs[..i], name)
      {
        outcome := ApplyRule(rs[i], name);
        assert rs[..i + 1][..i] == rs[..i];
        i := i + 1;
      }
      if outcome.Fail? {
        RunRulesStopsAtFailure(old(backing.elements), filter, namer, rs, name, i);
      } else {
        assert rs[..i] == rs;
      }
      applyingRulesFor := applyingRulesFor - {name};
    }

    /** A direct lookup; on a miss, the rules run once and the direct lookup is retried once. */
    method FindByName(name: string) returns (r: Result<Option<T>>)
      modifies this, backing
      decreases if name in applyingRulesFor then 0 else 1, 2
      ensures rules == old(rules) && applyingRulesFor == old(applyingRulesFor)
      ensures var res := Resolve(old(backing.elements), filter, namer, old(rules), old(applyingRulesFor), name);
        backing.elements == res.store && r == res.result &&
        applications == old(applications) + Invocations(old(rules)[..res.ran], name)
      ensures NamesDistinct(old(Elements()), namer) ==> NamesDistinct(Elements(), namer)
    {
      if NamesDistinct(Elements(), namer) {
        ResolveKeepsNamesDistinct(backing.elements, filter, namer, rules, applyingRulesFor, name);
      }
      var value := FindByNameWithoutRules(name);
      if value.Some? {
        return Success(value);
      }
      var outcome := ApplyRules(name);
      if outcome.Fail? {
        return Failure(RuleFailure(outcome.message));
      }
      value := FindByNameWithoutRules(name);
      r := Success(value);
    }

    /** The simple name of the element type, fixed when the collection is made. */
    function TypeDisplayName(): (t: string)
      ensures t == typeName
    {
      typeName
    }

    function DisplayName(): (d: string)
      ensures Messages.ContainerTypeName(d) == Some(TypeDisplayName())
    {
      Messages.DisplayNameRoundTrip(TypeDisplayName());
      Messages.DisplayName(TypeDisplayName())
    }

    function CreateNotFoundException(name: string): (e: Error)
      ensures e.UnknownDomainObject? && Messages.NotFoundName(TypeDisplayName(), e.message) == Some(name)
    {
      Messages.NotFoundMessageNamesTheName(TypeDisplayName(), name);
      UnknownDomainObject(Messages.NotFoundMessage(TypeDisplayName(), name))
    }

    /** `findByName`, with an absent result turned into the not-found exception. */
    method GetByName(name: string) returns (r: Result<T>)
      modifies this, backing
      ensures rules == old(rules) && applyingRulesFor == old(applyingRulesFor)
      ensures var res := Resolve(old(backing.elements), filter, namer, old(rules), old(applyingRulesFor), name);
        backing.elements == res.store &&
        applications == old(applications) + Invocations(old(rules)[..res.ran], name) &&
        r == match res.result
             case Success(Some(o)) => Success(o)
             case Success(None) => Failure(CreateNotFoundException(name))
             case Failure(e) => Failure(e)
      ensures r.Success? ==> r.value in Elements() && namer(r.value) == name
      ensures NamesDistinct(old(Elements()), namer) ==> NamesDistinct(Elements(), namer)
    {
      var t := FindByName(name);
      match t
      case Success(Some(o)) =>
        r := Success(o);
      case Success(None) =>
        r := Failure(CreateNotFoundException(name));
      case Failure(e) =>
        r := Failure(e);
    }

    /** `getByName(name)` (rules included), then the element found is removed from the store. */
    method RemoveByName(name: string) returns (r: Result<T>)
      modifies this, backing
      ensures rules == old(rules) && applyingRulesFor == old(applyingRulesFor)
      ensures var res := Resolve(old(backing.elements), filter, namer, old(rules), old(applyingRulesFor), name);
        applications == old(applications) + Invocations(old(rules)[..res.ran], name) &&
        match res.result
        case Success(Some(o)) => r == Success(o) && backing.elements == RemoveFirst(res.store, o)
        case Success(None) => r == Failure(CreateNotFoundException(name)) && backing.elements == res.store
        case Failure(e) => r == Failure(e) && backing.elements == res.store
      ensures r.Success? ==> namer(r.value) == name
      ensures NamesDistinct(old(Elements()), namer) ==> NamesDistinct(Elements(), namer)
    {
      var got := GetByName(name);
      if got.Failure? {
        return Failure(got.error);
      }
      var it := got.value;
      ghost var found := backing.elements;
      var removed := backing.Remove(it);
      if NamesDistinct(Filter(found, filter), namer) {
        RemoveFirstKeepsNamesDistinct(found, filter, namer, it);
      }
      if !removed {
        // The element was just found in the store, so remove() cannot report false.
        assert false;
      }
      r := Success(it);
    }

    /** `getAsMap`: the store's elements keyed by name, in key order, built in one pass over the store. */
    method GetAsMap() returns (m: seq<Entry<T>>)
      ensures Sorted(m)
      ensures Keys(m) == NameSet(Elements(), namer)
      ensures forall k :: Get(m, k) == LastNamed(Elements(), namer, k)
    {
      var elems := Elements();
      m := [];
      for i := 0 to |elems|
        invariant Sorted(m)
        invariant Keys(m) == NameSet(elems[..i], namer)
        invariant forall k :: Get(m, k) == LastNamed(elems[..i], namer, k)
      {
        assert elems[..i + 1] == elems[..i] + [elems[i]];
        NameSetAppend(elems[..i], elems[i], namer);
        m := Put(m, namer(elems[i]), elems[i]);
      }
      assert elems[..|elems|] == elems;
    }

    /** Appends `rule` to the rule list and hands it back. */
    method AddRule(rule: Rule<T>) returns (r: Rule<T>)
      modifies this
      ensures rules == old(rules) + [rule] && r == rule
      ensures applyingRulesFor == old(applyingRulesFor) && applications == old(applications)
    {
      rules := rules + [rule];
      r := rule;
    }

    /** `addRule(description, closure)`: builds a rule from a description and an action, appends it, hands it back. */
    method AddRuleFor(description: string, reentrant: bool, action: string -> RuleAction<T>) returns (r: Rule<T>)
      modifies this
      ensures r.description == description && r.reentrant == reentrant && r.action == action
      ensures rules == old(rules) + [r]
      ensures applyingRulesFor == old(applyingRulesFor) && applications == old(applications)
    {
      r := Rule(description, reentrant, action);
      rules := rules + [r];
    }

    /** The rules in registration order; a sequence is a value, so the caller cannot change them. */
    method GetRules() returns (r: seq<Rule<T>>)
      ensures r == rules
    {
      r := rules;
    }
  }

  /** A view never copies: whatever the shared store holds now, the view sees the parent's elements filtered by `f`. */
  lemma ViewTracksParent<T>(view: DefaultNamedDomainObjectCollection<T>,
                                parent: DefaultNamedDomainObjectCollection<T>, f: T -> bool)
    requires view.backing == parent.backing
    requires forall o :: view.filter(o) == (parent.filter(o) && f(o))
    ensures view.Elements() == Filter(parent.Elements(), f)
  {
    FilterCompose(parent.backing.elements, parent.filter, f, view.filter);
  }
}
