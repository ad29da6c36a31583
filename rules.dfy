/**
 * Rules and rule-based name resolution, as values.
 *
 * A rule is data: a description, whether it looks the requested name up again
 * through `findByName` before acting (a rule that hands off to a factory which
 * consults the container does), and what it then does for a requested name:
 * nothing, `add` an element, or throw.
 */
module Rules {
  import opened Results
  import opened Naming

  datatype RuleAction<T> = Ignore | Create(element: T) | Throw(message: string)

  datatype Rule<T> = Rule(description: string, reentrant: bool, action: string -> RuleAction<T>)

  /** One call `rule.apply(name)`. */
  datatype Application<T> = Application(rule: Rule<T>, name: string)

  /** The store and outcome after one rule. */
  datatype Step<T> = Step(store: seq<T>, outcome: Outcome)

  /** The store after a run of the rule list, how many rules were invoked, and how the run ended. */
  datatype RulesRun<T> = RulesRun(store: seq<T>, ran: nat, outcome: Outcome)

  /** What `findByName` leaves behind: the store, how many rules it invoked, and its result. */
  datatype Resolution<T> = Resolution(store: seq<T>, ran: nat, result: Result<Option<T>>)

  /** The effect on the backing store of `rule.apply(name)` on a collection that sees `Filter(s, f)`. */
  function StepRule<T>(s: seq<T>, f: T -> bool, namer: T -> string, rule: Rule<T>, name: string): (st: Step<T>)
    ensures s <= st.store
    ensures st.outcome.Fail? <==> rule.action(name).Throw?
  {
    match rule.action(name)
    case Ignore => Step(s, Pass)
    case Create(o) => Step(AddEffect(s, f, namer, o), Pass)
    case Throw(m) => Step(s, Fail(m))
  }

  /**
   * The loop of `applyRules` over the rule list: rules run in registration order
   * until one throws, and the throw ends the loop.
   */
  function RunRules<T>(s: seq<T>, f: T -> bool, namer: T -> string, rules: seq<Rule<T>>, name: string): (r: RulesRun<T>)
    ensures r.ran <= |rules|
    ensures s <= r.store
    ensures r.outcome.Pass? ==> r.ran == |rules|
    ensures r.outcome.Pass? ==> forall j :: 0 <= j < |rules| ==> !rules[j].action(name).Throw?
    ensures r.outcome.Fail? ==> 0 < r.ran && rules[r.ran - 1].action(name) == Throw(r.outcome.message)
    ensures r.outcome.Fail? ==> forall j :: 0 <= j < r.ran - 1 ==> !rules[j].action(name).Throw?
    decreases |rules|
  {
    if rules == [] then RulesRun(s, 0, Pass)
    else
      var init := rules[..|rules| - 1];
      var prev := RunRules(s, f, namer, init, name);
      if prev.outcome.Fail? then
        assert forall j :: 0 <= j < prev.ran ==> rules[j] == init[j];
        prev
      else
        var st := StepRule(prev.store, f, namer, rules[|rules| - 1], name);
        assert forall j :: 0 <= j < |init| ==> rules[j] == init[j];
        RulesRun(st.store, |rules|, st.outcome)
  }

  /** The calls `rule.apply(name)` for each rule of `rules`, in order. */
  ghost function Invocations<T>(rules: seq<Rule<T>>, name: string): (r: seq<Application<T>>)
    ensures |r| == |rules|
    ensures forall j :: 0 <= j < |rules| ==> r[j] == Application(rules[j], name)
    decreases |rules|
  {
    if rules == [] then []
    else Invocations(rules[..|rules| - 1], name) + [Application(rules[|rules| - 1], name)]
  }

  /** Once a prefix of the rules has thrown, the rules after it change nothing. */
  lemma {:induction false} RunRulesStopsAtFailure<T>(s: seq<T>, f: T -> bool, namer: T -> string,
                                                     rules: seq<Rule<T>>, name: string, i: nat)
    requires i <= |rules|
    requires RunRules(s, f, namer, rules[..i], name).outcome.Fail?
    ensures RunRules(s, f, namer, rules, name) == RunRules(s, f, namer, rules[..i], name)
    decreases |rules| - i
  {
    if i < |rules| {
      var init := rules[..|rules| - 1];
      assert init[..i] == rules[..i];
      RunRulesStopsAtFailure(s, f, namer, init, name, i);
    } else {
      assert rules[..i] == rules;
    }
  }

  /** Rules add only through the name-checked `add`, so they never break name uniqueness. */
  lemma {:induction false} RunRulesKeepsNamesDistinct<T>(s: seq<T>, f: T -> bool, namer: T -> string,
                                                         rules: seq<Rule<T>>, name: string)
    requires NamesDistinct(Filter(s, f), namer)
    ensures NamesDistinct(Filter(RunRules(s, f, namer, rules, name).store, f), namer)
    decreases |rules|
  {
    if rules != [] {
      var init := rules[..|rules| - 1];
      RunRulesKeepsNamesDistinct(s, f, namer, init, name);
      var prev := RunRules(s, f, namer, init, name);
      if prev.outcome.Pass? {
        match rules[|rules| - 1].action(name)
        case Create(o) => AddKeepsNamesDistinct(prev.store, f, namer, o);
        case Ignore =>
        case Throw(_) =>
      }
    }
  }

  /**
   * Once a rule that ran has created an element carrying the requested name and
   * visible through the filter, some visible element carries that name afterwards
   * (the created one, or one that was added before it and made the add a no-op).
   */
  lemma {:induction false} CreatedNameIsVisible<T>(s: seq<T>, f: T -> bool, namer: T -> string,
                                                   rules: seq<Rule<T>>, name: string, j: nat)
    requires j < RunRules(s, f, namer, rules, name).ran
    requires rules[j].action(name).Create?
    requires namer(rules[j].action(name).element) == name && f(rules[j].action(name).element)
    ensures FirstNamed(Filter(RunRules(s, f, namer, rules, name).store, f), namer, name).Some?
    decreases |rules|
  {
    var init := rules[..|rules| - 1];
    var prev := RunRules(s, f, namer, init, name);
    var r := RunRules(s, f, namer, rules, name);
    if prev.outcome.Fail? {
      assert init[j] == rules[j];
      CreatedNameIsVisible(s, f, namer, init, name, j);
    } else if j == |rules| - 1 {
      var o := rules[j].action(name).element;
      if FirstNamed(Filter(prev.store, f), namer, name).None? {
        assert r.store == prev.store + [o];
        FilterAppend(prev.store, o, f);
        assert Filter(r.store, f)[|Filter(prev.store, f)|] == o;
      } else {
        assert r.store == prev.store;
      }
    } else {
      assert init[j] == rules[j];
      CreatedNameIsVisible(s, f, namer, init, name, j);
      var found := FirstNamed(Filter(prev.store, f), namer, name).value;
      assert found in Filter(r.store, f);
    }
  }

  /**
   * `findByName(name)` against store `s` with the names in `guard` currently being resolved:
   * a direct hit is returned as is; otherwise, unless `name` is already being resolved,
   * the rules run once and the direct lookup is retried once.
   */
  function Resolve<T>(s: seq<T>, f: T -> bool, namer: T -> string, rules: seq<Rule<T>>,
                      guard: set<string>, name: string): (r: Resolution<T>)
    ensures s <= r.store && r.ran <= |rules|
    ensures FirstNamed(Filter(s, f), namer, name).Some? || name in guard ==>
      r == Resolution(s, 0, Success(FirstNamed(Filter(s, f), namer, name)))
    ensures r.result.Success? && r.result.value.Some? ==>
      r.result.value.value in Filter(r.store, f) && namer(r.result.value.value) == name
    ensures r.result == Success(None) ==> forall o :: o in Filter(r.store, f) ==> namer(o) != name
    ensures rules == [] ==> r == Resolution(s, 0, Success(FirstNamed(Filter(s, f), namer, name)))
  {
    var direct := FirstNamed(Filter(s, f), namer, name);
    if direct.Some? || name in guard then Resolution(s, 0, Success(direct))
    else
      var run := RunRules(s, f, namer, rules, name);
      match run.outcome
      case Fail(m) => Resolution(run.store, run.ran, Failure(RuleFailure(m)))
      case Pass => Resolution(run.store, run.ran, Success(FirstNamed(Filter(run.store, f), namer, name)))
  }

  /** Resolution, rules included, keeps the names of the visible elements pairwise distinct. */
  lemma ResolveKeepsNamesDistinct<T>(s: seq<T>, f: T -> bool, namer: T -> string, rules: seq<Rule<T>>,
                                     guard: set<string>, name: string)
    requires NamesDistinct(Filter(s, f), namer)
    ensures NamesDistinct(Filter(Resolve(s, f, namer, rules, guard, name).store, f), namer)
  {
    RunRulesKeepsNamesDistinct(s, f, namer, rules, name);
  }

  /**
   * If some rule creates a visible element with the requested name and no rule up to
   * it throws, `findByName` does not come back empty-handed.
   */
  lemma ResolveFindsCreated<T>(s: seq<T>, f: T -> bool, namer: T -> string, rules: seq<Rule<T>>,
                               guard: set<string>, name: string, j: nat)
    requires name !in guard
    requires j < |rules| && rules[j].action(name).Create?
    requires namer(rules[j].action(name).element) == name && f(rules[j].action(name).element)
    requires forall i :: 0 <= i <= j ==> !rules[i].action(name).Throw?
    ensures var r := Resolve(s, f, namer, rules, guard, name);
      r.result.Failure? || r.result.value.Some?
  {
    var run := RunRules(s, f, namer, rules, name);
    if FirstNamed(Filter(s, f), namer, name).None? && run.outcome.Pass? {
      CreatedNameIsVisible(s, f, namer, rules, name, j);
    }
  }

  /** With only rules that ignore `name`, a lookup leaves the store alone and returns the direct lookup. */
  lemma {:induction false} IgnoringRulesChangeNothing<T>(s: seq<T>, f: T -> bool, namer: T -> string,
                                                         rules: seq<Rule<T>>, name: string)
    requires forall i :: 0 <= i < |rules| ==> rules[i].action(name).Ignore?
    ensures RunRules(s, f, namer, rules, name) == RulesRun(s, |rules|, Pass)
    decreases |rules|
  {
    if rules != [] {
      IgnoringRulesChangeNothing(s, f, namer, rules[..|rules| - 1], name);
    }
  }
}
