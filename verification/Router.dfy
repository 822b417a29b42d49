/** First-match routing of requests to backends. */
module Router {
  import opened Bytes
  import opened Pdu
  import opened PduLaws

  /** A list entry: the wildcard or a code. */
  datatype Pattern = Any | Exactly(value: int)

  datatype Operation = Read | Write

  datatype Range = Range(start: Option<int>, end: Option<int>)

  datatype Match = Match(
    unitIds: Option<seq<Pattern>>,
    functionCodes: Option<seq<Pattern>>,
    operations: Option<seq<Operation>>,
    registerRange: Option<Range>)

  datatype Rule = Rule(frontend: string, backend: string, match_: Match, unitOverride: Option<int>)

  datatype Plan = Plan(rule: Rule, backend: string, unit: int)

  /**
    * What the `register` attribute of a request yields: nothing, a number, or (for a raw request,
    * whose class inherits a classmethod of that name) a bound method that cannot be compared.
    */
  datatype RegisterValue = NoRegister | Register(address: int) | BoundMethod

  datatype Query = Query(
    frontend: string,
    unit: int,
    functionCode: int,
    operation: Option<Operation>,
    register: RegisterValue)

  /** Comparing a bound method with a number raises. */
  datatype Verdict = Yes | No | Raises

  datatype Resolution = Routed(plan: Plan) | Unrouted | LookupRaised

  function OperationOf(code: int): Option<Operation> {
    if code in {1, 2, 3, 4} then Some(Read)
    else if code in {5, 6, 15, 16} then Some(Write)
    else None
  }

  function RegisterOf(body: RequestBody): RegisterValue {
    if body.RawRequest? then BoundMethod else Register(body.address)
  }

  function QueryOf(frontend: string, m: Request): Query {
    var code := RequestCode(m.body);
    Query(frontend, m.unit, code, OperationOf(code), RegisterOf(m.body))
  }

  predicate MatchList(pattern: Option<seq<Pattern>>, value: int) {
    pattern.Some? ==> Any in pattern.value || Exactly(value) in pattern.value
  }

  predicate MatchOperations(pattern: Option<seq<Operation>>, value: Option<Operation>) {
    pattern.Some? ==> value.Some? && value.value in pattern.value
  }

  function MatchRange(range: Option<Range>, value: RegisterValue): Verdict {
    if range.None? then Yes
    else
      var Range(start, end) := range.value;
      match value
      case NoRegister => No
      case BoundMethod => if start.Some? || end.Some? then Raises else Yes
      case Register(a) =>
        if (start.Some? ==> start.value <= a) && (end.Some? ==> a <= end.value) then Yes else No
  }

  /** Everything checked before the register range. */
  predicate MatchesKind(rule: Rule, q: Query) {
    && rule.frontend == q.frontend
    && MatchList(rule.match_.unitIds, q.unit)
    && MatchList(rule.match_.functionCodes, q.functionCode)
    && MatchOperations(rule.match_.operations, q.operation)
  }

  function Matches(rule: Rule, q: Query): Verdict {
    if MatchesKind(rule, q) then MatchRange(rule.match_.registerRange, q.register) else No
  }

  function PlanFor(rule: Rule, q: Query): Plan {
    Plan(rule, rule.backend, if rule.unitOverride.Some? then rule.unitOverride.value else q.unit)
  }

  function Resolve(rules: seq<Rule>, q: Query): Resolution {
    if rules == [] then Unrouted
    else
      match Matches(rules[0], q)
      case Yes => Routed(PlanFor(rules[0], q))
      case No => Resolve(rules[1..], q)
      case Raises => LookupRaised
  }

  class RouterTable {
    var rules: seq<Rule>

    constructor ()
      ensures rules == []
    {
      rules := [];
    }

    method AddRule(rule: Rule)
      modifies this
      ensures rules == old(rules) + [rule]
    {
      rules := rules + [rule];
    }

    method Clear()
      modifies this
      ensures rules == []
    {
      rules := [];
    }

    method Lookup(q: Query) returns (r: Resolution)
      ensures r == Resolve(rules, q)
    {
      for i := 0 to |rules|
        invariant Resolve(rules, q) == Resolve(rules[i..], q)
      {
        var rule := rules[i];
        match Matches(rule, q) {
          case Yes => return Routed(PlanFor(rule, q));
          case Raises => return LookupRaised;
          case No =>
        }
        assert rules[i..][1..] == rules[i + 1..];
      }
      r := Unrouted;
    }
  }

  // ---------------------------------------------------------------------------
  // The least matching rule decides
  // ---------------------------------------------------------------------------

  /** `i` is the first rule whose check does not come out negative. */
  predicate FirstHit(rules: seq<Rule>, q: Query, i: nat) {
    i < |rules| && !Matches(rules[i], q).No? && forall j | 0 <= j < i :: Matches(rules[j], q).No?
  }

  lemma {:induction false} ResolveAtFirstHit(rules: seq<Rule>, q: Query, i: nat)
    requires FirstHit(rules, q, i)
    ensures Resolve(rules, q) == if Matches(rules[i], q).Yes? then Routed(PlanFor(rules[i], q)) else LookupRaised
  {
    if i > 0 {
      assert forall j | 0 <= j < i - 1 :: rules[1..][j] == rules[j + 1];
      ResolveAtFirstHit(rules[1..], q, i - 1);
    }
  }

  lemma {:induction false} ResolveUnrouted(rules: seq<Rule>, q: Query)
    ensures Resolve(rules, q) == Unrouted <==> forall j | 0 <= j < |rules| :: Matches(rules[j], q).No?
  {
    if rules != [] {
      ResolveUnrouted(rules[1..], q);
      assert forall j | 0 <= j < |rules| - 1 :: rules[1..][j] == rules[j + 1];
      if Matches(rules[0], q).No? && forall j | 0 <= j < |rules| - 1 :: Matches(rules[1..][j], q).No? {
        forall j | 0 <= j < |rules|
          ensures Matches(rules[j], q).No?
        {
          if j > 0 {
            assert rules[1..][j - 1] == rules[j];
          }
        }
      }
    }
  }

  lemma {:induction false} FirstHitExists(rules: seq<Rule>, q: Query) returns (i: nat)
    requires Resolve(rules, q) != Unrouted
    ensures FirstHit(rules, q, i)
  {
    if Matches(rules[0], q).No? {
      var k := FirstHitExists(rules[1..], q);
      i := k + 1;
      assert forall j | 0 < j < i :: rules[j] == rules[1..][j - 1];
    } else {
      i := 0;
    }
  }

  /** The plan is that of the least-index matching rule, and every plan is. */
  lemma RoutedIffFirstMatch(rules: seq<Rule>, q: Query, plan: Plan)
    ensures Resolve(rules, q) == Routed(plan)
            <==> exists i: nat :: FirstHit(rules, q, i) && Matches(rules[i], q).Yes? && plan == PlanFor(rules[i], q)
  {
    if Resolve(rules, q) == Routed(plan) {
      var i := FirstHitExists(rules, q);
      ResolveAtFirstHit(rules, q, i);
      assert FirstHit(rules, q, i);
    }
    if i: nat :| FirstHit(rules, q, i) && Matches(rules[i], q).Yes? && plan == PlanFor(rules[i], q) {
      ResolveAtFirstHit(rules, q, i);
    }
  }

  /** Lookup raises exactly for a raw request whose first hit bounds the register. */
  lemma RaisesExactly(rules: seq<Rule>, frontend: string, m: Request)
    ensures var q := QueryOf(frontend, m);
            Resolve(rules, q) == LookupRaised
            <==> m.body.RawRequest? && exists i: nat :: FirstHit(rules, q, i) && Bounded(rules[i])
  {
    var q := QueryOf(frontend, m);
    if Resolve(rules, q) == LookupRaised {
      var i := FirstHitExists(rules, q);
      ResolveAtFirstHit(rules, q, i);
      assert FirstHit(rules, q, i) && Bounded(rules[i]);
    }
    if m.body.RawRequest? {
      if i: nat :| FirstHit(rules, q, i) && Bounded(rules[i]) {
        ResolveAtFirstHit(rules, q, i);
      }
    }
  }

  predicate Bounded(rule: Rule) {
    rule.match_.registerRange.Some? &&
    (rule.match_.registerRange.value.start.Some? || rule.match_.registerRange.value.end.Some?)
  }

  // ---------------------------------------------------------------------------
  // What a rule asks of a request
  // ---------------------------------------------------------------------------

  /** Frontend, unit, function code and operation: 1 to 4 read, 5, 6, 15 and 16 write, others are neither. */
  predicate Admits(rule: Rule, frontend: string, m: Request) {
    var Match(units, codes, operations, _) := rule.match_;
    var code := RequestCode(m.body);
    && rule.frontend == frontend
    && (units.Some? ==> Any in units.value || Exactly(m.unit) in units.value)
    && (codes.Some? ==> Any in codes.value || Exactly(code) in codes.value)
    && (operations.Some? ==>
          || (Read in operations.value && 1 <= code <= 4)
          || (Write in operations.value && (code == 5 || code == 6 || code == 15 || code == 16)))
  }

  /** The bounds that are given hold, both inclusive; a raw request has no address to hold against them. */
  predicate Covers(range: Option<Range>, body: RequestBody) {
    range.Some? && !body.RawRequest? ==>
      && (range.value.start.Some? ==> range.value.start.value <= body.address)
      && (range.value.end.Some? ==> body.address <= range.value.end.value)
  }

  predicate Takes(rule: Rule, frontend: string, m: Request) {
    Admits(rule, frontend, m) && Covers(rule.match_.registerRange, m.body)
  }

  predicate TakesFirst(rules: seq<Rule>, frontend: string, m: Request, i: nat) {
    i < |rules| && Takes(rules[i], frontend, m) && forall j | 0 <= j < i :: !Takes(rules[j], frontend, m)
  }

  lemma TakesIsHit(rule: Rule, frontend: string, m: Request)
    ensures Takes(rule, frontend, m) <==> !Matches(rule, QueryOf(frontend, m)).No?
    ensures Matches(rule, QueryOf(frontend, m)).Raises? <==>
              Takes(rule, frontend, m) && m.body.RawRequest? && Bounded(rule)
  {
  }

  lemma FirstHitTakes(rules: seq<Rule>, frontend: string, m: Request, i: nat)
    ensures TakesFirst(rules, frontend, m, i) <==> FirstHit(rules, QueryOf(frontend, m), i)
  {
    forall j | 0 <= j < |rules|
      ensures Takes(rules[j], frontend, m) <==> !Matches(rules[j], QueryOf(frontend, m)).No?
    {
      TakesIsHit(rules[j], frontend, m);
    }
  }

  /** Rule, backend, and the rule's unit if it sets one, else the request's own. */
  predicate IsPlan(plan: Plan, rule: Rule, m: Request) {
    && plan.rule == rule && plan.backend == rule.backend
    && plan.unit == match rule.unitOverride case Some(unit) => unit case None => m.unit
  }

  /** A request goes by the first rule that takes it, unless it is raw and that rule bounds the register. */
  lemma RoutedExactly(rules: seq<Rule>, frontend: string, m: Request, plan: Plan)
    ensures Resolve(rules, QueryOf(frontend, m)) == Routed(plan) <==>
            exists i: nat ::
              && TakesFirst(rules, frontend, m, i) && IsPlan(plan, rules[i], m)
              && !(m.body.RawRequest? && Bounded(rules[i]))
  {
    var q := QueryOf(frontend, m);
    if Resolve(rules, q) == Routed(plan) {
      var i := FirstHitExists(rules, q);
      ResolveAtFirstHit(rules, q, i);
      FirstHitTakes(rules, frontend, m, i);
      TakesIsHit(rules[i], frontend, m);
      assert IsPlan(plan, rules[i], m);
    }
    if i: nat :| TakesFirst(rules, frontend, m, i) && IsPlan(plan, rules[i], m)
                 && !(m.body.RawRequest? && Bounded(rules[i])) {
      FirstHitTakes(rules, frontend, m, i);
      TakesIsHit(rules[i], frontend, m);
      ResolveAtFirstHit(rules, q, i);
    }
  }

  lemma UnroutedExactly(rules: seq<Rule>, frontend: string, m: Request)
    ensures Resolve(rules, QueryOf(frontend, m)) == Unrouted <==>
            forall i | 0 <= i < |rules| :: !Takes(rules[i], frontend, m)
  {
    ResolveUnrouted(rules, QueryOf(frontend, m));
    forall i | 0 <= i < |rules|
      ensures Takes(rules[i], frontend, m) <==> !Matches(rules[i], QueryOf(frontend, m)).No?
    {
      TakesIsHit(rules[i], frontend, m);
    }
  }

  /** A function code 7 request meets a rule for registers 1 to 9. */
  lemma RawRequestRaises(frontend: string, backend: string)
    ensures var rule := Rule(frontend, backend, Match(None, None, None, Some(Range(Some(1), Some(9)))), None);
            Resolve([rule], QueryOf(frontend, Request(1, RawRequest([], 7)))) == LookupRaised
  {
  }

  // ---------------------------------------------------------------------------
  // Which tables a received request can make raise
  // ---------------------------------------------------------------------------

  /** How a rule meets an unregistered function code, which has no operation. */
  predicate MatchesRaw(rule: Rule, frontend: string, unit: int, code: int) {
    && rule.frontend == frontend && rule.match_.operations.None?
    && MatchList(rule.match_.unitIds, unit) && MatchList(rule.match_.functionCodes, code)
  }

  /** The first rule to meet this unit and unregistered code bounds the register. */
  predicate ExposedAt(rules: seq<Rule>, frontend: string, i: nat, unit: int, code: int) {
    && i < |rules| && IsByte(unit) && IsByte(code) && !IsRegistered(code)
    && MatchesRaw(rules[i], frontend, unit, code) && Bounded(rules[i])
    && forall j | 0 <= j < i :: !MatchesRaw(rules[j], frontend, unit, code)
  }

  ghost predicate Exposed(rules: seq<Rule>, frontend: string) {
    exists i: nat, unit, code :: ExposedAt(rules, frontend, i, unit, code)
  }

  ghost predicate Raising(rules: seq<Rule>, frontend: string, m: Request) {
    Receivable(m) && Resolve(rules, QueryOf(frontend, m)) == LookupRaised
  }

  lemma RawFirstHit(rules: seq<Rule>, frontend: string, m: Request, i: nat)
    requires m.body.RawRequest? && !IsRegistered(m.body.code)
    ensures FirstHit(rules, QueryOf(frontend, m), i) <==>
            && i < |rules| && MatchesRaw(rules[i], frontend, m.unit, m.body.code)
            && forall j | 0 <= j < i :: !MatchesRaw(rules[j], frontend, m.unit, m.body.code)
  {
    var q := QueryOf(frontend, m);
    forall j | 0 <= j < |rules|
      ensures Matches(rules[j], q).No? <==> !MatchesRaw(rules[j], frontend, m.unit, m.body.code)
    {
    }
  }

  /** Some request that can arrive makes the lookup raise exactly when the table is exposed. */
  lemma ExposedExactly(rules: seq<Rule>, frontend: string)
    ensures Exposed(rules, frontend) <==> exists m :: Raising(rules, frontend, m)
  {
    if i: nat, unit, code :| ExposedAt(rules, frontend, i, unit, code) {
      var m := Request(unit, RawRequest([], code));
      RawFirstHit(rules, frontend, m, i);
      assert FirstHit(rules, QueryOf(frontend, m), i) && Bounded(rules[i]);
      RaisesExactly(rules, frontend, m);
      assert Raising(rules, frontend, m);
    }
    if m :| Raising(rules, frontend, m) {
      RaisesExactly(rules, frontend, m);
      var i: nat :| FirstHit(rules, QueryOf(frontend, m), i) && Bounded(rules[i]);
      RawFirstHit(rules, frontend, m, i);
      assert ExposedAt(rules, frontend, i, m.unit, m.body.code);
    }
  }

  // ---------------------------------------------------------------------------
  // Editing the rule list
  // ---------------------------------------------------------------------------

  lemma {:induction false} ResolveAppend(rules: seq<Rule>, more: seq<Rule>, q: Query)
    ensures Resolve(rules + more, q) == if Resolve(rules, q) == Unrouted then Resolve(more, q) else Resolve(rules, q)
    decreases |rules|
  {
    if rules == [] {
      assert rules + more == more;
    } else {
      assert (rules + more)[1..] == rules[1..] + more;
      ResolveAppend(rules[1..], more, q);
    }
  }

  /** Every query the rule would decide is decided by an earlier rule. */
  ghost predicate Shadowed(before: seq<Rule>, rule: Rule) {
    forall q | !Matches(rule, q).No? :: Resolve(before, q) != Unrouted
  }

  /** Deleting a shadowed rule changes no result ... */
  lemma ShadowedRuleRemovable(before: seq<Rule>, rule: Rule, after: seq<Rule>, q: Query)
    requires Shadowed(before, rule)
    ensures Resolve(before + [rule] + after, q) == Resolve(before + after, q)
  {
    ResolveMiddle(before, rule, after, q);
  }

  /** ... and deleting an unshadowed last rule does. */
  lemma UnshadowedRuleMatters(before: seq<Rule>, rule: Rule)
    requires !Shadowed(before, rule)
    ensures exists q :: Resolve(before + [rule], q) != Resolve(before, q)
  {
    var q :| !Matches(rule, q).No? && Resolve(before, q) == Unrouted;
    ResolveAppend(before, [rule], q);
    assert Resolve(before + [rule], q) != Resolve(before, q);
  }

  lemma ResolveMiddle(before: seq<Rule>, rule: Rule, after: seq<Rule>, q: Query)
    ensures Resolve(before + [rule] + after, q) ==
            if Resolve(before, q) != Unrouted then Resolve(before, q)
            else if Matches(rule, q).No? then Resolve(after, q)
            else Resolve([rule], q)
    ensures Resolve(before + after, q) ==
            if Resolve(before, q) != Unrouted then Resolve(before, q) else Resolve(after, q)
  {
    ResolveAppend(before + [rule], after, q);
    ResolveAppend(before, [rule], q);
    ResolveAppend(before, after, q);
    assert [rule][1..] == [];
  }

  /** Deleting the rule does not change this query's result. */
  predicate RemovableFor(before: seq<Rule>, rule: Rule, after: seq<Rule>, q: Query) {
    Resolve(before + [rule] + after, q) == Resolve(before + after, q)
  }

  /** If no earlier rule decides this query and the rule would, the later rules give what the rule gives. */
  predicate RedundantFor(before: seq<Rule>, rule: Rule, after: seq<Rule>, q: Query) {
    Resolve(before, q) == Unrouted && !Matches(rule, q).No? ==> Resolve(after, q) == Resolve([rule], q)
  }

  lemma RemovableForExactly(before: seq<Rule>, rule: Rule, after: seq<Rule>, q: Query)
    ensures RemovableFor(before, rule, after, q) <==> RedundantFor(before, rule, after, q)
  {
    ResolveMiddle(before, rule, after, q);
  }

  ghost predicate Removable(before: seq<Rule>, rule: Rule, after: seq<Rule>) {
    forall q :: RemovableFor(before, rule, after, q)
  }

  ghost predicate Redundant(before: seq<Rule>, rule: Rule, after: seq<Rule>) {
    forall q :: RedundantFor(before, rule, after, q)
  }

  /** A rule anywhere in the list is removable exactly when it is redundant. */
  lemma RemovableExactly(before: seq<Rule>, rule: Rule, after: seq<Rule>)
    ensures Removable(before, rule, after) <==> Redundant(before, rule, after)
  {
    forall q
      ensures RemovableFor(before, rule, after, q) <==> RedundantFor(before, rule, after, q)
    {
      RemovableForExactly(before, rule, after, q);
    }
  }

  /** The same over the requests that can arrive, on any frontend. */
  ghost predicate RemovableForRequests(before: seq<Rule>, rule: Rule, after: seq<Rule>) {
    forall name, m | Receivable(m) :: RemovableFor(before, rule, after, QueryOf(name, m))
  }

  ghost predicate RedundantForRequests(before: seq<Rule>, rule: Rule, after: seq<Rule>) {
    forall name, m | Receivable(m) :: RedundantFor(before, rule, after, QueryOf(name, m))
  }

  /** A rule can be deleted without any received request noticing exactly when it is redundant for those. */
  lemma RemovableForRequestsExactly(before: seq<Rule>, rule: Rule, after: seq<Rule>)
    ensures RemovableForRequests(before, rule, after) <==> RedundantForRequests(before, rule, after)
  {
    forall name, m
      ensures RemovableFor(before, rule, after, QueryOf(name, m)) <==>
              RedundantFor(before, rule, after, QueryOf(name, m))
    {
      RemovableForExactly(before, rule, after, QueryOf(name, m));
    }
  }
}
