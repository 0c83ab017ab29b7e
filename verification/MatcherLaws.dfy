/** What compiled matchers keep of their source, and when the routing prefilter is sound. */
module MatcherLaws {
  import opened Wire
  import opened Matchers

  // ----- Unfolding names -----

  /** The matcher with every name replaced by its definition, if `fuel` levels suffice. */
  function Unfold(m: Matcher, names: Names, fuel: nat): Option<Matcher>
    decreases fuel
  {
    if fuel == 0 then None
    else
      match m
      case Named(name) => if name in names then Unfold(names[name], names, fuel - 1) else None
      case And(l, r) =>
        var left, right := Unfold(l, names, fuel - 1), Unfold(r, names, fuel - 1);
        if left.Some? && right.Some? then Some(And(left.value, right.value)) else None
      case Or(l, r) =>
        var left, right := Unfold(l, names, fuel - 1), Unfold(r, names, fuel - 1);
        if left.Some? && right.Some? then Some(Or(left.value, right.value)) else None
      case Not(i) =>
        var inner := Unfold(i, names, fuel - 1);
        if inner.Some? then Some(Not(inner.value)) else None
      case _ => Some(m)
  }

  /** More fuel finds the same unfolding. */
  lemma {:induction false} UnfoldIsUnique(m: Matcher, names: Names, fuel: nat, more: nat)
    requires Unfold(m, names, fuel).Some? && fuel <= more
    ensures Unfold(m, names, more) == Unfold(m, names, fuel)
    decreases fuel
  {
    match m
    case Named(name) => UnfoldIsUnique(names[name], names, fuel - 1, more - 1);
    case And(l, r) =>
      UnfoldIsUnique(l, names, fuel - 1, more - 1);
      UnfoldIsUnique(r, names, fuel - 1, more - 1);
    case Or(l, r) =>
      UnfoldIsUnique(l, names, fuel - 1, more - 1);
      UnfoldIsUnique(r, names, fuel - 1, more - 1);
    case Not(i) => UnfoldIsUnique(i, names, fuel - 1, more - 1);
    case _ =>
  }

  /** Every address range in the matcher parses. */
  predicate RangesParse(u: Matcher, parse: RangeParser) {
    match u
    case RemoteIp(texts) => parse(texts).Some?
    case ClientIp(texts) => parse(texts).Some?
    case And(l, r) => RangesParse(l, parse) && RangesParse(r, parse)
    case Or(l, r) => RangesParse(l, parse) && RangesParse(r, parse)
    case Not(i) => RangesParse(i, parse)
    case _ => true
  }

  /** Every query condition is presence or equality. */
  predicate QueriesExact(u: Matcher) {
    match u
    case Query(_, c) => c.Exists? || c.Equals?
    case And(l, r) => QueriesExact(l) && QueriesExact(r)
    case Or(l, r) => QueriesExact(l) && QueriesExact(r)
    case Not(i) => QueriesExact(i)
    case _ => true
  }

  /** The matcher with every query condition other than equality weakened to presence. */
  function Weakened(u: Matcher): Matcher {
    match u
    case Query(key, c) => Query(key, if c.Equals? then c else Exists)
    case And(l, r) => And(Weakened(l), Weakened(r))
    case Or(l, r) => Or(Weakened(l), Weakened(r))
    case Not(i) => Not(Weakened(i))
    case _ => u
  }

  lemma {:induction false} ExactQueriesAreNotWeakened(u: Matcher)
    ensures QueriesExact(u) <==> Weakened(u) == u
  {
    match u
    case And(l, r) =>
      ExactQueriesAreNotWeakened(l);
      ExactQueriesAreNotWeakened(r);
    case Or(l, r) =>
      ExactQueriesAreNotWeakened(l);
      ExactQueriesAreNotWeakened(r);
    case Not(i) => ExactQueriesAreNotWeakened(i);
    case _ =>
  }

  const LEVELS: nat := MAX_MATCHER_DEPTH + 1

  /** Compilation succeeds exactly when the names unfold within the depth bound and the ranges parse. */
  lemma {:induction false} CompilesExactlyWhenUnfolds(m: Matcher, names: Names, parse: RangeParser, depth: nat)
    requires depth <= LEVELS
    ensures Compile(m, names, parse, depth).Ok? <==>
            Unfold(m, names, LEVELS - depth).Some? && RangesParse(Unfold(m, names, LEVELS - depth).value, parse)
    decreases LEVELS - depth
  {
    hide CompileLeaf;
    if depth > MAX_MATCHER_DEPTH {
    } else if m.Named? {
      if m.name in names {
        CompilesExactlyWhenUnfolds(names[m.name], names, parse, depth + 1);
      }
    } else if m.And? || m.Or? {
      CompilesExactlyWhenUnfolds(m.left, names, parse, depth + 1);
      CompilesExactlyWhenUnfolds(m.right, names, parse, depth + 1);
    } else if m.Not? {
      CompilesExactlyWhenUnfolds(m.inner, names, parse, depth + 1);
    } else {
      LeafCompiles(m, parse);
    }
  }

  lemma LeafCompiles(m: Matcher, parse: RangeParser)
    requires IsLeaf(m)
    ensures CompileLeaf(m, parse).Ok? <==> RangesParse(m, parse)
  {
  }

  lemma MethodTextIsToken(m: HttpMethod)
    ensures MethodText(m) == Token(m)
  {
  }

  lemma HeaderConditionKept(c: HeaderCondition, value: string, q: Request)
    ensures CoreHolds(CompileHeaderCondition(c), value, q) == Holds(c, value, q)
  {
  }

  lemma MethodsKept(methods: seq<HttpMethod>, parse: RangeParser, q: Request)
    ensures EvaluateLeaf(CompileLeaf(Method(methods), parse).value, q) == LeafMeaning(Method(methods), parse, q)
  {
    var texts := CompileLeaf(Method(methods), parse).value.methods;
    forall i | 0 <= i < |methods| ensures texts[i] == Token(methods[i]) {
      MethodTextIsToken(methods[i]);
    }
    if i :| 0 <= i < |methods| && q.verb(Token(methods[i])) {
      assert q.verb(texts[i]);
    }
  }

  lemma LeafKept(m: Matcher, parse: RangeParser, q: Request)
    requires IsLeaf(m) && CompileLeaf(m, parse).Ok?
    ensures EvaluateLeaf(CompileLeaf(m, parse).value, q) == LeafMeaning(Weakened(m), parse, q)
  {
    match m
    case Header(field, c) =>
      if q.header(field).Some? {
        HeaderConditionKept(c, q.header(field).value, q);
      }
    case Method(methods) => MethodsKept(methods, parse, q);
    case _ =>
  }

  lemma WeakenedParts(u: Matcher)
    ensures u.And? ==> Weakened(u) == And(Weakened(u.left), Weakened(u.right))
    ensures u.Or? ==> Weakened(u) == Or(Weakened(u.left), Weakened(u.right))
    ensures u.Not? ==> Weakened(u) == Not(Weakened(u.inner))
    ensures IsLeaf(u) ==> IsLeaf(Weakened(u))
  {
  }

  lemma {:induction false} UnfoldedMeaning(m: Matcher, names: Names, parse: RangeParser, depth: nat, q: Request)
    requires depth <= LEVELS && Compile(m, names, parse, depth).Ok? && Unfold(m, names, LEVELS - depth).Some?
    ensures Evaluate(Compile(m, names, parse, depth).value, q)
         == Meaning(Weakened(Unfold(m, names, LEVELS - depth).value), parse, q)
    decreases LEVELS - depth
  {
    hide EvaluateLeaf, LeafMeaning, CompileLeaf, Weakened;
    WeakenedParts(Unfold(m, names, LEVELS - depth).value);
    if m.Named? {
      UnfoldedMeaning(names[m.name], names, parse, depth + 1, q);
    } else if m.And? {
      UnfoldedMeaning(m.left, names, parse, depth + 1, q);
      UnfoldedMeaning(m.right, names, parse, depth + 1, q);
    } else if m.Or? {
      UnfoldedMeaning(m.left, names, parse, depth + 1, q);
      UnfoldedMeaning(m.right, names, parse, depth + 1, q);
    } else if m.Not? {
      UnfoldedMeaning(m.inner, names, parse, depth + 1, q);
    } else {
      LeafKept(m, parse, q);
    }
  }

  /** What the compiler emits means what the source means, names unfolded and queries weakened. */
  lemma CompiledMeaning(m: Matcher, names: Names, parse: RangeParser, q: Request)
    requires Compile(m, names, parse, 0).Ok?
    ensures Unfold(m, names, LEVELS).Some?
    ensures Evaluate(Compile(m, names, parse, 0).value, q) == Meaning(Weakened(Unfold(m, names, LEVELS).value), parse, q)
  {
    hide Compile, Unfold, Evaluate, Meaning, Weakened;
    CompilesExactlyWhenUnfolds(m, names, parse, 0);
    UnfoldedMeaning(m, names, parse, 0, q);
  }

  /** With exact queries nothing is weakened, so the meaning is the source's own. */
  lemma CompilationPreservesMeaning(m: Matcher, names: Names, parse: RangeParser, q: Request)
    requires Compile(m, names, parse, 0).Ok?
    ensures Unfold(m, names, LEVELS).Some?
    ensures QueriesExact(Unfold(m, names, LEVELS).value) ==>
              Evaluate(Compile(m, names, parse, 0).value, q) == Meaning(Unfold(m, names, LEVELS).value, parse, q)
  {
    CompiledMeaning(m, names, parse, q);
    ExactQueriesAreNotWeakened(Unfold(m, names, LEVELS).value);
  }

  /**
   A query condition survives compilation exactly when it is presence or equality, asks for an
   empty part, which every value has, or is a regular expression that matches every value.
   */
  lemma QueryConditionKeptExactly(c: HeaderCondition, q: Request)
    ensures (forall value :: CoreHolds(CompileQueryCondition(c), value, q) == Holds(c, value, q)) <==>
            || c.Exists? || c.Equals?
            || (if c.Regex? then forall value :: q.regex(c.text, value) else c.text == "")
  {
    if c.Exists? || c.Equals? {
    } else if c.Regex? {
      forall value ensures q.regex(c.text, value) <==> CoreHolds(CompileQueryCondition(c), value, q) == Holds(c, value, q) {
      }
    } else if c.text == "" {
      forall value: string ensures Holds(c, value, q) {
        assert value[0..][..0] == "";
        assert value[|value|..] == "";
      }
    } else {
      var value := "";
      assert !Holds(c, value, q);
      assert CoreHolds(CompileQueryCondition(c), value, q);
    }
  }

  /** The combinations are the logical ones, and a fault is neither a match nor its opposite. */
  lemma CombinationsAreLogical(l: Core, r: Core, q: Request)
    ensures Evaluate(CoreAnd(l, r), q).Match? <==> Evaluate(l, q).Match? && Evaluate(r, q).Match?
    ensures Evaluate(CoreOr(l, r), q).NoMatch? <==> Evaluate(l, q).NoMatch? && Evaluate(r, q).NoMatch?
    ensures Evaluate(CoreNot(l), q).Match? <==> Evaluate(l, q).NoMatch?
    ensures Evaluate(CoreNot(l), q).NoMatch? <==> Evaluate(l, q).Match?
    ensures Evaluate(l, q).Fault? ==> Evaluate(CoreAnd(l, r), q).Fault? && Evaluate(CoreOr(l, r), q).Fault?
  {
  }

  // ----- Cycles -----

  function Mentions(m: Matcher): set<string> {
    match m
    case Named(name) => {name}
    case And(l, r) => Mentions(l) + Mentions(r)
    case Or(l, r) => Mentions(l) + Mentions(r)
    case Not(i) => Mentions(i)
    case _ => {}
  }

  /** A chain of definitions, each mentioning the next, that comes back to a name it has been at. */
  ghost predicate Lasso(chain: seq<string>, back: nat, names: Names) {
    && back + 1 < |chain| && chain[|chain| - 1] == chain[back]
    && (forall i :: 0 <= i < |chain| - 1 ==> chain[i] in names && chain[i + 1] in Mentions(names[chain[i]]))
  }

  /** An unfolding unfolds every name it mentions, with less fuel. */
  lemma {:induction false} UnfoldsMentioned(m: Matcher, names: Names, fuel: nat, name: string)
    requires Unfold(m, names, fuel).Some? && name in Mentions(m)
    ensures fuel > 0 && name in names && Unfold(names[name], names, fuel - 1).Some?
    decreases fuel
  {
    match m
    case Named(_) =>
    case And(l, r) =>
      UnfoldsMentioned(if name in Mentions(l) then l else r, names, fuel - 1, name);
      UnfoldIsUnique(names[name], names, fuel - 2, fuel - 1);
    case Or(l, r) =>
      UnfoldsMentioned(if name in Mentions(l) then l else r, names, fuel - 1, name);
      UnfoldIsUnique(names[name], names, fuel - 2, fuel - 1);
    case Not(i) =>
      UnfoldsMentioned(i, names, fuel - 1, name);
      UnfoldIsUnique(names[name], names, fuel - 2, fuel - 1);
  }

  lemma {:induction false} CyclesNeverUnfold(chain: seq<string>, back: nat, names: Names, i: nat, fuel: nat)
    requires Lasso(chain, back, names) && i < |chain| - 1
    ensures Unfold(names[chain[i]], names, fuel).None?
    decreases fuel
  {
    if Unfold(names[chain[i]], names, fuel).Some? {
      UnfoldsMentioned(names[chain[i]], names, fuel, chain[i + 1]);
      var next := if i + 1 < |chain| - 1 then i + 1 else back;
      CyclesNeverUnfold(chain, back, names, next, fuel - 1);
    }
  }

  /** A matcher that mentions a name from which a cycle can be reached is refused. */
  lemma CyclicNamesAreRefused(m: Matcher, chain: seq<string>, back: nat, names: Names, parse: RangeParser)
    requires Lasso(chain, back, names) && chain[0] in Mentions(m)
    ensures Compile(m, names, parse, 0).Err?
  {
    CompilesExactlyWhenUnfolds(m, names, parse, 0);
    if Unfold(m, names, LEVELS).Some? {
      UnfoldsMentioned(m, names, LEVELS, chain[0]);
      CyclesNeverUnfold(chain, back, names, 0, LEVELS - 1);
    }
  }

  // ----- The routing prefilter -----

  /** The patterns of an unfolded matcher, outside negations. */
  function Patterns(u: Matcher): seq<string> {
    match u
    case Path(patterns) => patterns
    case And(l, r) => Patterns(l) + Patterns(r)
    case Or(l, r) => Patterns(l) + Patterns(r)
    case _ => []
  }

  lemma {:induction false} PathPatternsOfUnfolding(m: Matcher, names: Names, depth: nat)
    requires depth <= LEVELS && Unfold(m, names, LEVELS - depth).Some?
    ensures PathPatterns(m, names, depth) == Patterns(Unfold(m, names, LEVELS - depth).value)
    decreases LEVELS - depth
  {
    match m
    case Named(name) => PathPatternsOfUnfolding(names[name], names, depth + 1);
    case And(l, r) =>
      PathPatternsOfUnfolding(l, names, depth + 1);
      PathPatternsOfUnfolding(r, names, depth + 1);
    case Or(l, r) =>
      PathPatternsOfUnfolding(l, names, depth + 1);
      PathPatternsOfUnfolding(r, names, depth + 1);
    case _ =>
  }

  /** No request is accepted without one of the patterns matching. */
  predicate Guarded(u: Matcher) {
    match u
    case Path(_) => true
    case And(l, r) => Guarded(l) || Guarded(r)
    case Or(l, r) => Guarded(l) && Guarded(r)
    case _ => false
  }

  predicate AnyPath(patterns: seq<string>, q: Request) {
    exists i :: 0 <= i < |patterns| && q.path(patterns[i])
  }

  lemma AnyPathJoins(a: seq<string>, b: seq<string>, q: Request)
    ensures AnyPath(a + b, q) <==> AnyPath(a, q) || AnyPath(b, q)
  {
    if AnyPath(a, q) {
      var i :| 0 <= i < |a| && q.path(a[i]);
      assert q.path((a + b)[i]);
    }
    if AnyPath(b, q) {
      var i :| 0 <= i < |b| && q.path(b[i]);
      assert q.path((a + b)[|a| + i]);
    }
  }

  lemma {:induction false} GuardedMatchesAPattern(u: Matcher, parse: RangeParser, q: Request)
    requires Guarded(u) && Meaning(u, parse, q).Match?
    ensures AnyPath(Patterns(u), q)
  {
    match u
    case Path(_) =>
    case And(l, r) =>
      GuardedMatchesAPattern(if Guarded(l) then l else r, parse, q);
      AnyPathJoins(Patterns(l), Patterns(r), q);
    case Or(l, r) =>
      GuardedMatchesAPattern(if Meaning(l, parse, q).Match? then l else r, parse, q);
      AnyPathJoins(Patterns(l), Patterns(r), q);
  }

  /** Every alternative has patterns on both sides. */
  predicate AlternativesHavePatterns(u: Matcher) {
    match u
    case And(l, r) => AlternativesHavePatterns(l) && AlternativesHavePatterns(r)
    case Or(l, r) =>
      && Patterns(l) != [] && Patterns(r) != []
      && AlternativesHavePatterns(l) && AlternativesHavePatterns(r)
    case _ => true
  }

  lemma {:induction false} AlternativesHavePatternsGuard(u: Matcher)
    requires AlternativesHavePatterns(u) && Patterns(u) != []
    ensures Guarded(u)
  {
    match u
    case Path(_) =>
    case And(l, r) => AlternativesHavePatternsGuard(if Patterns(l) != [] then l else r);
    case Or(l, r) =>
      AlternativesHavePatternsGuard(l);
      AlternativesHavePatternsGuard(r);
  }

  /** The request reaches some entry: its pattern matches and so does its matcher. */
  predicate Reaches(routes: seq<Route>, q: Request) {
    exists i :: 0 <= i < |routes| && q.path(routes[i].path)
             && (routes[i].matcher.None? || Evaluate(routes[i].matcher.value, q).Match?)
  }

  /**
   What the emitted entries accept: the requests the compiled matcher accepts that some
   pattern matches, or that the catch-all matches when the matcher has no pattern.
   */
  lemma RoutesReachExactly(m: Matcher, names: Names, parse: RangeParser, q: Request)
    requires CompileRouteArm(Some(m), names, parse).Ok?
    ensures Unfold(m, names, LEVELS).Some?
    ensures var u := Unfold(m, names, LEVELS).value;
            Reaches(CompileRouteArm(Some(m), names, parse).value, q) <==>
              && Meaning(Weakened(u), parse, q).Match?
              && if Patterns(u) == [] then q.path("/*") else AnyPath(Patterns(u), q)
  {
    hide Compile, Unfold, Evaluate, Meaning, PathPatterns, Patterns, Weakened;
    var routes := CompileRouteArm(Some(m), names, parse).value;
    CompiledMeaning(m, names, parse, q);
    PathPatternsOfUnfolding(m, names, 0);
    var ps := PathPatterns(m, names, 0);
    if ps == [] {
      assert routes[0].path == "/*";
    } else {
      assert |routes| == |ps| && forall i :: 0 <= i < |ps| ==> routes[i].path == ps[i];
      if AnyPath(ps, q) {
        var i :| 0 <= i < |ps| && q.path(ps[i]);
        assert q.path(routes[i].path);
      }
      if i :| 0 <= i < |routes| && q.path(routes[i].path) {
        assert q.path(ps[i]);
      }
    }
  }

  /** A route without a matcher takes whatever the catch-all matches. */
  lemma BareRouteReaches(names: Names, parse: RangeParser, q: Request)
    ensures CompileRouteArm(None, names, parse).Ok?
    ensures Reaches(CompileRouteArm(None, names, parse).value, q) <==> q.path("/*")
  {
    assert CompileRouteArm(None, names, parse).value[0].path == "/*";
  }

  lemma {:induction false} WeakeningKeepsPatterns(u: Matcher)
    ensures Patterns(Weakened(u)) == Patterns(u) && Guarded(Weakened(u)) == Guarded(u)
  {
    match u
    case And(l, r) =>
      WeakeningKeepsPatterns(l);
      WeakeningKeepsPatterns(r);
    case Or(l, r) =>
      WeakeningKeepsPatterns(l);
      WeakeningKeepsPatterns(r);
    case _ =>
  }

  /**
   The emitted entries lose no request: whatever the compiled matcher accepts reaches one of
   them, provided it has no patterns at all or each alternative is guarded by some.
   */
  lemma RoutesLoseNothing(m: Matcher, names: Names, parse: RangeParser, q: Request)
    requires CompileRouteArm(Some(m), names, parse).Ok? && q.path("/*")
    ensures Unfold(m, names, LEVELS).Some?
    ensures var u := Unfold(m, names, LEVELS).value;
            Patterns(u) == [] || Guarded(u) || AlternativesHavePatterns(u) ==>
              (Reaches(CompileRouteArm(Some(m), names, parse).value, q) <==> Meaning(Weakened(u), parse, q).Match?)
  {
    hide Compile, Unfold, Evaluate, Meaning, PathPatterns, Weakened;
    RoutesReachExactly(m, names, parse, q);
    var u := Unfold(m, names, LEVELS).value;
    if Patterns(u) != [] && (Guarded(u) || AlternativesHavePatterns(u)) && Meaning(Weakened(u), parse, q).Match? {
      if !Guarded(u) {
        AlternativesHavePatternsGuard(u);
      }
      WeakeningKeepsPatterns(u);
      GuardedMatchesAPattern(Weakened(u), parse, q);
    }
  }

  /** No negation anywhere. */
  predicate Positive(u: Matcher) {
    match u
    case And(l, r) => Positive(l) && Positive(r)
    case Or(l, r) => Positive(l) && Positive(r)
    case Not(_) => false
    case Named(_) => false
    case _ => true
  }

  /** Every condition other than a path pattern holds of the request. */
  predicate OthersMatch(u: Matcher, parse: RangeParser, q: Request) {
    match u
    case Path(_) => true
    case And(l, r) => OthersMatch(l, parse, q) && OthersMatch(r, parse, q)
    case Or(l, r) => OthersMatch(l, parse, q) && OthersMatch(r, parse, q)
    case _ => Meaning(u, parse, q).Match?
  }

  /**
   The guard is needed: an unguarded positive matcher accepts any request that meets all its
   other conditions, even one that none of its patterns matches.
   */
  lemma {:induction false} UnguardedAcceptsOffPath(u: Matcher, parse: RangeParser, q: Request)
    requires Positive(u) && OthersMatch(u, parse, q)
    ensures !Guarded(u) ==> Meaning(u, parse, q).Match?
    ensures !Meaning(u, parse, q).Fault?
  {
    match u
    case And(l, r) =>
      UnguardedAcceptsOffPath(l, parse, q);
      UnguardedAcceptsOffPath(r, parse, q);
    case Or(l, r) =>
      UnguardedAcceptsOffPath(l, parse, q);
      UnguardedAcceptsOffPath(r, parse, q);
    case _ =>
  }

  /** For such a request, being lost by the prefilter and being unguarded are the same thing. */
  lemma LostExactlyWhenUnguarded(m: Matcher, names: Names, parse: RangeParser, q: Request)
    requires CompileRouteArm(Some(m), names, parse).Ok? && Unfold(m, names, LEVELS).Some?
    requires var u := Unfold(m, names, LEVELS).value;
             Positive(u) && OthersMatch(u, parse, q) && Patterns(u) != [] && !AnyPath(Patterns(u), q)
    ensures var u := Unfold(m, names, LEVELS).value;
            var lost := Meaning(u, parse, q).Match? && !Reaches(CompileRouteArm(Some(m), names, parse).value, q);
            lost <==> !Guarded(u)
  {
    hide Compile, Unfold, Evaluate, Meaning, PathPatterns, Guarded, Positive, OthersMatch, Patterns;
    var u := Unfold(m, names, LEVELS).value;
    var routes := CompileRouteArm(Some(m), names, parse).value;
    PathPatternsOfUnfolding(m, names, 0);
    UnguardedAcceptsOffPath(u, parse, q);
    forall i | 0 <= i < |routes| ensures !q.path(routes[i].path) {
      assert routes[i].path == Patterns(u)[i];
    }
    if Guarded(u) && Meaning(u, parse, q).Match? {
      GuardedMatchesAPattern(u, parse, q);
    }
  }

  /** For instance, a request to host `h` is lost by a route for the path `/a` or that host. */
  lemma PrefilterLosesARequest(parse: RangeParser, q: Request)
    requires q.host("h") && !q.path("/a")
    ensures var m := Or(Path(["/a"]), Host(["h"]));
            var arm := CompileRouteArm(Some(m), map[], parse);
            arm.Ok? && Meaning(m, parse, q).Match? && !Reaches(arm.value, q)
  {
    var m := Or(Path(["/a"]), Host(["h"]));
    assert Unfold(m, map[], LEVELS) == Some(m);
    CompilesExactlyWhenUnfolds(m, map[], parse, 0);
    var hosts := ["h"];
    assert q.host(hosts[0]);
    assert Patterns(m) == ["/a"] + [];
    LostExactlyWhenUnguarded(m, map[], parse, q);
  }
}
