/**
 Compilation of route matchers: named references are unfolded under a depth bound, and
 a list of path patterns is derived as a routing prefilter.
 */
module Matchers {
  import opened Wire

  const MAX_MATCHER_DEPTH: nat := 32

  // ----- Source -----

  datatype HeaderCondition =
    | Exists | Equals(text: string) | Contains(text: string)
    | StartsWith(text: string) | EndsWith(text: string) | Regex(text: string)

  datatype HttpMethod = Get | Post | Put | Delete | Patch | Head | Options

  datatype Matcher =
    | Path(patterns: seq<string>)
    | Header(field: string, condition: HeaderCondition)
    | Method(methods: seq<HttpMethod>)
    | Query(key: string, condition: HeaderCondition)
    | Host(hosts: seq<string>)
    | RemoteIp(texts: seq<string>)
    | ClientIp(texts: seq<string>)
    | Protocol(protocols: seq<string>)
    | Vars(variable: string, values: seq<string>)
    | PathRegexp(group: Option<string>, pattern: string)
    | HeaderRegexp(group: Option<string>, field: string, pattern: string)
    | File(tryFiles: seq<string>, root: Option<string>, policy: Option<string>, splitPath: seq<string>)
    | And(left: Matcher, right: Matcher)
    | Or(left: Matcher, right: Matcher)
    | Not(inner: Matcher)
    | Named(name: string)

  // ----- Compiled -----

  datatype CoreCondition =
    | CoreExists | CoreEquals(text: string) | CoreContains(text: string)
    | CoreStartsWith(text: string) | CoreEndsWith(text: string) | CoreRegex(text: string)

  /** Address ranges, parsed once. */
  type Ranges = nat

  datatype Core =
    | CorePath(patterns: seq<string>)
    | CoreHeader(field: string, condition: CoreCondition)
    | CoreMethod(methods: seq<string>)
    | CoreQuery(key: string, condition: CoreCondition)
    | CoreHost(hosts: seq<string>)
    | CoreRemoteIp(ranges: Ranges)
    | CoreClientIp(ranges: Ranges)
    | CoreProtocol(protocols: seq<string>)
    | CoreVars(variable: string, values: seq<string>)
    | CorePathRegexp(group: Option<string>, pattern: string)
    | CoreHeaderRegexp(group: Option<string>, field: string, pattern: string)
    | CoreFile(tryFiles: seq<string>, root: Option<string>, policy: Option<string>, splitPath: seq<string>)
    | CoreAnd(left: Core, right: Core)
    | CoreOr(left: Core, right: Core)
    | CoreNot(inner: Core)

  datatype CompileError = TooDeep | Undefined(name: string) | BadRange

  datatype Compiled<T> = Ok(value: T) | Err(error: CompileError)

  type Names = map<string, Matcher>

  /** Parses written address ranges; `None` for a malformed one. */
  type RangeParser = seq<string> -> Option<Ranges>

  // ----- Meaning -----

  datatype Verdict = Match | NoMatch | Fault

  /** Everything a matcher can ask about one request; the parts this model does not open are left to it. */
  datatype Request = Request(
    verb: string -> bool,                   // is this the method, whatever its case?
    query: seq<(string, string)>,
    header: string -> Option<string>,
    path: string -> bool,                   // does this pattern match the path?
    regex: (string, string) -> bool,        // does this expression match this text?
    host: string -> bool,
    protocol: string -> bool,
    remote: Ranges -> bool,
    client: Ranges -> bool,
    vars: (string, seq<string>) -> bool,
    pathRegexp: (Option<string>, string) -> bool,
    headerRegexp: (Option<string>, string, string) -> bool,
    file: (seq<string>, Option<string>, Option<string>, seq<string>) -> Verdict)

  function Said(b: bool): Verdict {
    if b then Match else NoMatch
  }

  function Both(left: Verdict, right: Verdict): Verdict {
    if left.Match? then right else left
  }

  function Either(left: Verdict, right: Verdict): Verdict {
    if left.NoMatch? then right else left
  }

  function Negated(v: Verdict): Verdict {
    match v
    case Match => NoMatch
    case NoMatch => Match
    case Fault => Fault
  }

  predicate Holds(c: HeaderCondition, value: string, q: Request) {
    match c
    case Exists => true
    case Equals(t) => value == t
    case Contains(t) => HasPart(value, t)
    case StartsWith(t) => t <= value
    case EndsWith(t) => |t| <= |value| && value[|value| - |t|..] == t
    case Regex(t) => q.regex(t, value)
  }

  predicate CoreHolds(c: CoreCondition, value: string, q: Request) {
    match c
    case CoreExists => true
    case CoreEquals(t) => value == t
    case CoreContains(t) => HasPart(value, t)
    case CoreStartsWith(t) => t <= value
    case CoreEndsWith(t) => |t| <= |value| && value[|value| - |t|..] == t
    case CoreRegex(t) => q.regex(t, value)
  }

  /** The token a method has on the wire. */
  function Token(m: HttpMethod): string {
    match m
    case Get => "GET"
    case Post => "POST"
    case Put => "PUT"
    case Delete => "DELETE"
    case Patch => "PATCH"
    case Head => "HEAD"
    case Options => "OPTIONS"
  }

  /** A matcher that is neither a name nor a combination. */
  predicate IsLeaf(m: Matcher) {
    !m.Named? && !m.And? && !m.Or? && !m.Not?
  }

  predicate IsCoreLeaf(c: Core) {
    !c.CoreAnd? && !c.CoreOr? && !c.CoreNot?
  }

  function LeafMeaning(m: Matcher, parse: RangeParser, q: Request): Verdict
    requires IsLeaf(m)
  {
    match m
    case Path(patterns) => Said(exists i :: 0 <= i < |patterns| && q.path(patterns[i]))
    case Header(field, c) => Said(q.header(field).Some? && Holds(c, q.header(field).value, q))
    case Method(methods) => Said(exists i :: 0 <= i < |methods| && q.verb(Token(methods[i])))
    case Query(key, c) => Said(exists i :: 0 <= i < |q.query| && q.query[i].0 == key && Holds(c, q.query[i].1, q))
    case Host(hosts) => Said(exists i :: 0 <= i < |hosts| && q.host(hosts[i]))
    case RemoteIp(texts) => Said(parse(texts).Some? && q.remote(parse(texts).value))
    case ClientIp(texts) => Said(parse(texts).Some? && q.client(parse(texts).value))
    case Protocol(ps) => Said(exists i :: 0 <= i < |ps| && q.protocol(ps[i]))
    case Vars(v, values) => Said(q.vars(v, values))
    case PathRegexp(g, p) => Said(q.pathRegexp(g, p))
    case HeaderRegexp(g, f, p) => Said(q.headerRegexp(g, f, p))
    case File(t, r, p, s) => q.file(t, r, p, s)
  }

  /** What a matcher without names means. */
  function Meaning(m: Matcher, parse: RangeParser, q: Request): Verdict {
    match m
    case And(l, r) => Both(Meaning(l, parse, q), Meaning(r, parse, q))
    case Or(l, r) => Either(Meaning(l, parse, q), Meaning(r, parse, q))
    case Not(i) => Negated(Meaning(i, parse, q))
    case Named(_) => NoMatch
    case _ => LeafMeaning(m, parse, q)
  }

  function EvaluateLeaf(c: Core, q: Request): Verdict
    requires IsCoreLeaf(c)
  {
    match c
    case CorePath(patterns) => Said(exists i :: 0 <= i < |patterns| && q.path(patterns[i]))
    case CoreHeader(field, c) => Said(q.header(field).Some? && CoreHolds(c, q.header(field).value, q))
    case CoreMethod(methods) => Said(exists i :: 0 <= i < |methods| && q.verb(methods[i]))
    case CoreQuery(key, c) => Said(exists i :: 0 <= i < |q.query| && q.query[i].0 == key && CoreHolds(c, q.query[i].1, q))
    case CoreHost(hosts) => Said(exists i :: 0 <= i < |hosts| && q.host(hosts[i]))
    case CoreRemoteIp(ranges) => Said(q.remote(ranges))
    case CoreClientIp(ranges) => Said(q.client(ranges))
    case CoreProtocol(ps) => Said(exists i :: 0 <= i < |ps| && q.protocol(ps[i]))
    case CoreVars(v, values) => Said(q.vars(v, values))
    case CorePathRegexp(g, p) => Said(q.pathRegexp(g, p))
    case CoreHeaderRegexp(g, f, p) => Said(q.headerRegexp(g, f, p))
    case CoreFile(t, r, p, s) => q.file(t, r, p, s)
  }

  /** How the router evaluates a compiled matcher. */
  function Evaluate(c: Core, q: Request): Verdict {
    match c
    case CoreAnd(l, r) => Both(Evaluate(l, q), Evaluate(r, q))
    case CoreOr(l, r) => Either(Evaluate(l, q), Evaluate(r, q))
    case CoreNot(i) => Negated(Evaluate(i, q))
    case _ => EvaluateLeaf(c, q)
  }

  // ----- The compiler -----

  function CompileHeaderCondition(c: HeaderCondition): CoreCondition {
    match c
    case Exists => CoreExists
    case Equals(t) => CoreEquals(t)
    case Contains(t) => CoreContains(t)
    case StartsWith(t) => CoreStartsWith(t)
    case EndsWith(t) => CoreEndsWith(t)
    case Regex(t) => CoreRegex(t)
  }

  /** A query condition other than equality is compiled to mere presence. */
  function CompileQueryCondition(c: HeaderCondition): CoreCondition {
    match c
    case Equals(t) => CoreEquals(t)
    case _ => CoreExists
  }

  /** The debug name of a method, upper-cased. */
  function MethodText(m: HttpMethod): string {
    UpperText(match m
              case Get => "Get"
              case Post => "Post"
              case Put => "Put"
              case Delete => "Delete"
              case Patch => "Patch"
              case Head => "Head"
              case Options => "Options")
  }

  function UpperText(s: string): string {
    seq(|s|, i requires 0 <= i < |s| => if 'a' <= s[i] <= 'z' then s[i] - 32 as char else s[i])
  }

  function CompileLeaf(m: Matcher, parse: RangeParser): (r: Compiled<Core>)
    requires IsLeaf(m)
    ensures r.Ok? ==> IsCoreLeaf(r.value)
  {
    match m
    case Path(patterns) => Ok(CorePath(patterns))
    case Header(field, c) => Ok(CoreHeader(field, CompileHeaderCondition(c)))
    case Method(methods) => Ok(CoreMethod(seq(|methods|, i requires 0 <= i < |methods| => MethodText(methods[i]))))
    case Query(key, c) => Ok(CoreQuery(key, CompileQueryCondition(c)))
    case Host(hosts) => Ok(CoreHost(hosts))
    case RemoteIp(texts) => if parse(texts).Some? then Ok(CoreRemoteIp(parse(texts).value)) else Err(BadRange)
    case ClientIp(texts) => if parse(texts).Some? then Ok(CoreClientIp(parse(texts).value)) else Err(BadRange)
    case Protocol(ps) => Ok(CoreProtocol(ps))
    case Vars(v, values) => Ok(CoreVars(v, values))
    case PathRegexp(g, p) => Ok(CorePathRegexp(g, p))
    case HeaderRegexp(g, f, p) => Ok(CoreHeaderRegexp(g, f, p))
    case File(t, r, p, s) => Ok(CoreFile(t, r, p, s))
  }

  function Compile(m: Matcher, names: Names, parse: RangeParser, depth: nat): Compiled<Core>
    decreases MAX_MATCHER_DEPTH + 1 - depth
  {
    if depth > MAX_MATCHER_DEPTH then Err(TooDeep)
    else
      match m
      case Named(name) => if name in names then Compile(names[name], names, parse, depth + 1) else Err(Undefined(name))
      case And(l, r) =>
        (match Compile(l, names, parse, depth + 1)
         case Err(e) => Err(e)
         case Ok(left) =>
           match Compile(r, names, parse, depth + 1)
           case Err(e) => Err(e)
           case Ok(right) => Ok(CoreAnd(left, right)))
      case Or(l, r) =>
        (match Compile(l, names, parse, depth + 1)
         case Err(e) => Err(e)
         case Ok(left) =>
           match Compile(r, names, parse, depth + 1)
           case Err(e) => Err(e)
           case Ok(right) => Ok(CoreOr(left, right)))
      case Not(i) =>
        (match Compile(i, names, parse, depth + 1)
         case Err(e) => Err(e)
         case Ok(inner) => Ok(CoreNot(inner)))
      case _ => CompileLeaf(m, parse)
  }

  function PathPatterns(m: Matcher, names: Names, depth: nat): seq<string>
    decreases MAX_MATCHER_DEPTH + 1 - depth
  {
    if depth > MAX_MATCHER_DEPTH then []
    else
      match m
      case Path(patterns) => patterns
      case Named(name) => if name in names then PathPatterns(names[name], names, depth + 1) else []
      case And(l, r) => PathPatterns(l, names, depth + 1) + PathPatterns(r, names, depth + 1)
      case Or(l, r) => PathPatterns(l, names, depth + 1) + PathPatterns(r, names, depth + 1)
      case _ => []
  }

  /** One router entry: a path pattern and the condition that must hold as well. */
  datatype Route = Route(path: string, matcher: Option<Core>)

  function CompileRouteArm(matcher: Option<Matcher>, names: Names, parse: RangeParser): Compiled<seq<Route>> {
    match matcher
    case None => Ok([Route("/*", None)])
    case Some(m) =>
      var patterns := PathPatterns(m, names, 0);
      match Compile(m, names, parse, 0)
      case Err(e) => Err(e)
      case Ok(core) =>
        if patterns == [] then Ok([Route("/*", Some(core))])
        else Ok(seq(|patterns|, i requires 0 <= i < |patterns| => Route(patterns[i], Some(core))))
  }
}
