/**
 Publication of the Admin document: requests work on a retained snapshot, and a write
 is published only if the generation it was authorized under is still current.
 */
module AdminPolicy {
  import opened Wire
  import opened Json
  import Tree = ConfigTree
  import opened Redaction
  import opened RedactionWalk

  /** One immutable generation. */
  datatype Snapshot = Snapshot(revision: nat, document: Json)

  /** What an API request asks for. */
  datatype Edit =
    | Load(document: Json)
    | Write(path: Tree.Path, value: Json, mode: Tree.Mode)
    | Erase(path: Tree.Path)
    | Expand(path: Tree.Path, body: Json)

  function Applied(document: Json, edit: Edit): Tree.Result<Json> {
    match edit
    case Load(whole) => Tree.Ok(whole)
    case Write(path, value, mode) => Tree.Set(document, path, value, mode)
    case Erase(path) =>
      (match Tree.Remove(document, path)
       case Err(e) => Tree.Err(e)
       case Ok(r) => Tree.Ok(r.doc))
    case Expand(path, body) => Tree.Expanded(document, path, body)
  }

  /** The document a request would publish: its edit with the running secrets put back, unless a placeholder is left. */
  function Candidate(running: Json, edit: Edit): (r: Option<Json>)
    ensures r.Some? ==> !Carries(ROOT, r.value)
  {
    match Applied(running, edit)
    case Err(_) => None
    case Ok(next) =>
      var restored := Restore(ROOT, next, Some(running));
      if Carries(ROOT, restored) then None else Some(restored)
  }

  /**
   The export cycle: read the document masked, write a value into the copy, load the copy.  What is
   published is the running document with that write, every secret in place, exactly when the
   write survives masking and leaves no placeholder in a secret position.
   */
  lemma MaskedExportCommits(running: Json, path: Tree.Path, value: Json, mode: Tree.Mode)
    requires Tree.Set(running, path, value, mode).Ok?
    ensures Tree.Set(Mask(ROOT, running), path, value, mode).Ok?
    ensures (Candidate(running, Load(Tree.Set(Mask(ROOT, running), path, value, mode).value))
               == Some(Tree.Set(running, path, value, mode).value))
            <==> Writes(ROOT, running, path, value, mode) && !Carries(ROOT, Tree.Set(running, path, value, mode).value)
    ensures PlaceholderFree(running) && PlaceholderFree(value) ==>
              !Carries(ROOT, Tree.Set(running, path, value, mode).value)
  {
    hide Tree.Set, Restore, Mask, Carries, Writes, PlaceholderFree;
    EditCommutesExactly(ROOT, running, path, value, mode);
    if PlaceholderFree(running) && PlaceholderFree(value) {
      SetIsFree(running, path, value, mode);
      FreeCarriesNothing(ROOT, Tree.Set(running, path, value, mode).value);
    }
  }

  /** The same cycle on one part of the document, PATCHed back where it was read. */
  lemma MaskedPartCommits(running: Json, path: Tree.Path, below: Tree.Path, value: Json, mode: Tree.Mode)
    requires Tree.Get(running, path).Ok?
    requires Tree.Set(Tree.Get(running, path).value, below, value, mode).Ok?
    ensures var read := Tree.Get(Mask(ROOT, running), path);
            && read.Ok? && Tree.Set(read.value, below, value, mode).Ok?
            && var part := Tree.Set(Tree.Get(running, path).value, below, value, mode).value;
               && Tree.Set(running, path, part, Tree.Replace).Ok?
               && (Candidate(running, Write(path, Tree.Set(read.value, below, value, mode).value, Tree.Replace))
                     == Some(Tree.Set(running, path, part, Tree.Replace).value)
                   <==>
                     && Writes(SpotAt(ROOT, running, path), Tree.Get(running, path).value, below, value, mode)
                     && !Carries(ROOT, Tree.Set(running, path, part, Tree.Replace).value))
               && (PlaceholderFree(running) && PlaceholderFree(value) ==>
                     !Carries(ROOT, Tree.Set(running, path, part, Tree.Replace).value))
  {
    hide Tree.Set, Tree.Get, Restore, Mask, Carries, Writes, PlaceholderFree;
    ReadModifyWrite(running, path, below, value, mode);
    var part := Tree.Set(Tree.Get(running, path).value, below, value, mode).value;
    Tree.ReplaceExactlyWhereGet(running, path, part);
    if PlaceholderFree(running) && PlaceholderFree(value) {
      GetIsFree(running, path);
      SetIsFree(Tree.Get(running, path).value, below, value, mode);
      SetIsFree(running, path, part, Tree.Replace);
      FreeCarriesNothing(ROOT, Tree.Set(running, path, part, Tree.Replace).value);
    }
  }

  // ----- What a published edit does, told by what GET reads -----

  /** How `after` differs from `before` when `edit` was published over it. */
  ghost predicate Effect(before: Json, edit: Edit, after: Json) {
    match edit
    case Load(whole) =>
      && (!Carries(ROOT, whole) ==> after == whole)
      && (whole == Mask(ROOT, before) ==> after == before)
    case Write(path, value, mode) =>
      && Tree.Get(after, path) == Tree.Ok(Restore(PlaceSpot(ROOT, before, path), value, Was(before, path)))
      && (PlaceholderFree(value) ==> Tree.Get(after, path) == Tree.Ok(value))
      && (Stays(ROOT, before, path, mode) ==>
            forall q :: Tree.Apart(before, path, q, mode) ==>
              Tree.Get(after, Tree.Moved(before, path, q, mode)) == Tree.Get(before, q))
    case Erase(path) =>
      && (path == [] ==> after == Null)
      && (path != [] && Parent(before, path).Some? && Parent(before, path).value.Obj? ==>
            Tree.Get(after, path) == Tree.Err(Tree.NotFound))
      && (Closes(ROOT, before, path) ==>
            forall q :: Tree.Besides(before, path, q) ==>
              Tree.Get(after, Tree.ClosedUp(before, path, q)) == Tree.Get(before, q))
    case Expand(path, body) =>
      && body.Arr? && Was(before, path).Some? && Was(before, path).value.Arr?
      && Tree.Get(after, path) == Tree.Ok(Arr(Was(before, path).value.items + body.items))
      && forall q :: Tree.Apart(before, path, q, Tree.Replace) ==> Tree.Get(after, q) == Tree.Get(before, q)
  }

  function Parent(doc: Json, path: Tree.Path): Option<Json>
    requires path != []
  {
    Was(doc, path[..|path| - 1])
  }

  lemma WriteHasEffect(before: Json, path: Tree.Path, value: Json, mode: Tree.Mode, after: Json)
    requires Candidate(before, Write(path, value, mode)) == Some(after)
    ensures Effect(before, Write(path, value, mode), after)
  {
    hide Tree.Set, Tree.Get, Restore, Carries, Stays, PlaceSpot, Was, PlaceholderFree, Tree.Apart, Tree.Moved;
    var v := Restore(PlaceSpot(ROOT, before, path), value, Was(before, path));
    RestoreOfEdit(ROOT, before, path, value, mode);
    if PlaceholderFree(value) {
      FreeIsKept(PlaceSpot(ROOT, before, path), value, Was(before, path));
      UnchangedExactlyWhenKept(PlaceSpot(ROOT, before, path), value, Was(before, path));
    }
    if Stays(ROOT, before, path, mode) {
      forall q | Tree.Apart(before, path, q, mode)
        ensures Tree.Get(after, Tree.Moved(before, path, q, mode)) == Tree.Get(before, q)
      {
        Tree.SetKeepsTheRest(before, path, v, mode, q);
      }
    }
  }

  lemma ObjectParentCloses(s: Spot, d: Json, path: Tree.Path)
    requires path != [] && Parent(d, path).Some? && Parent(d, path).value.Obj?
    ensures Closes(s, d, path)
    decreases |path|
  {
    var last := |path| - 1;
    if last == 0 {
      assert path[..0] == [];
    } else {
      assert path[..last][1..] == path[1..][..last - 1];
      ObjectParentCloses(ChildSpot(s, d, path[0]), Tree.Child(d, path[0]).value, path[1..]);
    }
  }

  lemma EraseHasEffect(before: Json, path: Tree.Path, after: Json)
    requires Candidate(before, Erase(path)) == Some(after)
    ensures Effect(before, Erase(path), after)
  {
    hide Tree.Get, Carries, Closes, Tree.Besides, Tree.ClosedUp;
    if path != [] && Parent(before, path).Some? && Parent(before, path).value.Obj? {
      ObjectParentCloses(ROOT, before, path);
      Tree.RemovedFieldIsGone(before, path);
    }
    if Closes(ROOT, before, path) {
      RestoreOfRemove(ROOT, before, path);
      forall q | Tree.Besides(before, path, q)
        ensures Tree.Get(after, Tree.ClosedUp(before, path, q)) == Tree.Get(before, q)
      {
        Tree.RemoveKeepsTheRest(before, path, q);
      }
    }
  }

  lemma ExpandHasEffect(before: Json, path: Tree.Path, body: Json, after: Json)
    requires Candidate(before, Expand(path, body)) == Some(after)
    ensures Effect(before, Expand(path, body), after)
  {
    hide Tree.Set, Tree.Get, Restore, Carries, Tree.Apart, Tree.Moved;
    var items := Tree.Get(before, path).value.items;
    var grown := Arr(items + body.items);
    RestoreIsLocal(ROOT, before, path, grown);
    RestoreAppended(SpotAt(ROOT, before, path), items, body.items);
    Tree.GetAfterSet(before, path, grown, Tree.Replace);
    forall q | Tree.Apart(before, path, q, Tree.Replace) ensures Tree.Get(after, q) == Tree.Get(before, q) {
      Tree.SetKeepsTheRest(before, path, grown, Tree.Replace, q);
      Tree.MovedInPlace(before, path, q, Tree.Replace);
    }
  }

  lemma LoadHasEffect(before: Json, whole: Json, after: Json)
    requires Candidate(before, Load(whole)) == Some(after)
    ensures Effect(before, Load(whole), after)
  {
    hide Restore, Carries, Mask;
    if !Carries(ROOT, whole) {
      RestoreKeepsTheRest(ROOT, whole, Some(before));
    }
    RestoreUndoesMask(ROOT, before);
  }

  lemma EditHasEffect(before: Json, edit: Edit, after: Json)
    requires Candidate(before, edit) == Some(after)
    ensures Effect(before, edit, after)
  {
    hide Candidate, Effect;
    match edit
    case Load(whole) => LoadHasEffect(before, whole, after);
    case Write(path, value, mode) => WriteHasEffect(before, path, value, mode, after);
    case Erase(path) => EraseHasEffect(before, path, after);
    case Expand(path, body) => ExpandHasEffect(before, path, body, after);
  }

  /** A PUT and then a DELETE at its path lead back to the document, exactly when that showed no placeholder. */
  lemma PutThenDeleteLeadsBack(before: Json, path: Tree.Path, value: Json, between: Json, after: Json)
    requires Candidate(before, Write(path, value, Tree.Create)) == Some(between)
    requires Candidate(between, Erase(path)) == Some(after)
    ensures after == before <==> !Carries(ROOT, before)
  {
    hide Tree.Set, Tree.Remove, Restore, Carries, Stays, PlaceSpot, Was;
    if !Carries(ROOT, before) {
      var v := Restore(PlaceSpot(ROOT, before, path), value, Was(before, path));
      RestoreOfEdit(ROOT, before, path, value, Tree.Create);
      UncarriedStays(ROOT, before, path, Tree.Create);
      Tree.PutThenDelete(before, path, v);
      RestoreKeepsTheRest(ROOT, before, Some(between));
    }
  }

  // ----- The protocol -----

  datatype Origin = Startup | Signal | Api(edit: Edit)

  datatype Generation = Generation(snapshot: Snapshot, origin: Origin)

  type Request = nat

  datatype State = State(
    log: seq<Generation>,               // every publication, the current one last
    held: map<Request, Snapshot>,       // the snapshot each running request works on
    apiChanged: bool)                   // signal reloads are off once the API published

  predicate Started(s: State) {
    s.log != []
  }

  function Current(s: State): Snapshot
    requires Started(s)
  {
    s.log[|s.log| - 1].snapshot
  }

  function Initial(document: Json): State {
    State([Generation(Snapshot(0, document), Startup)], map[], false)
  }

  datatype Event =
    | Authorize(request: Request)                            // a request takes its snapshot
    | Commit(request: Request, edit: Edit, valid: bool)      // and tries to publish; `valid`: the runtime accepts it
    | Reload(document: Json, valid: bool)                    // a signal reload

  function Publish(s: State, document: Json, origin: Origin): State
    requires Started(s)
  {
    s.(log := s.log + [Generation(Snapshot((Current(s).revision + 1) % WORD, document), origin)],
       apiChanged := s.apiChanged || origin.Api?)
  }

  /** The commit passes every check, the revision check last and under the publication lock. */
  predicate Commits(s: State, e: Event)
    requires Started(s) && e.Commit?
  {
    && e.request in s.held && e.valid
    && Candidate(s.held[e.request].document, e.edit).Some?
    && Current(s).revision == s.held[e.request].revision
  }

  function Step(s: State, e: Event): (t: State)
    requires Started(s)
    ensures Started(t) && s.log <= t.log
  {
    match e
    case Authorize(request) => s.(held := s.held[request := Current(s)])
    case Commit(request, edit, _) =>
      if Commits(s, e) then Publish(s, Candidate(s.held[request].document, edit).value, Api(edit)) else s
    case Reload(document, valid) =>
      if valid && !s.apiChanged then Publish(s, document, Signal) else s
  }

  function Run(document: Json, events: seq<Event>): (s: State)
    ensures Started(s)
  {
    if events == [] then Initial(document)
    else Step(Run(document, events[..|events| - 1]), events[|events| - 1])
  }

  // ----- Invariants of every run -----

  ghost predicate Numbered(s: State) {
    && Started(s)
    && (forall i :: 0 <= i < |s.log| ==> s.log[i].snapshot.revision == i % WORD)
    && (forall r :: r in s.held ==> Retained(s, s.held[r]))
  }

  ghost predicate Retained(s: State, snapshot: Snapshot) {
    exists i :: 0 <= i < |s.log| && s.log[i].snapshot == snapshot
  }

  /** An API generation is its edit of the very generation before it, and shows no placeholder. */
  ghost predicate Linked(log: seq<Generation>, i: nat)
    requires 0 < i < |log|
  {
    log[i].origin.Api? ==>
      && Candidate(log[i - 1].snapshot.document, log[i].origin.edit) == Some(log[i].snapshot.document)
      && !Carries(ROOT, log[i].snapshot.document)
  }

  /** Nothing from a signal follows anything from the API. */
  ghost predicate ApiWins(s: State) {
    && (forall i, j :: 0 <= i < j < |s.log| && s.log[i].origin.Api? ==> !s.log[j].origin.Signal?)
    && (s.apiChanged <==> exists i :: 0 <= i < |s.log| && s.log[i].origin.Api?)
  }

  lemma NumberedStep(s: State, e: Event)
    requires Numbered(s)
    ensures Numbered(Step(s, e))
  {
    hide Candidate, Commits;
    var t := Step(s, e);
    forall r | r in t.held ensures Retained(t, t.held[r]) {
      if r in s.held && t.held[r] == s.held[r] {
        var i :| 0 <= i < |s.log| && s.log[i].snapshot == s.held[r];
        assert t.log[i].snapshot == t.held[r];
      } else {
        assert t.log[|s.log| - 1].snapshot == t.held[r];
      }
    }
    if |t.log| > |s.log| {
      var n := |s.log|;
      assert Current(s).revision == (n - 1) % WORD;
      assert t.log[n].snapshot.revision == n % WORD;
    }
  }

  /** Within 2^64 publications, equal revisions mean the same generation. */
  lemma SameRevisionSameGeneration(s: State, snapshot: Snapshot)
    requires Numbered(s) && |s.log| <= WORD && Retained(s, snapshot)
    requires Current(s).revision == snapshot.revision
    ensures Current(s) == snapshot
  {
    var i :| 0 <= i < |s.log| && s.log[i].snapshot == snapshot;
    assert i % WORD == i && (|s.log| - 1) % WORD == |s.log| - 1;
  }

  lemma LinkedStep(s: State, e: Event)
    requires Numbered(s) && |s.log| <= WORD
    requires forall i :: 0 < i < |s.log| ==> Linked(s.log, i)
    ensures forall i :: 0 < i < |Step(s, e).log| ==> Linked(Step(s, e).log, i)
  {
    var t := Step(s, e);
    if e.Commit? && Commits(s, e) {
      SameRevisionSameGeneration(s, s.held[e.request]);
    }
    forall i | 0 < i < |t.log| ensures Linked(t.log, i) {
      if i < |s.log| {
        assert Linked(s.log, i);
      }
    }
  }

  lemma ApiWinsStep(s: State, e: Event)
    requires Started(s) && ApiWins(s)
    ensures ApiWins(Step(s, e))
  {
    var t := Step(s, e);
    if |t.log| > |s.log| {
      var n := |s.log|;
      assert t.log[..n] == s.log;
      assert t.log[n].origin.Api? || t.log[n].origin.Signal?;
      if s.apiChanged {
        var i :| 0 <= i < n && s.log[i].origin.Api?;
        assert t.log[i].origin.Api?;
      }
    }
  }

  lemma {:induction false} RunInvariant(document: Json, events: seq<Event>)
    ensures Numbered(Run(document, events)) && ApiWins(Run(document, events))
    ensures |Run(document, events).log| <= |events| + 1
    decreases |events|
  {
    if events != [] {
      var last := |events| - 1;
      RunInvariant(document, events[..last]);
      NumberedStep(Run(document, events[..last]), events[last]);
      ApiWinsStep(Run(document, events[..last]), events[last]);
    }
  }

  /**
   No lost updates: in every interleaving of up to 2^64 publications, each generation the API
   published is its edit applied to the generation just before it, with secrets
   restored from that one and no placeholder left.
   */
  lemma {:induction false} NoLostUpdates(document: Json, events: seq<Event>)
    requires |Run(document, events).log| <= WORD
    ensures forall i :: 0 < i < |Run(document, events).log| ==> Linked(Run(document, events).log, i)
    decreases |events|
  {
    if events != [] {
      var last := |events| - 1;
      var s := Run(document, events[..last]);
      NoLostUpdates(document, events[..last]);
      RunInvariant(document, events[..last]);
      LinkedStep(s, events[last]);
    }
  }

  /** So each generation the API published differs from the one before it as its edit says, read by GET. */
  lemma PublishedEdits(document: Json, events: seq<Event>, i: nat)
    requires 0 < i < |Run(document, events).log| <= WORD && Run(document, events).log[i].origin.Api?
    ensures var log := Run(document, events).log;
            Effect(log[i - 1].snapshot.document, log[i].origin.edit, log[i].snapshot.document)
  {
    hide Run, Candidate, Effect;
    var log := Run(document, events).log;
    NoLostUpdates(document, events);
    assert Linked(log, i);
    EditHasEffect(log[i - 1].snapshot.document, log[i].origin.edit, log[i].snapshot.document);
  }

  /** A published PUT and the published DELETE after it lead back, over any generation the API published. */
  lemma PublishedPutThenDelete(document: Json, events: seq<Event>, i: nat, path: Tree.Path, value: Json)
    requires 0 < i && i + 1 < |Run(document, events).log| <= WORD
    requires Run(document, events).log[i].origin == Api(Write(path, value, Tree.Create))
    requires Run(document, events).log[i + 1].origin == Api(Erase(path))
    ensures var log := Run(document, events).log;
            && (log[i + 1].snapshot.document == log[i - 1].snapshot.document <==>
                !Carries(ROOT, log[i - 1].snapshot.document))
            && (i > 1 && log[i - 1].origin.Api? ==> log[i + 1].snapshot.document == log[i - 1].snapshot.document)
  {
    hide Run, Candidate, Carries;
    var log := Run(document, events).log;
    NoLostUpdates(document, events);
    assert Linked(log, i) && Linked(log, i + 1);
    assert i > 1 ==> Linked(log, i - 1);
    PutThenDeleteLeadsBack(log[i - 1].snapshot.document, path, value, log[i].snapshot.document, log[i + 1].snapshot.document);
  }

  /** Revisions strictly increase along the publications, until the counter wraps. */
  lemma RevisionsIncrease(document: Json, events: seq<Event>, i: nat, j: nat)
    requires i < j < |Run(document, events).log| <= WORD
    ensures Run(document, events).log[i].snapshot.revision < Run(document, events).log[j].snapshot.revision
  {
    hide Run;
    RunInvariant(document, events);
    assert i % WORD == i && j % WORD == j;
  }

  /** A signal reload never overwrites a generation the API published. */
  lemma ReloadsNeverFollowTheApi(document: Json, events: seq<Event>, i: nat, j: nat)
    requires i < j < |Run(document, events).log| && Run(document, events).log[i].origin.Api?
    ensures !Run(document, events).log[j].origin.Signal?
  {
    RunInvariant(document, events);
  }

  /** A retained snapshot changes only when its own request takes a new one, and publications are never rewritten. */
  lemma {:induction false} SnapshotsAreImmutable(document: Json, events: seq<Event>, more: seq<Event>, request: Request)
    requires request in Run(document, events).held
    requires forall k :: 0 <= k < |more| ==> more[k] != Authorize(request)
    ensures Run(document, events).log <= Run(document, events + more).log
    ensures request in Run(document, events + more).held
    ensures Run(document, events + more).held[request] == Run(document, events).held[request]
    decreases |more|
  {
    hide Candidate, Commits;
    if more == [] {
      assert events + more == events;
    } else {
      var last := |more| - 1;
      var all := events + more;
      assert all[..|all| - 1] == events + more[..last] && all[|all| - 1] == more[last];
      SnapshotsAreImmutable(document, events, more[..last], request);
    }
  }

  /**
   Exactly what the guard can see: a write authorized `age` publications ago passes the
   revision check if and only if `age` is a multiple of 2^64.
   */
  lemma GuardSeesAgeModuloWord(s: State, i: nat)
    requires Numbered(s) && i < |s.log|
    ensures Current(s).revision == s.log[i].snapshot.revision <==> (|s.log| - 1 - i) % WORD == 0
  {
  }

  // ----- The code -----

  datatype ApplyError = Unavailable | Invalid | StaleAuthorization | Placeholder

  datatype Applying = Done | Refused(error: ApplyError)

  class Publisher {
    var current: Snapshot
    var apiChanged: bool

    constructor (document: Json)
      ensures current == Snapshot(0, document) && !apiChanged
    {
      current, apiChanged := Snapshot(0, document), false;
    }

    /** Under the publication lock: the reload gate, the runtime's own checks, the revision check, then the swap. */
    method PublishConfig(expected: Option<nat>, document: Json, valid: bool) returns (r: Applying)
      modifies this
      ensures r.Done? <==>
                && (expected.None? ==> !old(apiChanged)) && valid
                && (expected.Some? ==> old(current).revision == expected.value)
      ensures r.Done? ==>
                && current == Snapshot((old(current).revision + 1) % WORD, document)
                && apiChanged == (old(apiChanged) || expected.Some?)
      ensures !r.Done? ==> current == old(current) && apiChanged == old(apiChanged)
    {
      if expected.None? && apiChanged {
        return Refused(Unavailable);
      }
      if !valid {
        return Refused(Invalid);
      }
      if expected.Some? && current.revision != expected.value {
        return Refused(StaleAuthorization);
      }
      current := Snapshot((current.revision + 1) % WORD, document);
      if expected.Some? {
        apiChanged := true;
      }
      return Done;
    }

    /** One API write from the snapshot it was authorized under; it is one `Commit` step. */
    method CommitDocument(from: Snapshot, edit: Edit, valid: bool, ghost s: State, ghost request: Request)
      returns (r: Applying)
      requires Started(s) && Current(s) == current && s.apiChanged == apiChanged
      requires request in s.held && s.held[request] == from
      modifies this
      ensures var t := Step(s, Commit(request, edit, valid));
              Current(t) == current && t.apiChanged == apiChanged && (r.Done? <==> |t.log| > |s.log|)
    {
      match Applied(from.document, edit) {
        case Err(_) =>
          return Refused(Invalid);
        case Ok(next) =>
          var restored := RestorePlaceholders(next, from.document);
          if Carries(ROOT, restored) {
            return Refused(Placeholder);
          }
          r := PublishConfig(Some(from.revision), restored, valid);
      }
    }

    method ReloadDocument(document: Json, valid: bool, ghost s: State) returns (r: Applying)
      requires Started(s) && Current(s) == current && s.apiChanged == apiChanged
      modifies this
      ensures var t := Step(s, Reload(document, valid));
              Current(t) == current && t.apiChanged == apiChanged && (r.Done? <==> |t.log| > |s.log|)
    {
      r := PublishConfig(None, document, valid);
    }
  }
}
