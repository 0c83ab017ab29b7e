/** Traversal and edits of the configuration document, with the POST/PUT/PATCH/DELETE meanings of the Admin API. */
module ConfigTree {
  import opened Wire
  import opened Json

  datatype TreeError = NotFound | Conflict | Invalid(reason: string)

  datatype Result<T> = Ok(value: T) | Err(error: TreeError)

  datatype Mode = Upsert | Create | Replace

  type Path = seq<string>

  // ----- One step -----

  function IndexOf(segment: string): Result<nat> {
    match ParseIndex(segment)
    case None => Err(Invalid("array index expected, got `" + segment + "`"))
    case Some(i) => Ok(i)
  }

  function Child(node: Json, segment: string): Result<Json> {
    match node
    case Obj(fields) => if segment in fields then Ok(fields[segment]) else Err(NotFound)
    case Arr(items) =>
      (match IndexOf(segment)
       case Err(e) => Err(e)
       case Ok(i) => if i < |items| then Ok(items[i]) else Err(NotFound))
    case _ => Err(Invalid("cannot descend into a scalar"))
  }

  /** The node with the child that `segment` names replaced. */
  function WithChild(node: Json, segment: string, child: Json): Json
    requires Child(node, segment).Ok?
  {
    match node
    case Obj(fields) => Obj(fields[segment := child])
    case Arr(items) => Arr(items[IndexOf(segment).value := child])
  }

  function Get(doc: Json, path: Path): Result<Json> {
    if path == [] then Ok(doc)
    else
      match Child(doc, path[0])
      case Err(e) => Err(e)
      case Ok(child) => Get(child, path[1..])
  }

  // ----- Edits -----

  function SetRoot(doc: Json, value: Json, mode: Mode): Result<Json> {
    if mode.Create? && doc != Null then Err(Conflict) else Ok(value)
  }

  function SetIn(parent: Json, last: string, value: Json, mode: Mode): Result<Json> {
    match parent
    case Obj(fields) =>
      if mode.Create? && last in fields then Err(Conflict)
      else if mode.Replace? && last !in fields then Err(NotFound)
      else Ok(Obj(fields[last := value]))
    case Arr(items) =>
      (match IndexOf(last)
       case Err(e) => Err(e)
       case Ok(i) =>
         if i < |items| then
           Ok(Arr(if mode.Create? then items[..i] + [value] + items[i..] else items[i := value]))
         else if mode.Replace? then Err(NotFound)
         else if i == |items| then Ok(Arr(items + [value]))
         else Err(Invalid("array index out of range")))
    case _ => Err(Invalid("cannot write into a scalar"))
  }

  function Set(doc: Json, path: Path, value: Json, mode: Mode): Result<Json> {
    if path == [] then SetRoot(doc, value, mode)
    else if |path| == 1 then SetIn(doc, path[0], value, mode)
    else
      match Child(doc, path[0])
      case Err(e) => Err(e)
      case Ok(child) =>
        match Set(child, path[1..], value, mode)
        case Err(e) => Err(e)
        case Ok(edited) => Ok(WithChild(doc, path[0], edited))
  }

  datatype Removal = Removal(doc: Json, removed: Json)

  function RemoveIn(parent: Json, last: string): Result<Removal> {
    match parent
    case Obj(fields) =>
      if last in fields then Ok(Removal(Obj(fields - {last}), fields[last])) else Err(NotFound)
    case Arr(items) =>
      (match IndexOf(last)
       case Err(e) => Err(e)
       case Ok(i) =>
         if i < |items| then Ok(Removal(Arr(items[..i] + items[i + 1..]), items[i])) else Err(NotFound))
    case _ => Err(Invalid("cannot delete from a scalar"))
  }

  function Remove(doc: Json, path: Path): Result<Removal> {
    if path == [] then Ok(Removal(Null, doc))
    else if |path| == 1 then RemoveIn(doc, path[0])
    else
      match Child(doc, path[0])
      case Err(e) => Err(e)
      case Ok(child) =>
        match Remove(child, path[1..])
        case Err(e) => Err(e)
        case Ok(r) => Ok(Removal(WithChild(doc, path[0], r.doc), r.removed))
  }

  // ----- Laws -----

  lemma ChildOfWithChild(node: Json, segment: string, child: Json)
    requires Child(node, segment).Ok?
    ensures Child(WithChild(node, segment, child), segment) == Ok(child)
    ensures WithChild(WithChild(node, segment, child), segment, Child(node, segment).value) == node
  {
  }

  lemma WithChildTwice(node: Json, segment: string, a: Json, b: Json)
    requires Child(node, segment).Ok?
    ensures Child(WithChild(node, segment, a), segment).Ok?
    ensures WithChild(WithChild(node, segment, a), segment, b) == WithChild(node, segment, b)
    ensures WithChild(node, segment, Child(node, segment).value) == node
  {
  }

  lemma ReplaceIn(node: Json, segment: string, value: Json)
    requires Child(node, segment).Ok?
    ensures SetIn(node, segment, value, Replace) == Ok(WithChild(node, segment, value))
  {
  }

  lemma CreateInThenRemoveIn(parent: Json, last: string, value: Json)
    requires SetIn(parent, last, value, Create).Ok?
    ensures RemoveIn(SetIn(parent, last, value, Create).value, last) == Ok(Removal(parent, value))
  {
    match parent
    case Obj(fields) =>
      assert fields[last := value] - {last} == fields;
    case Arr(items) =>
      var i := IndexOf(last).value;
      var grown := SetIn(parent, last, value, Create).value.items;
      assert grown[..i] + grown[i + 1..] == items;
  }

  /** PUT then DELETE at the same path returns the inserted value and restores the document. */
  lemma {:induction false} PutThenDelete(doc: Json, path: Path, value: Json)
    requires Set(doc, path, value, Create).Ok?
    ensures Remove(Set(doc, path, value, Create).value, path) == Ok(Removal(doc, value))
    decreases |path|
  {
    if |path| == 1 {
      CreateInThenRemoveIn(doc, path[0], value);
    } else if |path| > 1 {
      var child := Child(doc, path[0]).value;
      PutThenDelete(child, path[1..], value);
      ChildOfWithChild(doc, path[0], Set(child, path[1..], value, Create).value);
    }
  }

  /** A written value is read back at the path it was written to, in every mode. */
  lemma {:induction false} GetAfterSet(doc: Json, path: Path, value: Json, mode: Mode)
    requires Set(doc, path, value, mode).Ok?
    ensures Get(Set(doc, path, value, mode).value, path) == Ok(value)
    decreases |path|
  {
    if |path| == 1 {
      assert path[1..] == [];
    } else if |path| > 1 {
      var child := Child(doc, path[0]).value;
      GetAfterSet(child, path[1..], value, mode);
      ChildOfWithChild(doc, path[0], Set(child, path[1..], value, mode).value);
    }
  }

  /**
   The two paths part ways: at an object by key, or at an array by index.  An insertion into an
   array parts from every element of it that a machine word can name at its new place.
   */
  predicate Apart(doc: Json, p: Path, q: Path, mode: Mode)
    decreases |p|
  {
    && p != [] && q != []
    && match doc
       case Obj(fields) => p[0] != q[0] || (p[0] in fields && Apart(fields[p[0]], p[1..], q[1..], mode))
       case Arr(items) =>
         && IndexOf(p[0]).Ok? && IndexOf(q[0]).Ok?
         && var i, j := IndexOf(p[0]).value, IndexOf(q[0]).value;
            if |p| == 1 && mode.Create? then j < U64_MAX
            else i != j || (i < |items| && Apart(items[i], p[1..], q[1..], mode))
       case _ => false
  }

  /** Where a write at `p` leaves what `q` names: an insertion moves the elements from its index on by one. */
  function Moved(doc: Json, p: Path, q: Path, mode: Mode): Path
    requires Apart(doc, p, q, mode)
    decreases |p|
  {
    match doc
    case Obj(fields) => if p[0] != q[0] then q else [q[0]] + Moved(fields[p[0]], p[1..], q[1..], mode)
    case Arr(items) =>
      var i, j := IndexOf(p[0]).value, IndexOf(q[0]).value;
      if |p| == 1 && mode.Create? then if j < i then q else [ToDecimal(j + 1)] + q[1..]
      else if i != j then q
      else [q[0]] + Moved(items[i], p[1..], q[1..], mode)
  }

  lemma SetInKeepsTheRest(parent: Json, last: string, value: Json, mode: Mode, segment: string)
    requires SetIn(parent, last, value, mode).Ok?
    requires parent.Obj? ==> last != segment
    requires parent.Arr? ==> !mode.Create? && IndexOf(segment).Ok? && IndexOf(segment).value != IndexOf(last).value
    ensures Child(SetIn(parent, last, value, mode).value, segment) == Child(parent, segment)
  {
  }

  lemma InsertionMoves(items: seq<Json>, last: string, value: Json, segment: string)
    requires SetIn(Arr(items), last, value, Create).Ok? && IndexOf(segment).Ok? && IndexOf(segment).value < U64_MAX
    ensures var i, j := IndexOf(last).value, IndexOf(segment).value;
            Child(SetIn(Arr(items), last, value, Create).value, if j < i then segment else ToDecimal(j + 1))
              == Child(Arr(items), segment)
  {
    IndexRoundTrip(IndexOf(segment).value + 1);
  }

  lemma WithChildKeepsTheRest(node: Json, at: string, child: Json, segment: string)
    requires Child(node, at).Ok?
    requires node.Obj? ==> at != segment
    requires node.Arr? ==> IndexOf(segment).Ok? && IndexOf(segment).value != IndexOf(at).value
    ensures Child(WithChild(node, at, child), segment) == Child(node, segment)
  {
  }

  lemma ChildByIndex(items: seq<Json>, a: string, b: string)
    requires IndexOf(a).Ok? && IndexOf(b).Ok? && IndexOf(a).value == IndexOf(b).value
    ensures Child(Arr(items), a) == Child(Arr(items), b)
  {
  }

  /** A write changes nothing that can be read at any other path, once the path follows what was moved. */
  lemma {:induction false} SetKeepsTheRest(doc: Json, p: Path, value: Json, mode: Mode, q: Path)
    requires Set(doc, p, value, mode).Ok? && Apart(doc, p, q, mode)
    ensures Get(Set(doc, p, value, mode).value, Moved(doc, p, q, mode)) == Get(doc, q)
    decreases |p|
  {
    hide SetIn, WithChild;
    var to := Moved(doc, p, q, mode);
    if doc.Arr? && |p| == 1 && mode.Create? {
      InsertionMoves(doc.items, p[0], value, q[0]);
      assert to[1..] == q[1..];
    } else if (doc.Obj? && p[0] != q[0]) || (doc.Arr? && IndexOf(p[0]).value != IndexOf(q[0]).value) {
      if |p| == 1 {
        SetInKeepsTheRest(doc, p[0], value, mode, q[0]);
      } else {
        WithChildKeepsTheRest(doc, p[0], Set(Child(doc, p[0]).value, p[1..], value, mode).value, q[0]);
      }
    } else {
      var child := Child(doc, p[0]).value;
      assert |p| > 1;
      SetKeepsTheRest(child, p[1..], value, mode, q[1..]);
      assert to[0] == q[0] && to[1..] == Moved(child, p[1..], q[1..], mode);
      var edited := Set(child, p[1..], value, mode).value;
      ChildOfWithChild(doc, p[0], edited);
      if doc.Arr? {
        ChildByIndex(doc.items, p[0], q[0]);
        WithChildIsArray(doc, p[0], edited);
        ChildByIndex(WithChild(doc, p[0], edited).items, p[0], q[0]);
      }
    }
  }

  lemma WithChildIsArray(node: Json, at: string, child: Json)
    requires Child(node, at).Ok?
    ensures WithChild(node, at, child).Arr? == node.Arr?
  {
  }

  lemma {:induction false} MovedInPlace(doc: Json, p: Path, q: Path, mode: Mode)
    requires Apart(doc, p, q, mode) && !mode.Create?
    ensures Moved(doc, p, q, mode) == q
    decreases |p|
  {
    if doc.Obj? && p[0] == q[0] {
      MovedInPlace(doc.fields[p[0]], p[1..], q[1..], mode);
    } else if doc.Arr? && IndexOf(p[0]).value == IndexOf(q[0]).value {
      MovedInPlace(doc.items[IndexOf(p[0]).value], p[1..], q[1..], mode);
    }
  }

  /** When a write succeeds, over the parent it goes into; a missing parent is its error in every mode. */
  lemma {:induction false} SetSucceedsExactly(doc: Json, path: Path, value: Json, mode: Mode)
    ensures path == [] ==> (Set(doc, path, value, mode).Ok? <==> mode.Create? ==> doc == Null)
    ensures path != [] ==>
              var last := |path| - 1;
              match Get(doc, path[..last])
              case Err(e) => Set(doc, path, value, mode) == Err(e)
              case Ok(parent) =>
                Set(doc, path, value, mode).Ok? <==>
                  match parent
                  case Obj(fields) =>
                    (match mode
                     case Upsert => true
                     case Create => path[last] !in fields
                     case Replace => path[last] in fields)
                  case Arr(items) =>
                    && IndexOf(path[last]).Ok?
                    && if mode.Replace? then IndexOf(path[last]).value < |items| else IndexOf(path[last]).value <= |items|
                  case _ => false
    decreases |path|
  {
    if |path| > 1 {
      var last := |path| - 1;
      assert path[..last][1..] == path[1..][..last - 1];
      if Child(doc, path[0]).Ok? {
        SetSucceedsExactly(Child(doc, path[0]).value, path[1..], value, mode);
      }
    }
  }

  // ----- What a deletion leaves -----

  lemma GetOne(doc: Json, segment: string)
    ensures Get(doc, [segment]) == Child(doc, segment)
  {
    assert [segment][1..] == [];
  }

  /** DELETE succeeds exactly where GET does, and returns what GET reads. */
  lemma {:induction false} RemoveExactlyWhereGet(doc: Json, path: Path)
    ensures match Get(doc, path)
            case Err(_) => Remove(doc, path).Err?
            case Ok(node) => Remove(doc, path).Ok? && Remove(doc, path).value.removed == node
    decreases |path|
  {
    if |path| == 1 {
      assert path == [path[0]];
      GetOne(doc, path[0]);
    } else if |path| > 1 && Child(doc, path[0]).Ok? {
      RemoveExactlyWhereGet(Child(doc, path[0]).value, path[1..]);
    }
  }

  /** The two paths part ways before the end of the first. */
  predicate Besides(doc: Json, p: Path, q: Path)
    decreases |p|
  {
    && p != [] && q != []
    && match doc
       case Obj(fields) => p[0] != q[0] || (|p| > 1 && p[0] in fields && Besides(fields[p[0]], p[1..], q[1..]))
       case Arr(items) =>
         && IndexOf(p[0]).Ok? && IndexOf(q[0]).Ok?
         && var i, j := IndexOf(p[0]).value, IndexOf(q[0]).value;
            i != j || (|p| > 1 && i < |items| && Besides(items[i], p[1..], q[1..]))
       case _ => false
  }

  /** Where a deletion at `p` leaves what `q` names: later elements of an array close up by one. */
  function ClosedUp(doc: Json, p: Path, q: Path): Path
    requires Besides(doc, p, q)
    decreases |p|
  {
    match doc
    case Obj(fields) => if p[0] != q[0] then q else [q[0]] + ClosedUp(fields[p[0]], p[1..], q[1..])
    case Arr(items) =>
      var i, j := IndexOf(p[0]).value, IndexOf(q[0]).value;
      if i == j then [q[0]] + ClosedUp(items[i], p[1..], q[1..])
      else if |p| == 1 && j > i then [ToDecimal(j - 1)] + q[1..]
      else q
  }

  lemma IndexFits(segment: string)
    requires IndexOf(segment).Ok?
    ensures IndexOf(segment).value <= U64_MAX
  {
  }

  lemma RemoveInKeepsTheRest(parent: Json, last: string, segment: string)
    requires RemoveIn(parent, last).Ok?
    requires parent.Obj? ==> last != segment
    requires parent.Arr? ==> IndexOf(segment).Ok? && IndexOf(segment).value != IndexOf(last).value
    ensures var to := if parent.Arr? && IndexOf(segment).value > IndexOf(last).value
                      then ToDecimal(IndexOf(segment).value - 1) else segment;
            Child(RemoveIn(parent, last).value.doc, to) == Child(parent, segment)
  {
    if parent.Arr? {
      hide IndexOf, ToDecimal;
      var i, j := IndexOf(last).value, IndexOf(segment).value;
      var left := parent.items[..i] + parent.items[i + 1..];
      assert RemoveIn(parent, last).value.doc == Arr(left);
      if j > i {
        IndexFits(segment);
        IndexOfDecimal(j - 1);
        assert j < |parent.items| ==> left[j - 1] == parent.items[j];
      } else {
        assert left[j] == parent.items[j];
      }
    }
  }

  lemma IndexOfDecimal(n: nat)
    requires n <= U64_MAX
    ensures IndexOf(ToDecimal(n)) == Ok(n)
  {
    IndexRoundTrip(n);
  }

  /** A deletion changes nothing that can be read at any other path, once the path follows what closed up. */
  lemma {:induction false} RemoveKeepsTheRest(doc: Json, p: Path, q: Path)
    requires Remove(doc, p).Ok? && Besides(doc, p, q)
    ensures Get(Remove(doc, p).value.doc, ClosedUp(doc, p, q)) == Get(doc, q)
    decreases |p|
  {
    hide RemoveIn, WithChild;
    var to := ClosedUp(doc, p, q);
    if (doc.Obj? && p[0] != q[0]) || (doc.Arr? && IndexOf(p[0]).value != IndexOf(q[0]).value) {
      if |p| == 1 {
        RemoveInKeepsTheRest(doc, p[0], q[0]);
        assert to[1..] == q[1..];
      } else {
        WithChildKeepsTheRest(doc, p[0], Remove(Child(doc, p[0]).value, p[1..]).value.doc, q[0]);
      }
    } else {
      var child := Child(doc, p[0]).value;
      RemoveKeepsTheRest(child, p[1..], q[1..]);
      assert to[0] == q[0] && to[1..] == ClosedUp(child, p[1..], q[1..]);
      var left := Remove(child, p[1..]).value.doc;
      ChildOfWithChild(doc, p[0], left);
      if doc.Arr? {
        ChildByIndex(doc.items, p[0], q[0]);
        WithChildIsArray(doc, p[0], left);
        ChildByIndex(WithChild(doc, p[0], left).items, p[0], q[0]);
      }
    }
  }

  /** A deleted field is gone. */
  lemma {:induction false} RemovedFieldIsGone(doc: Json, path: Path)
    requires Remove(doc, path).Ok? && path != []
    requires Get(doc, path[..|path| - 1]).Ok? && Get(doc, path[..|path| - 1]).value.Obj?
    ensures Get(Remove(doc, path).value.doc, path) == Err(NotFound)
    decreases |path|
  {
    var last := |path| - 1;
    if last == 0 {
      assert path[..0] == [];
    } else {
      assert path[..last][1..] == path[1..][..last - 1];
      var child := Child(doc, path[0]).value;
      RemovedFieldIsGone(child, path[1..]);
      ChildOfWithChild(doc, path[0], Remove(child, path[1..]).value.doc);
    }
  }

  /** PATCH succeeds exactly where GET does. */
  lemma {:induction false} ReplaceExactlyWhereGet(doc: Json, path: Path, value: Json)
    ensures Set(doc, path, value, Replace).Ok? <==> Get(doc, path).Ok?
    decreases |path|
  {
    if |path| == 1 {
      assert path[1..] == [];
    } else if |path| > 1 && Child(doc, path[0]).Ok? {
      ReplaceExactlyWhereGet(Child(doc, path[0]).value, path[1..], value);
    }
  }

  /** Two replacements at one path are the last of them. */
  lemma {:induction false} ReplaceTwice(doc: Json, path: Path, a: Json, b: Json)
    requires Get(doc, path).Ok?
    ensures Set(doc, path, a, Replace).Ok?
    ensures Set(Set(doc, path, a, Replace).value, path, b, Replace) == Set(doc, path, b, Replace)
    decreases |path|
  {
    hide SetIn, WithChild, Child;
    if |path| == 1 {
      ReplaceTwiceIn(doc, path[0], a, b);
    } else if |path| > 1 {
      var child := Child(doc, path[0]).value;
      ReplaceTwice(child, path[1..], a, b);
      ReplaceExactlyWhereGet(child, path[1..], b);
      var first, second := Set(child, path[1..], a, Replace).value, Set(child, path[1..], b, Replace).value;
      var once := WithChild(doc, path[0], first);
      assert Set(doc, path, a, Replace) == Ok(once);
      ChildOfWithChild(doc, path[0], first);
      assert Set(once, path, b, Replace) == Ok(WithChild(once, path[0], second));
      WithChildTwice(doc, path[0], first, second);
    }
  }

  lemma ReplaceTwiceIn(node: Json, segment: string, a: Json, b: Json)
    requires Child(node, segment).Ok?
    ensures SetIn(node, segment, a, Replace).Ok?
    ensures SetIn(SetIn(node, segment, a, Replace).value, segment, b, Replace) == SetIn(node, segment, b, Replace)
  {
    hide SetIn, WithChild, Child;
    ReplaceIn(node, segment, a);
    ReplaceIn(node, segment, b);
    WithChildTwice(node, segment, a, b);
    ReplaceIn(WithChild(node, segment, a), segment, b);
  }

  /** Writing back what was read changes nothing. */
  lemma {:induction false} WriteBack(doc: Json, path: Path)
    requires Get(doc, path).Ok?
    ensures Set(doc, path, Get(doc, path).value, Replace) == Ok(doc)
    decreases |path|
  {
    hide SetIn, WithChild, Child;
    if |path| == 1 {
      assert path[1..] == [];
      ReplaceIn(doc, path[0], Child(doc, path[0]).value);
      WithChildTwice(doc, path[0], Null, Null);
    } else if |path| > 1 {
      WriteBack(Child(doc, path[0]).value, path[1..]);
      WithChildTwice(doc, path[0], Null, Null);
    }
  }

  /** POST at the first free index of an array is PATCH of the array grown by one. */
  lemma {:induction false} AppendIsReplace(doc: Json, path: Path, items: seq<Json>, value: Json)
    requires Get(doc, path) == Ok(Arr(items)) && |items| <= U64_MAX
    ensures Set(doc, path + [ToDecimal(|items|)], value, Upsert) == Set(doc, path, Arr(items + [value]), Replace)
    decreases |path|
  {
    var deep := path + [ToDecimal(|items|)];
    IndexRoundTrip(|items|);
    if path != [] {
      var child := Child(doc, path[0]).value;
      AppendIsReplace(child, path[1..], items, value);
      assert deep[1..] == path[1..] + [ToDecimal(|items|)];
      if |path| == 1 {
        assert path[1..] == [];
      }
    }
  }

  lemma AppendStep(start: Json, doc: Json, path: Path, held: seq<Json>, value: Json)
    requires Set(start, path, Arr(held), Replace) == Ok(doc) && |held| <= U64_MAX
    ensures Set(doc, path + [ToDecimal(|held|)], value, Upsert) == Set(start, path, Arr(held + [value]), Replace)
    ensures Set(start, path, Arr(held + [value]), Replace).Ok?
  {
    hide Set, Get;
    GetAfterSet(start, path, Arr(held), Replace);
    AppendIsReplace(doc, path, held, value);
    ReplaceExactlyWhereGet(start, path, Arr(held));
    ReplaceExactlyWhereGet(start, path, Arr(held + [value]));
    ReplaceTwice(start, path, Arr(held), Arr(held + [value]));
  }

  /** What a POST of `...` must do: grow the target array by the whole body, in order, and touch nothing else. */
  function Expanded(doc: Json, path: Path, body: Json): Result<Json> {
    if !body.Arr? then Err(Invalid("`...` expansion requires an array body"))
    else
      match Get(doc, path)
      case Err(e) => Err(e)
      case Ok(Arr(items)) => Set(doc, path, Arr(items + body.items), Replace)
      case Ok(_) => Err(Invalid("`...` expansion requires an array target"))
  }

  // ----- The walk to the parent -----

  /** The nodes from the document to the parent of what `path` names. */
  predicate Chain(nodes: seq<Json>, path: Path) {
    && |nodes| == |path| > 0
    && forall i :: 0 <= i < |path| - 1 ==> Linked(nodes, path, i)
  }

  /** Segment `i` leads from one node to the next. */
  predicate Linked(nodes: seq<Json>, path: Path, i: nat)
    requires i + 1 < |nodes| && i < |path|
  {
    Child(nodes[i], path[i]) == Ok(nodes[i + 1])
  }

  lemma ChainPrefix(nodes: seq<Json>, path: Path, n: nat)
    requires Chain(nodes, path) && 0 < n <= |nodes|
    ensures Chain(nodes[..n], path[..n])
    ensures n < |nodes| ==> Child(nodes[n - 1], path[n - 1]).Ok?
  {
    var front, steps := nodes[..n], path[..n];
    forall i | 0 <= i < n - 1 ensures Linked(front, steps, i) {
      assert Linked(nodes, path, i);
    }
    assert n < |nodes| ==> Linked(nodes, path, n - 1);
  }

  /** The first node of a chain, once the last one has become `edited`. */
  function Rebuilt(nodes: seq<Json>, path: Path, edited: Json): Json
    requires Chain(nodes, path)
    decreases |nodes|
  {
    var last := |nodes| - 1;
    if last == 0 then edited
    else
      ChainPrefix(nodes, path, last);
      Rebuilt(nodes[..last], path[..last], WithChild(nodes[last - 1], path[last - 1], edited))
  }

  lemma {:induction false} RebuiltFromTop(nodes: seq<Json>, path: Path, edited: Json)
    requires Chain(nodes, path) && |path| > 1
    ensures Child(nodes[0], path[0]) == Ok(nodes[1])
    ensures Chain(nodes[1..], path[1..])
    ensures Rebuilt(nodes, path, edited) == WithChild(nodes[0], path[0], Rebuilt(nodes[1..], path[1..], edited))
    decreases |nodes|
  {
    hide WithChild, Child;
    var last := |nodes| - 1;
    forall i | 0 <= i < last - 1 ensures Linked(nodes[1..], path[1..], i) {
      assert Linked(nodes, path, i + 1);
    }
    assert Linked(nodes, path, 0) && Linked(nodes, path, last - 1);
    if last > 1 {
      ChainPrefix(nodes, path, last);
      assert nodes[1..][..last - 1] == nodes[..last][1..] && path[1..][..last - 1] == path[..last][1..];
      RebuiltFromTop(nodes[..last], path[..last], WithChild(nodes[last - 1], path[last - 1], edited));
    }
  }

  /** An edit is the edit of the parent at the end of the chain, rebuilt. */
  lemma {:induction false} EditAlongChain(nodes: seq<Json>, path: Path, value: Json, mode: Mode)
    requires Chain(nodes, path)
    ensures var last := |path| - 1;
            && Set(nodes[0], path, value, mode) == (match SetIn(nodes[last], path[last], value, mode)
                                                    case Err(e) => Err(e)
                                                    case Ok(edited) => Ok(Rebuilt(nodes, path, edited)))
            && Remove(nodes[0], path) == (match RemoveIn(nodes[last], path[last])
                                          case Err(e) => Err(e)
                                          case Ok(r) => Ok(Removal(Rebuilt(nodes, path, r.doc), r.removed)))
    decreases |nodes|
  {
    hide WithChild, Child, SetIn, RemoveIn, Rebuilt;
    var last := |path| - 1;
    if last == 0 {
      forall edited ensures Rebuilt(nodes, path, edited) == edited {
        RebuiltAlone(nodes, path, edited);
      }
    } else {
      RebuiltFromTop(nodes, path, Null);
      forall edited ensures Rebuilt(nodes, path, edited) == WithChild(nodes[0], path[0], Rebuilt(nodes[1..], path[1..], edited)) {
        RebuiltFromTop(nodes, path, edited);
      }
      EditAlongChain(nodes[1..], path[1..], value, mode);
    }
  }

  lemma RebuiltAlone(nodes: seq<Json>, path: Path, edited: Json)
    requires Chain(nodes, path) && |path| == 1
    ensures Rebuilt(nodes, path, edited) == edited
  {
  }

  /** A walk that breaks off on the way to the parent is the error of every edit. */
  lemma {:induction false} BrokenChain(nodes: seq<Json>, path: Path, value: Json, mode: Mode)
    requires 0 < |nodes| < |path| && Chain(nodes, path[..|nodes|])
    requires Child(nodes[|nodes| - 1], path[|nodes| - 1]).Err?
    ensures var e := Child(nodes[|nodes| - 1], path[|nodes| - 1]).error;
            Set(nodes[0], path, value, mode) == Err(e) && Remove(nodes[0], path) == Err(e)
    decreases |nodes|
  {
    hide WithChild, Child, SetIn, RemoveIn;
    if |nodes| > 1 {
      var front := path[..|nodes|];
      assert path[1..][..|nodes| - 1] == front[1..];
      RebuiltFromTop(nodes, front, Null);
      BrokenChain(nodes[1..], path[1..], value, mode);
    }
  }

  /** Every edit at `path` fails alike. */
  ghost predicate Refuses(doc: Json, path: Path, e: TreeError) {
    && Remove(doc, path) == Err(e)
    && forall value, mode :: Set(doc, path, value, mode) == Err(e)
  }

  lemma BrokenChainRefuses(nodes: seq<Json>, path: Path)
    requires 0 < |nodes| < |path| && Chain(nodes, path[..|nodes|])
    requires Child(nodes[|nodes| - 1], path[|nodes| - 1]).Err?
    ensures Refuses(nodes[0], path, Child(nodes[|nodes| - 1], path[|nodes| - 1]).error)
  {
    hide Set, Remove, Chain, Child;
    BrokenChain(nodes, path, Null, Upsert);
    forall value, mode ensures Set(nodes[0], path, value, mode) == Err(Child(nodes[|nodes| - 1], path[|nodes| - 1]).error) {
      BrokenChain(nodes, path, value, mode);
    }
  }

  /** Enters node after node up to the parent. */
  method TraverseParent(doc: Json, path: Path) returns (r: Result<seq<Json>>)
    requires path != []
    ensures match r
            case Ok(nodes) => Chain(nodes, path) && nodes[0] == doc
            case Err(e) => Refuses(doc, path, e)
  {
    hide Set, Remove, Refuses;
    var current, nodes := doc, [doc];
    for i := 0 to |path| - 1
      invariant |nodes| == i + 1 && Chain(nodes, path[..i + 1]) && nodes[0] == doc && nodes[i] == current
    {
      var segment := path[i];
      ghost var child := Child(current, segment);
      var entered: Result<Json>;
      match current {
        case Obj(fields) =>
          entered := if segment in fields then Ok(fields[segment]) else Err(NotFound);
        case Arr(items) =>
          var index := IndexOf(segment);
          if index.Err? {
            entered := Err(index.error);
          } else {
            entered := if index.value < |items| then Ok(items[index.value]) else Err(NotFound);
          }
        case _ => entered := Err(Invalid("cannot descend into a scalar"));
      }
      assert entered == child;
      if entered.Err? {
        BrokenChainRefuses(nodes, path);
        return Err(entered.error);
      }
      ChainGrows(nodes, path, entered.value);
      current := entered.value;
      nodes := nodes + [current];
    }
    assert path[..|path|] == path;
    return Ok(nodes);
  }

  lemma ChainGrows(nodes: seq<Json>, path: Path, next: Json)
    requires 0 < |nodes| < |path| && Chain(nodes, path[..|nodes|])
    requires Child(nodes[|nodes| - 1], path[|nodes| - 1]) == Ok(next)
    ensures Chain(nodes + [next], path[..|nodes| + 1])
  {
    hide Child;
    var n, longer, front := |nodes|, nodes + [next], path[..|nodes| + 1];
    forall i | 0 <= i < n ensures Linked(longer, front, i) {
      if i < n - 1 {
        assert Linked(nodes, path[..n], i);
      }
    }
  }

  /** The write itself, mode by mode, in the parent. */
  method WriteInto(parent: Json, last: string, value: Json, mode: Mode) returns (r: Result<Json>)
    ensures r == SetIn(parent, last, value, mode)
  {
    match parent {
      case Obj(fields) =>
        match mode {
          case Upsert => return Ok(Obj(fields[last := value]));
          case Create =>
            if last in fields {
              return Err(Conflict);
            }
            return Ok(Obj(fields[last := value]));
          case Replace =>
            if last !in fields {
              return Err(NotFound);
            }
            return Ok(Obj(fields[last := value]));
        }
      case Arr(items) =>
        var parsed := IndexOf(last);
        if parsed.Err? {
          return Err(parsed.error);
        }
        var index := parsed.value;
        match mode {
          case Upsert =>
            if index == |items| {
              return Ok(Arr(items + [value]));
            }
            if index < |items| {
              return Ok(Arr(items[index := value]));
            }
            return Err(Invalid("array index out of range"));
          case Create =>
            if index == |items| {
              return Ok(Arr(items + [value]));
            }
            if index < |items| {
              return Ok(Arr(items[..index] + [value] + items[index..]));
            }
            return Err(Invalid("array index out of range"));
          case Replace =>
            if index < |items| {
              return Ok(Arr(items[index := value]));
            }
            return Err(NotFound);
        }
      case _ => return Err(Invalid("cannot write into a scalar"));
    }
  }

  /** Puts the edited parent back, node by node, up to the document. */
  method PutBack(nodes: seq<Json>, path: Path, edited: Json) returns (doc: Json)
    requires Chain(nodes, path)
    ensures doc == Rebuilt(nodes, path, edited)
  {
    hide Child, WithChild, Linked;
    doc := edited;
    var i := |nodes| - 1;
    assert nodes[..i + 1] == nodes && path[..i + 1] == path;
    while i > 0
      invariant 0 <= i < |nodes| && Chain(nodes[..i + 1], path[..i + 1])
      invariant Rebuilt(nodes, path, edited) == Rebuilt(nodes[..i + 1], path[..i + 1], doc)
    {
      ChainPrefix(nodes, path, i);
      assert nodes[..i + 1][..i] == nodes[..i] && path[..i + 1][..i] == path[..i];
      doc := WithChild(nodes[i - 1], path[i - 1], doc);
      i := i - 1;
    }
  }

  lemma ChainLength(nodes: seq<Json>, path: Path)
    requires Chain(nodes, path)
    ensures |nodes| == |path| > 0
  {
  }

  // ----- The document, edited in place -----

  class Document {
    var doc: Json

    constructor (doc: Json)
      ensures this.doc == doc
    {
      this.doc := doc;
    }

    /** Walks to the parent, writes there and puts the result back, or changes nothing. */
    method Write(path: Path, value: Json, mode: Mode) returns (r: Result<()>)
      modifies this
      ensures match Set(old(doc), path, value, mode)
              case Err(e) => r == Err(e) && doc == old(doc)
              case Ok(edited) => r == Ok(()) && doc == edited
    {
      if path == [] {
        if mode.Create? && doc != Null {
          return Err(Conflict);
        }
        doc := value;
        return Ok(());
      }
      hide Set, Remove, SetIn, RemoveIn, Chain, Rebuilt;
      var walked := TraverseParent(doc, path);
      if walked.Err? {
        assert Set(doc, path, value, mode) == Err(walked.error);
        return Err(walked.error);
      }
      var nodes, last := walked.value, |path| - 1;
      EditAlongChain(nodes, path, value, mode);
      ChainLength(nodes, path);
      var written := WriteInto(nodes[last], path[last], value, mode);
      if written.Err? {
        return Err(written.error);
      }
      doc := PutBack(nodes, path, written.value);
      return Ok(());
    }

    method Delete(path: Path) returns (r: Result<Json>)
      modifies this
      ensures match Remove(old(doc), path)
              case Err(e) => r == Err(e) && doc == old(doc)
              case Ok(Removal(left, removed)) => r == Ok(removed) && doc == left
    {
      if path == [] {
        r := Ok(doc);
        doc := Null;
        return;
      }
      hide Set, Remove, Chain, Rebuilt;
      var walked := TraverseParent(doc, path);
      if walked.Err? {
        return Err(walked.error);
      }
      var nodes, last := walked.value, |path| - 1;
      EditAlongChain(nodes, path, Null, Upsert);
      ChainLength(nodes, path);
      match nodes[last] {
        case Obj(fields) =>
          if path[last] !in fields {
            return Err(NotFound);
          }
          doc := PutBack(nodes, path, Obj(fields - {path[last]}));
          return Ok(fields[path[last]]);
        case Arr(items) =>
          var parsed := IndexOf(path[last]);
          if parsed.Err? {
            return Err(parsed.error);
          }
          var index := parsed.value;
          if index >= |items| {
            return Err(NotFound);
          }
          doc := PutBack(nodes, path, Arr(items[..index] + items[index + 1..]));
          return Ok(items[index]);
        case _ => return Err(Invalid("cannot delete from a scalar"));
      }
    }

    /** Appends element by element; none of the writes can fail half way. */
    method ExpandAppend(path: Path, body: Json) returns (r: Result<()>)
      requires Get(doc, path).Ok? && Get(doc, path).value.Arr? && body.Arr? ==>
                 |Get(doc, path).value.items| + |body.items| <= U64_MAX
      modifies this
      ensures match Expanded(old(doc), path, body)
              case Err(e) => r == Err(e) && doc == old(doc)
              case Ok(grown) => r == Ok(()) && doc == grown
    {
      hide Set, Get;
      if !body.Arr? {
        return Err(Invalid("`...` expansion requires an array body"));
      }
      var target := Get(doc, path);
      match target {
        case Err(e) => return Err(e);
        case Ok(Arr(items)) =>
          var elements := body.items;
          WriteBack(doc, path);
          assert items + elements[..0] == items;
          for i := 0 to |elements|
            invariant Set(old(doc), path, Arr(items + elements[..i]), Replace) == Ok(doc)
          {
            ghost var held := items + elements[..i];
            AppendStep(old(doc), doc, path, held, elements[i]);
            assert held + [elements[i]] == items + elements[..i + 1];
            var written := Write(path + [ToDecimal(|items| + i)], elements[i], Upsert);
            if written.Err? {
              return written;
            }
          }
          assert elements[..|elements|] == elements;
          return Ok(());
        case Ok(_) =>
          return Err(Invalid("`...` expansion requires an array target"));
      }
    }
  }

  // ----- Tags -----

  predicate Tagged(node: Json, name: string) {
    node.Obj? && "@id" in node.fields && node.fields["@id"] == Str(name)
  }

  /** Every array is short enough for its indices to be machine words. */
  predicate Addressable(node: Json) {
    match node
    case Arr(items) => |items| <= U64_MAX && forall i :: 0 <= i < |items| ==> Addressable(items[i])
    case Obj(fields) => forall k :: k in fields ==> Addressable(fields[k])
    case _ => true
  }

  ghost predicate Finds(node: Json, path: Path, name: string) {
    Get(node, path).Ok? && Tagged(Get(node, path).value, name)
  }

  lemma FindsBelow(node: Json, segment: string, rest: Path, name: string)
    requires Child(node, segment).Ok? && Finds(Child(node, segment).value, rest, name)
    ensures Finds(node, [segment] + rest, name)
  {
    assert ([segment] + rest)[1..] == rest;
  }

  lemma FindsNothing(node: Json, name: string)
    requires !Tagged(node, name)
    requires match node
             case Obj(fields) => forall k, p :: k in fields ==> !Finds(fields[k], p, name)
             case Arr(items) => forall i, p :: 0 <= i < |items| ==> !Finds(items[i], p, name)
             case _ => true
    ensures forall p :: !Finds(node, p, name)
  {
    forall p ensures !Finds(node, p, name) {
      if p != [] && Child(node, p[0]).Ok? {
        assert !Finds(Child(node, p[0]).value, p[1..], name);
      }
    }
  }

  /** The keys of an object in the order its fields are visited. */
  type KeyOrder = Json -> seq<string>

  /** Every object below lists each of its keys once. */
  ghost predicate Lists(order: KeyOrder, node: Json) {
    match node
    case Arr(items) => forall i :: 0 <= i < |items| ==> Lists(order, items[i])
    case Obj(fields) =>
      && (forall k :: k in order(node) <==> k in fields)
      && (forall i, j :: 0 <= i < j < |order(node)| ==> order(node)[i] != order(node)[j])
      && (forall k :: k in fields ==> Lists(order, fields[k]))
    case _ => true
  }

  ghost predicate ListedBefore(keys: seq<string>, a: string, b: string) {
    exists i, j :: 0 <= i < j < |keys| && keys[i] == a && keys[j] == b
  }

  /** What `q` names comes before what `p` names when a node is visited before its children. */
  ghost predicate Earlier(order: KeyOrder, node: Json, q: Path, p: Path)
    decreases |p|
  {
    if p == [] || q == [] then q == [] && p != []
    else
      match node
      case Obj(fields) =>
        if q[0] == p[0] then p[0] in fields && Earlier(order, fields[p[0]], q[1..], p[1..])
        else ListedBefore(order(node), q[0], p[0])
      case Arr(items) =>
        && IndexOf(q[0]).Ok? && IndexOf(p[0]).Ok?
        && var i, j := IndexOf(q[0]).value, IndexOf(p[0]).value;
           if i == j then i < |items| && Earlier(order, items[i], q[1..], p[1..]) else i < j
      case _ => false
  }

  /** Nothing so tagged comes before `p`. */
  ghost predicate First(order: KeyOrder, node: Json, p: Path, name: string) {
    Finds(node, p, name) && forall q :: Finds(node, q, name) ==> !Earlier(order, node, q, p)
  }

  lemma FirstHere(order: KeyOrder, node: Json, name: string)
    requires Tagged(node, name)
    ensures First(order, node, [], name)
  {
  }

  lemma FirstInField(order: KeyOrder, node: Json, at: nat, rest: Path, name: string)
    requires node.Obj? && Lists(order, node) && !Tagged(node, name) && at < |order(node)|
    requires First(order, node.fields[order(node)[at]], rest, name)
    requires forall i, p :: 0 <= i < at ==> !Finds(node.fields[order(node)[i]], p, name)
    ensures First(order, node, [order(node)[at]] + rest, name)
  {
    var keys := order(node);
    var p := [keys[at]] + rest;
    FindsBelow(node, keys[at], rest, name);
    forall q | Finds(node, q, name) ensures !Earlier(order, node, q, p) {
      assert Finds(node.fields[q[0]], q[1..], name);
      assert p[1..] == rest;
    }
  }

  lemma FirstInItem(order: KeyOrder, node: Json, at: nat, rest: Path, name: string)
    requires node.Arr? && at < |node.items| <= U64_MAX
    requires First(order, node.items[at], rest, name)
    requires forall i, p :: 0 <= i < at ==> !Finds(node.items[i], p, name)
    ensures First(order, node, [ToDecimal(at)] + rest, name)
  {
    var p := [ToDecimal(at)] + rest;
    IndexRoundTrip(at);
    FindsBelow(node, ToDecimal(at), rest, name);
    forall q | Finds(node, q, name) ensures !Earlier(order, node, q, p) {
      if q != [] {
        assert Finds(node.items[IndexOf(q[0]).value], q[1..], name);
        assert p[1..] == rest;
      }
    }
  }

  ghost predicate FoundBelow(order: KeyOrder, node: Json, path: Path, name: string, found: Option<Path>) {
    match found
    case Some(full) => path <= full && First(order, node, full[|path|..], name)
    case None => forall p :: !Finds(node, p, name)
  }

  /** Searches below `node`, which `path` leads to; `path` is the stack of segments entered so far. */
  method Walk(order: KeyOrder, node: Json, path: Path, name: string) returns (found: Option<Path>)
    requires Addressable(node) && Lists(order, node)
    ensures FoundBelow(order, node, path, name, found)
    decreases node
  {
    hide First, Earlier, Finds;
    if Tagged(node, name) {
      assert path[|path|..] == [];
      FirstHere(order, node, name);
      return Some(path);
    }
    match node {
      case Obj(fields) =>
        var keys := order(node);
        for i := 0 to |keys|
          invariant forall k, p :: 0 <= k < i ==> !Finds(fields[keys[k]], p, name)
        {
          found := Walk(order, fields[keys[i]], path + [keys[i]], name);
          if found.Some? {
            ghost var rest := found.value[|path| + 1..];
            FirstInField(order, node, i, rest, name);
            assert found.value[|path|..] == [keys[i]] + rest;
            return;
          }
        }
        forall k, p | k in fields ensures !Finds(fields[k], p, name) {
          var i :| 0 <= i < |keys| && keys[i] == k;
        }
      case Arr(items) =>
        for i := 0 to |items|
          invariant forall k, p :: 0 <= k < i ==> !Finds(items[k], p, name)
        {
          found := Walk(order, items[i], path + [ToDecimal(i)], name);
          if found.Some? {
            ghost var rest := found.value[|path| + 1..];
            FirstInItem(order, node, i, rest, name);
            assert found.value[|path|..] == [ToDecimal(i)] + rest;
            return;
          }
        }
      case _ =>
    }
    FindsNothing(node, name);
    return None;
  }

  /** The path of the first object with that tag, in document order; none exactly when there is none. */
  method FindIdPath(order: KeyOrder, doc: Json, name: string) returns (found: Option<Path>)
    requires Addressable(doc) && Lists(order, doc)
    ensures found.Some? ==> First(order, doc, found.value, name)
    ensures found.None? ==> forall p :: !Finds(doc, p, name)
  {
    found := Walk(order, doc, [], name);
    assert found.Some? ==> found.value[0..] == found.value;
  }
}
