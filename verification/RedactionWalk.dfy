/**
 The walkers as the server runs them: one loop per node, and for a DNS provider a pass
 over its arguments before the pass over the provider itself.  One walker serves
 masking and restoring; what differs is what it does to a secret string.
 */
module RedactionWalk {
  import opened Wire
  import opened Json
  import opened Redaction
  import Tree = ConfigTree

  /** What to write over a secret string, given the running value at its position. */
  type Visitor = (string, Option<Json>) -> string

  function MaskVisitor(text: string, running: Option<Json>): string {
    if text == "" then text else REDACTED
  }

  function RestoreVisitor(text: string, running: Option<Json>): string {
    if text == REDACTED && RealSecret(running).Some? then RealSecret(running).value else text
  }

  /** Every secret string rewritten, and nothing else. */
  function Rewrite(s: Spot, j: Json, running: Option<Json>, visit: Visitor): Json
    decreases j
  {
    match j
    case Str(text) => if s.secret then Str(visit(text, running)) else j
    case Arr(items) =>
      Arr(seq(|items|, i requires 0 <= i < |items| => Rewrite(ItemSpot(s), items[i], RunningItem(running, i), visit)))
    case Obj(fields) =>
      Obj(map k | k in fields :: Rewrite(FieldSpot(s, k), fields[k], RunningField(running, k), visit))
    case _ => j
  }

  lemma {:induction false} MaskIsRewrite(s: Spot, j: Json)
    ensures Rewrite(s, j, None, MaskVisitor) == Mask(s, j)
    decreases j
  {
    match j
    case Arr(items) =>
      forall i | 0 <= i < |items| ensures Rewrite(ItemSpot(s), items[i], None, MaskVisitor) == Mask(ItemSpot(s), items[i]) {
        MaskIsRewrite(ItemSpot(s), items[i]);
      }
      assert Rewrite(s, j, None, MaskVisitor).items == Mask(s, j).items;
    case Obj(fields) =>
      forall k | k in fields ensures Rewrite(FieldSpot(s, k), fields[k], None, MaskVisitor) == Mask(FieldSpot(s, k), fields[k]) {
        MaskIsRewrite(FieldSpot(s, k), fields[k]);
      }
      assert Rewrite(s, j, None, MaskVisitor).fields == Mask(s, j).fields;
    case _ =>
  }

  lemma {:induction false} RestoreIsRewrite(s: Spot, j: Json, running: Option<Json>)
    ensures Rewrite(s, j, running, RestoreVisitor) == Restore(s, j, running)
    decreases j
  {
    match j
    case Arr(items) =>
      forall i | 0 <= i < |items|
        ensures Rewrite(ItemSpot(s), items[i], RunningItem(running, i), RestoreVisitor)
             == Restore(ItemSpot(s), items[i], RunningItem(running, i))
      {
        RestoreIsRewrite(ItemSpot(s), items[i], RunningItem(running, i));
      }
      assert Rewrite(s, j, running, RestoreVisitor).items == Restore(s, j, running).items;
    case Obj(fields) =>
      forall k | k in fields
        ensures Rewrite(FieldSpot(s, k), fields[k], RunningField(running, k), RestoreVisitor)
             == Restore(FieldSpot(s, k), fields[k], RunningField(running, k))
      {
        RestoreIsRewrite(FieldSpot(s, k), fields[k], RunningField(running, k));
      }
      assert Rewrite(s, j, running, RestoreVisitor).fields == Restore(s, j, running).fields;
    case _ =>
  }

  // ----- The two passes over a provider -----

  const PROVIDER := Spot(false, false, true, true)
  const ARGUMENTS := Spot(true, true, true, false)
  const STRING_ITEM := Spot(true, false, false, false)
  const ARGUMENT_ITEM := Spot(true, false, true, false)

  predicate NoPair(name: string, x: char, y: char) {
    forall i :: 0 <= i < |name| - 1 ==> name[i] != x || name[i + 1] != y
  }

  lemma NoFragment(name: string, fragment: string)
    requires |fragment| >= 2 && NoPair(name, fragment[0], fragment[1])
    ensures !HasPart(name, fragment)
  {
    forall i | 0 <= i <= |name| - |fragment| ensures name[i..][..|fragment|] != fragment {
      var part := name[i..][..|fragment|];
      assert part[0] == name[i] && part[1] == name[i + 1];
    }
  }

  /** A name in small letters that is not listed and holds no beginning of a listed part. */
  lemma NoCredential(name: string)
    requires TrimOperation(name) == name && LowerText(name) == name && name !in CREDENTIAL_NAMES
    requires NoPair(name, 'a', 'p') && NoPair(name, 't', 'o') && NoPair(name, 's', 'e') && NoPair(name, 'p', 'a')
    ensures !IsCredentialName(name)
  {
    hide HasPart, TrimOperation, LowerText, NoPair;
    NoFragment(name, "api-key");
    NoFragment(name, "api_key");
    NoFragment(name, "apikey");
    NoFragment(name, "token");
    NoFragment(name, "secret");
    NoFragment(name, "password");
  }

  lemma SmallAlready(name: string)
    requires forall i :: 0 <= i < |name| ==> !('A' <= name[i] <= 'Z')
    ensures LowerText(name) == name
  {
  }

  lemma ArgumentsIsNoCredential()
    ensures !IsCredentialName("arguments")
  {
    hide IsCredentialName, LowerText;
    SmallAlready("arguments");
    NoCredential("arguments");
  }

  lemma DnsIsNoCredential()
    ensures !IsCredentialName("dns")
  {
    hide IsCredentialName, LowerText;
    SmallAlready("dns");
    NoCredential("dns");
  }

  lemma AcmeDnsIsNoCredential()
    ensures !IsCredentialName("acme_dns")
  {
    hide IsCredentialName, LowerText;
    SmallAlready("acme_dns");
    NoCredential("acme_dns");
  }

  lemma ProviderIsNoCredential()
    ensures !IsCredentialName("provider")
  {
    hide IsCredentialName, LowerText;
    SmallAlready("provider");
    NoCredential("provider");
  }

  lemma ProviderKeysAreNoCredentials(key: string)
    requires IsProviderKey(key)
    ensures !IsCredentialName(key)
  {
    hide IsCredentialName;
    DnsIsNoCredential();
    AcmeDnsIsNoCredential();
    ProviderIsNoCredential();
  }

  /** The arguments of a DNS provider never show in the masked copy. */
  lemma ProviderArgumentsAreMasked(d: Json, path: Tree.Path, key: string)
    requires key in ["dns", "acme_dns", "provider"] && forall i :: 0 <= i < |path| ==> !IsCredentialName(path[i])
    requires Tree.Get(d, path + [key]).Ok? && Tree.Get(d, path).Ok? && Tree.Get(d, path).value.Obj?
    requires Tree.Get(d, path + [key]).value.Obj? && "arguments" in Tree.Get(d, path + [key]).value.fields
    ensures var shown := Tree.Get(Mask(ROOT, d), path + [key] + ["arguments"]);
            && shown.Ok?
            && match Tree.Get(d, path + [key]).value.fields["arguments"]
               case Str(text) => shown.value == Str(if text == "" then "" else REDACTED)
               case Arr(items) =>
                 && shown.value.Arr? && |shown.value.items| == |items|
                 && forall i :: 0 <= i < |items| && items[i].Str? ==>
                      shown.value.items[i] == Str(if items[i].s == "" then "" else REDACTED)
               case _ => true
  {
    hide IsCredentialName, Mask, SpotAt, Tree.Get;
    var node, spot := Tree.Get(d, path).value, SpotAt(ROOT, d, path);
    StillWalking(ROOT, d, path);
    ProviderKeysAreNoCredentials(key);
    GetOfMask(ROOT, d, path);
    GetJoins(d, path, [key]);
    GetJoins(Mask(ROOT, d), path, [key]);
    Tree.GetOne(node, key);
    Tree.GetOne(Mask(spot, node), key);
    ChildOfMask(spot, node, key);
    var provider := node.fields[key];
    assert FieldSpot(spot, key) == PROVIDER;
    GetJoins(Mask(ROOT, d), path + [key], ["arguments"]);
    Tree.GetOne(Mask(PROVIDER, provider), "arguments");
    ChildOfMask(PROVIDER, provider, "arguments");
    ArgumentsAreStrings(provider.fields["arguments"]);
  }

  lemma ArgumentsAreStrings(j: Json)
    ensures var shown := Mask(FieldSpot(PROVIDER, "arguments"), j);
            match j
            case Str(text) => shown == Str(if text == "" then "" else REDACTED)
            case Arr(items) =>
              && shown.Arr? && |shown.items| == |items|
              && forall i :: 0 <= i < |items| && items[i].Str? ==>
                   shown.items[i] == Str(if items[i].s == "" then "" else REDACTED)
            case _ => true
  {
    hide IsCredentialName;
  }

  /** Below an array or an object only the spots of the children matter. */
  lemma SameBelow(s: Spot, t: Spot, j: Json, running: Option<Json>, visit: Visitor)
    requires j.Obj? ==> s.walks == t.walks && s.provider == t.provider
    requires j.Arr? ==> ItemSpot(s) == ItemSpot(t)
    requires j.Str? ==> s.secret == t.secret
    ensures Rewrite(s, j, running, visit) == Rewrite(t, j, running, visit)
  {
    match j
    case Arr(_) =>
      assert Rewrite(s, j, running, visit).items == Rewrite(t, j, running, visit).items;
    case Obj(fields) =>
      SameFieldSpots(s, t);
      SameFields(s, t, fields, running, visit);
    case _ =>
  }

  lemma SameFieldSpots(s: Spot, t: Spot)
    requires s.walks == t.walks && s.provider == t.provider
    ensures forall k :: FieldSpot(s, k) == FieldSpot(t, k)
  {
    hide IsCredentialName, IsProviderKey;
  }

  lemma SameFields(s: Spot, t: Spot, fields: map<string, Json>, running: Option<Json>, visit: Visitor)
    requires forall k :: FieldSpot(s, k) == FieldSpot(t, k)
    ensures Rewrite(s, Obj(fields), running, visit) == Rewrite(t, Obj(fields), running, visit)
  {
    hide FieldSpot;
    assert Rewrite(s, Obj(fields), running, visit).fields == Rewrite(t, Obj(fields), running, visit).fields;
  }

  lemma {:induction false} OffKeeps(j: Json, running: Option<Json>, visit: Visitor)
    ensures Rewrite(OFF, j, running, visit) == j
    decreases j
  {
    match j
    case Arr(items) =>
      forall i | 0 <= i < |items| ensures Rewrite(OFF, items[i], RunningItem(running, i), visit) == items[i] {
        OffKeeps(items[i], RunningItem(running, i), visit);
      }
      assert Rewrite(OFF, j, running, visit).items == items;
    case Obj(fields) =>
      forall k | k in fields ensures Rewrite(OFF, fields[k], RunningField(running, k), visit) == fields[k] {
        OffKeeps(fields[k], RunningField(running, k), visit);
      }
      assert Rewrite(OFF, j, running, visit).fields == fields;
    case _ =>
  }

  /** In a list of strings, an element that is not a string is left alone. */
  lemma ItemKeeps(j: Json, running: Option<Json>, visit: Visitor)
    ensures Rewrite(STRING_ITEM, j, running, visit) == if j.Str? then Str(visit(j.s, running)) else j
  {
    if !j.Str? {
      SameBelow(STRING_ITEM, OFF, j, running, visit);
      OffKeeps(j, running, visit);
    }
  }

  lemma ItemTwice(j: Json, running: Option<Json>, visit: Visitor)
    ensures Rewrite(ROOT, Rewrite(STRING_ITEM, j, running, visit), running, visit) == Rewrite(ARGUMENT_ITEM, j, running, visit)
  {
    ItemKeeps(j, running, visit);
    if !j.Str? {
      SameBelow(ROOT, ARGUMENT_ITEM, j, running, visit);
    }
  }

  lemma ArgumentsTwice(a: Json, running: Option<Json>, visit: Visitor)
    ensures Rewrite(ROOT, Rewrite(STRINGS, a, running, visit), running, visit) == Rewrite(ARGUMENTS, a, running, visit)
  {
    match a
    case Arr(items) =>
      ListTwice(items, running, visit);
    case Obj(_) =>
      SameBelow(STRINGS, OFF, a, running, visit);
      OffKeeps(a, running, visit);
      SameBelow(ROOT, ARGUMENTS, a, running, visit);
    case _ =>
  }

  lemma ListTwice(items: seq<Json>, running: Option<Json>, visit: Visitor)
    ensures Rewrite(ROOT, Rewrite(STRINGS, Arr(items), running, visit), running, visit)
         == Rewrite(ARGUMENTS, Arr(items), running, visit)
  {
    var first := Rewrite(STRINGS, Arr(items), running, visit);
    var twice, once := Rewrite(ROOT, first, running, visit).items, Rewrite(ARGUMENTS, Arr(items), running, visit).items;
    forall i | 0 <= i < |items| ensures twice[i] == once[i] {
      assert first.items[i] == Rewrite(STRING_ITEM, items[i], RunningItem(running, i), visit);
      ItemTwice(items[i], RunningItem(running, i), visit);
    }
    assert twice == once;
  }

  function FirstPass(value: Json, running: Option<Json>, visit: Visitor): Json {
    if value.Obj? && "arguments" in value.fields then
      Obj(value.fields["arguments" := Rewrite(STRINGS, value.fields["arguments"], RunningField(running, "arguments"), visit)])
    else value
  }

  lemma ProviderTwice(value: Json, running: Option<Json>, visit: Visitor)
    ensures Rewrite(ROOT, FirstPass(value, running, visit), running, visit) == Rewrite(PROVIDER, value, running, visit)
  {
    if value.Obj? {
      ProviderFieldsTwice(value.fields, running, visit);
    } else {
      SameBelow(ROOT, PROVIDER, value, running, visit);
    }
  }

  lemma ProviderFieldsTwice(fields: map<string, Json>, running: Option<Json>, visit: Visitor)
    ensures Rewrite(ROOT, FirstPass(Obj(fields), running, visit), running, visit) == Rewrite(PROVIDER, Obj(fields), running, visit)
  {
    hide IsCredentialName, IsProviderKey;
    var first := FirstPass(Obj(fields), running, visit);
    var twice, once := Rewrite(ROOT, first, running, visit).fields, Rewrite(PROVIDER, Obj(fields), running, visit).fields;
    forall k | k in fields ensures twice[k] == once[k] {
      if k == "arguments" {
        ArgumentsSpots();
        ArgumentsTwice(fields[k], RunningField(running, k), visit);
      }
    }
    assert twice == once;
  }

  lemma ArgumentsSpots()
    ensures FieldSpot(ROOT, "arguments") == ROOT && FieldSpot(PROVIDER, "arguments") == ARGUMENTS
  {
    ArgumentsIsNoCredential();
  }

  // ----- The walkers -----

  method RewriteStrings(value: Json, running: Option<Json>, visit: Visitor) returns (r: Json)
    ensures r == Rewrite(STRINGS, value, running, visit)
  {
    match value {
      case Str(text) =>
        return Str(visit(text, running));
      case Arr(items) =>
        var done: seq<Json> := [];
        for i := 0 to |items|
          invariant |done| == i
          invariant forall k :: 0 <= k < i ==> done[k] == Rewrite(STRING_ITEM, items[k], RunningItem(running, k), visit)
        {
          ItemKeeps(items[i], RunningItem(running, i), visit);
          done := done + [if items[i].Str? then Str(visit(items[i].s, RunningItem(running, i))) else items[i]];
        }
        assert done == Rewrite(STRINGS, value, running, visit).items;
        return Arr(done);
      case _ =>
        if value.Obj? {
          SameBelow(STRINGS, OFF, value, running, visit);
          OffKeeps(value, running, visit);
        }
        return value;
    }
  }

  /** Same arrays and objects; only scalars may differ. */
  predicate SameShape(a: Json, b: Json)
    decreases b
  {
    match b
    case Arr(ys) => a.Arr? && |a.items| == |ys| && forall i :: 0 <= i < |ys| ==> SameShape(a.items[i], ys[i])
    case Obj(n) => a.Obj? && a.fields.Keys == n.Keys && forall k :: k in n ==> SameShape(a.fields[k], n[k])
    case _ => !a.Arr? && !a.Obj?
  }

  lemma {:induction false} RewriteKeepsShape(s: Spot, a: Json, b: Json, running: Option<Json>, visit: Visitor)
    requires SameShape(a, b)
    ensures SameShape(Rewrite(s, a, running, visit), b)
    decreases b
  {
    match b
    case Arr(ys) =>
      forall i | 0 <= i < |ys| ensures SameShape(Rewrite(ItemSpot(s), a.items[i], RunningItem(running, i), visit), ys[i]) {
        RewriteKeepsShape(ItemSpot(s), a.items[i], ys[i], RunningItem(running, i), visit);
      }
    case Obj(n) =>
      forall k | k in n ensures SameShape(Rewrite(FieldSpot(s, k), a.fields[k], RunningField(running, k), visit), n[k]) {
        RewriteKeepsShape(FieldSpot(s, k), a.fields[k], n[k], RunningField(running, k), visit);
      }
    case _ =>
  }

  lemma {:induction false} SameShapeReflexive(j: Json)
    ensures SameShape(j, j)
  {
    match j
    case Arr(items) =>
      forall i | 0 <= i < |items| ensures SameShape(items[i], items[i]) {
        SameShapeReflexive(items[i]);
      }
    case Obj(fields) =>
      forall k | k in fields ensures SameShape(fields[k], fields[k]) {
        SameShapeReflexive(fields[k]);
      }
    case _ =>
  }

  /** Walks a node; `shape` is the node before any pass over it, and shows that the walk ends. */
  method RewriteSecrets(node: Json, running: Option<Json>, visit: Visitor, ghost shape: Json) returns (r: Json)
    requires SameShape(node, shape)
    ensures r == Rewrite(ROOT, node, running, visit)
    decreases shape, 4
  {
    hide FieldSpot;
    match node {
      case Obj(fields) =>
        var done := RewriteFields(fields, running, visit, shape);
        assert done == Rewrite(ROOT, node, running, visit).fields;
        return Obj(done);
      case Arr(items) =>
        var done := RewriteItems(items, running, visit, shape);
        assert done == Rewrite(ROOT, node, running, visit).items;
        return Arr(done);
      case _ =>
        return node;
    }
  }

  method RewriteItems(items: seq<Json>, running: Option<Json>, visit: Visitor, ghost shape: Json) returns (done: seq<Json>)
    requires SameShape(Arr(items), shape)
    ensures |done| == |items|
    ensures forall k :: 0 <= k < |items| ==> done[k] == Rewrite(ROOT, items[k], RunningItem(running, k), visit)
    decreases shape, 3
  {
    hide Rewrite;
    done := [];
    for i := 0 to |items|
      invariant |done| == i
      invariant forall k :: 0 <= k < i ==> done[k] == Rewrite(ROOT, items[k], RunningItem(running, k), visit)
    {
      var item := RewriteSecrets(items[i], RunningItem(running, i), visit, shape.items[i]);
      done := done + [item];
    }
  }

  method RewriteFields(fields: map<string, Json>, running: Option<Json>, visit: Visitor, ghost shape: Json)
    returns (done: map<string, Json>)
    requires SameShape(Obj(fields), shape)
    ensures done.Keys == fields.Keys
    ensures forall k :: k in fields ==> done[k] == Rewrite(FieldSpot(ROOT, k), fields[k], RunningField(running, k), visit)
    decreases shape, 3
  {
    hide Rewrite, FieldSpot;
    done := map[];
    var keys := fields.Keys;
    while keys != {}
      invariant keys <= fields.Keys && done.Keys == fields.Keys - keys
      invariant forall k :: k in done ==> done[k] == Rewrite(FieldSpot(ROOT, k), fields[k], RunningField(running, k), visit)
      decreases |keys|
    {
      var key :| key in keys;
      var value := RewriteField(key, fields[key], RunningField(running, key), visit, shape.fields[key]);
      done := done[key := value];
      keys := keys - {key};
    }
  }

  method RewriteField(key: string, field: Json, running: Option<Json>, visit: Visitor, ghost shape: Json) returns (r: Json)
    requires SameShape(field, shape)
    ensures r == Rewrite(FieldSpot(ROOT, key), field, running, visit)
    decreases shape, 5
  {
    hide IsCredentialName, IsProviderKey, Rewrite;
    if IsCredentialName(key) {
      r := RewriteStrings(field, running, visit);
      return;
    }
    var value := field;
    if IsProviderKey(key) && value.Obj? && "arguments" in value.fields {
      var arguments := value.fields["arguments"];
      var rewritten := RewriteStrings(arguments, RunningField(running, "arguments"), visit);
      RewriteKeepsShape(STRINGS, arguments, shape.fields["arguments"], RunningField(running, "arguments"), visit);
      value := Obj(value.fields["arguments" := rewritten]);
    }
    ProviderTwice(field, running, visit);
    r := RewriteSecrets(value, running, visit, shape);
  }

  /** The masked copy a read hands out. */
  method Redacted(document: Json) returns (copy: Json)
    ensures copy == Mask(ROOT, document)
  {
    SameShapeReflexive(document);
    MaskIsRewrite(ROOT, document);
    copy := RewriteSecrets(document, None, MaskVisitor, document);
  }

  /** The incoming document, each placeholder answered by the running one where it can be. */
  method RestorePlaceholders(incoming: Json, running: Json) returns (restored: Json)
    ensures restored == Restore(ROOT, incoming, Some(running))
  {
    SameShapeReflexive(incoming);
    RestoreIsRewrite(ROOT, incoming, Some(running));
    restored := RewriteSecrets(incoming, Some(running), RestoreVisitor, incoming);
  }
}
