/**
 Masking of configured secrets in what the Admin API hands out, and their
 restoration when a masked copy comes back.
 */
module Redaction {
  import opened Wire
  import opened Json
  import opened ConfigTree

  const REDACTED: string := "[redacted]"

  // ----- Secret positions -----

  /** A header name without the marks for adding, removing, defaulting and replacing. */
  function TrimOperation(s: string): string {
    if s != [] && s[0] in "+-?>" then TrimOperation(s[1..]) else s
  }

  predicate IsCredentialName(key: string) {
    var name := LowerText(TrimOperation(key));
    || name in ["authorization", "proxy-authorization", "cookie", "set-cookie"]
    || HasPart(name, "api-key") || HasPart(name, "api_key") || HasPart(name, "apikey")
    || HasPart(name, "token") || HasPart(name, "secret") || HasPart(name, "password")
  }

  predicate IsProviderKey(key: string) {
    key in ["dns", "acme_dns", "provider"]
  }

  /**
   What a position means: whether a string here is a secret, whether a string that is
   an element of an array here is one, whether the walk goes on below, and whether an
   `arguments` field here belongs to a DNS provider.
   */
  datatype Spot = Spot(secret: bool, items: bool, walks: bool, provider: bool)

  const ROOT := Spot(false, false, true, false)
  const STRINGS := Spot(true, true, false, false)
  const OFF := Spot(false, false, false, false)

  function FieldSpot(s: Spot, key: string): Spot {
    if !s.walks then OFF
    else if IsCredentialName(key) then STRINGS
    else
      var argument := s.provider && key == "arguments";
      Spot(argument, argument, true, IsProviderKey(key))
  }

  function ItemSpot(s: Spot): Spot {
    Spot(s.items, false, s.walks, false)
  }

  /** Marks a header map key may begin with. */
  predicate Marks(s: string) {
    forall i :: 0 <= i < |s| ==> s[i] in "+-?>"
  }

  lemma {:induction false} MarksAreTrimmed(marks: string, name: string)
    requires Marks(marks) && name != [] && name[0] !in "+-?>"
    ensures TrimOperation(marks + name) == name
  {
    if marks == [] {
      assert marks + name == name;
    } else {
      assert (marks + name)[1..] == marks[1..] + name;
      MarksAreTrimmed(marks[1..], name);
    }
  }

  /** Trimming drops only marks, so a part that begins with none survives it. */
  lemma {:induction false} PartSurvivesTrimming(before: string, part: string, after: string) returns (rest: string)
    requires part != [] && part[0] !in "+-?>"
    ensures TrimOperation(before + part + after) == rest + part + after
    decreases |before|
  {
    var whole := before + part + after;
    rest := before;
    if before == [] {
      assert whole == part + after && whole[0] == part[0];
    } else if before[0] in "+-?>" {
      assert whole[1..] == before[1..] + part + after;
      rest := PartSurvivesTrimming(before[1..], part, after);
    } else {
      assert whole[0] == before[0];
    }
  }

  const CREDENTIAL_NAMES := ["authorization", "proxy-authorization", "cookie", "set-cookie"]
  const CREDENTIAL_PARTS := ["api-key", "api_key", "apikey", "token", "secret", "password"]

  /** A listed name, in any case and behind any marks, or a name with a listed part anywhere in it. */
  ghost predicate Listed(key: string) {
    || (exists marks, name :: Marks(marks) && key == marks + name && LowerText(name) in CREDENTIAL_NAMES)
    || (exists before, part, after :: key == before + part + after && LowerText(part) in CREDENTIAL_PARTS)
  }

  lemma LowerStart(name: string)
    requires LowerText(name) in CREDENTIAL_NAMES || LowerText(name) in CREDENTIAL_PARTS
    ensures name != [] && name[0] !in "+-?>"
  {
    assert name != [];
    assert LowerText(name)[0] == LowerChar(name[0]);
  }

  lemma ListedName(marks: string, name: string)
    requires Marks(marks) && LowerText(name) in CREDENTIAL_NAMES
    ensures IsCredentialName(marks + name)
  {
    hide HasPart;
    LowerStart(name);
    MarksAreTrimmed(marks, name);
  }

  lemma ListedPart(before: string, part: string, after: string)
    requires LowerText(part) in CREDENTIAL_PARTS
    ensures IsCredentialName(before + part + after)
  {
    LowerStart(part);
    var rest := PartSurvivesTrimming(before, part, after);
    LowerKeepsParts(rest, part, after);
    hide HasPart, LowerText;
  }

  lemma LowerKeepsParts(before: string, part: string, after: string)
    ensures HasPart(LowerText(before + part + after), LowerText(part))
  {
    var text := LowerText(before + part + after);
    assert text[|before|..][..|part|] == LowerText(part);
  }

  lemma ListedNamesAreCredentials(key: string)
    requires Listed(key)
    ensures IsCredentialName(key)
  {
    hide IsCredentialName, LowerText;
    if marks, name :| Marks(marks) && key == marks + name && LowerText(name) in CREDENTIAL_NAMES {
      ListedName(marks, name);
    } else {
      var before, part, after :| key == before + part + after && LowerText(part) in CREDENTIAL_PARTS;
      ListedPart(before, part, after);
    }
  }

  // ----- Masking and restoring, position by position -----

  function Mask(s: Spot, j: Json): Json
    decreases j
  {
    match j
    case Str(text) => if s.secret && text != "" then Str(REDACTED) else j
    case Arr(items) => Arr(seq(|items|, i requires 0 <= i < |items| => Mask(ItemSpot(s), items[i])))
    case Obj(fields) => Obj(map k | k in fields :: Mask(FieldSpot(s, k), fields[k]))
    case _ => j
  }

  function RunningItem(running: Option<Json>, i: nat): Option<Json> {
    if running.Some? && running.value.Arr? && i < |running.value.items| then Some(running.value.items[i]) else None
  }

  function RunningField(running: Option<Json>, key: string): Option<Json> {
    if running.Some? && running.value.Obj? && key in running.value.fields then Some(running.value.fields[key]) else None
  }

  /** The running secret, unless it is missing, empty or itself a placeholder. */
  function RealSecret(running: Option<Json>): Option<string> {
    if running.Some? && running.value.Str? && running.value.s != "" && running.value.s != REDACTED
    then Some(running.value.s) else None
  }

  function Restore(s: Spot, j: Json, running: Option<Json>): Json
    decreases j
  {
    match j
    case Str(text) =>
      if s.secret && text == REDACTED && RealSecret(running).Some? then Str(RealSecret(running).value) else j
    case Arr(items) =>
      Arr(seq(|items|, i requires 0 <= i < |items| => Restore(ItemSpot(s), items[i], RunningItem(running, i))))
    case Obj(fields) =>
      Obj(map k | k in fields :: Restore(FieldSpot(s, k), fields[k], RunningField(running, k)))
    case _ => j
  }

  predicate Carries(s: Spot, j: Json)
    decreases j
  {
    match j
    case Str(text) => s.secret && text == REDACTED
    case Arr(items) => exists i :: 0 <= i < |items| && Carries(ItemSpot(s), items[i])
    case Obj(fields) => exists k :: k in fields && Carries(FieldSpot(s, k), fields[k])
    case _ => false
  }

  /** The placeholder text occurs nowhere at all. */
  predicate PlaceholderFree(j: Json) {
    match j
    case Str(text) => text != REDACTED
    case Arr(items) => forall i :: 0 <= i < |items| ==> PlaceholderFree(items[i])
    case Obj(fields) => forall k :: k in fields ==> PlaceholderFree(fields[k])
    case _ => true
  }

  /** A placeholder is answered by the running string at its place, exactly when that is neither empty nor a placeholder. */
  lemma PlaceholderAnswered(s: Spot, running: Option<Json>, secret: string)
    requires s.secret && secret != REDACTED
    ensures Restore(s, Str(REDACTED), running) == Str(secret) <==> running == Some(Str(secret)) && secret != ""
  {
  }

  // ----- Undoing -----

  /** Restoring a masked document from itself gives it back, whatever it holds. */
  lemma {:induction false} RestoreUndoesMask(s: Spot, j: Json)
    ensures Restore(s, Mask(s, j), Some(j)) == j
    decreases j
  {
    match j
    case Arr(items) =>
      forall i | 0 <= i < |items| ensures Restore(ItemSpot(s), Mask(ItemSpot(s), items[i]), Some(items[i])) == items[i] {
        RestoreUndoesMask(ItemSpot(s), items[i]);
      }
      assert Restore(s, Mask(s, j), Some(j)).items == items;
    case Obj(fields) =>
      forall k | k in fields ensures Restore(FieldSpot(s, k), Mask(FieldSpot(s, k), fields[k]), Some(fields[k])) == fields[k] {
        RestoreUndoesMask(FieldSpot(s, k), fields[k]);
      }
      assert Restore(s, Mask(s, j), Some(j)).fields == fields;
    case _ =>
  }

  /** Restoration touches placeholders in secret positions and nothing else. */
  lemma {:induction false} RestoreKeepsTheRest(s: Spot, j: Json, running: Option<Json>)
    requires !Carries(s, j)
    ensures Restore(s, j, running) == j
    decreases j
  {
    match j
    case Arr(items) =>
      forall i | 0 <= i < |items| ensures Restore(ItemSpot(s), items[i], RunningItem(running, i)) == items[i] {
        RestoreKeepsTheRest(ItemSpot(s), items[i], RunningItem(running, i));
      }
      assert Restore(s, j, running).items == items;
    case Obj(fields) =>
      forall k | k in fields ensures Restore(FieldSpot(s, k), fields[k], RunningField(running, k)) == fields[k] {
        RestoreKeepsTheRest(FieldSpot(s, k), fields[k], RunningField(running, k));
      }
      assert Restore(s, j, running).fields == fields;
    case _ =>
  }

  lemma {:induction false} FreeCarriesNothing(s: Spot, j: Json)
    requires PlaceholderFree(j)
    ensures !Carries(s, j)
    decreases j
  {
    match j
    case Arr(items) =>
      forall i | 0 <= i < |items| ensures !Carries(ItemSpot(s), items[i]) {
        FreeCarriesNothing(ItemSpot(s), items[i]);
      }
    case Obj(fields) =>
      forall k | k in fields ensures !Carries(FieldSpot(s, k), fields[k]) {
        FreeCarriesNothing(FieldSpot(s, k), fields[k]);
      }
    case _ =>
  }

  /** A document restored from itself is itself, placeholders included. */
  lemma {:induction false} RestoreFromItself(s: Spot, j: Json)
    ensures Restore(s, j, Some(j)) == j
    decreases j
  {
    match j
    case Arr(items) =>
      forall i | 0 <= i < |items| ensures Restore(ItemSpot(s), items[i], Some(items[i])) == items[i] {
        RestoreFromItself(ItemSpot(s), items[i]);
      }
      assert Restore(s, j, Some(j)).items == items;
    case Obj(fields) =>
      forall k | k in fields ensures Restore(FieldSpot(s, k), fields[k], Some(fields[k])) == fields[k] {
        RestoreFromItself(FieldSpot(s, k), fields[k]);
      }
      assert Restore(s, j, Some(j)).fields == fields;
    case _ =>
  }

  // ----- What a masked copy reveals -----

  /** Equal except for what non-empty strings in secret positions say. */
  predicate SameButForSecrets(s: Spot, a: Json, b: Json)
    decreases a
  {
    match (a, b)
    case (Str(x), Str(y)) => x == y || (s.secret && x != "" && y != "")
    case (Arr(xs), Arr(ys)) => |xs| == |ys| && forall i :: 0 <= i < |xs| ==> SameButForSecrets(ItemSpot(s), xs[i], ys[i])
    case (Obj(m), Obj(n)) => m.Keys == n.Keys && forall k :: k in m ==> SameButForSecrets(FieldSpot(s, k), m[k], n[k])
    case _ => a == b
  }

  /** Two documents have the same masked copy exactly when they differ only in their secrets. */
  lemma {:induction false} MaskRevealsExactlyTheRest(s: Spot, a: Json, b: Json)
    ensures Mask(s, a) == Mask(s, b) <==> SameButForSecrets(s, a, b)
    decreases a
  {
    match (a, b)
    case (Arr(xs), Arr(ys)) =>
      var ms, ns := Mask(s, a).items, Mask(s, b).items;
      forall i | 0 <= i < |xs| && i < |ys| ensures ms[i] == ns[i] <==> SameButForSecrets(ItemSpot(s), xs[i], ys[i]) {
        MaskRevealsExactlyTheRest(ItemSpot(s), xs[i], ys[i]);
      }
      assert |ms| == |xs| && |ns| == |ys|;
    case (Obj(m), Obj(n)) =>
      var ms, ns := Mask(s, a).fields, Mask(s, b).fields;
      assert ms.Keys == m.Keys && ns.Keys == n.Keys;
      forall k | k in m && k in n ensures ms[k] == ns[k] <==> SameButForSecrets(FieldSpot(s, k), m[k], n[k]) {
        MaskRevealsExactlyTheRest(FieldSpot(s, k), m[k], n[k]);
      }
    case _ =>
  }

  // ----- Which masked values come back -----

  /** Every non-empty secret of `x` is the running one at its place, or the placeholder where there is none. */
  predicate Answered(s: Spot, x: Json, running: Option<Json>)
    decreases x
  {
    match x
    case Str(text) => !s.secret || text == "" || text == if RealSecret(running).Some? then RealSecret(running).value else REDACTED
    case Arr(items) => forall i :: 0 <= i < |items| ==> Answered(ItemSpot(s), items[i], RunningItem(running, i))
    case Obj(fields) => forall k :: k in fields ==> Answered(FieldSpot(s, k), fields[k], RunningField(running, k))
    case _ => true
  }

  /** Masking is undone by a running document exactly when that document answers for every secret. */
  lemma {:induction false} UndoneExactlyWhenAnswered(s: Spot, x: Json, running: Option<Json>)
    ensures Restore(s, Mask(s, x), running) == x <==> Answered(s, x, running)
    decreases x
  {
    hide FieldSpot, ItemSpot;
    match x
    case Arr(items) =>
      var back := Restore(s, Mask(s, x), running).items;
      forall i | 0 <= i < |items| ensures back[i] == items[i] <==> Answered(ItemSpot(s), items[i], RunningItem(running, i)) {
        UndoneExactlyWhenAnswered(ItemSpot(s), items[i], RunningItem(running, i));
      }
      assert back == items <==> forall i :: 0 <= i < |items| ==> back[i] == items[i];
    case Obj(fields) =>
      var back := Restore(s, Mask(s, x), running).fields;
      forall k | k in fields ensures back[k] == fields[k] <==> Answered(FieldSpot(s, k), fields[k], RunningField(running, k)) {
        UndoneExactlyWhenAnswered(FieldSpot(s, k), fields[k], RunningField(running, k));
      }
      assert back == fields <==> forall k :: k in fields ==> back[k] == fields[k];
    case _ =>
  }

  /** No placeholder in a secret position of `v` has a running secret behind it. */
  predicate Kept(s: Spot, v: Json, running: Option<Json>)
    decreases v
  {
    match v
    case Str(text) => !s.secret || text != REDACTED || RealSecret(running).None?
    case Arr(items) => forall i :: 0 <= i < |items| ==> Kept(ItemSpot(s), items[i], RunningItem(running, i))
    case Obj(fields) => forall k :: k in fields ==> Kept(FieldSpot(s, k), fields[k], RunningField(running, k))
    case _ => true
  }

  lemma {:induction false} UnchangedExactlyWhenKept(s: Spot, v: Json, running: Option<Json>)
    ensures Restore(s, v, running) == v <==> Kept(s, v, running)
    decreases v
  {
    hide FieldSpot, ItemSpot;
    match v
    case Arr(items) =>
      var back := Restore(s, v, running).items;
      forall i | 0 <= i < |items| ensures back[i] == items[i] <==> Kept(ItemSpot(s), items[i], RunningItem(running, i)) {
        UnchangedExactlyWhenKept(ItemSpot(s), items[i], RunningItem(running, i));
      }
      assert back == items <==> forall i :: 0 <= i < |items| ==> back[i] == items[i];
    case Obj(fields) =>
      var back := Restore(s, v, running).fields;
      forall k | k in fields ensures back[k] == fields[k] <==> Kept(FieldSpot(s, k), fields[k], RunningField(running, k)) {
        UnchangedExactlyWhenKept(FieldSpot(s, k), fields[k], RunningField(running, k));
      }
      assert back == fields <==> forall k :: k in fields ==> back[k] == fields[k];
    case _ =>
  }

  lemma FreeIsKept(s: Spot, value: Json, running: Option<Json>)
    requires PlaceholderFree(value)
    ensures Kept(s, value, running)
  {
    FreeCarriesNothing(s, value);
    RestoreKeepsTheRest(s, value, running);
    UnchangedExactlyWhenKept(s, value, running);
  }

  // ----- Edits of a masked copy -----

  lemma MaskIsNull(s: Spot, d: Json)
    ensures Mask(s, d) == Null <==> d == Null
  {
  }

  lemma ChildOfMask(s: Spot, d: Json, segment: string)
    ensures match Child(d, segment)
            case Err(e) => Child(Mask(s, d), segment) == Err(e)
            case Ok(c) => Child(Mask(s, d), segment) == Ok(Mask(ChildSpot(s, d, segment), c))
  {
  }

  function ChildSpot(s: Spot, d: Json, segment: string): Spot {
    if d.Obj? then FieldSpot(s, segment) else ItemSpot(s)
  }

  /** One field of a masked object replaced or added: restoring gives back all the others. */
  lemma RestoreFields(s: Spot, fields: map<string, Json>, key: string, edited: Json)
    ensures Restore(s, Obj(Mask(s, Obj(fields)).fields[key := edited]), Some(Obj(fields)))
         == Obj(fields[key := Restore(FieldSpot(s, key), edited, RunningField(Some(Obj(fields)), key))])
  {
    hide FieldSpot;
    var d := Obj(fields);
    var masked := Mask(s, d).fields[key := edited];
    var restored := Restore(s, Obj(masked), Some(d)).fields;
    forall k | k in fields && k != key ensures restored[k] == fields[k] {
      RestoreUndoesMask(FieldSpot(s, k), fields[k]);
    }
    assert restored == fields[key := Restore(FieldSpot(s, key), edited, RunningField(Some(d), key))];
  }

  /** One element of a masked array replaced, or one added at its end. */
  lemma RestoreItems(s: Spot, items: seq<Json>, at: nat, edited: Json)
    requires at <= |items|
    ensures var masked := Mask(s, Arr(items)).items;
            var restored := Restore(ItemSpot(s), edited, RunningItem(Some(Arr(items)), at));
            if at < |items| then
              Restore(s, Arr(masked[at := edited]), Some(Arr(items))) == Arr(items[at := restored])
            else
              Restore(s, Arr(masked + [edited]), Some(Arr(items))) == Arr(items + [restored])
  {
    var d := Arr(items);
    var masked := Mask(s, d).items;
    var next := if at < |items| then masked[at := edited] else masked + [edited];
    var restored := Restore(s, Arr(next), Some(d)).items;
    forall i | 0 <= i < |items| && i != at ensures restored[i] == items[i] {
      RestoreUndoesMask(ItemSpot(s), items[i]);
    }
    var one := Restore(ItemSpot(s), edited, RunningItem(Some(d), at));
    assert restored[at] == one;
    assert restored == if at < |items| then items[at := one] else items + [one];
  }

  lemma RestoreWithChild(s: Spot, d: Json, segment: string, edited: Json)
    requires Child(d, segment).Ok? && Child(Mask(s, d), segment).Ok?
    ensures Restore(s, WithChild(Mask(s, d), segment, edited), Some(d))
         == WithChild(d, segment, Restore(ChildSpot(s, d, segment), edited, Some(Child(d, segment).value)))
  {
    hide Restore;
    match d
    case Obj(fields) => RestoreFields(s, fields, segment, edited);
    case Arr(items) => RestoreItems(s, items, IndexOf(segment).value, edited);
  }

  /** The elements from `from` on, each moved one place up: answered by its right neighbour. */
  predicate AnsweredByNext(s: Spot, items: seq<Json>, from: nat) {
    forall k :: from <= k < |items| ==> Answered(ItemSpot(s), items[k], RunningItem(Some(Arr(items)), k + 1))
  }

  /** The elements after `gone`, each moved one place down: answered by its left neighbour. */
  predicate AnsweredByPrevious(s: Spot, items: seq<Json>, gone: nat) {
    forall k :: gone < k < |items| ==> Answered(ItemSpot(s), items[k], RunningItem(Some(Arr(items)), k - 1))
  }

  /** The masked elements from `from` on, restored one place further up. */
  function MovedUp(s: Spot, items: seq<Json>, from: nat): seq<Json>
    requires from <= |items|
  {
    seq(|items| - from, k requires 0 <= k < |items| - from =>
      Restore(ItemSpot(s), Mask(ItemSpot(s), items[from + k]), RunningItem(Some(Arr(items)), from + k + 1)))
  }

  lemma MovedUpExactly(s: Spot, items: seq<Json>, from: nat)
    requires from <= |items|
    ensures MovedUp(s, items, from) == items[from..] <==> AnsweredByNext(s, items, from)
  {
    hide Answered, ItemSpot, Restore, Mask;
    var moved := MovedUp(s, items, from);
    forall k | from <= k < |items|
      ensures moved[k - from] == items[k] <==> Answered(ItemSpot(s), items[k], RunningItem(Some(Arr(items)), k + 1))
    {
      UndoneExactlyWhenAnswered(ItemSpot(s), items[k], RunningItem(Some(Arr(items)), k + 1));
    }
    if AnsweredByNext(s, items, from) {
      forall k | 0 <= k < |moved| ensures moved[k] == items[from..][k] {
        assert moved[from + k - from] == items[from + k];
      }
    }
    if moved == items[from..] {
      forall k | from <= k < |items| ensures Answered(ItemSpot(s), items[k], RunningItem(Some(Arr(items)), k + 1)) {
        assert moved[k - from] == items[from..][k - from];
      }
    }
  }

  lemma InsertedItems(s: Spot, items: seq<Json>, at: nat, value: Json)
    requires at < |items|
    ensures var masked := Mask(s, Arr(items)).items;
            Restore(s, Arr(masked[..at] + [value] + masked[at..]), Some(Arr(items)))
              == Arr(items[..at] + [Restore(ItemSpot(s), value, Some(items[at]))] + MovedUp(s, items, at))
  {
    hide ItemSpot;
    var d := Arr(items);
    var masked := Mask(s, d).items;
    var next := masked[..at] + [value] + masked[at..];
    var back := Restore(s, Arr(next), Some(d)).items;
    var goal := items[..at] + [Restore(ItemSpot(s), value, Some(items[at]))] + MovedUp(s, items, at);
    forall i | 0 <= i < |back| ensures back[i] == goal[i] {
      if i < at {
        assert next[i] == masked[i];
        RestoreUndoesMask(ItemSpot(s), items[i]);
      } else if i > at {
        assert next[i] == Mask(ItemSpot(s), items[i - 1]);
        assert goal[i] == MovedUp(s, items, at)[i - at - 1];
      }
    }
    assert back == goal;
  }

  lemma SameMiddle<T>(front: seq<T>, x: T, y: T, a: seq<T>, b: seq<T>)
    ensures front + [x] + a == front + [y] + b <==> x == y && a == b
  {
    var l, r := front + [x] + a, front + [y] + b;
    assert l[|front|] == x && r[|front|] == y;
    assert l[|front| + 1..] == a && r[|front| + 1..] == b;
  }

  /** One element of a masked array inserted before others. */
  lemma RestoreInserted(s: Spot, items: seq<Json>, at: nat, value: Json)
    requires at < |items|
    ensures var masked := Mask(s, Arr(items)).items;
            Restore(s, Arr(masked[..at] + [value] + masked[at..]), Some(Arr(items)))
              == Arr(items[..at] + [value] + items[at..]) <==>
            Kept(ItemSpot(s), value, Some(items[at])) && AnsweredByNext(s, items, at)
  {
    hide Kept, ItemSpot, Restore, MovedUp, AnsweredByNext;
    InsertedItems(s, items, at, value);
    MovedUpExactly(s, items, at);
    UnchangedExactlyWhenKept(ItemSpot(s), value, Some(items[at]));
    SameMiddle(items[..at], Restore(ItemSpot(s), value, Some(items[at])), value, MovedUp(s, items, at), items[at..]);
  }

  /** One element of a masked array removed. */
  lemma RestoreRemoved(s: Spot, items: seq<Json>, gone: nat)
    requires gone < |items|
    ensures var masked := Mask(s, Arr(items)).items;
            Restore(s, Arr(masked[..gone] + masked[gone + 1..]), Some(Arr(items)))
              == Arr(items[..gone] + items[gone + 1..]) <==>
            AnsweredByPrevious(s, items, gone)
  {
    hide Answered, ItemSpot;
    var d := Arr(items);
    var masked := Mask(s, d).items;
    var next := masked[..gone] + masked[gone + 1..];
    var back := Restore(s, Arr(next), Some(d)).items;
    var goal := items[..gone] + items[gone + 1..];
    forall i | 0 <= i < gone ensures back[i] == goal[i] {
      RestoreUndoesMask(ItemSpot(s), items[i]);
    }
    forall k | gone < k < |items|
      ensures back[k - 1] == goal[k - 1] <==> Answered(ItemSpot(s), items[k], RunningItem(Some(d), k - 1))
    {
      assert next[k - 1] == Mask(ItemSpot(s), items[k]);
      UndoneExactlyWhenAnswered(ItemSpot(s), items[k], RunningItem(Some(d), k - 1));
    }
    if AnsweredByPrevious(s, items, gone) {
      forall i | 0 <= i < |goal| ensures back[i] == goal[i] {
        if i >= gone {
          assert Answered(ItemSpot(s), items[i + 1], RunningItem(Some(d), i + 1 - 1));
        }
      }
      assert back == goal;
    }
  }

  /**
   What the document must say for a write in one parent to survive the round trip: nothing in
   the value is taken for a masked secret, and what an insertion moves is answered at its new place.
   */
  predicate WritesIn(s: Spot, d: Json, last: string, value: Json, mode: Mode) {
    match d
    case Obj(_) => Kept(FieldSpot(s, last), value, RunningField(Some(d), last))
    case Arr(items) =>
      IndexOf(last).Ok? ==>
        var i := IndexOf(last).value;
        && Kept(ItemSpot(s), value, RunningItem(Some(d), i))
        && (mode.Create? ==> AnsweredByNext(s, items, i))
    case _ => true
  }

  predicate Writes(s: Spot, d: Json, path: Path, value: Json, mode: Mode)
    decreases |path|
  {
    if path == [] then Kept(s, value, Some(d))
    else if |path| == 1 then WritesIn(s, d, path[0], value, mode)
    else Child(d, path[0]).Ok? ==> Writes(ChildSpot(s, d, path[0]), Child(d, path[0]).value, path[1..], value, mode)
  }

  lemma SetInCommutes(s: Spot, d: Json, last: string, value: Json, mode: Mode)
    ensures match SetIn(d, last, value, mode)
            case Err(e) => SetIn(Mask(s, d), last, value, mode) == Err(e)
            case Ok(edited) =>
              var masked := SetIn(Mask(s, d), last, value, mode);
              masked.Ok? && (Restore(s, masked.value, Some(d)) == edited <==> WritesIn(s, d, last, value, mode))
  {
    hide Restore, Kept;
    match d
    case Obj(fields) =>
      RestoreFields(s, fields, last, value);
      var field := Restore(FieldSpot(s, last), value, RunningField(Some(d), last));
      assert fields[last := field] == fields[last := value] <==> field == value by {
        assert fields[last := field][last] == field && fields[last := value][last] == value;
      }
      UnchangedExactlyWhenKept(FieldSpot(s, last), value, RunningField(Some(d), last));
    case Arr(items) =>
      if SetIn(d, last, value, mode).Ok? {
        SetItemCommutes(s, items, last, value, mode);
      }
    case _ =>
  }

  lemma SetItemCommutes(s: Spot, items: seq<Json>, last: string, value: Json, mode: Mode)
    requires SetIn(Arr(items), last, value, mode).Ok?
    ensures SetIn(Mask(s, Arr(items)), last, value, mode).Ok?
    ensures Restore(s, SetIn(Mask(s, Arr(items)), last, value, mode).value, Some(Arr(items)))
              == SetIn(Arr(items), last, value, mode).value <==>
            WritesIn(s, Arr(items), last, value, mode)
  {
    hide Restore, Kept, Answered;
    var i := IndexOf(last).value;
    if mode.Create? && i < |items| {
      RestoreInserted(s, items, i, value);
    } else {
      RestoreItems(s, items, i, value);
      var item := Restore(ItemSpot(s), value, RunningItem(Some(Arr(items)), i));
      UnchangedExactlyWhenKept(ItemSpot(s), value, RunningItem(Some(Arr(items)), i));
      if i < |items| {
        assert items[i := item][i] == item && items[i := value][i] == value;
      } else {
        assert (items + [item])[i] == item && (items + [value])[i] == value;
      }
    }
  }

  lemma WithChildInjective(d: Json, segment: string, a: Json, b: Json)
    requires Child(d, segment).Ok?
    ensures WithChild(d, segment, a) == WithChild(d, segment, b) <==> a == b
  {
    ChildOfWithChild(d, segment, a);
    ChildOfWithChild(d, segment, b);
  }

  /** Restoring below a child and putting the child back is restoring the whole. */
  lemma BelowChild(s: Spot, d: Json, segment: string, masked: Json, edited: Json)
    requires Child(d, segment).Ok? && Child(Mask(s, d), segment).Ok?
    ensures Restore(s, WithChild(Mask(s, d), segment, masked), Some(d)) == WithChild(d, segment, edited) <==>
            Restore(ChildSpot(s, d, segment), masked, Some(Child(d, segment).value)) == edited
  {
    hide Restore, Mask, WithChild, Child;
    RestoreWithChild(s, d, segment, masked);
    WithChildInjective(d, segment, Restore(ChildSpot(s, d, segment), masked, Some(Child(d, segment).value)), edited);
  }

  /**
   Writing into the masked copy and restoring gives the error of that write on the real
   document; when there is none, it gives that document exactly when `Writes` holds.
   */
  lemma {:induction false} EditCommutesExactly(s: Spot, d: Json, path: Path, value: Json, mode: Mode)
    ensures match Set(d, path, value, mode)
            case Err(e) => Set(Mask(s, d), path, value, mode) == Err(e)
            case Ok(edited) =>
              var masked := Set(Mask(s, d), path, value, mode);
              masked.Ok? && (Restore(s, masked.value, Some(d)) == edited <==> Writes(s, d, path, value, mode))
    decreases |path|
  {
    hide Restore, Kept, Mask, SetIn, WithChild, WritesIn, Child, ChildSpot;
    if path == [] {
      UnchangedExactlyWhenKept(s, value, Some(d));
      MaskIsNull(s, d);
    } else if |path| == 1 {
      SetInCommutes(s, d, path[0], value, mode);
    } else {
      ChildOfMask(s, d, path[0]);
      if Child(d, path[0]).Ok? {
        var child, rest, spot := Child(d, path[0]).value, path[1..], ChildSpot(s, d, path[0]);
        EditCommutesExactly(spot, child, rest, value, mode);
        if Set(child, rest, value, mode).Ok? {
          BelowChild(s, d, path[0], Set(Mask(spot, child), rest, value, mode).value, Set(child, rest, value, mode).value);
        }
      }
    }
  }

  /** An edit that inserts before existing array elements moves their positions. */
  predicate Shifts(doc: Json, path: Path, mode: Mode) {
    && mode.Create? && path != []
    && var parent := Get(doc, path[..|path| - 1]);
       parent.Ok? && parent.value.Arr? && IndexOf(path[|path| - 1]).Ok?
       && IndexOf(path[|path| - 1]).value < |parent.value.items|
  }

  lemma {:induction false} PlainEditsWrite(s: Spot, d: Json, path: Path, value: Json, mode: Mode)
    requires PlaceholderFree(value) && !Shifts(d, path, mode)
    ensures Writes(s, d, path, value, mode)
    decreases |path|
  {
    hide Kept, Answered, PlaceholderFree;
    if path == [] {
      FreeIsKept(s, value, Some(d));
    } else if |path| == 1 {
      assert path[..0] == [];
      match d
      case Obj(_) => FreeIsKept(FieldSpot(s, path[0]), value, RunningField(Some(d), path[0]));
      case Arr(_) =>
        if IndexOf(path[0]).Ok? {
          FreeIsKept(ItemSpot(s), value, RunningItem(Some(d), IndexOf(path[0]).value));
        }
      case _ =>
    } else if Child(d, path[0]).Ok? {
      assert path[1..][..|path| - 2] == path[..|path| - 1][1..];
      PlainEditsWrite(ChildSpot(s, d, path[0]), Child(d, path[0]).value, path[1..], value, mode);
    }
  }

  /**
   Masking commutes with every edit that moves nothing: writing a placeholder-free value into
   the masked copy and restoring gives the document, or the error, of the write on the real one.
   */
  lemma EditOfMaskedCopy(s: Spot, d: Json, path: Path, value: Json, mode: Mode)
    requires PlaceholderFree(value) && !Shifts(d, path, mode)
    ensures match Set(d, path, value, mode)
            case Err(e) => Set(Mask(s, d), path, value, mode) == Err(e)
            case Ok(edited) =>
              var masked := Set(Mask(s, d), path, value, mode);
              masked.Ok? && Restore(s, masked.value, Some(d)) == edited
  {
    hide Restore, Mask, Set, Writes, Shifts, PlaceholderFree;
    EditCommutesExactly(s, d, path, value, mode);
    PlainEditsWrite(s, d, path, value, mode);
  }

  /** What the document must say for a deletion to survive: what it moves is answered at its new place. */
  predicate Deletes(s: Spot, d: Json, path: Path)
    decreases |path|
  {
    if path == [] then true
    else if |path| == 1 then
      d.Arr? && IndexOf(path[0]).Ok? ==> AnsweredByPrevious(s, d.items, IndexOf(path[0]).value)
    else Child(d, path[0]).Ok? ==> Deletes(ChildSpot(s, d, path[0]), Child(d, path[0]).value, path[1..])
  }

  /** One field of a masked object removed. */
  lemma RestoreWithout(s: Spot, fields: map<string, Json>, last: string)
    ensures Restore(s, Obj(Mask(s, Obj(fields)).fields - {last}), Some(Obj(fields))) == Obj(fields - {last})
  {
    hide FieldSpot;
    var d := Obj(fields);
    var left := Restore(s, Obj(Mask(s, d).fields - {last}), Some(d)).fields;
    forall k | k in fields && k != last ensures left[k] == fields[k] {
      RestoreUndoesMask(FieldSpot(s, k), fields[k]);
    }
    assert left == fields - {last};
  }

  lemma RemoveInCommutes(s: Spot, d: Json, last: string)
    ensures match RemoveIn(d, last)
            case Err(e) => RemoveIn(Mask(s, d), last) == Err(e)
            case Ok(r) =>
              var masked := RemoveIn(Mask(s, d), last);
              masked.Ok? && (Restore(s, masked.value.doc, Some(d)) == r.doc <==> Deletes(s, d, [last]))
  {
    hide Answered, Restore, AnsweredByPrevious, IndexOf, ItemSpot, FieldSpot;
    match d
    case Obj(fields) =>
      if last in fields {
        RestoreWithout(s, fields, last);
      }
    case Arr(items) =>
      if IndexOf(last).Ok? && IndexOf(last).value < |items| {
        RestoreRemoved(s, items, IndexOf(last).value);
      }
    case _ =>
  }

  /** The same for deletions: object fields always, array elements when what moves is answered. */
  lemma {:induction false} DeleteCommutesExactly(s: Spot, d: Json, path: Path)
    ensures match Remove(d, path)
            case Err(e) => Remove(Mask(s, d), path) == Err(e)
            case Ok(r) =>
              var masked := Remove(Mask(s, d), path);
              masked.Ok? && (Restore(s, masked.value.doc, Some(d)) == r.doc <==> Deletes(s, d, path))
    decreases |path|
  {
    hide Mask, RemoveIn, WithChild, Child, AnsweredByPrevious;
    if |path| == 1 {
      hide Restore;
      assert path == [path[0]];
      RemoveInCommutes(s, d, path[0]);
    } else if |path| > 1 {
      hide Restore;
      ChildOfMask(s, d, path[0]);
      if Child(d, path[0]).Ok? {
        var child := Child(d, path[0]).value;
        var spot := ChildSpot(s, d, path[0]);
        DeleteCommutesExactly(spot, child, path[1..]);
        if Remove(child, path[1..]).Ok? {
          BelowChild(s, d, path[0], Remove(Mask(spot, child), path[1..]).value.doc, Remove(child, path[1..]).value.doc);
        }
      }
    }
  }

  /** PUT at index zero puts the value in front. */
  lemma InsertInFront(items: seq<Json>, value: Json)
    ensures Set(Arr(items), ["0"], value, Create) == Ok(Arr([value] + items))
  {
    hide Mask, Restore;
    assert ToDecimal(0) == "0";
    IndexRoundTrip(0);
    assert Set(Arr(items), ["0"], value, Create).value.items == [value] + items;
  }

  lemma TokenIsACredential()
    ensures FieldSpot(ROOT, "token") == STRINGS
  {
    assert LowerText("token") == "token";
    assert "token"[0..][..5] == "token";
    assert HasPart("token", "token");
  }

  lemma NeighboursAnswer()
    ensures var items := [Str("a"), Str("b")];
            var masked := Arr([Null, Str(REDACTED), Str(REDACTED)]);
            && Mask(STRINGS, Arr(items)) == Arr([Str(REDACTED), Str(REDACTED)])
            && Restore(STRINGS, masked, Some(Arr(items))) == Arr([Null, Str("b"), Str(REDACTED)])
  {
    var items := [Str("a"), Str("b")];
    var masked := Arr([Null, Str(REDACTED), Str(REDACTED)]);
    assert Mask(STRINGS, Arr(items)).items == [Str(REDACTED), Str(REDACTED)];
    assert Restore(STRINGS, masked, Some(Arr(items))).items == [Null, Str("b"), Str(REDACTED)];
  }

  /**
   Restoration is by position, so a document with two tokens and a value inserted in front of
   them comes back with the second token in the first one's place and no second token.
   */
  lemma InsertionShiftsSecrets()
    ensures var d := Obj(map["token" := Arr([Str("a"), Str("b")])]);
            var masked := Set(Mask(ROOT, d), ["token", "0"], Null, Create);
            && masked.Ok?
            && Restore(ROOT, masked.value, Some(d)) == Obj(map["token" := Arr([Null, Str("b"), Str(REDACTED)])])
            && Set(d, ["token", "0"], Null, Create) == Ok(Obj(map["token" := Arr([Null, Str("a"), Str("b")])]))
  {
    var path := ["token", "0"];
    var tokens := Arr([Str("a"), Str("b")]);
    var d := Obj(map["token" := tokens]);
    assert path[1..] == ["0"];
    assert Child(d, "token") == Ok(tokens);
    TokenIsACredential();
    NeighboursAnswer();
    ChildOfMask(ROOT, d, "token");
    hide FieldSpot, Restore, Mask;
    InsertInFront(tokens.items, Null);
    InsertInFront([Str(REDACTED), Str(REDACTED)], Null);
    assert [Null] + tokens.items == [Null, Str("a"), Str("b")];
    assert [Null] + [Str(REDACTED), Str(REDACTED)] == [Null, Str(REDACTED), Str(REDACTED)];
    RestoreWithChild(ROOT, d, "token", Arr([Null, Str(REDACTED), Str(REDACTED)]));
    assert map["token" := tokens]["token" := Arr([Null, Str("b"), Str(REDACTED)])]
        == map["token" := Arr([Null, Str("b"), Str(REDACTED)])];
    assert map["token" := tokens]["token" := Arr([Null, Str("a"), Str("b")])]
        == map["token" := Arr([Null, Str("a"), Str("b")])];
  }

  // ----- Edits of one part of the document -----

  function SpotAt(s: Spot, d: Json, path: Path): Spot
    requires Get(d, path).Ok?
    decreases |path|
  {
    if path == [] then s else SpotAt(ChildSpot(s, d, path[0]), Child(d, path[0]).value, path[1..])
  }

  /** Reading a part of the masked document is masking that part where it stands. */
  lemma {:induction false} GetOfMask(s: Spot, d: Json, path: Path)
    ensures match Get(d, path)
            case Err(e) => Get(Mask(s, d), path) == Err(e)
            case Ok(part) => Get(Mask(s, d), path) == Ok(Mask(SpotAt(s, d, path), part))
    decreases |path|
  {
    if path != [] {
      ChildOfMask(s, d, path[0]);
      if Child(d, path[0]).Ok? {
        GetOfMask(ChildSpot(s, d, path[0]), Child(d, path[0]).value, path[1..]);
      }
    }
  }

  /** A walk that passes no credential name is still looking for secrets. */
  lemma {:induction false} StillWalking(s: Spot, d: Json, path: Path)
    requires s.walks && Get(d, path).Ok? && forall i :: 0 <= i < |path| ==> !IsCredentialName(path[i])
    ensures SpotAt(s, d, path).walks
    decreases |path|
  {
    hide IsCredentialName;
    if path != [] {
      StillWalking(ChildSpot(s, d, path[0]), Child(d, path[0]).value, path[1..]);
    }
  }

  lemma {:induction false} GetJoins(d: Json, path: Path, below: Path)
    requires Get(d, path).Ok?
    ensures Get(d, path + below) == Get(Get(d, path).value, below)
    decreases |path|
  {
    if path == [] {
      assert path + below == below;
    } else {
      assert (path + below)[1..] == path[1..] + below;
      GetJoins(Child(d, path[0]).value, path[1..], below);
    }
  }

  /**
   No listed credential shows in the masked copy: under its name, wherever it stands, a non-empty
   string, and each non-empty string of a list, reads as the placeholder.
   */
  lemma CredentialsAreMasked(d: Json, path: Path, key: string)
    requires Listed(key) && forall i :: 0 <= i < |path| ==> !IsCredentialName(path[i])
    requires Get(d, path).Ok? && Get(d, path).value.Obj? && key in Get(d, path).value.fields
    ensures var shown := Get(Mask(ROOT, d), path + [key]);
            && shown.Ok?
            && match Get(d, path).value.fields[key]
               case Str(text) => shown.value == Str(if text == "" then "" else REDACTED)
               case Arr(items) =>
                 && shown.value.Arr? && |shown.value.items| == |items|
                 && forall i :: 0 <= i < |items| && items[i].Str? ==>
                      shown.value.items[i] == Str(if items[i].s == "" then "" else REDACTED)
               case _ => true
  {
    hide IsCredentialName, Listed, Mask, SpotAt;
    var node, spot := Get(d, path).value, SpotAt(ROOT, d, path);
    StillWalking(ROOT, d, path);
    ListedNamesAreCredentials(key);
    GetOfMask(ROOT, d, path);
    GetJoins(Mask(ROOT, d), path, [key]);
    GetOne(Mask(spot, node), key);
    hide Get;
    MaskedStrings(node.fields[key]);
    assert FieldSpot(spot, key) == STRINGS;
    ChildOfMask(spot, node, key);
  }

  lemma MaskedStrings(j: Json)
    ensures match j
            case Str(text) => Mask(STRINGS, j) == Str(if text == "" then "" else REDACTED)
            case Arr(items) =>
              var shown := Mask(STRINGS, j);
              && shown.Arr? && |shown.items| == |items|
              && forall i :: 0 <= i < |items| && items[i].Str? ==>
                   shown.items[i] == Str(if items[i].s == "" then "" else REDACTED)
            case _ => true
  {
  }

  lemma RestorePlainChild(s: Spot, d: Json, segment: string, edited: Json)
    requires Child(d, segment).Ok?
    ensures Restore(s, WithChild(d, segment, edited), Some(d))
         == WithChild(d, segment, Restore(ChildSpot(s, d, segment), edited, Some(Child(d, segment).value)))
  {
    hide FieldSpot;
    var restored := Restore(s, WithChild(d, segment, edited), Some(d));
    var one := Restore(ChildSpot(s, d, segment), edited, Some(Child(d, segment).value));
    match d
    case Obj(fields) =>
      forall k | k in fields && k != segment ensures restored.fields[k] == fields[k] {
        RestoreFromItself(FieldSpot(s, k), fields[k]);
      }
      assert restored.fields == fields[segment := one];
    case Arr(items) =>
      forall i | 0 <= i < |items| && i != IndexOf(segment).value ensures restored.items[i] == items[i] {
        RestoreFromItself(ItemSpot(s), items[i]);
      }
      assert restored.items == items[IndexOf(segment).value := one];
  }

  /** Restoring a document with one part replaced restores that part alone. */
  lemma {:induction false} RestoreIsLocal(s: Spot, d: Json, path: Path, part: Json)
    requires Get(d, path).Ok?
    ensures Set(d, path, part, Replace).Ok?
    ensures Ok(Restore(s, Set(d, path, part, Replace).value, Some(d)))
         == Set(d, path, Restore(SpotAt(s, d, path), part, Some(Get(d, path).value)), Replace)
    decreases |path|
  {
    hide Restore, SetIn, WithChild, Child;
    if |path| == 1 {
      var child := Child(d, path[0]).value;
      assert path[1..] == [];
      assert SpotAt(s, d, path) == ChildSpot(s, d, path[0]);
      ReplaceIn(d, path[0], part);
      ReplaceIn(d, path[0], Restore(ChildSpot(s, d, path[0]), part, Some(child)));
      RestorePlainChild(s, d, path[0], part);
    } else if |path| > 1 {
      var child := Child(d, path[0]).value;
      RestoreIsLocal(ChildSpot(s, d, path[0]), child, path[1..], part);
      RestorePlainChild(s, d, path[0], Set(child, path[1..], part, Replace).value);
    }
  }

  /**
   The read-modify-write cycle on any part of the document: read `path` masked, write a value
   at `below` inside it, PATCH the result back.  What is committed is the real document with
   that one write, exactly when the write survives at the part's own position.
   */
  lemma ReadModifyWrite(d: Json, path: Path, below: Path, value: Json, mode: Mode)
    requires Get(d, path).Ok? && Set(Get(d, path).value, below, value, mode).Ok?
    ensures var part := Get(d, path).value;
            var read := Get(Mask(ROOT, d), path);
            && read.Ok?
            && var sent := Set(read.value, below, value, mode);
               && sent.Ok?
               && var next := Set(d, path, sent.value, Replace);
                  && next.Ok?
                  && (Ok(Restore(ROOT, next.value, Some(d))) == Set(d, path, Set(part, below, value, mode).value, Replace)
                      <==> Writes(SpotAt(ROOT, d, path), part, below, value, mode))
  {
    hide Restore, Set, Get, Mask, Writes;
    var part, spot := Get(d, path).value, SpotAt(ROOT, d, path);
    GetOfMask(ROOT, d, path);
    EditCommutesExactly(spot, part, below, value, mode);
    var sent := Set(Mask(spot, part), below, value, mode).value;
    RestoreIsLocal(ROOT, d, path, sent);
    ReplaceInjective(d, path, Restore(spot, sent, Some(part)), Set(part, below, value, mode).value);
  }

  // ----- What restoring does to an edit of the real document -----

  /** What an insertion at `from` moves holds no placeholder that its new place would answer. */
  predicate KeptByNext(s: Spot, items: seq<Json>, from: nat) {
    forall k :: from <= k < |items| ==> Kept(ItemSpot(s), items[k], RunningItem(Some(Arr(items)), k + 1))
  }

  /** The same for what a deletion at `gone` closes up. */
  predicate KeptByPrevious(s: Spot, items: seq<Json>, gone: nat) {
    forall k :: gone < k < |items| ==> Kept(ItemSpot(s), items[k], RunningItem(Some(Arr(items)), k - 1))
  }

  predicate Stays(s: Spot, d: Json, path: Path, mode: Mode)
    decreases |path|
  {
    if path == [] then true
    else if |path| == 1 then
      d.Arr? && mode.Create? && IndexOf(path[0]).Ok? ==> KeptByNext(s, d.items, IndexOf(path[0]).value)
    else Child(d, path[0]).Ok? ==> Stays(ChildSpot(s, d, path[0]), Child(d, path[0]).value, path[1..], mode)
  }

  predicate Closes(s: Spot, d: Json, path: Path)
    decreases |path|
  {
    if path == [] then true
    else if |path| == 1 then
      d.Arr? && IndexOf(path[0]).Ok? ==> KeptByPrevious(s, d.items, IndexOf(path[0]).value)
    else Child(d, path[0]).Ok? ==> Closes(ChildSpot(s, d, path[0]), Child(d, path[0]).value, path[1..])
  }

  /** The position a path names, whether or not anything is there yet. */
  function PlaceSpot(s: Spot, d: Json, path: Path): Spot
    decreases |path|
  {
    if path == [] then s
    else if |path| == 1 || Child(d, path[0]).Err? then ChildSpot(s, d, path[0])
    else PlaceSpot(ChildSpot(s, d, path[0]), Child(d, path[0]).value, path[1..])
  }

  /** What the document holds there. */
  function Was(d: Json, path: Path): Option<Json> {
    match Get(d, path)
    case Err(_) => None
    case Ok(node) => Some(node)
  }

  lemma RestorePlainField(s: Spot, fields: map<string, Json>, key: string, value: Json)
    ensures Restore(s, Obj(fields[key := value]), Some(Obj(fields)))
         == Obj(fields[key := Restore(FieldSpot(s, key), value, RunningField(Some(Obj(fields)), key))])
  {
    hide FieldSpot;
    var restored := Restore(s, Obj(fields[key := value]), Some(Obj(fields))).fields;
    forall k | k in fields && k != key ensures restored[k] == fields[k] {
      RestoreFromItself(FieldSpot(s, k), fields[k]);
    }
    assert restored == fields[key := Restore(FieldSpot(s, key), value, RunningField(Some(Obj(fields)), key))];
  }

  lemma RestorePlainItem(s: Spot, items: seq<Json>, at: nat, value: Json)
    requires at <= |items|
    ensures var one := Restore(ItemSpot(s), value, RunningItem(Some(Arr(items)), at));
            if at < |items| then Restore(s, Arr(items[at := value]), Some(Arr(items))) == Arr(items[at := one])
            else Restore(s, Arr(items + [value]), Some(Arr(items))) == Arr(items + [one])
  {
    hide ItemSpot;
    var next := if at < |items| then items[at := value] else items + [value];
    var restored := Restore(s, Arr(next), Some(Arr(items))).items;
    var one := Restore(ItemSpot(s), value, RunningItem(Some(Arr(items)), at));
    forall i | 0 <= i < |items| && i != at ensures restored[i] == items[i] {
      RestoreFromItself(ItemSpot(s), items[i]);
    }
    assert restored[at] == one;
    assert restored == if at < |items| then items[at := one] else items + [one];
  }

  function PlainMovedUp(s: Spot, items: seq<Json>, from: nat): seq<Json>
    requires from <= |items|
  {
    seq(|items| - from, k requires 0 <= k < |items| - from =>
      Restore(ItemSpot(s), items[from + k], RunningItem(Some(Arr(items)), from + k + 1)))
  }

  lemma PlainMovedUpExactly(s: Spot, items: seq<Json>, from: nat)
    requires from <= |items|
    ensures PlainMovedUp(s, items, from) == items[from..] <==> KeptByNext(s, items, from)
  {
    hide Kept, ItemSpot, Restore;
    var moved := PlainMovedUp(s, items, from);
    forall k | from <= k < |items|
      ensures moved[k - from] == items[k] <==> Kept(ItemSpot(s), items[k], RunningItem(Some(Arr(items)), k + 1))
    {
      UnchangedExactlyWhenKept(ItemSpot(s), items[k], RunningItem(Some(Arr(items)), k + 1));
    }
    if KeptByNext(s, items, from) {
      forall k | 0 <= k < |moved| ensures moved[k] == items[from..][k] {
        assert moved[from + k - from] == items[from + k];
      }
    }
    if moved == items[from..] {
      forall k | from <= k < |items| ensures Kept(ItemSpot(s), items[k], RunningItem(Some(Arr(items)), k + 1)) {
        assert moved[k - from] == items[from..][k - from];
      }
    }
  }

  lemma PlainInsertedItems(s: Spot, items: seq<Json>, at: nat, value: Json)
    requires at < |items|
    ensures Restore(s, Arr(items[..at] + [value] + items[at..]), Some(Arr(items)))
         == Arr(items[..at] + [Restore(ItemSpot(s), value, Some(items[at]))] + PlainMovedUp(s, items, at))
  {
    hide ItemSpot;
    var d := Arr(items);
    var next := items[..at] + [value] + items[at..];
    var back := Restore(s, Arr(next), Some(d)).items;
    var goal := items[..at] + [Restore(ItemSpot(s), value, Some(items[at]))] + PlainMovedUp(s, items, at);
    forall i | 0 <= i < |back| ensures back[i] == goal[i] {
      if i < at {
        assert next[i] == items[i];
        RestoreFromItself(ItemSpot(s), items[i]);
      } else if i > at {
        assert next[i] == items[i - 1];
        assert goal[i] == PlainMovedUp(s, items, at)[i - at - 1];
      }
    }
    assert back == goal;
  }

  lemma RestorePlainInserted(s: Spot, items: seq<Json>, at: nat, value: Json)
    requires at < |items|
    ensures Restore(s, Arr(items[..at] + [value] + items[at..]), Some(Arr(items)))
              == Arr(items[..at] + [Restore(ItemSpot(s), value, Some(items[at]))] + items[at..]) <==>
            KeptByNext(s, items, at)
  {
    hide ItemSpot, Restore, PlainMovedUp, KeptByNext;
    PlainInsertedItems(s, items, at, value);
    PlainMovedUpExactly(s, items, at);
    var one := Restore(ItemSpot(s), value, Some(items[at]));
    SameMiddle(items[..at], one, one, PlainMovedUp(s, items, at), items[at..]);
  }

  lemma RestorePlainRemoved(s: Spot, items: seq<Json>, gone: nat)
    requires gone < |items| && KeptByPrevious(s, items, gone)
    ensures var left := Arr(items[..gone] + items[gone + 1..]); Restore(s, left, Some(Arr(items))) == left
  {
    hide Kept, ItemSpot;
    var left := items[..gone] + items[gone + 1..];
    var back := Restore(s, Arr(left), Some(Arr(items))).items;
    forall i | 0 <= i < |left| ensures back[i] == left[i] {
      if i < gone {
        RestoreFromItself(ItemSpot(s), items[i]);
      } else {
        assert Kept(ItemSpot(s), items[i + 1], RunningItem(Some(Arr(items)), i + 1 - 1));
        UnchangedExactlyWhenKept(ItemSpot(s), items[i + 1], RunningItem(Some(Arr(items)), i));
      }
    }
    assert back == left;
  }

  lemma RestoreOfSetIn(s: Spot, d: Json, last: string, value: Json, mode: Mode)
    requires SetIn(d, last, value, mode).Ok?
    ensures var v := Restore(ChildSpot(s, d, last), value, Was(d, [last]));
            && SetIn(d, last, v, mode).Ok?
            && (Restore(s, SetIn(d, last, value, mode).value, Some(d)) == SetIn(d, last, v, mode).value <==>
                Stays(s, d, [last], mode))
            && Child(Restore(s, SetIn(d, last, value, mode).value, Some(d)), last) == Ok(v)
  {
    hide Restore, Kept, Get;
    GetOne(d, last);
    match d
    case Obj(fields) => RestorePlainField(s, fields, last, value);
    case Arr(items) =>
      var i := IndexOf(last).value;
      assert Was(d, [last]) == RunningItem(Some(d), i);
      if mode.Create? && i < |items| {
        RestorePlainInserted(s, items, i, value);
        PlainInsertedItems(s, items, i, value);
      } else {
        RestorePlainItem(s, items, i, value);
      }
  }

  /**
   Restoring an edited document restores the written value at its place.  It changes nothing else
   exactly when nothing that an insertion moves would be answered at its new place.
   */
  lemma {:induction false} RestoreOfEdit(s: Spot, d: Json, path: Path, value: Json, mode: Mode)
    requires Set(d, path, value, mode).Ok?
    ensures var v := Restore(PlaceSpot(s, d, path), value, Was(d, path));
            && Set(d, path, v, mode).Ok?
            && (Restore(s, Set(d, path, value, mode).value, Some(d)) == Set(d, path, v, mode).value <==>
                Stays(s, d, path, mode))
            && Get(Restore(s, Set(d, path, value, mode).value, Some(d)), path) == Ok(v)
    decreases |path|
  {
    hide Restore, SetIn, WithChild, Child, ChildSpot;
    if path == [] {
    } else if |path| == 1 {
      assert path == [path[0]] && path[1..] == [];
      RestoreOfSetIn(s, d, path[0], value, mode);
    } else {
      var child, rest, spot := Child(d, path[0]).value, path[1..], ChildSpot(s, d, path[0]);
      RestoreOfEdit(spot, child, rest, value, mode);
      var v := Restore(PlaceSpot(spot, child, rest), value, Was(child, rest));
      var edited := Set(child, rest, value, mode).value;
      RestorePlainChild(s, d, path[0], edited);
      WithChildInjective(d, path[0], Restore(spot, edited, Some(child)), Set(child, rest, v, mode).value);
      ChildOfWithChild(d, path[0], Restore(spot, edited, Some(child)));
    }
  }

  lemma RestoreOfRemoveIn(s: Spot, d: Json, last: string)
    requires RemoveIn(d, last).Ok? && Closes(s, d, [last])
    ensures Restore(s, RemoveIn(d, last).value.doc, Some(d)) == RemoveIn(d, last).value.doc
  {
    match d
    case Obj(fields) =>
      hide FieldSpot;
      var left := fields - {last};
      var back := Restore(s, Obj(left), Some(d)).fields;
      forall k | k in left ensures back[k] == left[k] {
        RestoreFromItself(FieldSpot(s, k), fields[k]);
      }
      assert back == left;
    case Arr(items) => RestorePlainRemoved(s, items, IndexOf(last).value);
  }

  /** Restoring after a deletion changes nothing, unless what closed up would be answered at its new place. */
  lemma {:induction false} RestoreOfRemove(s: Spot, d: Json, path: Path)
    requires Remove(d, path).Ok? && Closes(s, d, path)
    ensures Restore(s, Remove(d, path).value.doc, Some(d)) == Remove(d, path).value.doc
    decreases |path|
  {
    if |path| == 1 {
      hide Restore, RemoveIn;
      assert path == [path[0]];
      RestoreOfRemoveIn(s, d, path[0]);
    } else if |path| > 1 {
      hide Restore, RemoveIn, WithChild, Child;
      var child := Child(d, path[0]).value;
      RestoreOfRemove(ChildSpot(s, d, path[0]), child, path[1..]);
      RestorePlainChild(s, d, path[0], Remove(child, path[1..]).value.doc);
    }
  }

  lemma {:induction false} RestoreFromNothing(s: Spot, j: Json)
    ensures Restore(s, j, None) == j
    decreases j
  {
    match j
    case Arr(items) =>
      forall i | 0 <= i < |items| ensures Restore(ItemSpot(s), items[i], None) == items[i] {
        RestoreFromNothing(ItemSpot(s), items[i]);
      }
      assert Restore(s, j, None).items == items;
    case Obj(fields) =>
      forall k | k in fields ensures Restore(FieldSpot(s, k), fields[k], None) == fields[k] {
        RestoreFromNothing(FieldSpot(s, k), fields[k]);
      }
      assert Restore(s, j, None).fields == fields;
    case _ =>
  }

  /** Appended elements have nothing running behind them. */
  lemma RestoreAppended(s: Spot, items: seq<Json>, more: seq<Json>)
    ensures Restore(s, Arr(items + more), Some(Arr(items))) == Arr(items + more)
  {
    hide ItemSpot;
    var all := items + more;
    var back := Restore(s, Arr(all), Some(Arr(items))).items;
    forall i | 0 <= i < |all| ensures back[i] == all[i] {
      if i < |items| {
        RestoreFromItself(ItemSpot(s), items[i]);
      } else {
        RestoreFromNothing(ItemSpot(s), all[i]);
      }
    }
    assert back == all;
  }

  lemma UncarriedIsKept(s: Spot, j: Json, running: Option<Json>)
    requires !Carries(s, j)
    ensures Kept(s, j, running)
  {
    RestoreKeepsTheRest(s, j, running);
    UnchangedExactlyWhenKept(s, j, running);
  }

  lemma ChildCarriesNothing(s: Spot, d: Json, segment: string)
    requires !Carries(s, d) && Child(d, segment).Ok?
    ensures !Carries(ChildSpot(s, d, segment), Child(d, segment).value)
  {
  }

  lemma {:induction false} UncarriedStays(s: Spot, d: Json, path: Path, mode: Mode)
    requires !Carries(s, d)
    ensures Stays(s, d, path, mode) && Closes(s, d, path)
    decreases |path|
  {
    if |path| == 1 && d.Arr? {
      var items := d.items;
      forall k: nat, running | k < |items| ensures Kept(ItemSpot(s), items[k], running) {
        UncarriedIsKept(ItemSpot(s), items[k], running);
      }
    } else if |path| > 1 && Child(d, path[0]).Ok? {
      ChildCarriesNothing(s, d, path[0]);
      UncarriedStays(ChildSpot(s, d, path[0]), Child(d, path[0]).value, path[1..], mode);
    }
  }

  lemma ReplaceInjective(d: Json, path: Path, a: Json, b: Json)
    requires Get(d, path).Ok?
    ensures Set(d, path, a, Replace) == Set(d, path, b, Replace) <==> a == b
  {
    hide Set, Get;
    ReplaceExactlyWhereGet(d, path, a);
    ReplaceExactlyWhereGet(d, path, b);
    GetAfterSet(d, path, a, Replace);
    GetAfterSet(d, path, b, Replace);
  }

  lemma ChildIsFree(d: Json, segment: string)
    requires PlaceholderFree(d) && Child(d, segment).Ok?
    ensures PlaceholderFree(Child(d, segment).value)
  {
  }

  lemma WithChildIsFree(d: Json, segment: string, child: Json)
    requires PlaceholderFree(d) && PlaceholderFree(child) && Child(d, segment).Ok?
    ensures PlaceholderFree(WithChild(d, segment, child))
  {
  }

  lemma SetInIsFree(d: Json, last: string, value: Json, mode: Mode)
    requires PlaceholderFree(d) && PlaceholderFree(value) && SetIn(d, last, value, mode).Ok?
    ensures PlaceholderFree(SetIn(d, last, value, mode).value)
  {
  }

  lemma {:induction false} SetIsFree(d: Json, path: Path, value: Json, mode: Mode)
    requires PlaceholderFree(d) && PlaceholderFree(value) && Set(d, path, value, mode).Ok?
    ensures PlaceholderFree(Set(d, path, value, mode).value)
    decreases |path|
  {
    hide PlaceholderFree, SetIn, WithChild, Child;
    if |path| == 1 {
      SetInIsFree(d, path[0], value, mode);
    } else if |path| > 1 {
      ChildIsFree(d, path[0]);
      SetIsFree(Child(d, path[0]).value, path[1..], value, mode);
      WithChildIsFree(d, path[0], Set(Child(d, path[0]).value, path[1..], value, mode).value);
    }
  }

  lemma {:induction false} GetIsFree(d: Json, path: Path)
    requires PlaceholderFree(d) && Get(d, path).Ok?
    ensures PlaceholderFree(Get(d, path).value)
    decreases |path|
  {
    if path != [] {
      ChildIsFree(d, path[0]);
      GetIsFree(Child(d, path[0]).value, path[1..]);
    }
  }
}
