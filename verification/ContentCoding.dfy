/**
 Ranking of content codings against an Accept-Encoding header (section 12.5.3 of
 RFC 9110): an iterator that keeps one machine word and rescans, proved to be a
 stable sort.
 */
module ContentCoding {
  import opened Wire
  import opened Ordering

  // ----- The header -----

  type Quality = q: real | 0.0 <= q <= 1.0

  /** One parsed entry of the header. */
  datatype Entry = Entry(token: string, q: Quality)

  predicate IsSpace(c: char) {
    c in " \t\n\r"
  }

  function Trim(s: string): string {
    if s != [] && IsSpace(s[0]) then Trim(s[1..])
    else if s != [] && IsSpace(s[|s| - 1]) then Trim(s[..|s| - 1])
    else s
  }

  /** One name per coding: case does not matter, and `x-gzip` is gzip. */
  function CodingName(s: string): string {
    var name := LowerText(Trim(s));
    if name == "x-gzip" then "gzip" else name
  }

  predicate SameCoding(a: string, b: string) {
    CodingName(a) == CodingName(b)
  }

  function Named(entries: seq<Entry>, coding: string): Option<Quality> {
    if entries == [] then None
    else if SameCoding(entries[0].token, coding) then Some(entries[0].q)
    else Named(entries[1..], coding)
  }

  function Wildcard(entries: seq<Entry>): Option<Quality> {
    if entries == [] then None
    else if entries[0].token == "*" then Some(entries[0].q)
    else Wildcard(entries[1..])
  }

  /** A coding's own entry wins wherever it stands; otherwise only a wildcard refusal counts. */
  function Mentioned(entries: seq<Entry>, coding: string): Option<Quality> {
    if Named(entries, coding).Some? then Named(entries, coding)
    else if Wildcard(entries) == Some(0.0) then Some(0.0)
    else None
  }

  method MentionedQuality(entries: seq<Entry>, coding: string) returns (q: Option<Quality>)
    ensures q == Mentioned(entries, coding)
  {
    var wildcard: Option<Quality> := None;
    for i := 0 to |entries|
      invariant Named(entries, coding) == Named(entries[i..], coding)
      invariant Wildcard(entries) == if wildcard.Some? then wildcard else Wildcard(entries[i..])
    {
      var entry := entries[i];
      assert entries[i..][1..] == entries[i + 1..];
      if SameCoding(entry.token, coding) {
        return Some(entry.q);
      }
      if wildcard.None? && entry.token == "*" {
        wildcard := Some(entry.q);
      }
    }
    return if wildcard == Some(0.0) then wildcard else None;
  }

  // ----- Scores -----

  datatype Identity = Implicit | Rated(floor: Quality) | Refused

  function IdentityOf(entries: seq<Entry>): Identity {
    match Mentioned(entries, "identity")
    case None => Implicit
    case Some(q) => if q > 0.0 then Rated(q) else Refused
  }

  /** A coding's rank value, or `None` when it may not be sent. */
  function Score(mentioned: Option<Quality>, identity: Identity): Option<Quality> {
    match (mentioned, identity)
    case (Some(q), Rated(floor)) => if q >= floor then Some(q) else None
    case (Some(q), _) => if q > 0.0 then Some(q) else None
    case (None, Refused) => Some(0.0)
    case (None, _) => None
  }

  /** The scores of the first 64 offered codings, in the server's order. */
  function Scores(entries: seq<Entry>, offered: seq<string>): (s: seq<Option<Quality>>)
    ensures |s| == Min(|offered|, 64)
  {
    seq(Min(|offered|, 64), i requires 0 <= i < Min(|offered|, 64) =>
      Score(Mentioned(entries, offered[i]), IdentityOf(entries)))
  }

  // ----- The word of yielded ranks -----

  function Bit(word: nat, i: nat): bool {
    if i == 0 then word % 2 == 1 else Bit(word / 2, i - 1)
  }

  /** `word | 1 << i`. */
  function WithBit(word: nat, i: nat): nat {
    if i == 0 then (if word % 2 == 0 then word + 1 else word)
    else 2 * WithBit(word / 2, i - 1) + word % 2
  }

  lemma {:induction false} WithBitSetsOne(word: nat, i: nat, j: nat)
    ensures Bit(WithBit(word, i), j) == (Bit(word, j) || i == j)
    decreases i
  {
    var w := WithBit(word, i);
    if i == 0 {
      assert w / 2 == word / 2;
    } else {
      assert w / 2 == WithBit(word / 2, i - 1) && w % 2 == word % 2;
      if j > 0 {
        WithBitSetsOne(word / 2, i - 1, j - 1);
      }
    }
  }

  function Power2(n: nat): nat {
    if n == 0 then 1 else 2 * Power2(n - 1)
  }

  lemma {:induction false} WithBitFits(word: nat, i: nat, n: nat)
    requires i < n && word < Power2(n)
    ensures WithBit(word, i) < Power2(n)
    decreases i
  {
    hide Power2, WithBit;
    Doubles(n - 1);
    FirstBits(word, i);
    var half := Power2(n - 1);
    if i > 0 {
      assert word / 2 < half;
      WithBitFits(word / 2, i - 1, n - 1);
    }
  }

  lemma Doubles(n: nat)
    ensures Power2(n + 1) == 2 * Power2(n)
  {
  }

  lemma FirstBits(word: nat, i: nat)
    ensures WithBit(word, i) == if i > 0 then 2 * WithBit(word / 2, i - 1) + word % 2
                                else if word % 2 == 0 then word + 1 else word
  {
  }

  lemma {:induction false} NoBits(i: nat)
    ensures !Bit(0, i)
  {
    if i > 0 {
      NoBits(i - 1);
    }
  }

  // ----- The order -----

  function Value(scores: seq<Option<Quality>>, i: nat): real {
    if i < |scores| && scores[i].Some? then scores[i].value else -1.0
  }

  /** Higher quality first; the server's order breaks ties. */
  predicate Before(scores: seq<Option<Quality>>, i: nat, j: nat) {
    Value(scores, i) > Value(scores, j) || (Value(scores, i) == Value(scores, j) && i < j)
  }

  function Order(scores: seq<Option<Quality>>): (nat, nat) -> bool {
    (i: nat, j: nat) => Before(scores, i, j)
  }

  lemma OrderIsTotal(scores: seq<Option<Quality>>)
    ensures StrictTotal(Order(scores))
  {
  }

  predicate Acceptable(scores: seq<Option<Quality>>, i: nat) {
    i < |scores| && scores[i].Some?
  }

  // ----- The iterator -----

  /** May be sent and was not yielded yet. */
  predicate Open(scores: seq<Option<Quality>>, yielded: nat, i: nat) {
    Acceptable(scores, i) && !Bit(yielded, i)
  }

  /** The scan of one step: the open rank that comes before every other open rank. */
  ghost predicate IsBest(scores: seq<Option<Quality>>, yielded: nat, upTo: nat, best: Option<nat>) {
    match best
    case None => forall j: nat :: j < upTo ==> !Open(scores, yielded, j)
    case Some(b) =>
      && b < upTo && Open(scores, yielded, b)
      && forall j: nat :: j < upTo && Open(scores, yielded, j) && j != b ==> Before(scores, b, j)
  }

  lemma BestStep(scores: seq<Option<Quality>>, yielded: nat, rank: nat, best: Option<nat>, next: Option<nat>)
    requires rank < |scores| && IsBest(scores, yielded, rank, best)
    requires next == if Open(scores, yielded, rank) && (best.None? || scores[rank].value > scores[best.value].value)
                     then Some(rank) else best
    ensures IsBest(scores, yielded, rank + 1, next)
  {
    hide Bit;
  }

  method FindBest(entries: seq<Entry>, offered: seq<string>, identity: Identity, yielded: nat) returns (best: Option<nat>)
    requires identity == IdentityOf(entries)
    ensures IsBest(Scores(entries, offered), yielded, Min(|offered|, 64), best)
  {
    hide Bit, Mentioned, IdentityOf, IsBest;
    ghost var scores := Scores(entries, offered);
    var quality: Quality := 0.0;
    best := None;
    NoneBest(scores, yielded);
    for rank := 0 to Min(|offered|, 64)
      invariant IsBest(scores, yielded, rank, best)
      invariant best.Some? ==> best.value < rank && scores[best.value] == Some(quality)
    {
      ghost var before := best;
      if !Bit(yielded, rank) {
        var mentioned := MentionedQuality(entries, offered[rank]);
        var score := Score(mentioned, identity);
        if score.Some? && (best.None? || score.value > quality) {
          best, quality := Some(rank), score.value;
        }
      }
      BestStep(scores, yielded, rank, before, best);
    }
  }

  lemma NoneBest(scores: seq<Option<Quality>>, yielded: nat)
    ensures IsBest(scores, yielded, 0, None)
  {
  }

  lemma {:induction false} Power2Positive(n: nat)
    ensures Power2(n) > 0
  {
    if n > 0 {
      Power2Positive(n - 1);
    }
  }

  class Ranked {
    const entries: seq<Entry>
    const offered: seq<string>
    const identity: Identity
    var yielded: nat

    ghost predicate Valid()
      reads this
    {
      identity == IdentityOf(entries) && yielded < Power2(64)
    }

    ghost function Values(): seq<Option<Quality>> {
      Scores(entries, offered)
    }

    constructor (entries: seq<Entry>, offered: seq<string>)
      ensures this.entries == entries && this.offered == offered && Valid() && yielded == 0
    {
      this.entries, this.offered := entries, offered;
      var q := MentionedQuality(entries, "identity");
      identity := match q case None => Implicit case Some(v) => if v > 0.0 then Rated(v) else Refused;
      yielded := 0;
      Power2Positive(64);
    }

    /** The best coding not yielded yet, which is then yielded. */
    method Next() returns (r: Option<nat>)
      requires Valid()
      modifies `yielded
      ensures Valid() && IsBest(Values(), old(yielded), |Values()|, r)
      ensures r.None? ==> yielded == old(yielded)
      ensures r.Some? ==> forall j: nat :: Open(Values(), yielded, j) <==> Open(Values(), old(yielded), j) && j != r.value
    {
      hide Bit, WithBit, Power2;
      r := FindBest(entries, offered, identity, yielded);
      if r.Some? {
        var rank := r.value;
        forall j: nat ensures Bit(WithBit(yielded, rank), j) == (Bit(yielded, j) || rank == j) {
          WithBitSetsOne(yielded, rank, j);
        }
        WithBitFits(yielded, rank, 64);
        yielded := WithBit(yielded, rank);
      }
    }
  }

  // ----- A stable sort -----

  /** Inserts before the first element that is not better: equal scores keep their order. */
  function InsertStable(scores: seq<Option<Quality>>, x: nat, s: seq<nat>): seq<nat> {
    if s == [] || Value(scores, x) >= Value(scores, s[0]) then [x] + s
    else [s[0]] + InsertStable(scores, x, s[1..])
  }

  /** The acceptable ranks from `from` on, sorted stably by descending score. */
  function StableFrom(scores: seq<Option<Quality>>, from: nat): seq<nat>
    decreases |scores| - from
  {
    if from >= |scores| then []
    else if Acceptable(scores, from) then InsertStable(scores, from, StableFrom(scores, from + 1))
    else StableFrom(scores, from + 1)
  }

  function StableSort(scores: seq<Option<Quality>>): seq<nat> {
    StableFrom(scores, 0)
  }

  lemma {:induction false} InsertStableAscending(scores: seq<Option<Quality>>, x: nat, s: seq<nat>)
    requires Ascending(Order(scores), s) && forall y :: y in s ==> x < y
    ensures Ascending(Order(scores), InsertStable(scores, x, s))
    ensures forall y :: y in InsertStable(scores, x, s) <==> y == x || y in s
  {
    assert forall k :: 0 <= k < |s| ==> s[k] in s;
    if s != [] && Value(scores, x) < Value(scores, s[0]) {
      assert forall y :: y in s[1..] ==> y in s;
      InsertStableAscending(scores, x, s[1..]);
      var rest := InsertStable(scores, x, s[1..]);
      forall y | y in rest ensures Before(scores, s[0], y) {
        if y != x {
          var k :| 0 <= k < |s[1..]| && s[1..][k] == y;
          assert Order(scores)(s[0], s[k + 1]);
        }
      }
    } else {
      forall k | 0 <= k < |s| ensures Before(scores, x, s[k]) {
        if k > 0 {
          assert Order(scores)(s[0], s[k]);
        }
      }
    }
  }

  lemma {:induction false} StableFromAscending(scores: seq<Option<Quality>>, from: nat)
    ensures Ascending(Order(scores), StableFrom(scores, from))
    ensures forall y :: y in StableFrom(scores, from) <==> from <= y && Acceptable(scores, y)
    decreases |scores| - from
  {
    if from < |scores| {
      StableFromAscending(scores, from + 1);
      if Acceptable(scores, from) {
        InsertStableAscending(scores, from, StableFrom(scores, from + 1));
      }
    }
  }

  /** Draining the iterator is the stable sort of the acceptable codings among the first 64. */
  method RankAll(entries: seq<Entry>, offered: seq<string>) returns (ranks: seq<nat>)
    ensures ranks == StableSort(Scores(entries, offered))
  {
    hide Bit, Scores;
    var ranked := new Ranked(entries, offered);
    ghost var scores := ranked.Values();
    ranks := [];
    forall j: nat ensures !Bit(0, j) {
      NoBits(j);
    }
    ghost var left := set j | 0 <= j < |scores| && Acceptable(scores, j);
    var more := true;
    while more
      invariant ranked.Valid() && ranked.Values() == scores
      invariant forall j: nat :: Open(scores, ranked.yielded, j) <==> j in left
      invariant forall j: nat :: Acceptable(scores, j) <==> j in ranks || j in left
      invariant forall k, j: nat :: 0 <= k < |ranks| && j in left ==> Before(scores, ranks[k], j)
      invariant Ascending(Order(scores), ranks)
      invariant !more ==> left == {}
      decreases left, more
    {
      var next := ranked.Next();
      if next.None? {
        more := false;
        assert forall j: nat :: j !in left;
      } else {
        assert Open(scores, ranked.yielded, next.value) == false;
        assert next.value in left;
        ranks := ranks + [next.value];
        left := left - {next.value};
      }
    }
    OrderIsTotal(scores);
    StableFromAscending(scores, 0);
    AscendingUnique(Order(scores), ranks, StableSort(scores));
  }

  method Negotiate(entries: seq<Entry>, offered: seq<string>) returns (r: Option<nat>)
    ensures var ranks := StableSort(Scores(entries, offered));
            r == if ranks == [] then None else Some(ranks[0])
  {
    hide Bit, Scores;
    var ranked := new Ranked(entries, offered);
    r := ranked.Next();
    BestIsFirst(Scores(entries, offered), r);
  }

  lemma BestIsFirst(scores: seq<Option<Quality>>, best: Option<nat>)
    requires IsBest(scores, 0, |scores|, best)
    ensures var ranks := StableSort(scores);
            best == if ranks == [] then None else Some(ranks[0])
  {
    var ranks := StableSort(scores);
    StableFromAscending(scores, 0);
    forall j: nat ensures !Bit(0, j) {
      NoBits(j);
    }
    assert best.Some? ==> best.value in ranks;
    if ranks != [] {
      assert ranks[0] in ranks;
      assert Open(scores, 0, ranks[0]);
      var k :| 0 <= k < |ranks| && ranks[k] == best.value;
      assert k > 0 ==> Order(scores)(ranks[0], ranks[k]);
    }
  }

  /**
   What the ranking means to a client: a rated plain body is a floor; without one every positively
   rated coding may be sent; and only a client that refuses the plain body is offered codings it
   never rated.
   */
  lemma RankedExactly(entries: seq<Entry>, offered: seq<string>, i: nat)
    ensures i in StableSort(Scores(entries, offered)) <==>
            && i < Min(|offered|, 64)
            && match Mentioned(entries, offered[i])
               case Some(q) => q > 0.0 && (IdentityOf(entries).Rated? ==> q >= IdentityOf(entries).floor)
               case None => Mentioned(entries, "identity") == Some(0.0)
  {
    hide Mentioned;
    StableFromAscending(Scores(entries, offered), 0);
  }

  /** Earlier in the ranking is better rated, or as good and preferred by the server; the unrated come last. */
  lemma RankedInOrder(entries: seq<Entry>, offered: seq<string>, a: nat, b: nat)
    requires a < b < |StableSort(Scores(entries, offered))|
    ensures var i, j := StableSort(Scores(entries, offered))[a], StableSort(Scores(entries, offered))[b];
            && i < |offered| && j < |offered|
            && match (Mentioned(entries, offered[i]), Mentioned(entries, offered[j]))
               case (Some(p), Some(q)) => p > q || (p == q && i < j)
               case (Some(_), None) => true
               case (None, Some(_)) => false
               case (None, None) => i < j
  {
    hide Mentioned, StableFrom;
    var scores := Scores(entries, offered);
    var ranks := StableSort(scores);
    StableFromAscending(scores, 0);
    assert Order(scores)(ranks[a], ranks[b]);
    assert ranks[a] in ranks && ranks[b] in ranks;
  }

  // ----- What particular headers mean -----

  lemma {:induction false} OnlyWildcards(entries: seq<Entry>, coding: string)
    requires forall i :: 0 <= i < |entries| ==> entries[i].token == "*"
    requires CodingName(coding) != CodingName("*")
    ensures Named(entries, coding).None?
    ensures Wildcard(entries) == if entries == [] then None else Some(entries[0].q)
  {
    if entries != [] {
      OnlyWildcards(entries[1..], coding);
    }
  }

  lemma IdentityIsNoWildcard()
    ensures CodingName("identity") != CodingName("*")
  {
    assert |LowerText("identity")| == 8 && |LowerText("*")| == 1;
  }

  /** A wildcard grants nothing: a header of wildcards alone leaves the body as it is. */
  lemma WildcardsGrantNothing(entries: seq<Entry>, offered: seq<string>)
    requires forall i :: 0 <= i < |entries| ==> entries[i].token == "*"
    requires forall i :: 0 <= i < |offered| ==> CodingName(offered[i]) != CodingName("*")
    ensures StableSort(Scores(entries, offered)) == []
  {
    hide CodingName, StableSort, Scores;
    if StableSort(Scores(entries, offered)) != [] {
      var i := StableSort(Scores(entries, offered))[0];
      RankedExactly(entries, offered, i);
      OnlyWildcards(entries, offered[i]);
      IdentityIsNoWildcard();
      OnlyWildcards(entries, "identity");
    }
  }

  lemma {:induction false} FirstEntryNamed(before: seq<Entry>, entry: Entry, after: seq<Entry>, coding: string)
    requires SameCoding(entry.token, coding)
    requires forall i :: 0 <= i < |before| ==> !SameCoding(before[i].token, coding)
    ensures Named(before + [entry] + after, coding) == Some(entry.q)
  {
    hide SameCoding;
    var all := before + [entry] + after;
    if before != [] {
      assert all[0] == before[0] && all[1..] == before[1..] + [entry] + after;
      FirstEntryNamed(before[1..], entry, after, coding);
    }
  }

  /** A coding's first entry is its quality, whatever wildcards and other codings stand around it. */
  lemma FirstEntryRates(before: seq<Entry>, entry: Entry, after: seq<Entry>, coding: string)
    requires SameCoding(entry.token, coding)
    requires forall i :: 0 <= i < |before| ==> !SameCoding(before[i].token, coding)
    ensures Mentioned(before + [entry] + after, coding) == Some(entry.q)
  {
    FirstEntryNamed(before, entry, after, coding);
  }

  lemma {:induction false} TrimPads(before: string, name: string, after: string)
    requires (forall i :: 0 <= i < |before| ==> IsSpace(before[i])) && (forall i :: 0 <= i < |after| ==> IsSpace(after[i]))
    requires name != [] && !IsSpace(name[0]) && !IsSpace(name[|name| - 1])
    ensures Trim(before + name + after) == name
    decreases |before| + |after|
  {
    var all := before + name + after;
    if before != [] {
      assert all[1..] == before[1..] + name + after;
      TrimPads(before[1..], name, after);
    } else if after != [] {
      assert all[0] == name[0];
      assert all[..|all| - 1] == before + name + after[..|after| - 1];
      TrimPads(before, name, after[..|after| - 1]);
    } else {
      assert all == name;
    }
  }

  /** Two spellings of a name without spaces are one coding when they differ in case and padding only. */
  lemma SpellingDoesNotMatter(before: string, name: string, after: string, other: string)
    requires (forall i :: 0 <= i < |before| ==> IsSpace(before[i])) && (forall i :: 0 <= i < |after| ==> IsSpace(after[i]))
    requires name != [] && !IsSpace(name[0]) && !IsSpace(name[|name| - 1])
    requires other != [] && !IsSpace(other[0]) && !IsSpace(other[|other| - 1])
    ensures SameCoding(before + name + after, other) <==>
            || LowerText(name) == LowerText(other)
            || (LowerText(name) == "x-gzip" && LowerText(other) == "gzip")
            || (LowerText(name) == "gzip" && LowerText(other) == "x-gzip")
  {
    hide LowerText, Trim;
    TrimPads(before, name, after);
    TrimPads("", other, "");
    assert "" + other + "" == other;
  }
}
