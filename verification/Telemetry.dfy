/** The multi-tenant telemetry store: points in insertion order, and a count of distinct series per tenant. */
module Telemetry {
  const MAX_POINTS := 1024
  const MAX_TENANTS := 16
  const MAX_TAG := 63

  /** A tag as it fits its field: at most 63 characters, none of them the terminator. */
  type Tag = s: string | |s| <= MAX_TAG && '\0' !in s witness ""

  datatype Point = Point(tenant: Tag, site: Tag, node: Tag, deviceClass: Tag, metric: Tag, domain: Tag, value: seq<bv8>, timestamp: nat)

  // ---------------------------------------------------------------- series keys

  function SeriesKey(site: string, node: string, metric: string): string {
    site + ":" + node + ":" + metric
  }

  /** make_series_key; the key of three tags always fits its buffer. */
  function KeyOf(p: Point): (k: string)
    ensures |k| <= 3 * (MAX_TAG + 1) - 1
  {
    SeriesKey(p.site, p.node, p.metric)
  }

  lemma KeyOfTags(p: Point)
    ensures KeyOf(p) == p.site + ":" + p.node + ":" + p.metric
  {
  }

  lemma SeparatorInside(a: string, x: string, b: string, y: string)
    requires a + ":" + x == b + ":" + y && |a| < |b|
    ensures ':' in b
  {
    assert (a + ":" + x)[|a|] == ':' && (b + ":" + y)[|a|] == b[|a|];
  }

  /** A separator after text without separators is found where the text ends. */
  lemma SplitUnique(a: string, x: string, b: string, y: string)
    requires ':' !in a && ':' !in b && a + ":" + x == b + ":" + y
    ensures a == b && x == y
  {
    if |a| < |b| {
      SeparatorInside(a, x, b, y);
    } else if |b| < |a| {
      SeparatorInside(b, y, a, x);
    } else {
      assert (a + ":" + x)[..|a|] == a && (b + ":" + y)[..|b|] == b;
      assert (a + ":" + x)[|a| + 1..] == x && (b + ":" + y)[|b| + 1..] == y;
    }
  }

  /** Among sites and nodes without the separator, a key stands for one series only. */
  lemma KeyInjective(s: string, n: string, m: string, s': string, n': string, m': string)
    requires ':' !in s && ':' !in n && ':' !in s' && ':' !in n'
    ensures SeriesKey(s, n, m) == SeriesKey(s', n', m') <==> s == s' && n == n' && m == m'
  {
    if SeriesKey(s, n, m) == SeriesKey(s', n', m') {
      assert SeriesKey(s, n, m) == s + ":" + (n + ":" + m);
      assert SeriesKey(s', n', m') == s' + ":" + (n' + ":" + m');
      SplitUnique(s, n + ":" + m, s', n' + ":" + m');
      SplitUnique(n, m, n', m');
    }
  }

  /** The key can be read as tags that end before i, between i and j, and after j. */
  predicate SplitsAt(key: string, i: nat, j: nat) {
    && i < j < |key| && key[i] == ':' == key[j]
    && i <= MAX_TAG && j - i - 1 <= MAX_TAG && |key| - j - 1 <= MAX_TAG
  }

  lemma SplitOfSeries(s: Tag, n: Tag, m: Tag)
    ensures var key, i, j := SeriesKey(s, n, m), |s|, |s| + 1 + |n|;
            SplitsAt(key, i, j) && key[..i] == s && key[i + 1..j] == n && key[j + 1..] == m
  {
  }

  lemma SeriesOfSplit(key: string, i: nat, j: nat)
    requires SplitsAt(key, i, j) && '\0' !in key
    ensures SeriesKey(key[..i], key[i + 1..j], key[j + 1..]) == key
  {
    assert key == key[..i] + ":" + key[i + 1..j] + ":" + key[j + 1..];
  }

  lemma NoTerminator(s: Tag, n: Tag, m: Tag)
    ensures '\0' !in SeriesKey(s, n, m)
  {
  }

  /** Another series that can be stored has the same key. */
  ghost predicate Ambiguous(s: Tag, n: Tag, m: Tag) {
    exists s': Tag, n': Tag, m': Tag :: SeriesKey(s', n', m') == SeriesKey(s, n, m) && (s', n', m') != (s, n, m)
  }

  /** Its key splits at another place than between its own tags. */
  predicate SplitsElsewhere(s: Tag, n: Tag, m: Tag) {
    var key := SeriesKey(s, n, m);
    exists i: nat, j: nat :: i < |key| && j < |key| && SplitsAt(key, i, j) && !(i == |s| && j == |s| + 1 + |n|)
  }

  /** A series shares its key with another exactly when the key can be split into three tags in another way. */
  lemma AmbiguousExactly(s: Tag, n: Tag, m: Tag)
    ensures Ambiguous(s, n, m) <==> SplitsElsewhere(s, n, m)
  {
    hide SeriesKey, SplitsAt;
    var key := SeriesKey(s, n, m);
    SplitOfSeries(s, n, m);
    if Ambiguous(s, n, m) {
      var s': Tag, n': Tag, m': Tag :| SeriesKey(s', n', m') == key && (s', n', m') != (s, n, m);
      SplitOfSeries(s', n', m');
      SplitBounds(key, |s'|, |s'| + 1 + |n'|);
    }
    if SplitsElsewhere(s, n, m) {
      var i: nat, j: nat :| i < |key| && j < |key| && SplitsAt(key, i, j) && !(i == |s| && j == |s| + 1 + |n|);
      NoTerminator(s, n, m);
      SeriesOfSplit(key, i, j);
      SplitBounds(key, i, j);
      var s': Tag, n': Tag, m': Tag := key[..i], key[i + 1..j], key[j + 1..];
      assert |s'| == i && |n'| == j - i - 1;
    }
  }

  lemma SplitBounds(key: string, i: nat, j: nat)
    requires SplitsAt(key, i, j)
    ensures i < j < |key| && i <= MAX_TAG && j - i - 1 <= MAX_TAG && |key| - j - 1 <= MAX_TAG
  {
  }

  /** Without a separator in its tags, a series has its key to itself. */
  lemma ColonFree(s: Tag, n: Tag, m: Tag)
    requires ':' !in s && ':' !in n && ':' !in m
    ensures !Ambiguous(s, n, m)
  {
    AmbiguousExactly(s, n, m);
    var key := SeriesKey(s, n, m);
    forall k: nat | k < |key| && key[k] == ':' ensures k == |s| || k == |s| + 1 + |n| {
      KeyAt(s, n, m, k);
    }
  }

  lemma KeyAt(s: string, n: string, m: string, k: nat)
    requires k < |SeriesKey(s, n, m)|
    ensures var c := SeriesKey(s, n, m)[k];
            if k < |s| then c == s[k]
            else if k == |s| || k == |s| + 1 + |n| then c == ':'
            else if k < |s| + 1 + |n| then c == n[k - |s| - 1]
            else c == m[k - |s| - |n| - 2]
  {
  }

  /** Two series that cannot be told apart by their key. */
  lemma ColonCollides()
    ensures SeriesKey("a:b", "c", "d") == SeriesKey("a", "b:c", "d") && Ambiguous("a:b", "c", "d")
  {
    assert SeriesKey("a:b", "c", "d") == "a:b:c:d" == SeriesKey("a", "b:c", "d");
    var s: Tag, n: Tag, m: Tag := "a", "b:c", "d";
    assert |s| != |"a:b"|;
  }

  /** Yet a separator alone does not make a series ambiguous: the other readings may have tags too long to store. */
  lemma ColonWithoutCollision(n: Tag, m: Tag)
    requires |n| == MAX_TAG == |m| && ':' !in n && ':' !in m
    ensures !Ambiguous(":", n, m)
  {
    AmbiguousExactly(":", n, m);
    var key := SeriesKey(":", n, m);
    forall i: nat, j: nat | i < |key| && j < |key| && SplitsAt(key, i, j) ensures i == 1 && j == 2 + |n| {
      KeyAt(":", n, m, i);
      KeyAt(":", n, m, j);
    }
  }

  // ---------------------------------------------------------------- what is counted and what is found

  /** The points of a tenant, in insertion order. */
  function PointsOf(ps: seq<Point>, tenant: Tag): (r: seq<Point>)
    ensures |r| <= |ps|
  {
    if ps == [] then []
    else
      var r, p := PointsOf(ps[..|ps| - 1], tenant), ps[|ps| - 1];
      if p.tenant == tenant then r + [p] else r
  }

  /** The distinct series keys of a tenant. */
  ghost function SeriesOf(ps: seq<Point>, tenant: Tag): set<string> {
    set i | 0 <= i < |ps| && ps[i].tenant == tenant :: KeyOf(ps[i])
  }

  type Series = (Tag, Tag, Tag)

  function SeriesOfPoint(p: Point): Series {
    (p.site, p.node, p.metric)
  }

  function KeyOfSeries(t: Series): string {
    SeriesKey(t.0, t.1, t.2)
  }

  /** The distinct series themselves. */
  ghost function TriplesOf(ps: seq<Point>, tenant: Tag): set<Series> {
    set i | 0 <= i < |ps| && ps[i].tenant == tenant :: SeriesOfPoint(ps[i])
  }

  /** No two points of the tenant are of different series with one key. */
  ghost predicate NoCollision(ps: seq<Point>, tenant: Tag) {
    forall i, j :: 0 <= i < |ps| && 0 <= j < |ps| && ps[i].tenant == tenant == ps[j].tenant && KeyOf(ps[i]) == KeyOf(ps[j])
      ==> SeriesOfPoint(ps[i]) == SeriesOfPoint(ps[j])
  }

  ghost function KeysOf(ts: set<Series>): set<string> {
    set t | t in ts :: KeyOfSeries(t)
  }

  ghost predicate Injective(ts: set<Series>) {
    forall t, u :: t in ts && u in ts && KeyOfSeries(t) == KeyOfSeries(u) ==> t == u
  }

  /** There are as many keys as series exactly when different series have different keys; otherwise there are fewer. */
  lemma {:induction false} CountKeys(ts: set<Series>)
    ensures |KeysOf(ts)| <= |ts|
    ensures |KeysOf(ts)| == |ts| <==> Injective(ts)
  {
    hide KeyOfSeries;
    if ts != {} {
      var t :| t in ts;
      var rest, k := ts - {t}, KeyOfSeries(t);
      CountKeys(rest);
      assert ts == rest + {t};
      assert KeysOf(ts) == KeysOf(rest) + {k};
      if k in KeysOf(rest) {
        var u :| u in rest && KeyOfSeries(u) == k;
        assert !Injective(ts);
      } else {
        assert Injective(ts) <==> Injective(rest);
      }
    } else {
      assert KeysOf(ts) == {};
    }
  }

  /** The number of keys is the number of series exactly when no two stored points collide; it is never more. */
  lemma CountsSeriesExactly(ps: seq<Point>, tenant: Tag)
    ensures |SeriesOf(ps, tenant)| <= |TriplesOf(ps, tenant)|
    ensures |SeriesOf(ps, tenant)| == |TriplesOf(ps, tenant)| <==> NoCollision(ps, tenant)
  {
    hide SeriesKey;
    var ts := TriplesOf(ps, tenant);
    CountKeys(ts);
    SameKeys(ps, tenant);
    if NoCollision(ps, tenant) {
      forall t, u | t in ts && u in ts && KeyOfSeries(t) == KeyOfSeries(u) ensures t == u {
        var i :| 0 <= i < |ps| && ps[i].tenant == tenant && SeriesOfPoint(ps[i]) == t;
        var j :| 0 <= j < |ps| && ps[j].tenant == tenant && SeriesOfPoint(ps[j]) == u;
        assert KeyOf(ps[i]) == KeyOf(ps[j]);
      }
    }
    if Injective(ts) {
      forall i, j | 0 <= i < |ps| && 0 <= j < |ps| && ps[i].tenant == tenant == ps[j].tenant && KeyOf(ps[i]) == KeyOf(ps[j])
        ensures SeriesOfPoint(ps[i]) == SeriesOfPoint(ps[j])
      {
        assert SeriesOfPoint(ps[i]) in ts && SeriesOfPoint(ps[j]) in ts;
      }
    }
  }

  lemma SameKeys(ps: seq<Point>, tenant: Tag)
    ensures KeysOf(TriplesOf(ps, tenant)) == SeriesOf(ps, tenant)
  {
    hide SeriesKey;
    forall k | k in KeysOf(TriplesOf(ps, tenant)) ensures k in SeriesOf(ps, tenant) {
      var t :| t in TriplesOf(ps, tenant) && KeyOfSeries(t) == k;
      var i :| 0 <= i < |ps| && ps[i].tenant == tenant && SeriesOfPoint(ps[i]) == t;
      assert KeyOf(ps[i]) == k;
    }
    forall k | k in SeriesOf(ps, tenant) ensures k in KeysOf(TriplesOf(ps, tenant)) {
      var i :| 0 <= i < |ps| && ps[i].tenant == tenant && KeyOf(ps[i]) == k;
      assert SeriesOfPoint(ps[i]) in TriplesOf(ps, tenant) && KeyOfSeries(SeriesOfPoint(ps[i])) == k;
    }
  }

  lemma SeriesNext(ps: seq<Point>, i: nat, tenant: Tag)
    requires i < |ps|
    ensures SeriesOf(ps[..i + 1], tenant)
            == SeriesOf(ps[..i], tenant) + if ps[i].tenant == tenant then {KeyOf(ps[i])} else {}
  {
    hide KeyOf;
    var a, b := ps[..i + 1], ps[..i];
    forall k | k in SeriesOf(a, tenant)
      ensures k in SeriesOf(b, tenant) + if ps[i].tenant == tenant then {KeyOf(ps[i])} else {}
    {
      var j :| 0 <= j < |a| && a[j].tenant == tenant && KeyOf(a[j]) == k;
      if j < i {
        assert b[j] == a[j];
      }
    }
    forall k | k in SeriesOf(b, tenant) + if ps[i].tenant == tenant then {KeyOf(ps[i])} else {}
      ensures k in SeriesOf(a, tenant)
    {
      if k in SeriesOf(b, tenant) {
        var j :| 0 <= j < |b| && b[j].tenant == tenant && KeyOf(b[j]) == k;
        assert a[j] == b[j];
      } else {
        assert a[i] == ps[i];
      }
    }
  }

  lemma PointsNext(ps: seq<Point>, i: nat, tenant: Tag)
    requires i < |ps|
    ensures PointsOf(ps[..i + 1], tenant) == if ps[i].tenant == tenant then PointsOf(ps[..i], tenant) + [ps[i]] else PointsOf(ps[..i], tenant)
  {
    assert ps[..i + 1][..i] == ps[..i];
  }

  lemma {:induction false} PointsPrefix(ps: seq<Point>, i: nat, tenant: Tag)
    requires i <= |ps|
    ensures PointsOf(ps[..i], tenant) <= PointsOf(ps, tenant)
    decreases |ps| - i
  {
    if i == |ps| {
      assert ps[..i] == ps;
    } else {
      PointsNext(ps, i, tenant);
      PointsPrefix(ps, i + 1, tenant);
    }
  }

  /** Exactly the tenant's points are found, each in its place among them. */
  lemma {:induction false} PointsAreTheTenants(ps: seq<Point>, tenant: Tag)
    ensures forall p :: p in PointsOf(ps, tenant) <==> p in ps && p.tenant == tenant
    decreases |ps|
  {
    if ps != [] {
      var n := |ps| - 1;
      PointsAreTheTenants(ps[..n], tenant);
      assert ps == ps[..n] + [ps[n]];
    }
  }

  ghost function Elements(s: seq<string>): set<string> {
    set i | 0 <= i < |s| :: s[i]
  }

  lemma {:induction false} DistinctCount(s: seq<string>)
    requires forall i, j :: 0 <= i < j < |s| ==> s[i] != s[j]
    ensures |Elements(s)| == |s|
    decreases |s|
  {
    if s != [] {
      var n := |s| - 1;
      DistinctCount(s[..n]);
      ElementsNext(s[..n], s[n]);
      assert s == s[..n] + [s[n]];
      assert s[n] !in Elements(s[..n]);
    } else {
      assert Elements(s) == {};
    }
  }

  lemma ElementsNext(s: seq<string>, k: string)
    ensures Elements(s + [k]) == Elements(s) + {k}
  {
    forall x | x in Elements(s) + {k} ensures x in Elements(s + [k]) {
      if x in Elements(s) {
        var i :| 0 <= i < |s| && s[i] == x;
        assert (s + [k])[i] == x;
      } else {
        assert (s + [k])[|s|] == x;
      }
    }
  }

  // ---------------------------------------------------------------- the store

  datatype Result = Ok | Full | ParamNull | Unauthorized

  datatype Token = Token(id: nat, boundTenant: Tag, valid: bool)

  datatype Cardinality = Cardinality(tenant: Tag, seriesCount: nat)

  class Store {
    const points: array<Point>
    const cards: array<Cardinality>
    var count: nat
    var cardCount: nat
    var nextTokenId: nat
    var initialised: bool

    ghost predicate Shape()
      reads this
    {
      && points.Length == MAX_POINTS && cards.Length == MAX_TENANTS
      && count <= MAX_POINTS && cardCount <= MAX_TENANTS
    }

    ghost function Points(): seq<Point>
      requires Shape()
      reads this, points
    {
      points[..count]
    }

    ghost predicate DistinctTenants()
      requires Shape()
      reads this, cards
    {
      forall i, j :: 0 <= i < j < cardCount ==> cards[i].tenant != cards[j].tenant
    }

    /** Every count in the table is the number of distinct series of its tenant. */
    ghost predicate Valid()
      reads this, points, cards
    {
      && Shape() && DistinctTenants()
      && forall i :: 0 <= i < cardCount ==> cards[i].seriesCount == |SeriesOf(Points(), cards[i].tenant)|
    }

    ghost predicate Tracked(tenant: Tag)
      requires Shape()
      reads this, cards
    {
      exists i :: 0 <= i < cardCount && cards[i].tenant == tenant
    }

    /** A tenant's count is the number of its distinct series exactly when no two of its stored points collide. */
    lemma CountedExactly(i: nat)
      requires Valid() && i < cardCount
      ensures cards[i].seriesCount <= |TriplesOf(Points(), cards[i].tenant)|
      ensures cards[i].seriesCount == |TriplesOf(Points(), cards[i].tenant)| <==> NoCollision(Points(), cards[i].tenant)
    {
      CountsSeriesExactly(Points(), cards[i].tenant);
    }

    constructor ()
      ensures Valid() && !initialised && Points() == [] && cardCount == 0 && fresh(points) && fresh(cards)
    {
      points := new Point[MAX_POINTS](_ => Point("", "", "", "", "", "", [], 0));
      cards := new Cardinality[MAX_TENANTS](_ => Cardinality("", 0));
      count, cardCount, nextTokenId, initialised := 0, 0, 1, false;
    }

    /** telemetry_store_init */
    method Init()
      requires Valid()
      modifies this
      ensures Valid() && initialised && Points() == [] && cardCount == 0 && nextTokenId == 1
    {
      count, cardCount, nextTokenId, initialised := 0, 0, 1, true;
    }

    /** find_or_create_cardinality: the index of the tenant's entry, or none when the table is full. */
    method FindOrCreate(tenant: Tag) returns (index: int)
      requires Shape() && DistinctTenants()
      modifies this`cardCount, cards
      ensures Shape() && DistinctTenants()
      ensures index == -1 <==> !old(Tracked(tenant)) && old(cardCount) == MAX_TENANTS
      ensures index != -1 ==> 0 <= index < cardCount && cards[index].tenant == tenant
      ensures cardCount == old(cardCount) || (cardCount == old(cardCount) + 1 && index == old(cardCount))
      ensures forall i :: 0 <= i < old(cardCount) ==> cards[i] == old(cards[i])
    {
      for i := 0 to cardCount
        invariant cardCount == old(cardCount) && cards[..] == old(cards[..])
        invariant forall j :: 0 <= j < i ==> cards[j].tenant != tenant
      {
        if cards[i].tenant == tenant {
          return i;
        }
      }
      if cardCount >= MAX_TENANTS {
        return -1;
      }
      cards[cardCount] := Cardinality(tenant, 0);
      cardCount := cardCount + 1;
      return cardCount - 1;
    }

    /** The nested loops of the recount compute the size of the set of series keys. */
    method Recount(tenant: Tag) returns (unique: nat)
      requires Shape()
      ensures unique == |SeriesOf(Points(), tenant)|
    {
      hide SeriesOf, KeyOf, Elements;
      ghost var ps := Points();
      unique := 0;
      var seen: seq<string> := [];
      NothingYet(ps, tenant);
      for i := 0 to count
        invariant unique == |seen|
        invariant forall a, b :: 0 <= a < b < |seen| ==> seen[a] != seen[b]
        invariant Elements(seen) == SeriesOf(ps[..i], tenant)
      {
        SeriesNext(ps, i, tenant);
        assert points[i] == ps[i];
        if points[i].tenant != tenant {
          continue;
        }
        var key := KeyOf(points[i]);
        var dup := SeenBefore(seen, key);
        SeenIsElement(seen, key);
        if !dup {
          ElementsNext(seen, key);
          seen := seen + [key];
          unique := unique + 1;
        }
      }
      assert ps[..count] == ps;
      DistinctCount(seen);
    }

    /** telemetry_store_write */
    method Write(p: Point) returns (r: Result)
      requires Valid()
      modifies this`count, this`cardCount, points, cards
      ensures Valid()
      ensures r == if !initialised then ParamNull else if old(count) == MAX_POINTS then Full else Ok
      ensures Points() == if r == Ok then old(Points()) + [p] else old(Points())
      ensures forall t :: old(Tracked(t)) ==> Tracked(t)
      ensures r == Ok ==> (Tracked(p.tenant) <==> old(Tracked(p.tenant)) || old(cardCount) < MAX_TENANTS)
    {
      hide SeriesOf;
      if !initialised {
        return ParamNull;
      }
      if count >= MAX_POINTS {
        return Full;
      }
      ghost var ps := Points();
      points[count] := p;
      count := count + 1;
      assert Points() == ps + [p];
      OthersSame(ps, p);
      var card := FindOrCreate(p.tenant);
      assert forall i :: 0 <= i < cardCount && i != card ==> cards[i].tenant != p.tenant && cards[i].seriesCount == |SeriesOf(ps, cards[i].tenant)|;
      if card != -1 {
        var unique := Recount(p.tenant);
        SetCount(card, unique);
      }
      return Ok;
    }

    method SetCount(i: nat, n: nat)
      requires Shape() && DistinctTenants() && i < cardCount
      modifies cards
      ensures cards[i] == old(cards[i]).(seriesCount := n)
      ensures forall j :: 0 <= j < cards.Length && j != i ==> cards[j] == old(cards[j])
    {
      cards[i] := cards[i].(seriesCount := n);
    }

    /** telemetry_issue_tenant_token: a name that does not fit is cut off. */
    method IssueToken(tenant: string) returns (r: Result, token: Token)
      requires '\0' !in tenant
      modifies this`nextTokenId
      ensures r == if initialised then Ok else ParamNull
      ensures r == Ok ==> token.valid && token.id == old(nextTokenId) && nextTokenId == old(nextTokenId) + 1
      ensures r == Ok ==> token.boundTenant <= tenant && (token.boundTenant == tenant <==> |tenant| <= MAX_TAG)
    {
      token := Token(0, "", false);
      if !initialised {
        return ParamNull, token;
      }
      token := Token(nextTokenId, if |tenant| <= MAX_TAG then tenant else tenant[..MAX_TAG], true);
      nextTokenId := nextTokenId + 1;
      return Ok, token;
    }

    /** telemetry_store_query: the first points of the token's tenant and of no other. */
    method Query(token: Token, out: array<Point>, max: nat) returns (r: Result, n: nat)
      requires Valid() && max <= out.Length && out != points
      modifies out
      ensures Valid() && Points() == old(Points())
      ensures r == if !initialised then ParamNull else if !token.valid || token.boundTenant == "" then Unauthorized else Ok
      ensures r == Ok ==>
        var found := PointsOf(Points(), token.boundTenant);
        n == (if |found| <= max then |found| else max) && out[..n] == found[..n]
      ensures r != Ok ==> n == 0 && unchanged(out)
    {
      hide SeriesOf, PointsOf;
      n := 0;
      if !initialised {
        return ParamNull, n;
      }
      if !token.valid || token.boundTenant == "" {
        return Unauthorized, n;
      }
      ghost var ps := Points();
      var i := 0;
      NoPoints(ps, token.boundTenant, out[..0]);
      while i < count && n < max
        invariant i <= count && n <= max && Valid() && Points() == ps
        invariant out[..n] == PointsOf(ps[..i], token.boundTenant)
      {
        PointsNext(ps, i, token.boundTenant);
        assert points[i] == ps[i];
        if points[i].tenant == token.boundTenant {
          out[n] := points[i];
          n := n + 1;
          assert out[..n] == out[..n - 1] + [ps[i]];
        }
        i := i + 1;
      }
      PointsPrefix(ps, i, token.boundTenant);
      assert ps[..count] == ps;
      return Ok, n;
    }

    /** telemetry_store_get_cardinality: the number of distinct series, or zero for an untracked tenant. */
    method GetCardinality(tenant: Tag) returns (n: nat)
      requires Valid()
      ensures n == if initialised && Tracked(tenant) then |SeriesOf(Points(), tenant)| else 0
    {
      hide SeriesOf;
      if !initialised {
        return 0;
      }
      for i := 0 to cardCount
        invariant forall j :: 0 <= j < i ==> cards[j].tenant != tenant
      {
        if cards[i].tenant == tenant {
          return cards[i].seriesCount;
        }
      }
      return 0;
    }
  }

  /** The inner loop of the recount. */
  method SeenBefore(seen: seq<string>, key: string) returns (dup: bool)
    ensures dup <==> exists j :: 0 <= j < |seen| && seen[j] == key
  {
    for j := 0 to |seen|
      invariant forall k :: 0 <= k < j ==> seen[k] != key
    {
      if seen[j] == key {
        return true;
      }
    }
    return false;
  }

  lemma SeenIsElement(seen: seq<string>, key: string)
    ensures key in Elements(seen) <==> exists j :: 0 <= j < |seen| && seen[j] == key
  {
  }

  lemma NothingYet(ps: seq<Point>, tenant: Tag)
    ensures Elements([]) == {} == SeriesOf(ps[..0], tenant)
  {
  }

  lemma NoPoints(ps: seq<Point>, tenant: Tag, none: seq<Point>)
    requires none == []
    ensures none == PointsOf(ps[..0], tenant)
  {
  }

  /** A new point does not change the series of other tenants. */
  lemma OthersSame(ps: seq<Point>, p: Point)
    ensures forall t: Tag :: t != p.tenant ==> SeriesOf(ps + [p], t) == SeriesOf(ps, t)
  {
    forall t: Tag | t != p.tenant ensures SeriesOf(ps + [p], t) == SeriesOf(ps, t) {
      SeriesNext(ps + [p], |ps|, t);
      assert (ps + [p])[..|ps| + 1] == ps + [p] && (ps + [p])[..|ps|] == ps;
    }
  }
}
