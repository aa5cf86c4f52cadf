/**
 * covid.py: resolving a country or a (locale, country) label against a pulled
 * table (`CovidData.parse_label`), the repository of loaded series
 * (`CovidData.load` and its `loaded` dict), and the cutoff trim that `plot`
 * and `analysis` both apply before drawing or fitting.
 */
module Covid {
  import opened Wrappers
  import opened Covidlib

  // ---------------------------------------------------------------------
  // Label resolution
  // ---------------------------------------------------------------------

  /**
   * What `parse_label` does with a label: returns a series, or prints the
   * available locales or countries and returns None, or lets the TypeError of
   * indexing an int entry with a locale escape.
   */
  datatype Lookup =
    | Found(values: seq<int>)
    | UnknownLocale(available: set<string>)
    | UnknownCountry(available: set<string>)
    | NotSubscriptable

  /** The rows `m` gives for `keys` all exist and have a column `j`. */
  ghost predicate Covers(data: seq<seq<int>>, m: map<string, nat>, keys: set<string>, j: nat) {
    keys <= m.Keys && forall l :: l in keys ==> m[l] < |data| && j < |data[m[l]]|
  }

  /** Column `j` summed over the rows that `m` gives for `keys`. */
  ghost function Total(data: seq<seq<int>>, m: map<string, nat>, keys: set<string>, j: nat): int
    requires Covers(data, m, keys, j)
    decreases keys
  {
    if keys == {} then 0
    else
      var l :| l in keys;
      data[m[l]][j] + Total(data, m, keys - {l}, j)
  }

  /** The sum does not depend on the order of the keys: any key can be taken first. */
  lemma {:induction false} TotalPick(data: seq<seq<int>>, m: map<string, nat>, keys: set<string>, k: string, j: nat)
    requires Covers(data, m, keys, j) && k in keys
    ensures Total(data, m, keys, j) == data[m[k]][j] + Total(data, m, keys - {k}, j)
    decreases keys
  {
    var l :| l in keys && Total(data, m, keys, j) == data[m[l]][j] + Total(data, m, keys - {l}, j);
    if l != k {
      TotalPick(data, m, keys - {l}, k, j);
      TotalPick(data, m, keys - {k}, l, j);
      assert keys - {l} - {k} == keys - {k} - {l};
    }
  }

  /** Every row a locale dict names is a row of the matrix. */
  ghost predicate Names(t: Table, m: map<string, nat>) {
    forall l :: l in m ==> m[l] < |t.data|
  }

  lemma AggregateCovers(t: Table, m: map<string, nat>, j: nat)
    requires WellFormed(t) && Names(t, m) && j < Width(t)
    ensures Covers(t.data, m, m.Keys, j)
  {
  }

  /** The elementwise sum of the rows a locale dict names, as wide as the matrix. */
  ghost function Aggregate(t: Table, m: map<string, nat>): seq<int>
    requires WellFormed(t) && Names(t, m)
  {
    seq(Width(t), j requires 0 <= j < Width(t) => AggregateCovers(t, m, j); Total(t.data, m, m.Keys, j))
  }

  /** What `parse_label(country, locale, case)` yields for the table `t`. */
  ghost function Resolve(t: Table, country: string, locale: Option<string>): Lookup
    requires WellFormed(t)
  {
    if country !in t.labels then UnknownCountry(t.labels.Keys)
    else
      match t.labels[country]
      case Single(j) => if locale.None? then Found(t.data[j]) else NotSubscriptable
      case Multi(m) =>
        match locale
        case None => Found(Aggregate(t, m))
        case Some(l) => if l in m then Found(t.data[m[l]]) else UnknownLocale(m.Keys)
  }

  function Zeros(n: nat): seq<int> {
    seq(n, _ => 0)
  }

  /** `X += row` on two vectors of one length. */
  function Add(x: seq<int>, y: seq<int>): seq<int>
    requires |x| == |y|
  {
    seq(|x|, i requires 0 <= i < |x| => x[i] + y[i])
  }

  /**
   * `parse_label`: the row of a country stored as an int, the sum of the rows
   * of a country stored as a dict (accumulated locale by locale), or the row
   * of a named locale; an unknown name yields the keys that were available.
   */
  method ParseLabel(table: Table, country: string, locale: Option<string>) returns (r: Lookup)
    requires WellFormed(table)
    ensures r == Resolve(table, country, locale)
    ensures r.Found? ==> |r.values| == Width(table)
  {
    if country !in table.labels {
      return UnknownCountry(table.labels.Keys);
    }
    assert InRange(table.labels[country], |table.data|);
    match table.labels[country]
    case Single(j) =>
      if locale.None? {
        r := Found(table.data[j]);
      } else {
        r := NotSubscriptable;
      }
    case Multi(m) =>
      match locale
      case Some(l) =>
        if l in m {
          r := Found(table.data[m[l]]);
        } else {
          r := UnknownLocale(m.Keys);
        }
      case None =>
        var w := Width(table);
        var x := Zeros(w);
        var rest := m.Keys;
        while rest != {}
          invariant rest <= m.Keys && |x| == w
          invariant forall j :: 0 <= j < w ==> Covers(table.data, m, m.Keys - rest, j)
          invariant forall j :: 0 <= j < w ==> x[j] == Total(table.data, m, m.Keys - rest, j)
          decreases rest
        {
          var l :| l in rest;
          var done := m.Keys - rest;
          x := Add(x, table.data[m[l]]);
          rest := rest - {l};
          assert m.Keys - rest == done + {l};
          forall j | 0 <= j < w ensures x[j] == Total(table.data, m, done + {l}, j) {
            TotalPick(table.data, m, done + {l}, l, j);
            assert done + {l} - {l} == done;
          }
        }
        assert m.Keys - rest == m.Keys;
        r := Found(x);
  }

  /** A dict with one locale aggregates to that locale's row. */
  lemma AggregateOne(t: Table, l: string, i: nat)
    requires WellFormed(t) && i < |t.data|
    ensures Aggregate(t, map[l := i]) == t.data[i]
  {
    var m := map[l := i];
    forall j | 0 <= j < Width(t) ensures Aggregate(t, m)[j] == t.data[i][j] {
      TotalPick(t.data, m, m.Keys, l, j);
      assert m.Keys - {l} == {};
    }
  }

  /** Removing one locale from a dict removes exactly its row from the sum. */
  lemma AggregateSplit(t: Table, m: map<string, nat>, l: string)
    requires WellFormed(t) && Names(t, m) && l in m
    ensures |Aggregate(t, m)| == |Aggregate(t, m - {l})| == |t.data[m[l]]|
    ensures forall j :: 0 <= j < Width(t) ==> Aggregate(t, m)[j] == t.data[m[l]][j] + Aggregate(t, m - {l})[j]
  {
    var m' := m - {l};
    assert m'.Keys == m.Keys - {l};
    forall j | 0 <= j < Width(t) ensures Aggregate(t, m)[j] == t.data[m[l]][j] + Aggregate(t, m')[j] {
      TotalPick(t.data, m, m.Keys, l, j);
      TotalSameRows(t.data, m, m', m.Keys - {l}, j);
    }
  }

  /** The sum over some keys depends only on the rows those keys give. */
  lemma {:induction false} TotalSameRows(data: seq<seq<int>>, m: map<string, nat>, m': map<string, nat>, keys: set<string>, j: nat)
    requires Covers(data, m, keys, j) && keys <= m'.Keys
    requires forall l :: l in keys ==> m'[l] == m[l]
    ensures Covers(data, m', keys, j)
    ensures Total(data, m, keys, j) == Total(data, m', keys, j)
    decreases keys
  {
    if keys != {} {
      var l :| l in keys && Total(data, m, keys, j) == data[m[l]][j] + Total(data, m, keys - {l}, j);
      TotalSameRows(data, m, m', keys - {l}, j);
      TotalPick(data, m', keys, l, j);
    }
  }

  // ---------------------------------------------------------------------
  // What parse_label yields on a table pull_data built
  // ---------------------------------------------------------------------

  /** A country whose first row has no locale resolves to that row's counts; naming a locale raises. */
  lemma ResolveSingleRow(header: seq<string>, body: seq<seq<string>>, day: string -> int, count: string -> int, t: Table, i: nat)
    requires Pull([header] + body, day, count) == Ok(t)
    requires Wide(body) && i < |body| && IsFirst(body, i) && LocaleOf(body[i]) == ""
    ensures WellFormed(t)
    ensures Resolve(t, CountryOf(body[i]), None) == Found(Convert(Tail(body[i]), count))
    ensures forall l :: Resolve(t, CountryOf(body[i]), Some(l)) == NotSubscriptable
  {
    var rows := [header] + body;
    assert rows[1..] == body;
    PullTable(rows, day, count, t);
    var c := CountryOf(body[i]);
    assert c in Countries(body);
    assert Describes(body, c, t.labels[c]);
    assert rows[i + 1] == body[i];
  }

  /**
   * In a country with a row that has a locale, each locale resolves to the
   * counts of the last row with that locale.
   */
  lemma ResolveLocaleRow(header: seq<string>, body: seq<seq<string>>, day: string -> int, count: string -> int, t: Table, i: nat)
    requires Pull([header] + body, day, count) == Ok(t)
    requires Wide(body) && i < |body| && IsLast(body, i)
    requires exists k :: 0 <= k < |body| && CountryOf(body[k]) == CountryOf(body[i]) && LocaleOf(body[k]) != ""
    ensures WellFormed(t)
    ensures Resolve(t, CountryOf(body[i]), Some(LocaleOf(body[i]))) == Found(Convert(Tail(body[i]), count))
  {
    var rows := [header] + body;
    assert rows[1..] == body;
    PullTable(rows, day, count, t);
    var c, l := CountryOf(body[i]), LocaleOf(body[i]);
    assert c in Countries(body);
    assert Describes(body, c, t.labels[c]);
    var m := t.labels[c].locales;
    assert l in LocalesOf(body, c);
    var k := m[l];
    assert CountryOf(body[k]) == c && LocaleOf(body[k]) == l && IsLast(body, k);
    assert k == i;
    assert rows[i + 1] == body[i];
  }

  /**
   * In a country with a row that has a locale, the label without a locale
   * resolves to the sum, column by column, of the counts of the last row of
   * each of its locales.
   */
  lemma ResolveAggregate(header: seq<string>, body: seq<seq<string>>, day: string -> int, count: string -> int, t: Table, country: string)
    requires Pull([header] + body, day, count) == Ok(t)
    requires Wide(body)
    requires exists k :: 0 <= k < |body| && CountryOf(body[k]) == country && LocaleOf(body[k]) != ""
    ensures WellFormed(t) && country in t.labels && t.labels[country].Multi?
    ensures t.labels[country].locales.Keys == LocalesOf(body, country)
    ensures Resolve(t, country, None) == Found(Aggregate(t, t.labels[country].locales))
    ensures |Aggregate(t, t.labels[country].locales)| == Width(t)
  {
    var rows := [header] + body;
    assert rows[1..] == body;
    PullTable(rows, day, count, t);
    var k :| 0 <= k < |body| && CountryOf(body[k]) == country && LocaleOf(body[k]) != "";
    assert country in Countries(body);
    assert Describes(body, country, t.labels[country]);
  }

  /**
   * A name no row has resolves to the list of all countries; a locale that no
   * row of a country stored as a dict has resolves to that country's locales.
   */
  lemma ResolveUnknown(header: seq<string>, body: seq<seq<string>>, day: string -> int, count: string -> int, t: Table, country: string, locale: Option<string>)
    requires Pull([header] + body, day, count) == Ok(t)
    requires Wide(body)
    ensures WellFormed(t)
    ensures country !in Countries(body) ==> Resolve(t, country, locale) == UnknownCountry(Countries(body))
    ensures (exists k :: 0 <= k < |body| && CountryOf(body[k]) == country && LocaleOf(body[k]) != "")
            && locale.Some? && locale.value !in LocalesOf(body, country)
            ==> Resolve(t, country, locale) == UnknownLocale(LocalesOf(body, country))
  {
    var rows := [header] + body;
    assert rows[1..] == body;
    PullTable(rows, day, count, t);
    if exists k :: 0 <= k < |body| && CountryOf(body[k]) == country && LocaleOf(body[k]) != "" {
      ResolveAggregate(header, body, day, count, t, country);
    }
  }

  // ---------------------------------------------------------------------
  // The repository of loaded series
  // ---------------------------------------------------------------------

  /** A value stored in a `loaded[label]` dict: a series (or None), or a date axis. */
  datatype Field = Values(values: Option<seq<int>>) | Times(times: seq<int>)

  type Record = map<string, Field>

  /**
   * The display label `load` files a series under: the country alone, or the
   * locale, a comma and a space, then the country.
   */
  function KeyFor(country: string, locale: Option<string>): (key: string)
    ensures |key| >= |country| && key[|key| - |country|..] == country
    ensures locale.None? ==> key == country
    ensures locale.Some? ==>
      && |key| == |locale.value| + 2 + |country|
      && key[..|locale.value|] == locale.value
      && key[|locale.value|..|locale.value| + 2] == ", "
  {
    match locale
    case None => country
    case Some(l) => l + ", " + country
  }

  /**
   * Labels with the same shape are distinct for distinct names: two countries
   * loaded without a locale, or two locales of one country, never share an
   * entry of `loaded`.
   */
  lemma KeyForDistinct(c1: string, c2: string, l1: string, l2: string)
    ensures KeyFor(c1, None) == KeyFor(c2, None) <==> c1 == c2
    ensures KeyFor(c1, Some(l1)) == KeyFor(c1, Some(l2)) <==> l1 == l2
    ensures KeyFor(c1, Some(l1)) == KeyFor(c2, Some(l1)) <==> c1 == c2
  {
    var k1, k2 := KeyFor(c1, Some(l1)), KeyFor(c1, Some(l2));
    if k1 == k2 {
      assert |l1| == |l2|;
      assert l1 == k1[..|l1|] == k2[..|l2|] == l2;
    }
    var k3 := KeyFor(c2, Some(l1));
    if k1 == k3 {
      assert |c1| == |c2|;
      assert c1 == k1[|k1| - |c1|..] == k3[|k3| - |c2|..] == c2;
    }
  }

  /** What `parse_label` returned, as stored: the series, or None. */
  function Stored(r: Lookup): Option<seq<int>> {
    if r.Found? then Some(r.values) else None
  }

  predicate AllWellFormed(metrics: seq<(string, Table)>) {
    forall k :: 0 <= k < |metrics| ==> WellFormed(metrics[k].1)
  }

  /**
   * The record `load` builds from `metrics`, metric by metric, and whether a
   * lookup raised (leaving the record with the metrics before it).
   */
  ghost function Fill(metrics: seq<(string, Table)>, country: string, locale: Option<string>): (Record, bool)
    requires AllWellFormed(metrics)
    decreases |metrics|
  {
    if metrics == [] then (map[], false)
    else
      var (entry, raised) := Fill(metrics[..|metrics| - 1], country, locale);
      var (name, t) := metrics[|metrics| - 1];
      if raised then (entry, true)
      else
        var r := Resolve(t, country, locale);
        if r.NotSubscriptable? then (entry, true)
        else (entry[name := Values(Stored(r))][name + "Time" := Times(t.tseries)], false)
  }

  /**
   * After a load with the confirmed and deaths tables, the record holds, for
   * each metric, what `parse_label` returned and that table's date axis; a
   * lookup that raises leaves only the metrics before it.
   */
  lemma FillTwo(conf: Table, dead: Table, country: string, locale: Option<string>)
    requires WellFormed(conf) && WellFormed(dead)
    ensures var (entry, raised) := Fill([("confirmed", conf), ("deaths", dead)], country, locale);
      var rc, rd := Resolve(conf, country, locale), Resolve(dead, country, locale);
      && (raised <==> rc.NotSubscriptable? || rd.NotSubscriptable?)
      && (rc.NotSubscriptable? ==> entry == map[])
      && (!rc.NotSubscriptable? && rd.NotSubscriptable? ==>
            entry == map["confirmed" := Values(Stored(rc)), "confirmedTime" := Times(conf.tseries)])
      && (!raised ==>
            entry == map["confirmed" := Values(Stored(rc)), "confirmedTime" := Times(conf.tseries),
                         "deaths" := Values(Stored(rd)), "deathsTime" := Times(dead.tseries)])
  {
    var metrics := [("confirmed", conf), ("deaths", dead)];
    var rc, rd := Resolve(conf, country, locale), Resolve(dead, country, locale);
    assert metrics[..1] == [("confirmed", conf)];
    assert metrics[..1][..0] == [];
    assert Fill([], country, locale) == (map[], false);
    var first := if rc.NotSubscriptable? then (map[], true)
                 else (map["confirmed" := Values(Stored(rc)), "confirmedTime" := Times(conf.tseries)], false);
    assert "confirmed" + "Time" == "confirmedTime";
    assert "deaths" + "Time" == "deathsTime";
    assert Fill(metrics[..1], country, locale) == first;
  }

  /** `CovidData`: the two pulled tables and the `loaded` dict. */
  class CovidData {
    var conf: Table
    var dead: Table
    var loaded: map<string, Record>

    ghost predicate Valid()
      reads this`conf, this`dead
    {
      WellFormed(conf) && WellFormed(dead)
    }

    function Metrics(): seq<(string, Table)>
      reads this`conf, this`dead
    {
      [("confirmed", conf), ("deaths", dead)]
    }

    /** `__init__` with the tables that `pull` fetched; nothing is loaded yet. */
    constructor (conf: Table, dead: Table)
      requires WellFormed(conf) && WellFormed(dead)
      ensures Valid() && this.conf == conf && this.dead == dead && loaded == map[]
    {
      this.conf := conf;
      this.dead := dead;
      loaded := map[];
    }

    /**
     * `load(country, locale)`: files under the display label a fresh record
     * holding, for confirmed cases and deaths, the resolved series and the
     * table's date axis. The record replaces any earlier one under the label;
     * no other label changes. `raised` is true when a lookup raised, in which
     * case the record holds what was filled before it.
     */
    method Load(country: string, locale: Option<string>) returns (raised: bool)
      requires Valid()
      modifies this`loaded
      ensures Valid()
      ensures loaded == old(loaded)[KeyFor(country, locale) := Fill(Metrics(), country, locale).0]
      ensures raised == Fill(Metrics(), country, locale).1
      ensures loaded.Keys == old(loaded).Keys + {KeyFor(country, locale)}
      ensures forall k :: k in old(loaded) && k != KeyFor(country, locale) ==> loaded[k] == old(loaded)[k]
    {
      var key := KeyFor(country, locale);
      var metrics := Metrics();
      assert metrics == [("confirmed", conf), ("deaths", dead)];
      var entry: Record := map[];
      loaded := loaded[key := entry];
      var k := 0;
      while k < |metrics|
        invariant 0 <= k <= |metrics|
        invariant Fill(metrics[..k], country, locale) == (entry, false)
        invariant loaded == old(loaded)[key := entry]
      {
        var (name, t) := metrics[k];
        assert metrics[..k + 1][..k] == metrics[..k];
        var r := ParseLabel(t, country, locale);
        if r.NotSubscriptable? {
          assert Fill(metrics[..k + 1], country, locale) == (entry, true);
          FillStopsRaised(metrics, country, locale, k + 1);
          assert metrics[..|metrics|] == metrics;
          return true;
        }
        entry := entry[name := Values(Stored(r))][name + "Time" := Times(t.tseries)];
        loaded := loaded[key := entry];
        k := k + 1;
      }
      assert metrics[..k] == metrics;
      return false;
    }
  }

  /** Once a lookup has raised, later metrics change nothing. */
  lemma {:induction false} FillStopsRaised(metrics: seq<(string, Table)>, country: string, locale: Option<string>, k: nat)
    requires AllWellFormed(metrics) && k <= |metrics| && Fill(metrics[..k], country, locale).1
    ensures Fill(metrics, country, locale) == Fill(metrics[..k], country, locale)
    decreases |metrics| - k
  {
    if k < |metrics| {
      assert metrics[..k + 1][..k] == metrics[..k];
      FillStopsRaised(metrics, country, locale, k + 1);
    } else {
      assert metrics[..k] == metrics;
    }
  }

  // ---------------------------------------------------------------------
  // The cutoff trim of plot and analysis
  // ---------------------------------------------------------------------

  /** `Y >= cutoff`, element by element. */
  function Mask(values: seq<int>, cutoff: int): seq<bool> {
    seq(|values|, i requires 0 <= i < |values| => values[i] >= cutoff)
  }

  /** The indices where the mask is true, in increasing order. */
  function Kept(mask: seq<bool>): seq<nat>
    decreases |mask|
  {
    if mask == [] then []
    else Kept(mask[..|mask| - 1]) + (if mask[|mask| - 1] then [|mask| - 1] else [])
  }

  /** `xs[mask]`: the elements where the mask is true, in order; one per true position. */
  function Select<T>(xs: seq<T>, mask: seq<bool>): (r: seq<T>)
    requires |xs| == |mask|
    ensures |r| == |Kept(mask)| <= |xs|
    decreases |xs|
  {
    if xs == [] then []
    else Select(xs[..|xs| - 1], mask[..|xs| - 1]) + (if mask[|xs| - 1] then [xs[|xs| - 1]] else [])
  }

  /** `Kept` lists exactly the true positions of the mask, each once, in increasing order. */
  lemma {:induction false} KeptExactly(mask: seq<bool>)
    ensures forall k :: 0 <= k < |Kept(mask)| ==> Kept(mask)[k] < |mask| && mask[Kept(mask)[k]]
    ensures forall k, k' :: 0 <= k < k' < |Kept(mask)| ==> Kept(mask)[k] < Kept(mask)[k']
    ensures forall i :: 0 <= i < |mask| && mask[i] ==> i in Kept(mask)
    decreases |mask|
  {
    if mask != [] {
      var n := |mask| - 1;
      var prev := mask[..n];
      KeptExactly(prev);
      assert forall i :: 0 <= i < n ==> prev[i] == mask[i];
    }
  }

  /** `xs[mask]` holds the elements of `xs` at the kept indices. */
  lemma {:induction false} SelectAt<T>(xs: seq<T>, mask: seq<bool>)
    requires |xs| == |mask|
    ensures |Select(xs, mask)| == |Kept(mask)|
    ensures forall k :: 0 <= k < |Kept(mask)| ==> Kept(mask)[k] < |xs| && Select(xs, mask)[k] == xs[Kept(mask)[k]]
    decreases |xs|
  {
    if xs != [] {
      var n := |xs| - 1;
      SelectAt(xs[..n], mask[..n]);
      KeptExactly(mask[..n]);
    }
  }

  /**
   * A series after the trim: the kept times, rebased, and the kept values.
   * The values are None when `load` found no series for the label.
   */
  datatype Series = Series(times: seq<int>, values: Option<seq<int>>)

  /**
   * The exceptions of the trim: comparing a None series with the cutoff
   * (TypeError), a mask of the wrong length, or `T[0]` of nothing (IndexError).
   */
  datatype TrimError = NoSeries | MaskMismatch | NothingKept

  /** Times measured from `origin`: the gaps between any two times are kept. */
  function Rebase(times: seq<int>, origin: int): (r: seq<int>)
    ensures |r| == |times|
    ensures forall i, j :: 0 <= i < |r| && 0 <= j < |r| ==> r[j] - r[i] == times[j] - times[i]
    ensures forall i :: 0 <= i < |r| && times[i] == origin ==> r[i] == 0
  {
    seq(|times|, i requires 0 <= i < |times| => times[i] - origin)
  }

  /**
   * The trim that `plot` and `analysis` apply when a cutoff is given: keep the
   * points whose value reaches the cutoff and measure the kept times from the
   * first of them. Without a cutoff the series passes through unchanged.
   */
  function Trim(times: seq<int>, values: Option<seq<int>>, cutoff: Option<int>): (r: Result<Series, TrimError>)
    ensures cutoff.None? ==> r == Ok(Series(times, values))
    ensures r.Err? ==> cutoff.Some?
    ensures r == Err(NoSeries) <==> cutoff.Some? && values.None?
    ensures r.Ok? && cutoff.Some? ==>
      && values.Some? && r.value.values.Some?
      && |r.value.times| == |r.value.values.value| > 0
      && r.value.times[0] == 0
  {
    match cutoff
    case None => Ok(Series(times, values))
    case Some(c) =>
      match values
      case None => Err(NoSeries)
      case Some(v) =>
        if |times| != |v| then Err(MaskMismatch)
        else
          var kept := Select(times, Mask(v, c));
          if kept == [] then Err(NothingKept)
          else Ok(Series(Rebase(kept, kept[0]), Some(Select(v, Mask(v, c)))))
  }

  /**
   * The trim keeps exactly the points whose value is at least the cutoff, in
   * their order, with as many times as values; the first kept time becomes 0
   * and every other one is measured from it.
   */
  lemma TrimKeeps(times: seq<int>, values: Option<seq<int>>, c: int, s: Series)
    requires Trim(times, values, Some(c)) == Ok(s)
    ensures values.Some? && s.values.Some?
    ensures var v, p := values.value, Kept(Mask(values.value, c));
      && |times| == |v|
      && |s.times| == |s.values.value| == |p| > 0
      && (forall k, k' :: 0 <= k < k' < |p| ==> p[k] < p[k'])
      && (forall i :: 0 <= i < |v| ==> (v[i] >= c <==> i in p))
      && (forall k :: 0 <= k < |p| ==> p[k] < |v| && s.values.value[k] == v[p[k]] >= c)
      && (forall k :: 0 <= k < |p| ==> s.times[k] == times[p[k]] - times[p[0]])
      && s.times[0] == 0
  {
    var v := values.value;
    var mask := Mask(v, c);
    KeptExactly(mask);
    SelectAt(times, mask);
    SelectAt(v, mask);
  }

  /** No position is kept exactly when no value reaches the cutoff. */
  lemma NoneReaches(v: seq<int>, c: int)
    ensures |Kept(Mask(v, c))| == 0 <==> forall i :: 0 <= i < |v| ==> v[i] < c
  {
    var mask := Mask(v, c);
    KeptExactly(mask);
    assert |mask| == |v| && forall i :: 0 <= i < |v| ==> (mask[i] <==> v[i] >= c);
    if |Kept(mask)| != 0 {
      var i := Kept(mask)[0];
      assert i < |v| && v[i] >= c;
    }
  }

  /**
   * With a cutoff the trim raises exactly when there is no series, when the
   * lengths differ or when no value reaches the cutoff; without one it keeps
   * the series as it is.
   */
  lemma TrimFails(times: seq<int>, values: Option<seq<int>>, cutoff: Option<int>)
    ensures cutoff.None? ==> Trim(times, values, cutoff) == Ok(Series(times, values))
    ensures cutoff.Some? && values.None? ==> Trim(times, values, cutoff) == Err(NoSeries)
    ensures cutoff.Some? && values.Some? && |times| != |values.value| ==> Trim(times, values, cutoff) == Err(MaskMismatch)
    ensures cutoff.Some? && values.Some? && |times| == |values.value| ==>
      (Trim(times, values, cutoff) == Err(NothingKept) <==>
       forall i :: 0 <= i < |values.value| ==> values.value[i] < cutoff.value)
    ensures cutoff.Some? && values.Some? ==>
      (Trim(times, values, cutoff).Err? <==>
       |times| != |values.value| || forall i :: 0 <= i < |values.value| ==> values.value[i] < cutoff.value)
  {
    if cutoff.Some? && values.Some? && |times| == |values.value| {
      var c, v := cutoff.value, values.value;
      NoneReaches(v, c);
      assert |Select(times, Mask(v, c))| == |Kept(Mask(v, c))|;
    }
  }
}
