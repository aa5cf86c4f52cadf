/**
 * covidlib.py: the row loop of `pull_data`, which turns the rows of a
 * time-series CSV file into a date axis, a count matrix and a label index,
 * and `colour_from_str`, which hashes a display label into a colour.
 *
 * A row is the list of cells the CSV reader yields. Turning a date cell into
 * a day number and a count cell into an integer are library conversions; they
 * are the parameters `day` and `count`.
 */
module Covidlib {
  import opened Wrappers

  // ---------------------------------------------------------------------
  // Text
  // ---------------------------------------------------------------------

  /** `str.lower()` on one character (ASCII letters only). */
  function LowerChar(c: char): char {
    if 'A' <= c <= 'Z' then (c as int + 32) as char else c
  }

  /** `str.lower()`, character by character. */
  function Lower(s: string): string {
    if s == [] then [] else [LowerChar(s[0])] + Lower(s[1..])
  }

  /**
   * Lower-casing keeps the length, leaves no upper-case ASCII letter, and
   * either keeps a character or moves an upper-case letter to its lower case;
   * a lower-cased string is left as it is.
   */
  lemma {:induction false} LowerChars(s: string)
    ensures |Lower(s)| == |s|
    ensures forall i :: 0 <= i < |s| ==> !('A' <= Lower(s)[i] <= 'Z')
    ensures forall i :: 0 <= i < |s| ==>
      Lower(s)[i] == s[i] || ('A' <= s[i] <= 'Z' && Lower(s)[i] as int == s[i] as int + 32)
    ensures IsLower(Lower(s))
  {
    if s != [] {
      LowerChars(s[1..]);
      var r := Lower(s);
      assert r == [LowerChar(s[0])] + Lower(s[1..]);
      assert r[1..] == Lower(s[1..]);
      assert Lower(r) == [LowerChar(r[0])] + Lower(r[1..]);
    }
  }

  /** A key that lower-casing leaves as it is. */
  predicate IsLower(s: string) {
    Lower(s) == s
  }

  // ---------------------------------------------------------------------
  // The table that pull_data returns
  // ---------------------------------------------------------------------

  /**
   * What `dataLabels[country]` holds: the int index of the country's only
   * row, or a dict from lower-cased locale to row index.
   */
  datatype Entry = Single(row: nat) | Multi(locales: map<string, nat>)

  type Labels = map<string, Entry>

  /** The dict `{'tseries': ..., 'data': ..., 'labels': ...}`. */
  datatype Table = Table(tseries: seq<int>, data: seq<seq<int>>, labels: Labels)

  /** The exceptions the row loop and the final `np.array` call raise. */
  datatype PullError =
    | ShortRow(idx: nat)                  // `row[1]` on a data row with fewer than two cells
    | RepeatedSingleCountry(country: string) // item assignment on an int entry
    | RaggedRows                          // `np.array(data, dtype='int')` on rows of different lengths

  /** `row[4:]`: empty when the row has four cells or fewer. */
  function Tail(row: seq<string>): seq<string> {
    if |row| >= 4 then row[4..] else []
  }

  function Convert(cells: seq<string>, f: string -> int): seq<int> {
    seq(|cells|, i requires 0 <= i < |cells| => f(cells[i]))
  }

  function CountryOf(row: seq<string>): string
    requires |row| >= 2
  {
    Lower(row[1])
  }

  function LocaleOf(row: seq<string>): string
    requires |row| >= 2
  {
    Lower(row[0])
  }

  /** Records data row `idx` of `country` and `locale` in the label index. */
  function Register(labels: Labels, country: string, locale: string, idx: nat): Result<Labels, PullError>
  {
    if country in labels then
      match labels[country]
      case Single(_) => Err(RepeatedSingleCountry(country))
      case Multi(m) => Ok(labels[country := Multi(m[locale := idx])])
    else if locale == "" then
      Ok(labels[country := Single(idx)])
    else
      Ok(labels[country := Multi(map[locale := idx])])
  }

  /**
   * Registering fails exactly when the country is already stored as an int;
   * otherwise the country's entry records the row and every other country
   * keeps its entry.
   */
  lemma RegisterEffect(labels: Labels, country: string, locale: string, idx: nat)
    ensures var r := Register(labels, country, locale, idx);
      && (r.Err? <==> country in labels && labels[country].Single?)
      && (r.Err? ==> r.error == RepeatedSingleCountry(country))
      && (r.Ok? ==> r.value.Keys == labels.Keys + {country})
      && (r.Ok? ==> forall c :: c in labels && c != country ==> r.value[c] == labels[c])
      && (r.Ok? && r.value[country].Single? ==> country !in labels && locale == "" && r.value[country].row == idx)
      && (r.Ok? && r.value[country].Multi? ==>
            && locale in r.value[country].locales
            && r.value[country].locales[locale] == idx
            && (country in labels ==> r.value[country].locales.Keys == labels[country].locales.Keys + {locale}))
      && (r.Ok? ==> (r.value[country].Single? <==> country !in labels && locale == ""))
      && (country !in labels && locale != "" ==> r.value[country].locales.Keys == {locale})
      && (country in labels && labels[country].Multi? ==>
            forall l :: l in labels[country].locales && l != locale ==>
              r.value[country].locales[l] == labels[country].locales[l])
  {
  }

  /** The label index after the loop has seen the data rows `rows`, in file order. */
  function IndexRows(rows: seq<seq<string>>): Result<Labels, PullError>
    decreases |rows|
  {
    if rows == [] then Ok(map[])
    else
      match IndexRows(rows[..|rows| - 1])
      case Err(e) => Err(e)
      case Ok(labels) =>
        var row := rows[|rows| - 1];
        if |row| < 2 then Err(ShortRow(|rows| - 1))
        else Register(labels, CountryOf(row), LocaleOf(row), |rows| - 1)
  }

  /**
   * When the loop succeeds every row had a country cell; a `ShortRow` error
   * names a row without one, and no earlier row lacks one.
   */
  lemma {:induction false} IndexRowsShort(rows: seq<seq<string>>)
    ensures var r := IndexRows(rows);
      && (r.Ok? ==> forall i :: 0 <= i < |rows| ==> |rows[i]| >= 2)
      && (r.Err? ==> r.error.ShortRow? || r.error.RepeatedSingleCountry?)
      && (r.Err? && r.error.ShortRow? ==>
            && r.error.idx < |rows| && |rows[r.error.idx]| < 2
            && forall i :: 0 <= i < r.error.idx ==> |rows[i]| >= 2)
    decreases |rows|
  {
    if rows != [] {
      var prev := rows[..|rows| - 1];
      IndexRowsShort(prev);
      assert forall i :: 0 <= i < |prev| ==> prev[i] == rows[i];
    }
  }

  /** The matrix rows: the counts `row[4:]` of every data row, in file order. */
  function Matrix(rows: seq<seq<string>>, count: string -> int): seq<seq<int>> {
    seq(|rows|, i requires 0 <= i < |rows| => Convert(Tail(rows[i]), count))
  }

  /** Rows of one length: what `np.array(data, dtype='int')` accepts. */
  predicate Uniform(data: seq<seq<int>>) {
    forall i, j :: 0 <= i < |data| && 0 <= j < |data| ==> |data[i]| == |data[j]|
  }

  /** What `pull_data` returns for the rows of the file (the header first). */
  function Pull(rows: seq<seq<string>>, day: string -> int, count: string -> int): Result<Table, PullError> {
    if rows == [] then Ok(Table([], [], map[]))
    else
      match IndexRows(rows[1..])
      case Err(e) => Err(e)
      case Ok(labels) =>
        var data := Matrix(rows[1..], count);
        if Uniform(data) then Ok(Table(Convert(Tail(rows[0]), day), data, labels))
        else Err(RaggedRows)
  }

  /** Every index in the label index names a matrix row, and the matrix is rectangular. */
  predicate WellFormed(t: Table) {
    && Uniform(t.data)
    && forall c :: c in t.labels ==> InRange(t.labels[c], |t.data|)
  }

  /** The rows an entry names are among the first `n`, and a dict names at least one. */
  predicate InRange(e: Entry, n: nat) {
    match e
    case Single(j) => j < n
    case Multi(m) => m != map[] && forall l :: l in m ==> m[l] < n
  }

  /** The number of columns of the matrix. */
  function Width(t: Table): nat {
    if t.data == [] then 0 else |t.data[0]|
  }

  // ---------------------------------------------------------------------
  // The row loop of pull_data
  // ---------------------------------------------------------------------

  /**
   * The loop of `pull_data` over the rows of the file: the first row gives the
   * date axis, every other row appends its counts to `data` and registers its
   * country and locale under the running index `idx`.
   */
  method PullData(rows: seq<seq<string>>, day: string -> int, count: string -> int)
    returns (res: Result<Table, PullError>)
    ensures res == Pull(rows, day, count)
  {
    var labels: Labels := map[];
    var data: seq<seq<int>> := [];
    var tseries: seq<int> := [];
    var idx := -1;
    var n := 0;
    while n < |rows|
      invariant 0 <= n <= |rows|
      invariant n == 0 ==> idx == -1 && data == [] && labels == map[]
      invariant n > 0 ==> idx == n - 1 && tseries == Convert(Tail(rows[0]), day)
      invariant n > 0 ==> data == Matrix(rows[1..n], count) && IndexRows(rows[1..n]) == Ok(labels)
    {
      var row := rows[n];
      if idx == -1 {
        // the header: its columns from index 4 on are the dates
        tseries := Convert(Tail(row), day);
        idx := 0;
        n := n + 1;
        assert rows[1..n] == [];
        continue;
      }
      assert rows[1..n + 1][..idx] == rows[1..n];
      assert rows[1..n + 1][idx] == row;
      assert rows[1..][..idx + 1] == rows[1..n + 1];
      if |row| < 2 {
        IndexRowsErrSticks(rows[1..], idx + 1);
        return Err(ShortRow(idx));
      }
      var country := Lower(row[1]);
      var locale := Lower(row[0]);
      if country in labels {
        match labels[country]
        case Single(_) =>
          IndexRowsErrSticks(rows[1..], idx + 1);
          return Err(RepeatedSingleCountry(country));
        case Multi(m) =>
          labels := labels[country := Multi(m[locale := idx])];
      } else if locale == "" {
        labels := labels[country := Single(idx)];
      } else {
        labels := labels[country := Multi(map[locale := idx])];
      }
      data := data + [Convert(Tail(row), count)];
      idx := idx + 1;
      n := n + 1;
    }
    if |rows| == 0 {
      return Ok(Table([], [], map[]));
    }
    assert rows[1..n] == rows[1..];
    if !Uniform(data) {
      return Err(RaggedRows);
    }
    return Ok(Table(tseries, data, labels));
  }

  /** Once the loop has raised on a prefix of the rows, it raises the same exception on the whole file. */
  lemma {:induction false} IndexRowsErrSticks(rows: seq<seq<string>>, k: nat)
    requires k <= |rows| && IndexRows(rows[..k]).Err?
    ensures IndexRows(rows) == IndexRows(rows[..k])
    decreases |rows| - k
  {
    if k < |rows| {
      var longer := rows[..k + 1];
      assert longer[..k] == rows[..k];
      assert IndexRows(longer) == IndexRows(rows[..k]);
      IndexRowsErrSticks(rows, k + 1);
    } else {
      assert rows[..k] == rows;
    }
  }

  // ---------------------------------------------------------------------
  // What the label index says about the rows it was built from
  // ---------------------------------------------------------------------

  /** Every data row has the two cells the loop reads. */
  predicate Wide(rows: seq<seq<string>>) {
    forall i :: 0 <= i < |rows| ==> |rows[i]| >= 2
  }

  function Countries(rows: seq<seq<string>>): set<string>
    requires Wide(rows)
  {
    set i | 0 <= i < |rows| :: CountryOf(rows[i])
  }

  /** The lower-cased locales of the rows of `country`. */
  function LocalesOf(rows: seq<seq<string>>, country: string): set<string>
    requires Wide(rows)
  {
    set i | 0 <= i < |rows| && CountryOf(rows[i]) == country :: LocaleOf(rows[i])
  }

  /** Row `j` is the first row of its country. */
  predicate IsFirst(rows: seq<seq<string>>, j: nat)
    requires Wide(rows) && j < |rows|
  {
    forall i :: 0 <= i < j ==> CountryOf(rows[i]) != CountryOf(rows[j])
  }

  /** No later row has the country and locale of row `j`. */
  predicate IsLast(rows: seq<seq<string>>, j: nat)
    requires Wide(rows) && j < |rows|
  {
    forall i :: j < i < |rows| ==> CountryOf(rows[i]) != CountryOf(rows[j]) || LocaleOf(rows[i]) != LocaleOf(rows[j])
  }

  /** Row `j` is the only row of `country`, and it has an empty locale. */
  predicate SingleEntry(rows: seq<seq<string>>, country: string, j: nat)
    requires Wide(rows)
  {
    && j < |rows|
    && CountryOf(rows[j]) == country
    && LocaleOf(rows[j]) == ""
    && forall i :: 0 <= i < |rows| && i != j ==> CountryOf(rows[i]) != country
  }

  /**
   * `m` holds every locale of `country`, each mapped to the last row with
   * that locale, and the first row of `country` has a non-empty locale.
   */
  predicate MultiEntry(rows: seq<seq<string>>, country: string, m: map<string, nat>)
    requires Wide(rows)
  {
    && m.Keys == LocalesOf(rows, country)
    && (forall l :: l in m ==>
          && m[l] < |rows|
          && CountryOf(rows[m[l]]) == country
          && LocaleOf(rows[m[l]]) == l
          && IsLast(rows, m[l]))
    && (forall j :: 0 <= j < |rows| && CountryOf(rows[j]) == country && IsFirst(rows, j) ==> LocaleOf(rows[j]) != "")
  }

  /** `labels` is the index of `rows`: one entry per country, each described by the rows. */
  predicate Indexed(rows: seq<seq<string>>, labels: Labels) {
    && Wide(rows)
    && labels.Keys == Countries(rows)
    && forall c :: c in labels ==> Describes(rows, c, labels[c])
  }

  /** The entry of `country` is what its rows make of it. */
  predicate Describes(rows: seq<seq<string>>, country: string, e: Entry)
    requires Wide(rows)
  {
    match e
    case Single(j) => SingleEntry(rows, country, j)
    case Multi(m) => MultiEntry(rows, country, m)
  }

  /** Two rows of one country where the first row of that country has an empty locale. */
  predicate HasConflict(rows: seq<seq<string>>)
    requires Wide(rows)
  {
    exists j, k :: 0 <= j < k < |rows| && IsFirst(rows, j) && LocaleOf(rows[j]) == "" && CountryOf(rows[k]) == CountryOf(rows[j])
  }


  /** Appending a row adds its country. */
  lemma {:induction false} AppendRow(prev: seq<seq<string>>, row: seq<string>)
    requires Wide(prev) && |row| >= 2
    ensures Wide(prev + [row])
    ensures Countries(prev + [row]) == Countries(prev) + {CountryOf(row)}
  {
    var rows := prev + [row];
    var n := |prev|;
    assert forall i :: 0 <= i < n ==> rows[i] == prev[i];
    assert rows[n] == row;
    forall x | x in Countries(rows) ensures x in Countries(prev) + {CountryOf(row)} {
      var i :| 0 <= i < |rows| && CountryOf(rows[i]) == x;
      if i < n { assert x in Countries(prev); }
    }
    forall x | x in Countries(prev) ensures x in Countries(rows) {
      var i :| 0 <= i < n && CountryOf(prev[i]) == x;
      assert CountryOf(rows[i]) == x;
    }
    assert CountryOf(rows[n]) in Countries(rows);
  }

  /** Appending a row adds its locale under its own country, and nothing under another. */
  lemma {:induction false} AppendLocale(prev: seq<seq<string>>, row: seq<string>, c: string)
    requires Wide(prev) && |row| >= 2
    ensures Wide(prev + [row])
    ensures LocalesOf(prev + [row], c)
         == if c == CountryOf(row) then LocalesOf(prev, c) + {LocaleOf(row)} else LocalesOf(prev, c)
  {
    var rows := prev + [row];
    var n := |prev|;
    assert forall i :: 0 <= i < n ==> rows[i] == prev[i];
    assert rows[n] == row;
    forall y | y in LocalesOf(rows, c)
      ensures y in LocalesOf(prev, c) || (c == CountryOf(row) && y == LocaleOf(row))
    {
      var i :| 0 <= i < |rows| && CountryOf(rows[i]) == c && LocaleOf(rows[i]) == y;
      if i < n { assert y in LocalesOf(prev, c); }
    }
    forall y | y in LocalesOf(prev, c) ensures y in LocalesOf(rows, c) {
      var i :| 0 <= i < n && CountryOf(prev[i]) == c && LocaleOf(prev[i]) == y;
      assert CountryOf(rows[i]) == c && LocaleOf(rows[i]) == y;
    }
    if c == CountryOf(row) {
      assert CountryOf(rows[n]) == c && LocaleOf(rows[n]) == LocaleOf(row);
    }
  }

  /** Appending a row of another country leaves an entry's description true. */
  lemma {:induction false} IndexedOther(prev: seq<seq<string>>, row: seq<string>, labels: Labels, c: string)
    requires Indexed(prev, labels) && |row| >= 2 && c in labels && c != CountryOf(row)
    ensures Wide(prev + [row])
    ensures Describes(prev + [row], c, labels[c])
  {
    AppendLocale(prev, row, c);
    var rows := prev + [row];
    var n := |prev|;
    assert rows[n] == row;
    assert Describes(prev, c, labels[c]);
    match labels[c]
    case Single(j) =>
      assert SingleEntry(prev, c, j);
      assert rows[j] == prev[j];
      forall i | 0 <= i < |rows| && i != j ensures CountryOf(rows[i]) != c {
        if i < n { assert rows[i] == prev[i]; }
      }
    case Multi(m) =>
      assert MultiEntry(prev, c, m);
      forall l | l in m
        ensures m[l] < |rows| && CountryOf(rows[m[l]]) == c && LocaleOf(rows[m[l]]) == l && IsLast(rows, m[l])
      {
        assert IsLast(prev, m[l]);
        assert rows[m[l]] == prev[m[l]];
        assert forall i :: m[l] < i < n ==> rows[i] == prev[i];
      }
      FirstRowsKept(prev, row, c);
  }

  /** The first row of a country, with an empty locale, becomes its int entry. */
  lemma {:induction false} NewSingle(prev: seq<seq<string>>, row: seq<string>)
    requires Wide(prev) && |row| >= 2
    requires CountryOf(row) !in Countries(prev) && LocaleOf(row) == ""
    ensures Wide(prev + [row])
    ensures SingleEntry(prev + [row], CountryOf(row), |prev|)
  {
    var rows := prev + [row];
    var n := |prev|;
    assert forall i :: 0 <= i < n ==> rows[i] == prev[i];
    assert rows[n] == row;
    forall i | 0 <= i < n ensures CountryOf(rows[i]) != CountryOf(row) {
      assert CountryOf(prev[i]) in Countries(prev);
    }
  }

  /** The first row of a country, with a locale, becomes a one-entry dict. */
  lemma {:induction false} NewMulti(prev: seq<seq<string>>, row: seq<string>)
    requires Wide(prev) && |row| >= 2
    requires CountryOf(row) !in Countries(prev) && LocaleOf(row) != ""
    ensures Wide(prev + [row])
    ensures MultiEntry(prev + [row], CountryOf(row), map[LocaleOf(row) := |prev|])
  {
    AppendLocale(prev, row, CountryOf(row));
    var rows := prev + [row];
    var n := |prev|;
    var c := CountryOf(row);
    assert forall i :: 0 <= i < n ==> rows[i] == prev[i];
    assert rows[n] == row;
    forall i | 0 <= i < n ensures CountryOf(prev[i]) != c {
      assert CountryOf(prev[i]) in Countries(prev);
    }
    assert LocalesOf(prev, c) == {};
  }

  /** A later row of a country stored as a dict sets its locale to the new row. */
  lemma {:induction false} AddLocale(prev: seq<seq<string>>, row: seq<string>, m: map<string, nat>)
    requires Wide(prev) && |row| >= 2
    requires CountryOf(row) in Countries(prev) && MultiEntry(prev, CountryOf(row), m)
    ensures Wide(prev + [row])
    ensures MultiEntry(prev + [row], CountryOf(row), m[LocaleOf(row) := |prev|])
  {
    AppendLocale(prev, row, CountryOf(row));
    var rows := prev + [row];
    var n := |prev|;
    var c, l := CountryOf(row), LocaleOf(row);
    var m' := m[l := n];
    assert rows[n] == row;
    forall y | y in m'
      ensures m'[y] < |rows| && CountryOf(rows[m'[y]]) == c && LocaleOf(rows[m'[y]]) == y && IsLast(rows, m'[y])
    {
      if y != l {
        assert IsLast(prev, m[y]);
        assert rows[m[y]] == prev[m[y]];
        assert forall i :: m[y] < i < n ==> rows[i] == prev[i];
      }
    }
    FirstRowsKept(prev, row, c);
    assert m'.Keys == LocalesOf(rows, c);
  }

  /**
   * Appending a row keeps a country's first row where it was, unless the row
   * is the country's first; so a country whose first row had a locale still has.
   */
  lemma {:induction false} FirstRowsKept(prev: seq<seq<string>>, row: seq<string>, c: string)
    requires Wide(prev) && |row| >= 2
    requires CountryOf(row) != c || c in Countries(prev)
    requires forall j :: 0 <= j < |prev| && CountryOf(prev[j]) == c && IsFirst(prev, j) ==> LocaleOf(prev[j]) != ""
    ensures Wide(prev + [row])
    ensures forall j :: 0 <= j < |prev + [row]| && CountryOf((prev + [row])[j]) == c && IsFirst(prev + [row], j) ==>
      LocaleOf((prev + [row])[j]) != ""
  {
    var rows := prev + [row];
    var n := |prev|;
    assert rows[n] == row;
    assert Wide(rows);
    if CountryOf(row) == c {
      assert !IsFirst(rows, n) by {
        var w :| 0 <= w < n && CountryOf(prev[w]) == c;
        assert rows[w] == prev[w];
      }
    }
    forall j | 0 <= j < |rows| && CountryOf(rows[j]) == c && IsFirst(rows, j)
      ensures LocaleOf(rows[j]) != ""
    {
      assert j < n;
      assert forall i :: 0 <= i <= j ==> rows[i] == prev[i];
      assert IsFirst(prev, j);
    }
  }

  /** One step of the loop keeps `Indexed` true. */
  lemma {:induction false} RegisterIndexed(prev: seq<seq<string>>, row: seq<string>, labels: Labels, labels': Labels)
    requires Indexed(prev, labels) && |row| >= 2
    requires Register(labels, CountryOf(row), LocaleOf(row), |prev|) == Ok(labels')
    ensures Indexed(prev + [row], labels')
  {
    AppendRow(prev, row);
    var rows := prev + [row];
    var c, l := CountryOf(row), LocaleOf(row);
    assert labels'.Keys == labels.Keys + {c};
    forall x | x in labels' ensures Describes(rows, x, labels'[x]) {
      if x != c {
        assert labels'[x] == labels[x];
        IndexedOther(prev, row, labels, x);
      } else if c in labels {
        assert Describes(prev, c, labels[c]);
        AddLocale(prev, row, labels[c].locales);
      } else if l == "" {
        NewSingle(prev, row);
      } else {
        NewMulti(prev, row);
      }
    }
  }

  /**
   * Whatever label index the loop builds describes its rows: the keys are
   * exactly the rows' lower-cased countries; a country stored as an int has
   * exactly one row, with an empty locale; a country stored as a dict maps
   * each of its locales to the last row with that locale.
   */
  lemma {:induction false} IndexRowsIndexed(rows: seq<seq<string>>)
    requires IndexRows(rows).Ok?
    ensures Indexed(rows, IndexRows(rows).value)
    decreases |rows|
  {
    if rows == [] {
      assert Countries(rows) == {};
    } else {
      var n := |rows| - 1;
      var prev := rows[..n];
      assert rows == prev + [rows[n]];
      IndexRowsIndexed(prev);
      RegisterIndexed(prev, rows[n], IndexRows(prev).value, IndexRows(rows).value);
    }
  }

  /** A conflict among the first rows stays one when a row is appended. */
  lemma {:induction false} ConflictStays(prev: seq<seq<string>>, row: seq<string>)
    requires Wide(prev) && |row| >= 2 && HasConflict(prev)
    ensures Wide(prev + [row]) && HasConflict(prev + [row])
  {
    var rows := prev + [row];
    assert forall i :: 0 <= i < |prev| ==> rows[i] == prev[i];
    var j, k :| 0 <= j < k < |prev| && IsFirst(prev, j) && LocaleOf(prev[j]) == "" && CountryOf(prev[k]) == CountryOf(prev[j]);
    assert IsFirst(rows, j);
  }

  /** A row of a country stored as an int completes a conflict. */
  lemma {:induction false} RejectedRow(prev: seq<seq<string>>, row: seq<string>, labels: Labels)
    requires Indexed(prev, labels) && |row| >= 2
    requires CountryOf(row) in labels && labels[CountryOf(row)].Single?
    ensures Wide(prev + [row]) && HasConflict(prev + [row])
  {
    var rows := prev + [row];
    var c := CountryOf(row);
    var j := labels[c].row;
    assert Describes(prev, c, labels[c]);
    assert SingleEntry(prev, c, j);
    assert forall i :: 0 <= i < |prev| ==> rows[i] == prev[i];
    assert IsFirst(rows, j);
    assert CountryOf(rows[|prev|]) == c;
  }

  /** A row the loop records after a conflict-free prefix completes no conflict. */
  lemma {:induction false} AcceptedRow(prev: seq<seq<string>>, row: seq<string>, labels: Labels)
    requires Indexed(prev, labels) && |row| >= 2 && !HasConflict(prev)
    requires !(CountryOf(row) in labels && labels[CountryOf(row)].Single?)
    ensures Wide(prev + [row]) && !HasConflict(prev + [row])
  {
    var rows := prev + [row];
    var n := |prev|;
    var c := CountryOf(row);
    assert forall i :: 0 <= i < n ==> rows[i] == prev[i];
    forall j | 0 <= j < n && IsFirst(prev, j) && LocaleOf(prev[j]) == ""
      ensures labels[CountryOf(prev[j])].Single?
    {
      assert CountryOf(prev[j]) in Countries(prev);
    }
    forall j, k | 0 <= j < k < |rows| && IsFirst(rows, j) && LocaleOf(rows[j]) == ""
      ensures CountryOf(rows[k]) != CountryOf(rows[j])
    {
      assert IsFirst(prev, j);
    }
  }

  /**
   * The loop gets through the rows exactly when every row has two cells and
   * no country whose first row has an empty locale has a second row; in the
   * second case it raises on the item assignment.
   */
  lemma {:induction false} IndexRowsOk(rows: seq<seq<string>>)
    ensures IndexRows(rows).Ok? <==> Wide(rows) && !HasConflict(rows)
    ensures Wide(rows) && IndexRows(rows).Err? ==> IndexRows(rows).error.RepeatedSingleCountry?
    decreases |rows|
  {
    if rows != [] {
      var n := |rows| - 1;
      var prev := rows[..n];
      var row := rows[n];
      assert rows == prev + [row];
      IndexRowsOk(prev);
      if !Wide(prev) {
        var i :| 0 <= i < n && |prev[i]| < 2;
        assert |rows[i]| < 2;
      } else if IndexRows(prev).Err? {
        if |row| >= 2 {
          ConflictStays(prev, row);
        }
      } else if |row| >= 2 {
        var labels := IndexRows(prev).value;
        IndexRowsIndexed(prev);
        var c := CountryOf(row);
        if c in labels && labels[c].Single? {
          RejectedRow(prev, row, labels);
        } else {
          AcceptedRow(prev, row, labels);
        }
      }
    }
  }

  // ---------------------------------------------------------------------
  // What pull_data returns
  // ---------------------------------------------------------------------

  /**
   * On success, the date axis has one day per header column from index 4
   * on, the matrix has one row per data row holding that row's columns 4
   * onward, in file order, the label index describes the data rows and every
   * index in it names a matrix row.
   */
  lemma PullTable(rows: seq<seq<string>>, day: string -> int, count: string -> int, t: Table)
    requires Pull(rows, day, count) == Ok(t)
    ensures rows != [] ==> |t.tseries| == (if |rows[0]| >= 4 then |rows[0]| - 4 else 0)
    ensures forall i :: 0 <= i < |t.tseries| ==> t.tseries[i] == day(rows[0][4 + i])
    ensures |t.data| == if rows == [] then 0 else |rows| - 1
    ensures forall i :: 0 <= i < |t.data| ==> t.data[i] == Convert(Tail(rows[i + 1]), count)
    ensures rows != [] ==> Indexed(rows[1..], t.labels)
    ensures WellFormed(t)
    ensures (forall i :: 0 <= i < |rows| ==> |rows[i]| == |rows[0]|) ==> forall i :: 0 <= i < |t.data| ==> |t.data[i]| == |t.tseries|
  {
    if rows != [] {
      var body := rows[1..];
      IndexRowsIndexed(body);
      forall c | c in t.labels
        ensures InRange(t.labels[c], |t.data|)
      {
        match t.labels[c]
        case Single(j) =>
          assert SingleEntry(body, c, j);
        case Multi(m) =>
          assert MultiEntry(body, c, m);
          assert c in Countries(body);
          var i :| 0 <= i < |body| && CountryOf(body[i]) == c;
          assert LocaleOf(body[i]) in m;
      }
    }
  }

  /**
   * `pull_data` raises exactly when a data row has fewer than two cells, a
   * country first seen with an empty locale has a later row, or the rows'
   * counts are of different lengths.
   */
  lemma PullFails(rows: seq<seq<string>>, day: string -> int, count: string -> int)
    ensures Pull(rows, day, count).Err? <==>
      rows != [] && (!Wide(rows[1..]) || HasConflict(rows[1..]) || !Uniform(Matrix(rows[1..], count)))
  {
    if rows != [] {
      IndexRowsOk(rows[1..]);
    }
  }

  // ---------------------------------------------------------------------
  // colour_from_str
  // ---------------------------------------------------------------------

  const Multiplier: int := 15485863
  /** 16 ** 6, the number of six-digit hex colours. */
  const ColourSpace: int := 0x100_0000

  function Pow(b: int, e: nat): int {
    if e == 0 then 1 else b * Pow(b, e - 1)
  }

  /** `ord(c) - 97`: 0 for 'a', negative below it. */
  function Code(c: char): int {
    c as int - 97
  }

  /** The positional sum of `Code(s[i]) * 26 ** i` over the string. */
  function WeightedSum(s: string): int
    decreases |s|
  {
    if s == [] then 0 else WeightedSum(s[..|s| - 1]) + Code(s[|s| - 1]) * Pow(26, |s| - 1)
  }

  /** An upper-case hex digit, as `'{:X}'` prints it. */
  function HexDigit(d: nat): char
    requires d < 16
  {
    if d < 10 then ('0' as int + d) as char else ('A' as int + d - 10) as char
  }

  predicate IsHexDigit(c: char) {
    '0' <= c <= '9' || 'A' <= c <= 'F'
  }

  function DigitValue(c: char): nat
    requires IsHexDigit(c)
  {
    if c <= '9' then c as int - '0' as int else c as int - 'A' as int + 10
  }

  /** `'{0:0{1}X}'.format(n, width)` for `n` that fits in `width` digits. */
  function Hex(n: nat, width: nat): string
    decreases width
  {
    if width == 0 then "" else Hex(n / 16, width - 1) + [HexDigit(n % 16)]
  }

  /** The number a string of upper-case hex digits spells. */
  function HexValue(h: string): nat
    requires forall i :: 0 <= i < |h| ==> IsHexDigit(h[i])
    decreases |h|
  {
    if h == [] then 0 else HexValue(h[..|h| - 1]) * 16 + DigitValue(h[|h| - 1])
  }

  /** Printing `n` in `width` hex digits and reading it back gives `n`. */
  lemma {:induction false} HexRoundTrip(n: nat, width: nat)
    requires n < Pow(16, width)
    ensures |Hex(n, width)| == width
    ensures forall i :: 0 <= i < width ==> IsHexDigit(Hex(n, width)[i])
    ensures HexValue(Hex(n, width)) == n
    decreases width
  {
    if width > 0 {
      var q, d := n / 16, n % 16;
      assert n == q * 16 + d;
      assert q < Pow(16, width - 1);
      HexRoundTrip(q, width - 1);
      var h := Hex(n, width);
      assert h == Hex(q, width - 1) + [HexDigit(d)];
      assert h[..width - 1] == Hex(q, width - 1);
    }
  }

  /** A string of hex digits is the only one of its length that spells its value. */
  lemma {:induction false} HexOfValue(h: string)
    requires forall i :: 0 <= i < |h| ==> IsHexDigit(h[i])
    ensures HexValue(h) < Pow(16, |h|)
    ensures Hex(HexValue(h), |h|) == h
    decreases |h|
  {
    if h != [] {
      var w := |h| - 1;
      var p := h[..w];
      HexOfValue(p);
      var v := HexValue(h);
      var d := DigitValue(h[w]);
      assert v == HexValue(p) * 16 + d;
      assert v / 16 == HexValue(p) && v % 16 == d;
      assert HexDigit(d) == h[w];
      assert h == p + [h[w]];
    }
  }

  /** `'#{0:0{1}X}'.format(n, 6)` for a number of the colour space: '#' and the six digits spelling it. */
  lemma PrintedColour(n: int)
    requires 0 <= n < ColourSpace
    ensures var colour := "#" + Hex(n, 6);
      && |colour| == 7 && colour[0] == '#'
      && (forall i :: 1 <= i < 7 ==> IsHexDigit(colour[i]))
      && HexValue(colour[1..]) == n
    ensures n == 0 ==> "#" + Hex(n, 6) == "#000000"
  {
    assert Pow(16, 6) == ColourSpace;
    HexRoundTrip(n, 6);
    assert ("#" + Hex(n, 6))[1..] == Hex(n, 6);
  }

  /**
   * `colour_from_str`: the positional sum of `ord(c) - 97`, times 15485863,
   * reduced mod 16**6, printed as '#' and six upper-case hex digits.
   */
  method ColourFromStr(s: string) returns (colour: string)
    ensures |colour| == 7 && colour[0] == '#'
    ensures forall i :: 1 <= i < 7 ==> IsHexDigit(colour[i])
    ensures HexValue(colour[1..]) == (WeightedSum(s) * Multiplier) % ColourSpace
    ensures s == "" ==> colour == "#000000"
  {
    var n := 0;
    var i := 0;
    while i < |s|
      invariant 0 <= i <= |s|
      invariant n == WeightedSum(s[..i])
    {
      assert s[..i + 1][..i] == s[..i];
      assert WeightedSum(s[..i + 1]) == WeightedSum(s[..i]) + Code(s[i]) * Pow(26, i);
      n := n + Code(s[i]) * Pow(26, i);
      i := i + 1;
    }
    assert s[..i] == s;
    var code := (n * Multiplier) % ColourSpace;
    assert code == (WeightedSum(s) * Multiplier) % ColourSpace;
    PrintedColour(code);
    colour := "#" + Hex(code, 6);
  }
}
