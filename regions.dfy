/** The region catalog: one uppercase CITY-STATE-COUNTRY key per reference row, in load
    order, and the resolution of a free-text query by a scan in which the last key that
    carries the query as a prefix wins. */
module Regions {
  import opened Strings

  /** Columns of a cities row that the catalog uses. */
  const CityColumn: nat := 3
  const StateColumn: nat := 4
  const CountryColumn: nat := 5

  /** The composite key of a region: its three parts uppercased and joined by '-'. */
  function RegionKey(city: string, state: string, country: string): (key: string)
    ensures |key| == |city| + |state| + |country| + 2
    ensures HasPrefix(key, Upper(city) + "-")
    ensures HasSuffix(key, "-" + Upper(state) + "-" + Upper(country))
    ensures forall i :: 0 <= i < |key| ==> !IsLowerAscii(key[i])
  {
    var c, st, co := Upper(city), Upper(state), Upper(country);
    JoinedKey(c, st, co);
    c + "-" + st + "-" + co
  }

  /** The facts about a key joined from three parts, stated for any parts. */
  lemma JoinedKey(c: string, st: string, co: string)
    requires NoLowerAscii(c) && NoLowerAscii(st) && NoLowerAscii(co)
    ensures var key := c + "-" + st + "-" + co;
            && |key| == |c| + |st| + |co| + 2
            && HasPrefix(key, c + "-")
            && HasSuffix(key, "-" + st + "-" + co)
            && NoLowerAscii(key)
  {
    var key := c + "-" + st + "-" + co;
    assert key == (c + "-") + (st + "-" + co);
    assert key == c + ("-" + st + "-" + co);
    PrefixOfConcat(c + "-", st + "-" + co);
    SuffixOfConcat(c, "-" + st + "-" + co);
    NoLowerAsciiConcat(c, "-");
    NoLowerAsciiConcat(c + "-", st);
    NoLowerAsciiConcat(c + "-" + st, "-");
    NoLowerAsciiConcat(c + "-" + st + "-", co);
  }

  /** A row of the reference data is usable when it reaches the country column: the source
      indexes columns 3 to 5 without checking the row's width. */
  predicate WellFormed(row: seq<string>) {
    |row| > CountryColumn
  }

  function RowKey(row: seq<string>): string
    requires WellFormed(row)
  {
    RegionKey(row[CityColumn], row[StateColumn], row[CountryColumn])
  }

  /** Builds the catalog by appending one key per row, in row order. */
  method BuildCatalog(rows: seq<seq<string>>) returns (catalog: seq<string>)
    requires forall i :: 0 <= i < |rows| ==> WellFormed(rows[i])
    ensures |catalog| == |rows|
    ensures forall i :: 0 <= i < |rows| ==> catalog[i] == RowKey(rows[i])
    ensures forall i :: 0 <= i < |catalog| ==> catalog[i] != ""
  {
    catalog := [];
    var i := 0;
    while i < |rows|
      invariant 0 <= i <= |rows|
      invariant |catalog| == i
      invariant forall k :: 0 <= k < i ==> catalog[k] == RowKey(rows[k])
    {
      var row := rows[i];
      var countryCode := Upper(row[CountryColumn]);
      var stateCode := Upper(row[StateColumn]);
      var city := Upper(row[CityColumn]);
      catalog := catalog + [city + "-" + stateCode + "-" + countryCode];
      i := i + 1;
    }
  }

  /** The index of the last catalog key having q as a prefix, or -1 when there is none. */
  function LastMatchIndex(catalog: seq<string>, q: string): (k: int)
    ensures -1 <= k < |catalog|
    ensures k >= 0 ==> HasPrefix(catalog[k], q)
    ensures forall j :: k < j < |catalog| ==> !HasPrefix(catalog[j], q)
  {
    if catalog == [] then -1
    else
      var n := |catalog| - 1;
      if HasPrefix(catalog[n], q) then n
      else
        var k := LastMatchIndex(catalog[..n], q);
        assert forall j :: k < j < n ==> catalog[j] == catalog[..n][j];
        k
  }

  /** What the scan leaves in selectedCity: the last matching key, or "" for no match. */
  function Resolved(catalog: seq<string>, q: string): string {
    var k := LastMatchIndex(catalog, q);
    if k < 0 then "" else catalog[k]
  }

  /** The resolution scan: the query is uppercased, then every key having it as a prefix
      overwrites the candidate, so the last one in load order is kept. */
  method ResolveRegion(catalog: seq<string>, query: string) returns (selected: string)
    ensures selected == Resolved(catalog, Upper(query))
    ensures (forall i :: 0 <= i < |catalog| ==> !HasPrefix(catalog[i], Upper(query))) ==> selected == ""
    ensures (exists i :: 0 <= i < |catalog| && HasPrefix(catalog[i], Upper(query))) ==>
              exists i :: 0 <= i < |catalog| && selected == catalog[i] && HasPrefix(catalog[i], Upper(query))
                && forall j :: i < j < |catalog| ==> !HasPrefix(catalog[j], Upper(query))
  {
    var q := Upper(query);
    selected := "";
    ghost var found := -1;
    var i := 0;
    while i < |catalog|
      invariant 0 <= i <= |catalog|
      invariant -1 <= found < i
      invariant found == LastMatchIndex(catalog[..i], q)
      invariant selected == if found < 0 then "" else catalog[found]
    {
      assert catalog[..i + 1][..i] == catalog[..i];
      if HasPrefix(catalog[i], q) {
        selected := catalog[i];
        found := i;
      }
      i := i + 1;
    }
    assert catalog[..i] == catalog;
  }
}
