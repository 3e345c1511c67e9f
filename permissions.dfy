/** The permission table and the decision: per distributor, an ordered Include list and an
    ordered Exclude list of region-suffix patterns; Exclude is consulted first and wins,
    and anything not covered is denied. */
module Permissions {
  import opened Strings

  const Include: string := "INCLUDE"
  const Exclude: string := "EXCLUDE"

  /** The Go struct Permission; its zero value is two empty lists. */
  datatype Permission = Permission(includes: seq<string>, excludes: seq<string>)

  const NoRules: Permission := Permission([], [])

  /** One (distributor, action, pattern) row of the rule store. */
  datatype Row = Row(distributor: string, action: string, pattern: string)

  type Table = map<string, Permission>

  /** What Go's `permissions[d]` reads: the entry, or the zero value when there is none. */
  function Entry(t: Table, d: string): Permission {
    if d in t then t[d] else NoRules
  }

  /** One step of the fold in loadPermissions. */
  function AddRow(t: Table, row: Row): (u: Table)
    ensures u.Keys == t.Keys + {row.distributor}
    ensures forall d :: d in t && d != row.distributor ==> u[d] == t[d]
    ensures u[row.distributor].includes
            == Entry(t, row.distributor).includes + (if row.action == Include then [row.pattern] else [])
    ensures u[row.distributor].excludes
            == Entry(t, row.distributor).excludes + (if row.action == Exclude then [row.pattern] else [])
  {
    var p := Entry(t, row.distributor);
    var q :=
      if row.action == Include then p.(includes := p.includes + [row.pattern])
      else if row.action == Exclude then p.(excludes := p.excludes + [row.pattern])
      else p;
    t[row.distributor := q]
  }

  /** Whether some row names distributor d. */
  predicate Mentions(rows: seq<Row>, d: string) {
    exists i :: 0 <= i < |rows| && rows[i].distributor == d
  }

  /** The rows folded into t in order, the last row applied last. */
  function Fold(t: Table, rows: seq<Row>): (u: Table)
    ensures forall d :: d in u <==> d in t || Mentions(rows, d)
  {
    if rows == [] then t
    else
      var n := |rows| - 1;
      var u := AddRow(Fold(t, rows[..n]), rows[n]);
      assert forall d :: Mentions(rows, d) <==> Mentions(rows[..n], d) || rows[n].distributor == d by {
        forall d | Mentions(rows, d) ensures Mentions(rows[..n], d) || rows[n].distributor == d {
          var i :| 0 <= i < |rows| && rows[i].distributor == d;
          if i < n { assert rows[..n][i] == rows[i]; }
        }
        forall d | Mentions(rows[..n], d) ensures Mentions(rows, d) {
          var i :| 0 <= i < n && rows[..n][i].distributor == d;
          assert rows[i] == rows[..n][i];
        }
      }
      u
  }

  /** The patterns of the rows for distributor d carrying the given action, in row order:
      an independent description of what the fold puts in d's lists. */
  function PatternsFor(rows: seq<Row>, d: string, action: string): seq<string> {
    if rows == [] then []
    else
      var n := |rows| - 1;
      PatternsFor(rows[..n], d, action)
      + (if rows[n].distributor == d && rows[n].action == action then [rows[n].pattern] else [])
  }

  /** The fold loop of loadPermissions over rows already read from the store. */
  method LoadPermissions(rows: seq<Row>) returns (table: Table)
    ensures table == Fold(map[], rows)
    ensures forall d :: d in table <==> Mentions(rows, d)
    ensures forall d :: d in table ==>
              table[d] == Permission(PatternsFor(rows, d, Include), PatternsFor(rows, d, Exclude))
  {
    table := map[];
    var i := 0;
    while i < |rows|
      invariant 0 <= i <= |rows|
      invariant table == Fold(map[], rows[..i])
    {
      var row := rows[i];
      var p := if row.distributor in table then table[row.distributor] else NoRules;
      if row.action == Include {
        p := p.(includes := p.includes + [row.pattern]);
      } else if row.action == Exclude {
        p := p.(excludes := p.excludes + [row.pattern]);
      }
      table := table[row.distributor := p];
      assert rows[..i + 1][..i] == rows[..i];
      i := i + 1;
    }
    assert rows[..i] == rows;
    forall d | d in table
      ensures table[d] == Permission(PatternsFor(rows, d, Include), PatternsFor(rows, d, Exclude))
    {
      FoldLists(map[], rows, d);
    }
  }

  /** Folding rows appends, to each distributor's lists, exactly the patterns of its rows with
      the matching action, in order; the lists of other distributors are untouched. */
  lemma {:induction false} FoldLists(t: Table, rows: seq<Row>, d: string)
    ensures Entry(Fold(t, rows), d).includes == Entry(t, d).includes + PatternsFor(rows, d, Include)
    ensures Entry(Fold(t, rows), d).excludes == Entry(t, d).excludes + PatternsFor(rows, d, Exclude)
  {
    if rows != [] {
      var n := |rows| - 1;
      FoldLists(t, rows[..n], d);
    }
  }

  /** The store is append-only: loading a + b is loading b on top of a. */
  lemma {:induction false} FoldAppend(t: Table, a: seq<Row>, b: seq<Row>)
    ensures Fold(t, a + b) == Fold(Fold(t, a), b)
  {
    if b == [] {
      assert a + b == a;
    } else {
      var n := |b| - 1;
      var ab := a + b;
      assert ab[..|ab| - 1] == a + b[..n];
      assert ab[|ab| - 1] == b[n];
      calc {
        Fold(t, ab);
        AddRow(Fold(t, a + b[..n]), b[n]);
        { FoldAppend(t, a, b[..n]); }
        AddRow(Fold(Fold(t, a), b[..n]), b[n]);
        Fold(Fold(t, a), b);
      }
    }
  }

  /** Some pattern in the list is a suffix of the region key. */
  predicate Matches(patterns: seq<string>, region: string) {
    exists i :: 0 <= i < |patterns| && HasSuffix(region, patterns[i])
  }

  /** The decision: the distributor has an entry, no Exclude pattern is a suffix of the
      region and some Include pattern is. */
  predicate Permitted(t: Table, d: string, region: string) {
    d in t && !Matches(t[d].excludes, region) && Matches(t[d].includes, region)
  }

  /** hasPermission: an Exclude scan with early denial, then an Include scan with early
      grant. `noneFound` is the case in which the source prints its "no permissions found"
      notice: the distributor has an entry and neither list matched. */
  method HasPermission(t: Table, d: string, region: string) returns (allowed: bool, noneFound: bool)
    ensures allowed == Permitted(t, d, region)
    ensures d !in t ==> !allowed && !noneFound
    ensures d in t && Matches(t[d].excludes, region) ==> !allowed && !noneFound
    ensures d in t && !Matches(t[d].excludes, region) && Matches(t[d].includes, region) ==> allowed
    ensures noneFound <==> d in t && !Matches(t[d].excludes, region) && !Matches(t[d].includes, region)
  {
    if d !in t {
      return false, false;
    }
    var p := t[d];
    var i := 0;
    while i < |p.excludes|
      invariant 0 <= i <= |p.excludes|
      invariant forall k :: 0 <= k < i ==> !HasSuffix(region, p.excludes[k])
    {
      if HasSuffix(region, p.excludes[i]) {
        return false, false;
      }
      i := i + 1;
    }
    var j := 0;
    while j < |p.includes|
      invariant 0 <= j <= |p.includes|
      invariant forall k :: 0 <= k < j ==> !HasSuffix(region, p.includes[k])
    {
      if HasSuffix(region, p.includes[j]) {
        return true, false;
      }
      j := j + 1;
    }
    return false, true;
  }

  /** A distributor whose two lists are empty is denied every region. */
  lemma NoRulesDenyAll(t: Table, d: string, region: string)
    requires d in t && t[d] == NoRules
    ensures !Permitted(t, d, region)
  {
  }

  /** Exclusion wins: a matching Exclude pattern denies whatever Include holds. */
  lemma ExcludeWins(t: Table, d: string, region: string, p: string)
    requires d in t && p in t[d].excludes && HasSuffix(region, p)
    ensures !Permitted(t, d, region)
  {
    var i :| 0 <= i < |t[d].excludes| && t[d].excludes[i] == p;
  }

  /** The decision only asks whether some element of each list matches: two entries whose
      lists hold the same patterns, in any order and with any repetition, decide alike. */
  lemma {:induction false} MatchesSamePatterns(a: seq<string>, b: seq<string>, region: string)
    requires forall p :: p in a <==> p in b
    ensures Matches(a, region) == Matches(b, region)
  {
    if Matches(a, region) {
      var i :| 0 <= i < |a| && HasSuffix(region, a[i]);
      assert a[i] in b;
      var j :| 0 <= j < |b| && b[j] == a[i];
    }
    if Matches(b, region) {
      var j :| 0 <= j < |b| && HasSuffix(region, b[j]);
      assert b[j] in a;
      var i :| 0 <= i < |a| && a[i] == b[j];
    }
  }

  /** Every row's pattern is among the patterns filtered for its distributor and action. */
  lemma {:induction false} PatternsForMember(rows: seq<Row>, k: nat)
    requires k < |rows|
    ensures rows[k].pattern in PatternsFor(rows, rows[k].distributor, rows[k].action)
  {
    var r := rows[k];
    var n := |rows| - 1;
    var prefix := PatternsFor(rows[..n], r.distributor, r.action);
    var last := if rows[n].distributor == r.distributor && rows[n].action == r.action then [rows[n].pattern] else [];
    assert PatternsFor(rows, r.distributor, r.action) == prefix + last;
    if k < n {
      assert rows[..n][k] == r;
      PatternsForMember(rows[..n], k);
      assert r.pattern in prefix;
    } else {
      assert last == [r.pattern];
    }
  }

  /** Adding a rule row that the store already holds changes no decision. */
  lemma {:induction false} DuplicateRowKeepsDecisions(rows: seq<Row>, k: nat, d: string, region: string)
    requires k < |rows|
    ensures Permitted(Fold(map[], rows + [rows[k]]), d, region) == Permitted(Fold(map[], rows), d, region)
  {
    var r := rows[k];
    var before := Fold(map[], rows);
    var after := Fold(map[], rows + [r]);
    assert (rows + [r])[..|rows|] == rows;
    assert after == AddRow(before, r);
    assert Mentions(rows, r.distributor);
    if d == r.distributor {
      FoldLists(map[], rows, d);
      PatternsForMember(rows, k);
      MatchesSamePatterns(after[d].includes, before[d].includes, region);
      MatchesSamePatterns(after[d].excludes, before[d].excludes, region);
    }
  }

  /** Filtering distributes over concatenation of row sequences. */
  lemma {:induction false} PatternsForConcat(a: seq<Row>, b: seq<Row>, d: string, action: string)
    ensures PatternsFor(a + b, d, action) == PatternsFor(a, d, action) + PatternsFor(b, d, action)
  {
    if b != [] {
      var n := |b| - 1;
      var ab := a + b;
      assert ab[..|ab| - 1] == a + b[..n];
      assert ab[|ab| - 1] == b[n];
      PatternsForConcat(a, b[..n], d, action);
    } else {
      assert a + b == a;
    }
  }

  /** The decision read through Entry: an absent distributor behaves as one with no rules. */
  lemma PermittedByEntry(t: Table, d: string, region: string)
    ensures Permitted(t, d, region)
            == (!Matches(Entry(t, d).excludes, region) && Matches(Entry(t, d).includes, region))
  {
  }
}
