/** Seeding a sub-distributor: the parent's current lists become rule rows for the child,
    every EXCLUDE row first, then every INCLUDE row, each in list order. The rows are a
    one-time copy: once stored, the child's entry no longer depends on the parent's. */
module SubDistributors {
  import opened Strings
  import opened Permissions

  /** One row per pattern, for distributor d with the given action, in pattern order. */
  function RowsFor(d: string, action: string, patterns: seq<string>): seq<Row> {
    seq(|patterns|, i requires 0 <= i < |patterns| => Row(d, action, patterns[i]))
  }

  /** The rows that seed `child` from the parent entry p. */
  function ChildRows(p: Permission, child: string): seq<Row> {
    RowsFor(child, Exclude, p.excludes) + RowsFor(child, Include, p.includes)
  }

  /** The two loops of the sub-distributor case: nothing when the parent has no entry,
      otherwise the parent's Exclude patterns then its Include patterns as rows for the child. */
  method DeriveChildRows(t: Table, child: string, parent: string) returns (rows: seq<Row>)
    ensures parent !in t ==> rows == []
    ensures parent in t ==> rows == ChildRows(t[parent], child)
    ensures parent in t ==>
              |rows| == |t[parent].excludes| + |t[parent].includes|
              && (forall i :: 0 <= i < |t[parent].excludes| ==> rows[i] == Row(child, Exclude, t[parent].excludes[i]))
              && (forall j :: 0 <= j < |t[parent].includes| ==>
                    rows[|t[parent].excludes| + j] == Row(child, Include, t[parent].includes[j]))
  {
    rows := [];
    if parent !in t {
      return;
    }
    var p := t[parent];
    var i := 0;
    while i < |p.excludes|
      invariant 0 <= i <= |p.excludes|
      invariant rows == RowsFor(child, Exclude, p.excludes[..i])
    {
      rows := rows + [Row(child, Exclude, p.excludes[i])];
      i := i + 1;
    }
    assert p.excludes[..i] == p.excludes;
    ghost var excludeRows := rows;
    var j := 0;
    while j < |p.includes|
      invariant 0 <= j <= |p.includes|
      invariant rows == excludeRows + RowsFor(child, Include, p.includes[..j])
    {
      rows := rows + [Row(child, Include, p.includes[j])];
      j := j + 1;
    }
    assert p.includes[..j] == p.includes;
  }

  /** Filtering the rows made from a pattern list gives back that list, for the one
      distributor and action they carry, and nothing otherwise. */
  lemma {:induction false} PatternsForRowsFor(d: string, action: string, patterns: seq<string>, e: string, act: string)
    ensures PatternsFor(RowsFor(d, action, patterns), e, act)
            == if d == e && action == act then patterns else []
  {
    var rows := RowsFor(d, action, patterns);
    if patterns != [] {
      var n := |patterns| - 1;
      assert rows[..n] == RowsFor(d, action, patterns[..n]);
      PatternsForRowsFor(d, action, patterns[..n], e, act);
      assert patterns[..n] + [patterns[n]] == patterns;
    }
  }

  /** What the rows made from parent entry p contribute to the lists of distributor d. */
  lemma ChildRowsPatterns(p: Permission, child: string, d: string)
    ensures PatternsFor(ChildRows(p, child), d, Include) == if d == child then p.includes else []
    ensures PatternsFor(ChildRows(p, child), d, Exclude) == if d == child then p.excludes else []
  {
    var ex := RowsFor(child, Exclude, p.excludes);
    var inc := RowsFor(child, Include, p.includes);
    assert Include != Exclude by {
      assert Include[0] != Exclude[0];
    }
    PatternsForConcat(ex, inc, d, Include);
    PatternsForConcat(ex, inc, d, Exclude);
    PatternsForRowsFor(child, Exclude, p.excludes, d, Include);
    PatternsForRowsFor(child, Include, p.includes, d, Include);
    PatternsForRowsFor(child, Exclude, p.excludes, d, Exclude);
    PatternsForRowsFor(child, Include, p.includes, d, Exclude);
  }

  /** What storing the rows made from parent entry p does to the lists of distributor d. */
  lemma ChildRowsLists(t: Table, p: Permission, child: string, d: string)
    ensures Entry(Fold(t, ChildRows(p, child)), d).includes
            == Entry(t, d).includes + (if d == child then p.includes else [])
    ensures Entry(Fold(t, ChildRows(p, child)), d).excludes
            == Entry(t, d).excludes + (if d == child then p.excludes else [])
  {
    FoldLists(t, ChildRows(p, child), d);
    ChildRowsPatterns(p, child, d);
  }

  /** Storing the child rows appends the parent's lists to the child's, and leaves every
      other distributor as it was. */
  lemma SeededChild(t: Table, child: string, parent: string)
    requires parent in t
    ensures var u := Fold(t, ChildRows(t[parent], child));
            && Entry(u, child).includes == Entry(t, child).includes + t[parent].includes
            && Entry(u, child).excludes == Entry(t, child).excludes + t[parent].excludes
            && forall d :: d != child ==> (d in u <==> d in t) && Entry(u, d) == Entry(t, d)
  {
    var p := t[parent];
    var rows := ChildRows(p, child);
    var u := Fold(t, rows);
    ChildRowsLists(t, p, child, child);
    forall d | d != child
      ensures (d in u <==> d in t) && Entry(u, d) == Entry(t, d)
    {
      ChildRowsLists(t, p, child, d);
    }
  }

  /** A child seeded from its parent, while it had no entry of its own, is granted exactly
      the regions the parent is granted. */
  lemma ChildAgreesWithParent(t: Table, child: string, parent: string, region: string)
    requires parent in t && child !in t
    ensures Permitted(Fold(t, ChildRows(t[parent], child)), child, region) == Permitted(t, parent, region)
  {
    var u := Fold(t, ChildRows(t[parent], child));
    SeededChild(t, child, parent);
    PermittedByEntry(u, child, region);
    PermittedByEntry(t, parent, region);
    assert Entry(u, child) == t[parent];
  }

  /** Rows for other distributors, the parent's included, leave the child's entry alone. */
  lemma {:induction false} OtherRowsLeaveEntry(t: Table, later: seq<Row>, child: string)
    requires !Mentions(later, child)
    ensures (child in Fold(t, later) <==> child in t) && Entry(Fold(t, later), child) == Entry(t, child)
  {
    if later != [] {
      var n := |later| - 1;
      assert !Mentions(later[..n], child) by {
        forall i | 0 <= i < n ensures later[..n][i].distributor != child {
          assert later[..n][i] == later[i];
        }
      }
      OtherRowsLeaveEntry(t, later[..n], child);
      assert later[n].distributor != child;
    }
  }

  /** The seeding is a snapshot: after the child's rows are stored, rules added later for
      anyone but the child, the parent's included, do not change the child's decisions,
      which stay those of the parent at creation time. */
  lemma SnapshotOfParent(store: seq<Row>, child: string, parent: string, later: seq<Row>, region: string)
    requires parent in Fold(map[], store)
    requires !Mentions(store, child)
    requires !Mentions(later, child)
    ensures var seeded := ChildRows(Fold(map[], store)[parent], child);
            Permitted(Fold(map[], store + seeded + later), child, region)
            == Permitted(Fold(map[], store), parent, region)
  {
    var t := Fold(map[], store);
    var seeded := ChildRows(t[parent], child);
    FoldAppend(map[], store + seeded, later);
    FoldAppend(map[], store, seeded);
    var u := Fold(t, seeded);
    OtherRowsLeaveEntry(u, later, child);
    PermittedByEntry(Fold(u, later), child, region);
    PermittedByEntry(u, child, region);
    ChildAgreesWithParent(t, child, parent, region);
  }
}
