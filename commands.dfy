/** The operator commands of the menu loop, on values: checking a permission, adding a rule
    row and adding a sub-distributor. Console prompts and the CSV store are left to the
    caller, which passes the rows read and receives the rows to append. */
module Commands {
  import opened Strings
  import opened Permissions
  import opened Regions
  import opened SubDistributors

  datatype Answer = Yes | No | NoMatchingCity

  /** Menu option 1: the region text is resolved against the catalog (last prefix match);
      no match gives no decision, otherwise the uppercased distributor's decision on the
      resolved key. */
  method CheckPermission(table: Table, catalog: seq<string>, distributorText: string, regionText: string)
    returns (answer: Answer)
    ensures var selected := Resolved(catalog, Upper(regionText));
            answer == if selected == "" then NoMatchingCity
                      else if Permitted(table, Upper(distributorText), selected) then Yes
                      else No
    ensures answer == Yes ==>
              exists i :: 0 <= i < |catalog| && HasPrefix(catalog[i], Upper(regionText))
                && Permitted(table, Upper(distributorText), catalog[i])
  {
    var selectedCity := ResolveRegion(catalog, regionText);
    var distributor := Upper(distributorText);
    if |selectedCity| == 0 {
      return NoMatchingCity;
    }
    var allowed, _ := HasPermission(table, distributor, selectedCity);
    answer := if allowed then Yes else No;
  }

  /** Menu option 2: the row appended to the store, every field uppercased. */
  function NewRuleRow(distributorText: string, actionText: string, regionText: string): (row: Row)
    ensures |row.distributor| == |distributorText| && |row.action| == |actionText| && |row.pattern| == |regionText|
    ensures forall i :: 0 <= i < |distributorText| ==> row.distributor[i] == UpperChar(distributorText[i])
    ensures forall i :: 0 <= i < |actionText| ==> row.action[i] == UpperChar(actionText[i])
    ensures forall i :: 0 <= i < |regionText| ==> row.pattern[i] == UpperChar(regionText[i])
    ensures forall i :: 0 <= i < |row.distributor| ==> !IsLowerAscii(row.distributor[i])
    ensures forall i :: 0 <= i < |row.action| ==> !IsLowerAscii(row.action[i])
    ensures forall i :: 0 <= i < |row.pattern| ==> !IsLowerAscii(row.pattern[i])
  {
    Row(Upper(distributorText), Upper(actionText), Upper(regionText))
  }

  /** A rule added through option 2 takes effect at the next reload: an EXCLUDE denies every
      region key it is a suffix of, whatever was stored before, and an INCLUDE grants such a
      key unless a stored Exclude pattern matches it. */
  lemma AddedRuleTakesEffect(store: seq<Row>, distributorText: string, actionText: string, regionText: string,
                             key: string)
    requires HasSuffix(key, Upper(regionText))
    ensures var row := NewRuleRow(distributorText, actionText, regionText);
            var before := Fold(map[], store);
            var after := Fold(map[], store + [row]);
            && (Upper(actionText) == Exclude ==> !Permitted(after, row.distributor, key))
            && ((Upper(actionText) == Include && !Matches(Entry(before, row.distributor).excludes, key))
                ==> Permitted(after, row.distributor, key))
  {
    var row := NewRuleRow(distributorText, actionText, regionText);
    var before := Fold(map[], store);
    var after := Fold(map[], store + [row]);
    assert (store + [row])[..|store|] == store;
    assert after == AddRow(before, row);
    var d := row.distributor;
    if Upper(actionText) == Exclude {
      var n := |after[d].excludes| - 1;
      assert after[d].excludes[n] == row.pattern;
    }
    if Upper(actionText) == Include && !Matches(Entry(before, d).excludes, key) {
      assert Include != Exclude by {
        assert Include[0] != Exclude[0];
      }
      var n := |after[d].includes| - 1;
      assert after[d].includes[n] == row.pattern;
    }
  }

  /** Menu option 3: the rows appended to the store for the new sub-distributor, both names
      uppercased first. */
  method AddSubDistributor(table: Table, childText: string, parentText: string) returns (rows: seq<Row>)
    ensures Upper(parentText) !in table ==> rows == []
    ensures Upper(parentText) in table ==> rows == ChildRows(table[Upper(parentText)], Upper(childText))
    ensures Upper(childText) !in table ==>
              forall region :: Permitted(Fold(table, rows), Upper(childText), region)
                               == Permitted(table, Upper(parentText), region)
  {
    var child := Upper(childText);
    var parent := Upper(parentText);
    rows := DeriveChildRows(table, child, parent);
    if child !in table {
      forall region
        ensures Permitted(Fold(table, rows), child, region) == Permitted(table, parent, region)
      {
        if parent in table {
          ChildAgreesWithParent(table, child, parent, region);
        }
      }
    }
  }

  /** Patterns are suffixes of the whole key, which always ends with the country code: a
      bare state code IL never matches CHICAGO-IL-US, so Include US with Exclude IL grants
      it, while Exclude IL-US denies it whatever Include holds. */
  lemma ChicagoScenario()
    ensures Permitted(map["ACME" := Permission(["US"], ["IL"])], "ACME", "CHICAGO-IL-US")
    ensures !Permitted(map["ACME" := Permission(["US"], ["IL-US"])], "ACME", "CHICAGO-IL-US")
    ensures Permitted(map["ACME" := Permission(["US"], [])], "ACME", "CHICAGO-IL-US")
  {
    var key := "CHICAGO-IL-US";
    assert key[|key| - 2..] == "US";
    assert HasSuffix(key, ["US"][0]);
    assert key[|key| - 5..] == "IL-US";
    assert HasSuffix(key, ["IL-US"][0]);
    assert !HasSuffix(key, ["IL"][0]) by {
      assert key[|key| - 2..] != "IL";
    }
  }

  /** Resolution keeps the last key in load order that has the query as a prefix. */
  lemma LastMatchWinsScenario()
    ensures Resolved(["A-B-C", "A-B-D"], "A") == "A-B-D"
  {
    var catalog := ["A-B-C", "A-B-D"];
    assert HasPrefix(catalog[1], "A");
  }

  /** Matching is a literal suffix test, not a test on whole key segments: a pattern that
      starts inside the city name still matches. */
  lemma LiteralSuffixScenario()
    ensures Permitted(map["D" := Permission(["ORK-NY-US"], [])], "D", "NEWYORK-NY-US")
  {
    var key := "NEWYORK-NY-US";
    assert key[|key| - 9..] == "ORK-NY-US";
    assert HasSuffix(key, ["ORK-NY-US"][0]);
  }
}
