# Distributor permissions: a Dafny model

This project models the permission engine of a small command-line program (`main.go`). The
program decides whether a distributor may sell into a region. A region is a key
`CITY-STATE-COUNTRY` built from reference rows. Each distributor has an ordered Include list
and an ordered Exclude list of patterns, and a pattern applies to a region when it is a
literal suffix of the region's key. Exclude is checked first and always wins. A distributor
with no entry, or with no matching pattern, is denied. A new sub-distributor is seeded with
rule rows copied from its parent's current lists.

Modules:

- `Strings` (`strings.dfy`): Go's `strings.HasSuffix` and `strings.HasPrefix`, and an
  ASCII-only `strings.ToUpper`.
- `Permissions` (`permissions.dfy`): the `Permission` struct, rule rows, the table fold of
  `loadPermissions` (a method with a loop, proved against `Fold`), the decision `Permitted`,
  and `hasPermission` as a method with its two early-return loops.
- `Regions` (`regions.dfy`): region keys, building the catalog (a loop that appends), and
  resolving a query by the last-prefix-match scan.
- `SubDistributors` (`subdistributors.dfy`): the two loops that turn the parent's lists into
  rows for the child, and lemmas saying what storing those rows does.
- `Commands` (`commands.dfy`): the three menu options on values, plus worked scenarios.

The rule store is append-only and is reloaded at the start of every command cycle. So the
table seen by a command is `Fold(map[], store)`, where `store` is every row appended so far.
`FoldAppend` shows that appending rows and reloading is the same as folding the new rows on
top of the old table.

Points where the code's behaviour is easy to misread (the model follows the code):

- The "no permissions found" notice is printed only when the distributor has an entry and
  neither list matched. An unknown distributor is denied without a notice
  (`HasPermission`'s `noneFound` result).
- Keys always end with the country code. So a bare state code such as `IL` never matches
  `CHICAGO-IL-US`: Include `US` with Exclude `IL` grants Chicago. Excluding the state takes
  the pattern `IL-US` (`ChicagoScenario`).
- A pattern that starts inside a segment still matches: `ORK-NY-US` matches
  `NEWYORK-NY-US` (`LiteralSuffixScenario`). The empty pattern matches every key.
- The CSV reader takes its field count from the header row. A later row of a different
  width makes the read fail, and the loading loop stops there: that row and every row after
  it are dropped, without a crash. `BuildCatalog` takes the rows read before that point.
  Column 5 is read without a check, so only a header narrower than six columns leads to a
  crash (see "## Left out").
- A rule row whose action is neither `INCLUDE` nor `EXCLUDE` still creates the
  distributor's entry, with its lists unchanged. Such an entry with empty lists is denied
  everywhere.
- When the parent's lists are both empty, no rows are produced, and the child gets no entry.

## Model

| member | source | states |
|---|---|---|
| `Strings.Upper` | main.go:107-109 | uppercasing keeps the length, turns each ASCII lower-case letter into its upper-case letter (code point minus 32), keeps every other character, and leaves no lower-case ASCII letter |
| `Permissions.AddRow` | main.go:37-45 | one row creates or keeps the distributor's entry; INCLUDE appends the pattern to the end of Include, EXCLUDE appends it to the end of Exclude, any other action changes neither list; other distributors are unchanged |
| `Permissions.Fold` | main.go:28-47 | after folding rows, a distributor has an entry exactly when it had one before or some row names it |
| `Permissions.LoadPermissions` | main.go:27-48 | the loop builds the fold of the rows; its keys are the distributors the rows name, and each entry's lists are that distributor's INCLUDE and EXCLUDE patterns in row order |
| `Permissions.FoldLists` | main.go:37-45 | folding rows appends to each distributor's lists exactly the patterns of its own rows with the matching action, in order |
| `Permissions.FoldAppend` | main.go:116-121 | reloading the store after appending rows equals folding the new rows onto the table loaded before |
| `Permissions.HasPermission` | main.go:52-71 | unknown distributor is denied; a matching Exclude pattern denies; otherwise a matching Include pattern grants; the notice is raised exactly when the entry exists and nothing matched; the result equals `Permitted` |
| `Permissions.NoRulesDenyAll` | main.go:64-70 | a distributor with empty Include and Exclude lists is denied every region |
| `Permissions.ExcludeWins` | main.go:58-62 | any Exclude pattern that is a suffix of the region denies it, whatever Include holds |
| `Permissions.MatchesSamePatterns` | main.go:58-68 | matching depends only on which patterns a list holds, not on their order or repetition |
| `Permissions.DuplicateRowKeepsDecisions` | main.go:37-45 | appending a row the store already holds changes no decision for any distributor and region |
| `Regions.RegionKey` | main.go:107-111 | the key has the uppercased city plus `-` as a prefix, ends with `-STATE-COUNTRY`, has no lower-case ASCII letter, and its length is the parts' lengths plus two |
| `Regions.BuildCatalog` | main.go:102-113 | the catalog has one key per reference row, in row order, each built from columns 3, 4 and 5; no key is empty |
| `Regions.LastMatchIndex` | main.go:134-139 | the index found has the query as a prefix and no later key does; -1 means no key does |
| `Regions.ResolveRegion` | main.go:132-139 | the scan returns the last key in load order having the uppercased query as a prefix, or the empty string when none has |
| `SubDistributors.DeriveChildRows` | main.go:212-222 | no rows when the parent has no entry; otherwise one EXCLUDE row per parent Exclude pattern, then one INCLUDE row per parent Include pattern, in order, all for the child |
| `SubDistributors.ChildRowsPatterns` | main.go:214-221 | filtering the seeded rows gives back the parent's Include and Exclude lists for the child, and nothing for anyone else |
| `SubDistributors.SeededChild` | main.go:212-222 | storing the seeded rows appends the parent's lists to the child's lists and leaves every other distributor unchanged |
| `SubDistributors.ChildAgreesWithParent` | main.go:212-222 | a child with no entry of its own, once seeded, is granted exactly the regions its parent is granted |
| `SubDistributors.OtherRowsLeaveEntry` | main.go:37-45 | rows for other distributors leave a distributor's entry and its presence unchanged |
| `SubDistributors.SnapshotOfParent` | main.go:211-222 | after a new child is seeded, rules added later for anyone but the child, the parent included, leave the child's decisions equal to the parent's at creation time |
| `Commands.CheckPermission` | main.go:126-150 | no match in the catalog gives no decision; otherwise the answer is the uppercased distributor's decision on the last matching key; YES implies a matching key the distributor is granted |
| `Commands.NewRuleRow` | main.go:161-166 | the appended row's distributor, action and pattern are the typed distributor, action and region uppercased character by character, so no field holds a lower-case ASCII letter |
| `Commands.AddedRuleTakesEffect` | main.go:161-176 | after reload, an added EXCLUDE denies every key it is a suffix of, and an added INCLUDE grants such a key unless a stored Exclude pattern matches it |
| `Commands.AddSubDistributor` | main.go:192-222 | the rows for the uppercased child and parent are the seeded rows, or none when the parent is absent; a new child then decides like its parent |
| `Commands.ChicagoScenario` | main.go:58-68 | Include US with Exclude IL grants CHICAGO-IL-US; Exclude IL-US denies it; Include US alone grants it |
| `Commands.LastMatchWinsScenario` | main.go:134-139 | with keys A-B-C then A-B-D, the query A resolves to A-B-D |
| `Commands.LiteralSuffixScenario` | main.go:64-68 | an Include pattern starting inside the city name still matches the key |

## Left out

- File and CSV I/O are not modelled: opening files, the CSV reader, skipping the header,
  appending to `permissions.csv` and `distributors.csv`, and panics on I/O errors. The model
  takes the rows read as input and returns the rows to append.
- BuildCatalog: requires every row to reach column 5. It does not model the crash that
  follows when the header row, and so every row, is narrower than six columns.
- The CSV reader's stopping rule (the loops end at the first read error) is not modelled.
  The input is the sequence of rows read before that point.
- The interactive menu, the prompts, `fmt.Scanln` and the outer loop are not modelled. The
  reload on every cycle is reflected by `Fold(map[], store)` and `FoldAppend`.
- Console messages are not modelled as text. The outcome of a check (YES, NO or "No
  Matching City found") is the `Commands.Answer` result of `CheckPermission`, and the "no
  permissions found" notice is the `noneFound` result of `HasPermission`. The menu prompts
  and the confirmation messages of options 2 and 3 are left out.
- `Strings.Upper`: only ASCII letters are uppercased. Go's `strings.ToUpper` also maps
  non-ASCII letters. Strings are sequences of characters rather than UTF-8 bytes.
- The `distributors.csv` record of (child, parent) is written but never read back, so it is
  not modelled.
- The CSV text of the child rows (`child,EXCLUDE,pattern` lines) is modelled as `Row`
  values. How a pattern containing a comma or newline would be re-read is not modelled.
