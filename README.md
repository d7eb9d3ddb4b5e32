# Tab grouping, modelled in Dafny

The browser-tab organizer groups open tabs by how alike their texts are. Each tab's text is
its title and URL joined by a space. The grouping lives in `src/background/background.ts`
and has two parts, both modelled here:

- `similarity(s1, s2)` (lines 53-81) scores two strings in [0, 1] from an edit distance.
  It fills one rolling row of `costs` in place, carrying `lastValue` across the inner loop.
- `processTabGroups(tabs)` (lines 84-110) makes one forward pass over the tabs. Each tab
  joins the first group, in creation order, whose first tab scores strictly above 0.3
  against it. Otherwise the tab starts a new group `group_<count + 1>`.

Modules:

- `Wrappers` (`wrappers.dfy`): `Option`.
- `Levenshtein` (`levenshtein.dfy`): the reference edit distance `Lev` and its properties.
- `Similarity` (`similarity.dfy`): the score as a function (`Score`) and the rolling-row
  program as methods over an `array<nat>` (`ComputeSimilarity`, `LastRow`, `RowPass`,
  `InnerStep`). The methods are proved to compute `Score`.
- `GroupKeys` (`group_keys.dfy`): the keys `group_1`, `group_2`, ... and their injectivity.
- `TabGroups` (`tab_groups.dfy`):
  - The pass as a pure greedy fold on index lists: `FirstFit`, `Step`, `Grouping`.
    These take any comparison. `SourceTest(lower)` is the one the code makes.
  - `Keyed` attaches the keys in creation order.
  - `ProcessTabGroups` and `PlaceTab` are the two loops, with the `break` and the
    `assigned` flag (called `placed` in the model, as `assigned` is a Dafny keyword).
    They are proved to build `Keyed(Grouping(tabs, |tabs|, SourceTest(lower)))`.
  - The `groups` object is an ordered sequence of (key, indices) entries. Its keys are
    never integer-like, so `for...in` visits them in insertion order.

`toLowerCase` is the parameter `lower: string -> string`. The comparison is
`similarity(lower(tabText), lower(groupText))`, in that argument order.

What the code does, as modelled:

- The distance is read from `costs[longer.length - 1]` (line 80), not from the last cell.
  After the last pass, `costs[k]` is the distance from `shorter` to the first `k`
  characters of `longer`. So the score compares `shorter` with `longer` minus its last
  character.
- When the lengths tie, `longer` is `s2` (lines 54-55).
- Consequences:
  - `similarity("abc", "abc")` is 2/3.
  - `similarity(" ", " ")` is 0.
  - `similarity("", "x")` is 1.
  - The score is not symmetric: `("ab", "bb")` scores 0.5 and `("bb", "ab")` scores 0.
- A Levenshtein similarity is usually symmetric and scores equal strings 1. This one is
  neither, because it reads `costs[longer.length - 1]` (line 80) and takes `longer = s2`
  on a tie (lines 54-55). For the same reason a tab whose text is the single space does
  not join a group whose first tab has that same text. The model keeps this behaviour:
  - `ScoreOneIff` says exactly when the score is 1.
  - `ScoreNotSymmetric` shows the asymmetry.
  - `JoinsSelfIff` shows equal texts join exactly when their length is not 1.
  - So two tabs with neither title nor url (text `" "`) never share a group that one of
    them started (`BlankTabsApart`).
- All tabs with the same text, lower-cased to any length but 1, form one group (`AllAlike`).

## Model

| member | source | states |
|---|---|---|
| Levenshtein.LevLastEqual | src/background/background.ts:68-71 | when the last characters agree, the distance equals the diagonal entry, which justifies the code's shortcut of copying `costs[j - 1]` |
| Levenshtein.LevInitFirstBound | src/background/background.ts:68-71 | dropping the last character of the first string lowers the distance by at most one (used for the shortcut) |
| Levenshtein.LevInitSecondBound | src/background/background.ts:68-71 | dropping the last character of the second string lowers the distance by at most one |
| Levenshtein.LevLowerBound | src/background/background.ts:80 | the distance is at least the difference of the lengths |
| Levenshtein.LevUpperBound | src/background/background.ts:80 | the distance is at most the longer length, so the numerator at line 80 is never negative |
| Levenshtein.LevSymmetric | src/background/background.ts:52 | the edit distance named in the comment is symmetric, although the score built on it is not |
| Levenshtein.LevZeroIff | src/background/background.ts:80 | the distance is 0 exactly between equal strings |
| Levenshtein.LevDropOne | src/background/background.ts:80 | a non-empty string is one edit from itself minus its last character |
| Similarity.LongerLength | src/background/background.ts:54-55 | `longer.length` is at least both lengths and equals one of them |
| Similarity.Distance | src/background/background.ts:80 | defines the value read from `costs[longer.length - 1]`: the distance from `shorter` to `longer` without its last character, with `longer = s2` on a tie (no contract of its own; `LastRow` and `ComputeSimilarity` tie the code to it) |
| Similarity.Score | src/background/background.ts:57-80 | defines the value `similarity` returns: 1 when both strings are empty, otherwise (L - Distance) / L (no contract of its own; its properties are `ScoreInUnitRange`, `ScoreOneIff`, `ScoreSelf` and the example lemmas) |
| Similarity.ComputeSimilarity | src/background/background.ts:53-81 | `similarity(s1, s2)` returns Score: 1 when both are empty, otherwise (L - Lev(shorter, longer without its last character)) / L, with `longer = s2` on a tie |
| Similarity.LastRow | src/background/background.ts:61-79 | after the outer loop, every `costs[k]` for k <= L is the distance from `shorter` to the first k characters of `longer` |
| Similarity.RowPass | src/background/background.ts:63-78 | pass i turns a row holding the distances from shorter[..i-1] into a row holding those from shorter[..i], writing the last cell after the inner loop |
| Similarity.InnerStep | src/background/background.ts:64-75 | one inner iteration: pass 0 writes `costs[j] = j`; a later pass moves the carried value into `costs[j - 1]` and carries the new cell, keeping the one-step-behind row state |
| Similarity.CellStep | src/background/background.ts:68-71 | the cell the code computes (the diagonal on a match, otherwise 1 + the least of the three neighbours) is the distance of the two prefixes |
| Similarity.ScoreInUnitRange | src/background/background.ts:80 | the score lies in [0, 1] for all inputs |
| Similarity.ScoreOneIff | src/background/background.ts:53-81 | the score is 1 exactly when both are empty or the shorter string equals the longer one minus its last character |
| Similarity.ScoreSelf | src/background/background.ts:80 | a non-empty string scores (n - 1) / n against itself |
| Similarity.ScoreExamples | src/background/background.ts:53-81 | `("abc","abc")` gives 2/3, `(" "," ")` gives 0, `("","x")` and `("","")` give 1 |
| Similarity.ScoreNotSymmetric | src/background/background.ts:54-55 | `("ab","bb")` gives 0.5 while `("bb","ab")` gives 0 |
| Similarity.DistanceNotSymmetric | src/background/background.ts:80 | the distances read for `("ab","bb")` and `("bb","ab")` are 1 and 2 |
| GroupKeys.Decimal | src/background/background.ts:105 | the rendered group number is a non-empty string of decimal digits with no leading zero (only 0 itself starts with `0`) |
| GroupKeys.ParseDecimalOfDecimal | src/background/background.ts:105 | reading the rendered number back gives the number |
| GroupKeys.DecimalInjective | src/background/background.ts:105 | different numbers render differently |
| GroupKeys.GroupKeyInjective | src/background/background.ts:105 | `group_a` and `group_b` are equal exactly when a = b |
| GroupKeys.GroupKeyExamples | src/background/background.ts:105 | the first key is `group_1`; the twelfth is `group_12` |
| GroupKeys.GroupKey | src/background/background.ts:105 | defines the key `group_${n}`: the text `group_` followed by the decimal numeral of n (no contract of its own; `GroupKeyInjective` and `GroupKeyExamples` state its properties) |
| TabGroups.KeyIndex | src/background/background.ts:105 | a property lookup finds the first entry with the key (the entry found has the key and no earlier one has it), or reports that no entry has it |
| TabGroups.Assign | src/background/background.ts:105 | defines `groups[key] = members`: overwrites the entry holding `key` in place, or appends a new entry at the end of the insertion order (no contract of its own; `NewKeyIsFresh` shows the pass always appends) |
| TabGroups.Keyed | src/background/background.ts:85-105 | defines the `groups` object from the index lists: entry g is `group_<g + 1>` with the g-th list (no contract of its own; `KeysDistinct` states its keys) |
| TabGroups.OrEmpty | src/background/background.ts:90 | defines `(field \|\| '')`: a missing field reads as the empty string (no contract of its own) |
| TabGroups.TabText | src/background/background.ts:90 | defines `title + ' ' + url` with missing fields empty, used for the tab at line 90 and the representative at line 94 (no contract of its own; `BlankNeverJoinsBlank` states when it is `" "`) |
| TabGroups.Resembles | src/background/background.ts:95-97 | defines the test `similarity(tabText.toLowerCase(), groupText.toLowerCase()) > 0.3`, in that argument order (no contract of its own; `Compare` computes it, `JoinsIff` and `JoinsSelfIff` characterise it) |
| TabGroups.RepText | src/background/background.ts:93-94 | defines `groupText`: `TabText` of the group's first index (no contract of its own; `GroupingWellFormed` shows the first index always exists and is in range) |
| TabGroups.Joins | src/background/background.ts:97 | defines the test `sim > threshold` as `Score(text, rep) > 0.3`, with 0.3 the threshold of line 86 (no contract of its own; `JoinsIff` and `JoinsSelfIff` characterise it) |
| TabGroups.NewKeyIsFresh | src/background/background.ts:105 | `group_<count + 1>` is not yet a key, so assigning it appends one new entry at the end |
| TabGroups.FirstFit | src/background/background.ts:92-102 | the scan finds the first group, in creation order, whose representative passes the test; if it finds none, no group passes |
| TabGroups.Step | src/background/background.ts:92-106 | defines the placement of one tab: pushed onto the first group FirstFit finds, else the new group [i] at the end (no contract of its own; `StepExtends`, `StepPartition`, `StepOrdered` and `StepFirstFit` state its properties) |
| TabGroups.Grouping | src/background/background.ts:88-107 | the greedy fold of Step over tabs 0 .. n-1; there are at most n groups (`GroupingPartition`, `GroupingOrdered` and `GroupingFirstFit` state the rest) |
| TabGroups.StepExtends | src/background/background.ts:92-106 | placing a tab adds at most one group, the new group is [i], and each old group is unchanged or gains i at its end |
| TabGroups.StepPartition | src/background/background.ts:88-107 | placing tab n-1 into a partition of 0..n-2 gives a partition of 0..n-1 |
| TabGroups.GroupingPartition | src/background/background.ts:88-107 | after n tabs, every index below n lies in exactly one group, no other value appears, no group is empty, and each group's indices increase strictly |
| TabGroups.PushPartition | src/background/background.ts:98 | pushing the next index onto an existing group keeps the partition |
| TabGroups.CreatePartition | src/background/background.ts:105 | starting the group [i] keeps the partition |
| TabGroups.StepOrdered | src/background/background.ts:104-106 | placing a tab keeps the groups ordered by their first tabs |
| TabGroups.GroupingOrdered | src/background/background.ts:88-107 | the groups are non-empty and appear in the order of their first tabs (that each first tab stays its group's representative follows from `StepExtends`: a step only appends to existing groups) |
| TabGroups.ProcessTabGroups | src/background/background.ts:84-110 | `processTabGroups(tabs)` returns the greedy first-fit grouping with keys `group_1`, `group_2`, ... in creation order |
| TabGroups.Compare | src/background/background.ts:95-97 | the test on one entry is `Resembles`: the lower-cased texts, in this order, score strictly above 0.3 |
| TabGroups.PlaceTab | src/background/background.ts:89-106 | one outer iteration turns the object for tabs 0..i-1 into the object for tabs 0..i |
| TabGroups.GroupingWellFormed | src/background/background.ts:93-94 | every group has a first tab, and it is a tab of the input |
| TabGroups.PlacedAt | src/background/background.ts:97-100 | pushing i onto the first matching entry and stopping gives the next object |
| TabGroups.PlacedNowhere | src/background/background.ts:104-106 | when no entry matches, assigning `group_<count + 1> = [i]` gives the next object |
| TabGroups.JoinsIff | src/background/background.ts:95-97 | `sim > 0.3` holds exactly when 10 * (L - d) > 3 * L, or both texts are empty |
| TabGroups.JoinsSelfIff | src/background/background.ts:95-97 | a text passes the test against an equal text exactly when its length is not 1 |
| TabGroups.StepFirstFit | src/background/background.ts:92-106 | placing a tab keeps the first-fit rule for all earlier tabs and establishes it for the new one |
| TabGroups.GroupingFirstFit | src/background/background.ts:88-107 | every tab fails the test against the representatives of all groups created before its own, and every non-first member passes it against its own group's representative |
| TabGroups.PushFirstFit | src/background/background.ts:97-100 | joining the first matching group keeps the first-fit rule |
| TabGroups.CreateFirstFit | src/background/background.ts:104-106 | starting a new group when nothing matches keeps the first-fit rule |
| TabGroups.KeysDistinct | src/background/background.ts:105 | entry g has key `group_<g + 1>` and no two entries share a key |
| TabGroups.FirstGroup | src/background/background.ts:85-105 | no tabs give the empty object; otherwise `group_1` is the first entry and begins with tab 0, and there are at most as many groups as tabs |
| TabGroups.BlankNeverJoinsBlank | src/background/background.ts:90 | a tab with neither title nor url has text `" "`, and with a lower-casing that leaves the space alone it never passes the test against another such tab |
| TabGroups.BlankTabsApart | src/background/background.ts:88-107 | a group whose first tab is blank holds no other blank tab |
| TabGroups.AllAlike | src/background/background.ts:88-107 | tabs that all have the same text, lower-cased to any length but 1, end up in one group holding every index in order |

## Left out

- `initTensorFlow`, `initModel`, the globals `model` and `isModelLoading`, and the polling wait (src/background/background.ts:1-42): dynamic foreign imports and asynchronous waiting that the grouping never calls.
- The `chrome.runtime.onMessage` listener and the `chrome.tabs.query` fallback (src/background/background.ts:113-137): message passing and browser I/O.
- The popup, the drag-and-drop components, the bundled vendor libraries, the content script and the icon script: UI, DOM and file-system code outside the grouping.
- `toLowerCase` is the abstract parameter `lower`. Unicode case mapping is not modelled, and strings are sequences of `char` rather than UTF-16 code units.
- The division at line 80 is exact over the reals; IEEE-754 rounding is not modelled. The test is also stated in integers (`JoinsIff`).
- `costs` starts as an empty JavaScript array that grows as it is written. The model allocates its L + 1 cells up front; every cell is written before it is read.
- `groups[groupId].map(idx => tabs[idx])` at line 93 maps every member of the group, but only the first is read. The model reads the first member directly.
- `groups[groupId].push(i)` is modelled on the entry at the position where the `for...in` scan stopped. That entry is the one holding `groupId`, because keys are distinct (`KeysDistinct`).
- A tab is reduced to its optional `title` and `url`. `title || ''` also maps an empty string to `''`, which gives the same text.
- RepText: falls back to `""` for an empty group or an out-of-range index. The pass never builds either (`GroupingWellFormed`), so the fallback is never used.
- Determinism holds by construction: every function in the model is deterministic.
