# Word-sorting widget: a Dafny model

The widget takes a line of words separated by dashes. It classifies each word as a lower-case word, an upper-case word or a number. It sorts each group and shows every word as a grey "pill" in a source block. A pill can be dragged into an interactive block, where it takes a random colour and is placed at the cursor. It can be dragged back, where it takes its grey colour again and returns to its original position. Clicking a pill in the interactive block does two things: it appends the word to an output log, and it updates a summary line that counts clicks per word, with Russian pluralisation.

The pluralisation rule gives `раз` for one click, `раза` for two to four, and `раз` for every other count. From 22 on this does not follow Russian grammar, which takes `раза` for 22 to 24, 32 to 34 and so on, where the widget writes `раз`. The model keeps the rule exactly as the widget has it.

The project models this in five modules:

- `Text` (`text.dfy`) covers JavaScript's `String.prototype.trim`, `split` on one character, `join`, the `^\d+$` digit test, the exact value of a digit string, and the decimal rendering of a number.
- `Sorting` (`sorting.dfy`) is the stable sort `Array.prototype.sort` performs. It is an insertion sort over sequences, with sortedness, permutation and stability lemmas.
- `Items` (`items.dfy`) models `createItemsFromLine`. It covers tokenising, classifying, grouping, sorting each group, keys `a1`/`b1`/`n1`, identifiers `item-N` and the initial item state.
- `Summary` (`summary.dfy`) models the pluralisation rule, the click summary line and the output log with its space separator.
- `Board` (`board.dfy`) models the whole widget as a state machine, with these parts:
  - the registry of items, and the two containers as sequences of original indices;
  - the pill colours and offsets, the log and the summary;
  - the parse button, the drop handler, the click guard with `handleClickOnPill`, and `reorderBlock3`;
  - an invariant `Wf` that every event keeps.

`Scenarios` (`scenarios.dfy`) works through concrete inputs:
- the line `3-Banana-apple-1`;
- a blank line;
- clicking one pill twice.

Some behaviour depends on the environment, and those parts become parameters:
- **`localeCompare`** is an abstract comparator `le`. The sortedness results assume it is a total preorder.
- **`Math.random()`** is a `Draw` of three channel values below 155. Each colour channel is `100 + Math.floor(Math.random() * 155)`, so it runs from 100 to 254, never 255, because `Math.random()` is below 1.
- **Cursor and layout sizes** are a `Geometry` of real numbers.

## Model

| member | source | states |
|---|---|---|
| Text.Trim | script.js:12 | The trimmed line is empty exactly when the line is all JavaScript whitespace. Otherwise it starts and ends with non-whitespace and is no longer than the input. |
| Text.TrimOfTrimmed | script.js:27 | Trimming a string that has no whitespace at either end gives the string back. |
| Text.TrimPadded | script.js:27 | Whitespace added at either end does not change the trimmed result. |
| Text.Split | script.js:27 | `split('-')` gives at least one piece, and no piece contains the separator. |
| Text.JoinSplit | script.js:27 | Joining the pieces of a split with the separator gives back the original string. |
| Text.SplitJoin | script.js:27 | Splitting the join of separator-free pieces gives back exactly those pieces. |
| Text.NatToString | script.js:127 | The rendering of a count is all digits with no leading zero and reads back as the count. |
| Text.NatToStringInjective | script.js:66 | Different numbers render differently. |
| Text.ThreeDigits | script.js:137-140 | Every channel value from 100 to 254 is written with three digits. |
| Items.ItemIdInjective | script.js:65-72 | Different positions get different `item-N` identifiers, so no registry entry overwrites another. |
| Items.Tokens | script.js:27 | Every token is non-empty, has no dash, and has no whitespace at either end. |
| Items.TokensOfJoin | script.js:27 | Tokens joined with dashes tokenise back to exactly those tokens, so tokenising loses nothing but empty pieces and edge whitespace. |
| Items.NonEmptyAppend | script.js:27 | Dropping empty pieces keeps the other pieces in their order: filtering two consecutive runs is filtering each and concatenating. |
| Items.TokensOfTrimmed | script.js:12-27 | Trimming the whole line first does not change its tokens. |
| Items.Classify | script.js:33-47 | A token is a number exactly when it is all ASCII digits. Otherwise it is an upper-case word exactly when its first character is in `[A-ZА-ЯЁ]`, and a lower-case word in every other case, including a non-letter first character. |
| Items.GroupsPartition | script.js:33-47 | The three groups together hold every token exactly as often as the line does. |
| Items.GroupsSizes | script.js:33-47 | The group sizes add up to the number of tokens. |
| Items.CreateItems | script.js:20-74 | See the list below the table. |
| Items.CreateItemsGroups | script.js:49-63 | Each group's values, in layout order, are that group's tokens sorted by its comparator. |
| Items.CreateItemsGroupsPermute | script.js:49-51 | Each group of items holds exactly the tokens of that group. |
| Items.CreateItemsSorted | script.js:49-51 | For a consistent `localeCompare`, both word groups are in comparator order and the numbers are in increasing numeric value. |
| Items.NumberOrderSorted | script.js:51 | A sequence sorted by `Number(a) - Number(b)` has non-decreasing numeric values. |
| Items.CreateItemsNumbersStable | script.js:51 | Numbers of equal value, such as `1` and `01`, keep their order from the line. |
| Items.LayoutGroups | script.js:53-63 | Lower-case words come first, then upper-case words, then numbers, each group in its sorted order. |
| Items.LayoutKeys | script.js:55-63 | Each key is its group's letter followed by its 1-based position within the group. |
| Items.LayoutFields | script.js:65-72 | The item at position `i` has id `item-i`, original index `i`, colour `#d3d3d3`, no random colour and no clicks. |
| Sorting.SortBy | script.js:49-51 | A sort returns a permutation of its input. |
| Sorting.SortBySorted | script.js:49-51 | With a total-preorder comparator, the sorted output is in order. |
| Sorting.SortByStable | script.js:49-51 | With a total-preorder comparator, elements that compare equal keep their input order. |
| Sorting.SortByKeyStable | script.js:51 | Sorting by an integer key keeps elements with equal keys in input order. |
| Summary.Plural | script.js:124-126 | The word is `раза` exactly for 2 to 4 clicks and `раз` for every other count. |
| Summary.ClickSummary | script.js:119-132 | With no click anywhere the line is the placeholder. As soon as any item has a click, it is the phrases of the clicked items joined by `, `; ClickedMembers says which items those are, and SummaryIsPlaceholder that the two cases never produce the same text. |
| Summary.ClickedAppend | script.js:121-123 | The summary lists clicked items in registry order: the listing of two consecutive parts of the registry is the listing of the first part followed by that of the second. |
| Summary.ClickedMembers | script.js:121-122 | An item is listed in the summary exactly when it is registered and has at least one click. |
| Summary.SummaryIsPlaceholder | script.js:130-132 | The summary line is the placeholder exactly when no item has been clicked. |
| Summary.ClickedSingle | script.js:121-131 | When only one item has clicks, the summary lists that item alone. |
| Summary.PhraseOfTwoClicks | script.js:127 | The phrase of an item clicked twice reads `нажали 2 раза на элемент "key value"`. |
| Summary.AppendToLog | script.js:115-118 | The log grows by one span in the given colour and keeps the earlier spans. Its text gains the value, preceded by a space unless the log was empty. |
| Summary.LogReadsJoined | script.js:115-118 | Starting from an empty log, a series of clicked non-empty values reads as those values separated by single spaces. |
| Board.RandColor | script.js:135-141 | `randColor()` always gives a non-empty colour string. |
| Board.RandColorInjective | script.js:135-141 | Different draws give different `rgb(R,G,B)` strings. |
| Board.LogColorShown | script.js:117 | Under the invariant, a clickable pill logs the colour it is displayed in, and any item with a random colour, in particular any clicked item, logs that colour: the fallback to the original colour is never taken. |
| Board.Place | script.js:198-211 | `placeElementWithinBlock2` never gives a negative offset; PlaceInside states where the pill lands. |
| Board.Clamp | script.js:206-207 | The offset is never negative. A negative position becomes 0, a position past the room left becomes the room left, and a position in between is kept; when the pill is larger than the block the offset is 0. |
| Board.PlaceInside | script.js:198-211 | A dropped pill that fits in the block lies entirely inside it. It stays centred on the cursor when that is possible, and otherwise goes to the nearer edge: left (top) when the cursor is too far left (up), right (bottom) when too far right (down). A pill larger than the block goes to the left (top) edge. Zero sizes fall back to 140 by 42. |
| Board.Remove | script.js:177 | Taking a pill out of a container removes every occurrence of it and keeps the count of every other pill. |
| Board.RemoveOrder | script.js:177 | Taking out a pill that occurs at most once either changes nothing, when it is absent, or closes the gap at its one position, with the pills before and after it in their order, as `appendChild` moving one node does. |
| Board.Reorder | script.js:190-196 | `reorderBlock3` rearranges the pills of the source block without adding or losing any. |
| Board.ReorderAscending | script.js:190-196 | After `reorderBlock3`, the source block is in strictly increasing order of original index. |
| Board.Lookup | script.js:158-161 | An identifier finds the item that carries it, or none when no item does. |
| Board.Submit | script.js:11-27 | An empty or all-whitespace line raises the alert with its exact message and changes nothing. Any other line builds the items of the trimmed line: every pill grey in the source block in layout order, an empty interactive block, an empty log and the placeholder summary. |
| Board.SubmitAccepted | script.js:11-27 | An accepted line yields one item per token of the line as typed, with exactly those tokens as values. The new board satisfies the invariant. |
| Board.InitialWf | script.js:20-74 | A freshly built board satisfies the invariant. |
| Board.NoClicksSummary | script.js:25 | Before any click the summary line is the placeholder. |
| Board.Drop | script.js:154-187 | A drop leaves the log and the summary alone and keeps the registry size. An identifier that names no item leaves the board unchanged. |
| Board.DropColours | script.js:163-172 | A drop into the source block leaves the registry unchanged. A drop into the interactive block changes at most the dropped item, and only its random colour: one that is set is kept, a missing one becomes the colour of the draw. |
| Board.DropOnInteractive | script.js:163-182 | A pill dropped on the interactive block is in it exactly once, as its last child, and not in the source block, which keeps its other pills in increasing original order. The other pills of the interactive block keep their order. The pill shows its random colour at the clamped cursor position, and no other pill changes colour or offset. |
| Board.DropOnSource | script.js:170-196 | A pill dropped on the source block leaves the interactive block, whose other pills keep their order, joins the source block exactly once, and is drawn grey with no offset. The source block stays in increasing original order. No other pill changes colour or offset. |
| Board.DropWf | script.js:154-196 | Every drop keeps the invariant. |
| Board.ToInteractiveWf | script.js:163-182 | A drop into the interactive block keeps the invariant. |
| Board.ToSourceWf | script.js:170-186 | A drop into the source block keeps the invariant. |
| Board.MoveToInteractive | script.js:177 | Moving a pill to the interactive block keeps every pill in exactly one container. |
| Board.MoveToSource | script.js:177-196 | Moving a pill to the source block keeps every pill in exactly one container, and the reordered source block is ascending. |
| Board.Click | script.js:99-111 | A click never changes the number of items or pills, and an identifier that names no item changes nothing. |
| Board.ClickCounts | script.js:99-113 | A click adds one to the clicked item's count exactly when its pill is in the interactive block, and otherwise changes nothing. No other item, no container and no pill changes. |
| Board.ClickLogs | script.js:115-118 | A click in the interactive block appends the value to the log, after a space unless the log was empty, in the item's random colour. The earlier spans stay as they were. |
| Board.ClickWf | script.js:99-133 | Every click keeps the invariant, including a summary line that matches the click counts. |
| Board.Press | script.js:109-133 | `handleClickOnPill` adds one click to its item and changes nothing else in the registry, the containers or the pills. It appends one span in the item's log colour, keeping the earlier spans, with the space rule on the text, and recomputes the summary from the new counts. |
| Board.PressWf | script.js:109-133 | `handleClickOnPill` on a pill in the interactive block keeps the invariant. |
| Board.StepWf | script.js:11-196 | Any single user action keeps the invariant. |
| Board.StepKeeps | script.js:99-168 | A drop or click never changes a random colour once set and never lowers a click count. |
| Board.RunWf | script.js:11-196 | Any sequence of user actions from a well-formed board keeps the invariant. |
| Board.RunKeeps | script.js:99-168 | Over drops and clicks, random colours once set stay the same and click counts never decrease. |
| Scenarios.CreateItemsExample | script.js:20-74 | `3-Banana-apple-1` becomes apple `a1`, Banana `b1`, 1 `n1`, 3 `n2`, with ids `item-0` to `item-3`, whatever the word comparator. |
| Scenarios.BlankLineAlerts | script.js:11-16 | A line of spaces raises the alert and leaves the board as it was. |
| Scenarios.TwiceClicked | script.js:109-133 | Clicking one pill twice on a fresh board makes the summary read `нажали 2 раза на элемент "key value"`. |
| Scenarios.TwiceClickedLog | script.js:109-118 | Two clicks on a pill with a non-empty value, starting from an empty log, leave the value twice in the log, separated by a space. |

`Items.CreateItems` states the following about the items it builds:
- there is one item per token, and the values are exactly the tokens;
- each item's identifier and original index give its position;
- every item starts grey, with no random colour and no clicks;
- each item's group is its token's class;
- the groups come in the order lower-case, upper-case, numbers;
- keys are numbered from 1 within each group.

## Left out

- The DOM, CSS classes, `innerHTML` clearing and event registration are not modelled. The board state stands in for the page: containers become index sequences, pills become a colour plus an optional offset.
- `alert` is not shown. `Submit` returns its message instead.
- `Math.random()` is not modelled. Its three draws are a parameter, restricted to the range `Math.floor(Math.random() * 155)` can produce.
- `localeCompare` is not modelled. It is a comparator parameter, because its collation depends on the browser's locale data.
- Items.NumberOrder: `Number(a) - Number(b)` is modelled with exact integers. Floating-point precision loss for numbers of more than 15 digits is not modelled.
- Board.Place: offsets are computed in exact real arithmetic. Floating-point rounding and the `px` string formatting of `style.left`/`style.top` are left out.
- Board.OrDefault: `offsetWidth || 140` treats zero as missing. `NaN` cannot arise from a layout size, so it is not modelled.
- The drag source (`dataTransfer` or the `dragItemId` fallback) is not modelled. A drop names the item directly. An identifier that names no item leaves the board unchanged. In the widget this covers two paths. A missing id, or one no element carries, returns early at script.js:159-161. An id that names some other page element, such as `block2`, `output` or `inputLine`, passes `getElementById`, but `items[id]` is then undefined, so script.js:164 or script.js:171 throws a `TypeError` before anything changes.
- `dragstart`/`dragend` styling, the `over` highlight and `pill-floating` are left out. They are presentation only.
- Board.Click: the click guard checks the pill's parent element. It is modelled as membership of the pill's index in the interactive block, which is the same condition under the invariant `Wf`.
- Board.StepKeeps: it holds only between two submitted lines, because a new line replaces every item.

