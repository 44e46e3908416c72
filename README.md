# Flashcard sets: the selection parser and the set editor

This project is a Dafny model of the flashcard feature of an Obsidian community plugin, as
written in `src/ts/flashcards.ts`. It covers three parts:

- **The "Create Flashcard Set" command** (`onCreateFlashcardSetCommand`). It turns selected
  `Term: Definition` text into an ordered list of `[front, back]` cards. It does this with two
  regular expressions and a `while (true)` loop, which emits one card per pass and then slices
  off everything up to the end of the record it found.
- **The `FlashcardSet` record.** A set has a name, its cards, and an id. The id is the creation
  time, read from the clock only when the id argument is the default -1.
- **The `FlashcardSetModal` editor.** Its card container holds an inserter button, then a
  setting and an inserter for each card. Clicking an inserter splices an empty card into the
  set's array and adds a setting and a new inserter next to the button. The trash button
  removes the card (found by `indexOf`) and its setting and inserter. The text fields write the
  front and the back into the card's array in place. Renaming the set retitles the modal.

The modules follow the program's layers:

- `text.dfy`: `Wrappers` (an `Option`) and `Text`. `Text` holds the character classes of
  ECMA-262 that the patterns use: `\w`, the line terminators and the white space `trim`
  removes. It also holds `String.prototype.trim`.
- `patterns.dfy`: `Patterns`, the two regular expressions of lines 289 and 290. Each one has a
  declarative specification: `IsMatch` says what a match is, and `Preferred` gives the order in
  which a backtracking search meets matches. That order is the earliest start, then the longest
  group 2, then the longest group 3. Each pattern is also a hand-written backtracking matcher
  (`SearchFrom`, `TryAt`, `TryTerm`, `TryBody`), proved to return the preferred match. `Exec`
  is `RegExp.prototype.exec` for these two patterns.
- `parser.dfy`: `SelectionParser`.
  - `NextRecord` is one pass's matching.
  - `RecordOf` is the trimmed `[match[2], match[3]]`.
  - `Parse` is the sequence of pairs the loop pushes.
  - The module also proves the parser's properties: a count bound, the shape of every pair,
    skipping of leading text with no record in it, the final record, and the round trip
    `Parse(Render(ps)) == ps` for well-formed pairs. A well-formed front is non-empty, starts
    with a word character, stays on one line and is trimmed. A well-formed back is trimmed,
    holds no `:`, and has no line terminator other than `\n`. Every pair the parser produces
    is well-formed except that its back may hold a `:`, so parsing its own output written
    back out gives the same pairs when no back holds one (`ParseIdempotent`).
- `flashcards.dfy`: `Flashcards`, with three classes:
  - `Flashcard` is one `[front, back]` array, an object with identity, because the modal finds
    it again with `indexOf` and edits it in place;
  - `FlashcardSet`;
  - `FlashcardSetModal`, whose container is a `seq<Child>` of inserters and settings in
    document order.

  The module also holds the command's loop (`CollectCards`) and the command itself.
  `Valid()` is the modal's invariant: the container is `Layout(cards)` and the cards are
  distinct objects.

How the source maps to the model:

- The clock (`Date.now()`) is the parameter `now`, and the editor's selection is the parameter
  `selection`. The modal that `openFlashcardEditorModal` opens is the command's result.
- `id` is an `Option<int>`. `None` stands for the property that the constructor never assigns
  when the id argument is not -1.
- `insertBefore` is `MoveBefore`, and `el.remove()` is `RemoveChild`.
- `Array.prototype.splice` is `Splice`, with its clamping of a negative start. `indexOf`
  compares by identity and is `IndexOf`.

Behaviour as the code has it:

- The term of a record is group 2, `\w.*`. It is greedy, so the term runs to the last `:` on
  its line after which the rest of the pattern still matches. When no body fits after that
  colon, the search backtracks to an earlier one. `TryTerm` models this backtracking.
- The body of a record that is not the last (line 289) may span several lines. It stops at
  the line feed before the next line that has a `:` after its first character. A line whose
  only `:` is its first character stays in the body: `a: x\n:y\nb:c` gives `[a, x\n:y]` and
  `[b, c]` (`LeadingColonLineInBody`).
- In the non-final pattern, a body character other than a line feed may not be followed by a
  `:`, but the body's first character may itself be one. So `a::\nb:c` gives `[a, :]` and
  `[b, c]` (`ColonBackParse`). The last-record pattern puts no such limit on its body.
- Neither `.` nor `\n` matches a carriage return, so with CRLF line endings no body can reach a
  line feed. When the text ends with a CRLF, neither pattern matches and the command gives no
  card at all (`CrlfTextGivesNoPairs`). Without a final line break, only the last record is
  found (`CrlfTextKeepsLastPair`).

## Model

| member | source | states |
|---|---|---|
| Text.Trim | src/ts/flashcards.ts:298 | the result of `trim()` starts and ends with no white space or line terminator |
| Text.TrimIsMiddle | src/ts/flashcards.ts:298 | `trim()` returns a middle part of its argument, with only white space cut from either end |
| Text.TrimTrimmed | src/ts/flashcards.ts:298 | `trim()` leaves an already trimmed string unchanged |
| Text.TrimKeepsFirst | src/ts/flashcards.ts:298 | trimming a term that starts with a non-space keeps a non-empty prefix of it |
| Patterns.IsMatch | src/ts/flashcards.ts:289-290 | a match of either pattern starts with a word character, has the `:` right after its term, and has at least one body character, all within the text |
| Patterns.PreferredIsTotalOrder | src/ts/flashcards.ts:289-292 | the order in which the search meets matches (earliest start, then longest term, then longest body) is total and antisymmetric, so at most one match is met first |
| Patterns.Exec | src/ts/flashcards.ts:289-294 | `exec` returns a match of the pattern that is preferred over every other match, and returns nothing exactly when the pattern matches nowhere |
| Patterns.SearchFrom | src/ts/flashcards.ts:292 | the scan over start positions from i finds the preferred match among those starting at i or later, or shows that none exists |
| Patterns.TryAt | src/ts/flashcards.ts:289-290 | a match attempt at one position returns the preferred match starting there, or none exists |
| Patterns.TryTerm | src/ts/flashcards.ts:289-290 | backtracking the greedy `\w.*` term from its longest extent finds the preferred match whose colon is before k, or shows there is none |
| Patterns.TryBody | src/ts/flashcards.ts:289-290 | backtracking the greedy body finds the longest body, ending by k, that the tail accepts |
| Patterns.LineEnd | src/ts/flashcards.ts:289-290 | `.*` extends to the next line terminator or to the end |
| Patterns.UnitRunEnd | src/ts/flashcards.ts:289-290 | the body's repeated unit extends exactly as far as the unit keeps matching |
| Patterns.ExecIsOptimum | src/ts/flashcards.ts:292 | a match preferred over all others is what `exec` returns |
| Patterns.MatchShifts | src/ts/flashcards.ts:289-290 | the patterns look only at and after the match start, so prepending text shifts a match and changes nothing else |
| Patterns.MatchAfterPrefix | src/ts/flashcards.ts:289-290 | no match starts inside leading text in which no term can start |
| Patterns.ExecSkipsPrefix | src/ts/flashcards.ts:292-294 | `exec` on text after such a prefix finds the same match, shifted by the prefix length |
| SelectionParser.NextRecord | src/ts/flashcards.ts:292-297 | a pass's record spans at least three characters, has `:` after its term, is followed by a line feed or the end, and matches one of the two patterns; no record exactly when neither pattern matches |
| SelectionParser.RecordOf | src/ts/flashcards.ts:298 | the pair of a record is trimmed on both sides |
| SelectionParser.Parse | src/ts/flashcards.ts:291-300 | the loop gives no pair exactly when neither pattern matches the selection |
| SelectionParser.ParseCountBound | src/ts/flashcards.ts:291-300 | the loop makes at most as many cards as the selection has colons |
| SelectionParser.ColonFreeTextGivesNoPairs | src/ts/flashcards.ts:291-300 | a selection without a colon gives no cards |
| SelectionParser.RecordShape | src/ts/flashcards.ts:289-290 | a record's front starts with a word character, stays on one line and is trimmed, and its back is trimmed with no line terminator other than `\n` |
| SelectionParser.ParsedPairsShape | src/ts/flashcards.ts:291-300 | every card the loop pushes has that shape |
| SelectionParser.ParseIdempotent | src/ts/flashcards.ts:291-300 | when no back of the cards parsed from a selection holds a `:`, writing those cards out as `front: back` lines and parsing again gives the same cards |
| SelectionParser.NextRecordSkipsPrefix | src/ts/flashcards.ts:292-297 | leading text in which no term can start does not change the record found, only its position |
| SelectionParser.ParseSkipsPrefix | src/ts/flashcards.ts:291-300 | such leading text (a heading, a list marker) adds no card and changes none |
| SelectionParser.RecordOfMoved | src/ts/flashcards.ts:298 | the pair of a record does not depend on the text before it |
| SelectionParser.LastRecordIsFinal | src/ts/flashcards.ts:290-300 | when only the last-card pattern matches (and the text has no line terminator other than `\n`), its record runs to the end of the text and is the only card |
| SelectionParser.FinalLineRecord | src/ts/flashcards.ts:290-297 | a single well-formed `front: back` line is found whole as a record |
| SelectionParser.NonFinalLineMatch | src/ts/flashcards.ts:289 | a well-formed record line followed by a line with a `:` after its first character matches the non-final pattern as a whole line |
| SelectionParser.NonFinalLineBest | src/ts/flashcards.ts:289-292 | that whole-line match is preferred over any other match of the non-final pattern |
| SelectionParser.NonFinalLineRecord | src/ts/flashcards.ts:289-292 | the record found in text whose first line is a well-formed record and whose second line has a `:` after its first character is exactly the first line |
| SelectionParser.RenderedFirstRecord | src/ts/flashcards.ts:289-292 | in rendered records, the first pass finds exactly the first line |
| SelectionParser.SingleLineParse | src/ts/flashcards.ts:290-300 | a single rendered line parses back to its pair |
| SelectionParser.LineThenParse | src/ts/flashcards.ts:298-299 | when the first line is the record found, the cards are its pair followed by the cards of the rest after the line feed |
| SelectionParser.RoundTrip | src/ts/flashcards.ts:289-300 | rendering well-formed pairs as `front: back` lines and running the command's parser gives back exactly those pairs, in order |
| SelectionParser.OnlyRecord | src/ts/flashcards.ts:289-300 | `Only: thing` gives the card `[Only, thing]` |
| SelectionParser.TwoRecords | src/ts/flashcards.ts:289-300 | `France: Paris\nSpain: Madrid` gives two cards in order |
| SelectionParser.MultiLineBody | src/ts/flashcards.ts:289-300 | a body continues over a line without a colon: `Term: one\ntwo\nNext: x` gives `[Term, one\ntwo]` and `[Next, x]` |
| SelectionParser.HeadingSkipped | src/ts/flashcards.ts:289-300 | a heading line without a colon and a `- ` list marker before a record add no card |
| SelectionParser.PairAfterLineFeed | src/ts/flashcards.ts:289-300 | the text left after a record, `\nb:c`, gives the pair `[b, c]` |
| SelectionParser.LeadingColonLineInBody | src/ts/flashcards.ts:289 | a line whose only `:` is its first character stays in the body: `a: x\n:y\nb:c` gives `[a, x\n:y]` and `[b, c]` |
| SelectionParser.ColonBackParse | src/ts/flashcards.ts:289-300 | a back may be a lone colon: `a::\nb:c` gives `[a, :]` and `[b, c]` |
| SelectionParser.ColonBackReparsed | src/ts/flashcards.ts:289-300 | `a: :\nb: c` gives the single pair `[a:, b: c]` |
| SelectionParser.RoundTripNeedsColonFreeBacks | src/ts/flashcards.ts:289-300 | pairs whose back is a colon do not survive being written out and parsed again |
| SelectionParser.CrlfTextGivesNoPairs | src/ts/flashcards.ts:289-300 | CRLF text ending in a CRLF gives no card |
| SelectionParser.CrlfTextKeepsLastPair | src/ts/flashcards.ts:289-300 | CRLF text without a final line break gives only its last pair |
| Flashcards.Flashcard.constructor | src/ts/flashcards.ts:298 | a card array holds the front and the back it is built with |
| Flashcards.PairsAt | src/ts/flashcards.ts:10 | the text of a set's cards is each card's `[front, back]`, in order |
| Flashcards.IndexOf | src/ts/flashcards.ts:92 | `indexOf` is -1 exactly when the card is absent; otherwise it is the first position holding the card |
| Flashcards.IndexOfDistinct | src/ts/flashcards.ts:92 | among distinct cards, `indexOf` finds a card's own position |
| Flashcards.Splice | src/ts/flashcards.ts:109 | `splice` keeps the elements before the clamped start, puts the items there, drops `deleteCount` elements (none when it is not positive, at most what lies after the start) and keeps the rest in order |
| Flashcards.SpliceStart | src/ts/flashcards.ts:92 | `splice` clamps its start into the array, counting a negative start from the end |
| Flashcards.SpliceInserts | src/ts/flashcards.ts:109 | `splice(i, 0, items)` puts the items at i and keeps the rest in order around them |
| Flashcards.SpliceInsertsAt | src/ts/flashcards.ts:109 | `splice(i, 0, items)` is the prefix, the items, then the suffix |
| Flashcards.SpliceRemovesOne | src/ts/flashcards.ts:92 | `splice(i, 1)` removes exactly the element at i |
| Flashcards.SpliceMinusOne | src/ts/flashcards.ts:92 | `splice(-1, 1)` removes the last element |
| Flashcards.SpliceAtIndexOf | src/ts/flashcards.ts:92 | removing at `indexOf` removes the card when present, and otherwise the last card |
| Flashcards.Layout | src/ts/flashcards.ts:59-63 | the container of n cards has 2n + 1 children |
| Flashcards.LayoutAt | src/ts/flashcards.ts:59-63 | inserters sit at even positions, and the setting of card i at position 2i + 1 |
| Flashcards.LayoutInserter | src/ts/flashcards.ts:107-108 | an inserter's previous sibling is the setting of the card before its slot, or it has none |
| Flashcards.LayoutSetting | src/ts/flashcards.ts:90 | a setting's previous sibling is an inserter |
| Flashcards.LayoutInsert | src/ts/flashcards.ts:109-113 | inserting a card into the array corresponds to inserting an inserter and its setting in the container |
| Flashcards.LayoutRemove | src/ts/flashcards.ts:91-93 | removing a card corresponds to removing its setting and the inserter before it |
| Flashcards.LayoutGrowsAt | src/ts/flashcards.ts:107-113 | inserting at an inserter's slot adds an inserter and a setting at that inserter's position |
| Flashcards.MoveBefore | src/ts/flashcards.ts:112-113 | `insertBefore` of a child already in the container keeps the number of children |
| Flashcards.MoveBeforeKeepsChildren | src/ts/flashcards.ts:112-113 | `insertBefore` neither loses nor duplicates a child |
| Flashcards.MoveBeforeMoves | src/ts/flashcards.ts:112-113 | `insertBefore` puts the node just before the reference node and leaves the other children in order |
| Flashcards.SettingMovedBefore | src/ts/flashcards.ts:112 | the new setting, appended last, lands just before the clicked inserter |
| Flashcards.InserterMovedBefore | src/ts/flashcards.ts:113 | the new inserter, appended last, lands just before the new setting |
| Flashcards.ClickMoves | src/ts/flashcards.ts:110-113 | the two appends and the two `insertBefore` calls put an inserter and the new setting where the clicked inserter was |
| Flashcards.InsertIndex | src/ts/flashcards.ts:107-108 | the insert index lies within the array; it is positive exactly when the previous sibling is the setting of a card in the array, and then that card is the one just before the index |
| Flashcards.InsertIndexIsRank | src/ts/flashcards.ts:107-108 | the insert index an inserter computes is its slot: 0 for the first inserter, and one past its previous card otherwise |
| Flashcards.CardOfSetting | src/ts/flashcards.ts:92 | a setting in a valid container belongs to a card of the set, so `indexOf` is never -1 there |
| Flashcards.DistinctInsert | src/ts/flashcards.ts:109 | splicing in a new card keeps the cards distinct |
| Flashcards.DistinctRemove | src/ts/flashcards.ts:92 | removing a card keeps the cards distinct |
| Flashcards.PairsInsert | src/ts/flashcards.ts:109 | after an insertion, the set's text is the old text with the new card's pair inserted at its index |
| Flashcards.PairsRemove | src/ts/flashcards.ts:92 | after a removal, the set's text is the old text without that card's pair |
| Flashcards.PushCard | src/ts/flashcards.ts:298 | pushing a new card appends its pair and keeps the cards distinct |
| Flashcards.LoopStep | src/ts/flashcards.ts:291-299 | one pass keeps the loop invariant: the pairs pushed, followed by the pairs of the remaining text, are the pairs of the selection |
| Flashcards.FindRecord | src/ts/flashcards.ts:292-297 | the two `exec` calls find the record `NextRecord` specifies |
| Flashcards.NewCard | src/ts/flashcards.ts:298 | the pushed array is new and holds the trimmed term and body of the record |
| Flashcards.CollectCards | src/ts/flashcards.ts:285-300 | the loop's cards are distinct arrays whose text is `Parse(selection)` |
| Flashcards.OnCreateFlashcardSetCommand | src/ts/flashcards.ts:280-303 | the command opens a valid modal on a new set named "My Flashcard Set" whose id is the clock. An empty selection gives one empty card; any other selection gives the parsed cards |
| Flashcards.FlashcardSet.constructor | src/ts/flashcards.ts:7-15 | the set keeps its name and cards; its id is the clock when the id argument is -1, and unassigned otherwise |
| Flashcards.FlashcardSetModal.constructor | src/ts/flashcards.ts:20-64 | the title names the set, and the container is an inserter, then a setting and an inserter for each card |
| Flashcards.FlashcardSetModal.CreateFlashcardInserter | src/ts/flashcards.ts:101-105 | a new inserter is appended to the container |
| Flashcards.FlashcardSetModal.CreateFlashcardSettingEl | src/ts/flashcards.ts:66-98 | a new setting for the card is appended to the container |
| Flashcards.FlashcardSetModal.ClickInserter | src/ts/flashcards.ts:106-113 | clicking an inserter splices a new empty card in at its slot, and puts an inserter and the card's setting where the inserter was. The modal stays valid, and the name and id are unchanged |
| Flashcards.FlashcardSetModal.InsertEmptyCard | src/ts/flashcards.ts:109 | a new `["", ""]` array is spliced in at the index |
| Flashcards.FlashcardSetModal.PlaceNewCard | src/ts/flashcards.ts:110-113 | the new inserter and setting end up at the clicked inserter's position, in that order |
| Flashcards.FlashcardSetModal.ClickRemove | src/ts/flashcards.ts:85-94 | the trash button removes its card from the array, and its setting and the inserter before it from the container. The modal stays valid |
| Flashcards.FlashcardSetModal.RemoveChild | src/ts/flashcards.ts:91 | `remove()` takes one child out of the container |
| Flashcards.FlashcardSetModal.RemoveCard | src/ts/flashcards.ts:92 | `splice(indexOf(card), 1)` removes the card when present, and otherwise removes the last card |
| Flashcards.FlashcardSetModal.EditFront | src/ts/flashcards.ts:72-74 | typing in the front field sets that card's front in the set and changes no other text |
| Flashcards.FlashcardSetModal.EditBack | src/ts/flashcards.ts:81-83 | typing in the back field sets that card's back in the set and changes no other text |
| Flashcards.FlashcardSetModal.Rename | src/ts/flashcards.ts:27-31 | typing a name renames the set and retitles the modal, and changes no card |

## Left out

- The rest of the repository is not part of this model: `main.ts`, the share modal, the
  all-sets modal, the write game, command registration, and the saving callback in `onClose`.
  They are host and UI code.
- The share and write-game buttons and the headings the modal constructor adds
  (`src/ts/flashcards.ts:33-56`) are not modelled. They do not touch the set or the card
  container.
- Scrolling to a new card (`src/ts/flashcards.ts:114-121`) and resizing the text area after a
  timeout (lines 78-80) are layout effects and are not modelled.
- A setting's displayed field values are not modelled. The container records only which card
  each setting edits.
- Flashcards.FlashcardSetModal.constructor: requires the set's card arrays to be distinct
  objects. The source does not check this, but every set the command builds has fresh arrays.
  A set holding the same array twice would break the container and array mirroring that
  `Valid()` states.
- Flashcards.FlashcardSetModal.ClickInserter, Flashcards.FlashcardSetModal.ClickRemove,
  Flashcards.FlashcardSetModal.EditFront, Flashcards.FlashcardSetModal.EditBack and
  Flashcards.FlashcardSetModal.Rename: they require `Valid()`, the invariant the constructor
  establishes and every one of them keeps. Events on a modal the model cannot reach are not
  considered.
- Flashcards.CollectCards: states the cards' text and their distinctness, but not that the
  arrays are new objects.
- SelectionParser.RoundTrip: holds only for pairs whose backs have no `:`. The loop can
  produce a back that is a colon, and such pairs need not parse back:
  `RoundTripNeedsColonFreeBacks` shows that the pairs of `a::\nb:c`, written out as
  `a: :\nb: c`, parse to the single pair `[a:, b: c]`. For the parser's own output with
  colon-free backs, `ParseIdempotent` gives the round trip.
- Strings are sequences of Unicode characters rather than of UTF-16 code units. A character
  outside the Basic Multilingual Plane is one character here and two code units in the source.
  Neither form is a line terminator, a word character, a colon or white space, so this changes
  only how positions are counted, not which records are found.
- Regular expressions in general are not modelled, only the two patterns of lines 289 and 290.
- The example strings in the concrete parsing lemmas are short on purpose, because every
  character of a literal costs the verifier.
