# Tactical Hub: a Dafny model of the note store and the report layout

Tactical Hub is a browser app that a football coach uses to take notes during a
match. It keeps one document in local storage. The document holds games, each with
a profile and notes filed under a category panel, and athletes, each with notes of
their own. The app exports two PDF reports: the game report, with its notes grouped
by panel and sorted by minute, and an athlete's notes.

This project models the logic behind those features in `script.js`:

- **Store** (`store.dfy`): the document transitions. These are creating, selecting
  and deleting a game, adding and removing athletes and athlete notes, and adding
  and removing game notes. Selection uses JavaScript's `==`, and everything else
  compares ids with `===`. The model keeps the difference with a `Ref` that can be
  `null`, a number or a string (`model.dfy`).
- **StoreFacts** (`store_facts.dfy`): invariants kept by every sequence of user
  actions. These are unique ids within each collection, and a current-game reference
  that always names a game. It also holds the selection defect described under
  Findings, and its correction. `Store.LoadGame` is kept as written; the user
  actions of `StoreFacts.Apply` choose games with the corrected `StoreFacts.SelectGame`.
- **Queries** (`queries.dfy`): the notes listed in one panel, and the athlete
  search.
- **MinuteSort** (`minute_sort.dfy`): the stable sort by minute. Any stable sort
  gives the same result.
- **Grouping** (`grouping.dfy`): how the game report groups notes under
  `category-subcategory` keys. It also covers how each key is split back into tokens
  for the headings. This is done at the first `-`, so dashed category names such as
  `org-def` never find their label. The model reproduces that as written.
- **Layout** (`layout.dfy`): the page model. It covers the cursor, `checkNewPage`,
  wrapped lines, the file name and the footer.
- **GameReport** and **AthleteReport** (`game_report.dfy`, `athlete_report.dfy`):
  the two exports, as the sequence of text, line, add-page and set-page calls they
  make.
- **Scenario** (`scenario.dfy`): one session, from creating a game to deleting it.

Clocks, dialogs and library calls are parameters of the model:

- `Date.now()` is `now`, and the ISO date is `today` or `isoDate`.
- The pt-PT locale date is `today`.
- The answer to `confirm` is `confirmed`.
- `parseInt` of the minute field is an `Option<int>`, with `None` for `NaN`.
- `splitTextToSize(text, 170)` is `wrap`.
- Whether `window.jspdf` is loaded is `pdfAvailable`.

## Model

| member | source | states |
|---|---|---|
| Store.GetCurrentGame | script.js:654-656 | `find` with `===`: a game is returned exactly when some game's id is strictly equal to the current reference, and it is the first such game in the list |
| Store.AthleteIndex | script.js:390 | `find(a => a.id === r)`: the first athlete whose id is strictly equal to the reference, or none when no athlete matches |
| Store.LoadGame | script.js:187-191 | when some game's id is `==` the argument, the argument itself becomes the current reference; otherwise the document is unchanged |
| Store.CreateNewGame | script.js:148-185 | a blank (after trim) name only alerts; otherwise exactly one game is appended, with id `now`, the trimmed name, the date or today's date, no notes, and a profile whose team, coach, opponent, competition, location, formation and game-notes fields are empty and whose game name and date are the trimmed name and the raw date; the new id becomes the current reference, and the athletes, the team profile and the theme are unchanged |
| Store.DeleteCurrentGame | script.js:212-227 | no selection alerts; a declined confirmation changes nothing; a confirmed delete removes exactly the games whose id is `===` the reference, keeps the others in order with their multiplicities, clears the selection, and leaves the athletes, the team profile and the theme unchanged |
| Store.SaveAthlete | script.js:298-325 | a blank name alerts; otherwise one athlete is appended with id `now`, trimmed name and position, the raw number and no notes, and the games, the selection, the team profile and the theme are unchanged |
| Store.DeleteAthlete | script.js:372-378 | when confirmed, exactly the athletes with that id are removed, the rest keep their order and multiplicities, and the games, the selection, the team profile and the theme are unchanged |
| Store.SaveAthleteNote | script.js:387-410 | no pending athlete, or no athlete with that id, changes nothing; a blank text alerts; otherwise one note (id `now`, `parseInt(...) \|\| 0` minute, trimmed text) is appended to the first athlete whose id is `===` the pending id, and the other athletes, the games, the selection, the team profile and the theme are unchanged |
| Store.SaveNote | script.js:550-581 | no current game changes nothing; a form with blank text, no image and blank video alerts; otherwise the note with the panel keys, trimmed text and link and `\|\| 0` minute is appended to the current game (the first `===` match) only, and the other games, the athletes, the selection, the team profile and the theme are unchanged |
| Store.DeleteNote | script.js:583-593 | when confirmed and a game is current, exactly the notes with that id leave that game and the others keep their order and multiplicities; no other game, the athletes, the selection, the team profile and the theme change |
| StoreFacts.CreateNewGameSelectsIt | script.js:148-185 | with a clock value no game has yet, the game just created is the one `getCurrentGame` returns afterwards |
| StoreFacts.DeleteCurrentGameClearsIt | script.js:212-227 | after a confirmed delete of a numeric selection no game is current, no game with that id remains, and every other game survives |
| StoreFacts.SelectFromListHidesCurrentGame | script.js:187-191 | choosing a game by the string value of its id makes that string current, after which no game is current, saving a note does nothing and a confirmed delete removes no game |
| StoreFacts.SelectGame | script.js:187-191 | corrected selection: the id of the game found by `==` becomes the current reference, and when no game matches nothing changes |
| StoreFacts.SelectGameFromListSelectsIt | script.js:187-191 | with the corrected selection, choosing a game from the list by its string id makes a game with that id current |
| StoreFacts.SelectGameAgreesOnNumbers | script.js:176 | for a numeric argument, as `createNewGame` passes, the corrected selection and `loadGame` give the same document |
| StoreFacts.RunKeepsUniqueIds | script.js:157-158 | when the clock is ahead of every stored id and advances between creations, no sequence of user actions makes two games, two athletes or two notes of one owner share an id |
| StoreFacts.RunKeepsCurrentLoaded | script.js:654-656 | with the corrected selection, a non-null current reference always names a stored game in the `===` sense, so `getCurrentGame` finds a game whenever one is selected, whatever sequence of actions runs |
| Queries.NotesFor | script.js:602 | a panel lists exactly the notes whose category and subcategory both match, as often as they occur, in insertion order |
| Queries.SearchAthletes | script.js:331-336 | the search lists exactly the athletes whose lower-cased name, number (when set) or lower-cased position (when set) contains the trimmed lower-cased term, in order, with their multiplicities |
| Queries.BlankSearchListsAll | script.js:331-336 | an empty or all-blank search box lists every athlete, in order |
| Queries.SearchIgnoresTermCase | script.js:331 | typing the term in upper or lower case gives the same list |
| MinuteSort.SortBy | script.js:481 | the result is sorted by minute and is a permutation of the input |
| MinuteSort.SortIsStable | script.js:481 | for every minute, the notes with that minute keep their relative order |
| MinuteSort.StableSortIsUnique | script.js:860 | two sequences sorted by key with the same per-key subsequences are equal, so the stable sort has one possible result |
| MinuteSort.AnyStableSortAgrees | script.js:860 | any sorted sequence that keeps the per-minute order of the notes is the model's sort of them |
| Grouping.GroupNotes | script.js:829-836 | the groups have pairwise distinct keys |
| Grouping.GroupKeysAreNoteKeys | script.js:829-836 | a key has a group exactly when some note of the game has that key |
| Grouping.GroupsAreFilters | script.js:829-836 | each group holds exactly the notes with its key, in the order they were pushed |
| Grouping.GroupsInFirstOrder | script.js:839 | groups are listed in the order in which their keys first occur among the notes |
| Grouping.GroupsArePermutation | script.js:829-836 | the groups together hold every note exactly as often as the game does |
| Grouping.NoteInExactlyOneGroup | script.js:829-836 | a note of the game is in a group exactly when the group's key is the note's key |
| Grouping.EveryNoteHasAGroup | script.js:829-836 | every note of the game has a group |
| Grouping.SplitGroupKey | script.js:841-842 | the category token has no dash, and a key with a dash is the category token, a dash and the subcategory token |
| Grouping.SplitRecoversTokens | script.js:841-842 | splitting a note's key gives back its category and subcategory exactly when the category has no dash |
| Grouping.KeysSeparatePanels | script.js:831 | for dash-free categories, two notes share a group exactly when they share both category and subcategory |
| Grouping.KeysCollideWithDashes | script.js:831 | with dashes in names, notes of different panels ("a-b"/"c" and "a"/"b-c") fall into one group |
| Grouping.HeadingsOfPlainCategory | script.js:841-856 | for a dash-free category, the title is its label (or the token) and the subtitle the subcategory's label (or the token) |
| Grouping.HeadingsOfDashedCategory | script.js:841-856 | for a category "a-b", the title is looked up under "a" and the subtitle under "b-" followed by the subcategory |
| Grouping.DashedTaxonomyShowsRawTokens | script.js:808-856 | for the four dashed categories of the taxonomy, the title is the raw token before the dash and the subtitle the raw rest of the key |
| Grouping.SetPiecesAreLabelled | script.js:808-856 | set-piece groups get the "BOLAS PARADAS" title and the subcategory's label |
| Layout.CheckNewPage | script.js:728-735 | a page is added, and the cursor goes back to the top, exactly when the needed space below the cursor crosses the bottom margin; otherwise nothing changes; afterwards the needed space fits |
| Layout.Lines | script.js:874-880 | wrapped lines never cross the bottom margin, and each line adds at most one page |
| Layout.LinesAdvance | script.js:492-496 | when all lines fit, the cursor moves 5 mm per line and no page is added |
| Layout.LinesPrints | script.js:874-880 | wrapped lines write exactly those lines, in order; the page breaks between them write nothing |
| Layout.PlainLinesPrints | script.js:774-802 | lines placed without page checks write exactly those lines, in order |
| Layout.FileName | script.js:926 | the name is the prefix, then the sanitised name (ASCII letters and digits kept, every other character `_`), then `_`, the ISO date and `.pdf` |
| Text.Sanitize | script.js:504 | each character is kept when it is an ASCII letter or digit and replaced by `_` otherwise; the length is unchanged |
| Text.SanitizeIdempotent | script.js:504 | sanitising twice is sanitising once, and a name of letters, digits and `_` is left alone |
| Text.Trim | script.js:149 | `trim` gives the part of the input between a whitespace prefix and a whitespace suffix, which begins and ends with a non-whitespace character, and is empty exactly when the input is all whitespace |
| Text.NumberRoundTrip | script.js:188 | the decimal string of a number converts back to that number, which is why `==` finds a game by its option value |
| Layout.Stamps | script.js:914-922 | footer entry `i` goes to page `i`, writes "Gerado em: date - Página i/total" 10 mm above the page bottom and the brand 5 mm above it |
| Layout.FooterVisitsEachPageOnce | script.js:913-923 | the footer visits the pages 1..total once each, in increasing order |
| GameReport.VideoLine | script.js:894 | the video line shows at most the first 40 characters of the link, a prefix of it, always followed by "..." |
| GameReport.ProfileLines | script.js:774-802 | one line per non-empty field, label then value ("Equipa: ", "Treinador: ", "Adversário: ", "Competição: ", "Local: ", "Formação: "), in that order, and none at all exactly when those six fields are empty |
| GameReport.Heading | script.js:737-759 | the title block draws one rule and leaves the cursor at 58 mm on page 1 |
| GameReport.HeadingPrints | script.js:737-759 | the title block writes the title, the game name (or "Jogo sem nome") and the date (or today's date), in that order, and nothing else |
| GameReport.ProfileBlockPrints | script.js:762-805 | the profile block writes nothing when no printed field is set, and otherwise "INFORMAÇÕES" followed by the profile lines |
| GameReport.NoteBlockPrints | script.js:860-908 | a note block writes the minute with `'`, the wrapped text when there is text, the image line when an image is attached and the video line when a link is set, in that order, and nothing else |
| GameReport.NotesBlock | script.js:860-908 | each note of the list gets one block and joins the printed log as it is drawn, so the log grows by exactly those notes in list order, and one rule is drawn per note |
| GameReport.NotesBlockPrints | script.js:860-908 | a run of note blocks writes the texts of each note, note after note |
| GameReport.GroupBlockPrints | script.js:839-911 | a group writes the title and subtitle that `Grouping.GroupHeadings` gives for its key, then its notes by ascending minute |
| GameReport.GroupsBlock | script.js:839-911 | the groups are drawn in order; the printed log grows by each group's notes by ascending minute, group after group, and one rule is drawn per note |
| GameReport.GroupsBlockPrints | script.js:839-911 | the groups write their headings and notes group after group |
| GameReport.Body | script.js:737-911 | the body stays within the margins, draws the header rule and one rule per note, and prints the notes group by group, each group by ascending minute |
| GameReport.BodyPrints | script.js:737-911 | the body writes the title block, then the profile block, then the groups' headings and notes, and nothing else |
| GameReport.ExportPdf | script.js:696-930 | no current game, no notes and no PDF library are reported, each exactly in its case; on success no body text or rule crosses a margin, every page but the first was added by a page check, one rule is drawn per note plus the header rule, the footer stamps every page, the file name is the sanitised game name, the body writes exactly the title block, the profile block and every group's headings and notes, and the notes are printed group by group in first-key order, each group by ascending minute |
| GameReport.ReportPrintsEveryNote | script.js:829-908 | in a successful export the printed notes are exactly the current game's notes, each as often as it occurs |
| GameReport.FooterStampsEveryPage | script.js:913-923 | in a successful export the footer visits every page once, in order, and stamps page `i` with "Página i/pages" |
| AthleteReport.Meta | script.js:463-466 | the meta line is empty exactly when position and number are both empty; with both it is "Posição: p \| Número: #n", with only a position "Posição: p", with only a number "Número: #n" |
| AthleteReport.Heading | script.js:450-477 | the header draws one rule and leaves the cursor at 54 mm with a meta line, 50 mm without one |
| AthleteReport.HeadingPrints | script.js:450-477 | the header writes the title, the athlete's name and, when it is not empty, the meta line, and nothing else |
| AthleteReport.NoteBlockPrints | script.js:482-501 | a note block writes the minute with `'`, then the wrapped text |
| AthleteReport.NotesBlock | script.js:479-502 | each note gets one block and joins the printed log as it is drawn, in list order, with one rule per note |
| AthleteReport.NotesBlockPrints | script.js:479-502 | a run of note blocks writes the texts of each note, note after note |
| AthleteReport.ExportAthleteNotes | script.js:416-507 | the athlete is the first whose id is `===` the argument; a missing athlete, no notes and no PDF library are reported exactly in their cases; on success nothing crosses a margin, one rule is drawn per note plus the header rule, the file name is the sanitised athlete name, the body writes the header and then each note's minute and text, and the notes are printed in the stable minute order of the athlete's notes |
| AthleteReport.PrintOrderIsStableSort | script.js:479-481 | in a successful export the printed notes are sorted by minute, are the athlete's notes each as often as it occurs, and notes with the same minute keep their order |
| Scenario.CreateNoteListDelete | script.js:148-185 | from an empty document, creating a game and saving a non-blank note into a panel makes that panel list exactly the note; a confirmed delete then leaves no game and no selection |
| Scenario.FinalScenario | script.js:550-602 | game "Final", a minute-12 note in the high-block panel: the panel lists that one note, and deleting the game empties the document |

## Left out

- The DOM, rendering, modals, tabs and the theme toggle have no logic the reports or the store depend on.
- Storage is left out: `localStorage` load and save, and JSON backup export and import. The operations return the changed document; a `localStorage.setItem` failure in `saveData` (script.js:36-38), such as a full quota, is not modelled. It would throw after the in-memory document was already changed, as after `game.notes.push` in `saveNote` (script.js:575).
- `saveProfile`, the team-profile photo upload and `FileReader` image loading are left out. The image is an input of `SaveNote`.
- jsPDF fonts, sizes, colours and line widths are left out. Only where text and rules land, and when pages are added, is modelled.
- `splitTextToSize` is the parameter `wrap`. Its line breaking depends on font metrics.
- `Date.now()`, the ISO date and the pt-PT locale date are parameters.
- `Text.StringToNumber` models `Number(s)` for unsigned decimal integers only. It does not cover signs, decimals, exponents or hex literals, which a game-list option value never contains.
- `Text.Lower` lower-cases ASCII and Latin-1 letters only. Other scripts' case mappings are left out.
- `Text.Sanitize` and `Text.Take` count Unicode scalar values, where JavaScript counts UTF-16 code units. A character outside the Basic Multilingual Plane becomes `__`, not `_`, and `substring(0, 40)` can cut such a character in half.
- A missing `notes` array or `profile` object is modelled as an empty one, which is what the `if (!x.notes) x.notes = []` guards and the `game.profile &&` test amount to.
- `Grouping.CategoryLabel` and `Grouping.SubcategoryLabel` ignore inherited object properties. A key such as `constructor-x` looks up `Object.prototype` members in the source; here it shows the raw token.
- `AthleteReport.ExportAthleteNotes` reports a missing athlete as an error value, where the source returns silently.
- `GameReport.ProfileBlock`: `Wf` is promised only when the block starts at least 43 mm above the bottom margin, which holds in the report because the block always follows the 58 mm heading.
- Alerts are `Step.alert` values, and the final success alerts of the exports are left out.
- `script.js` holds its non-ASCII string literals mis-decoded: UTF-8 bytes read as Mac Roman, so "Não" appears as "N√£o". The model uses the intended characters, for example "⚽ ANÁLISE TÁTICA" and "INFORMAÇÕES", so every text it writes is the decoded one.
- GameReport.VideoLine: its prefix "🎬 Vídeo: " is 9 Unicode scalar values here; the mis-decoded literal in the file is longer, so the length in the contract is that of the decoded prefix.

## Findings

| source | as written | input that shows it | evidently intended | confidence | as-written member | corrected member |
|---|---|---|---|---|---|---|
| script.js:187-191 with script.js:212-227 and script.js:654-656 | `loadGame` finds the game with `==` but stores the argument itself as the current reference; `getCurrentGame` and `deleteCurrentGame` then compare with `===` | a game with id 1700000000000, chosen in the game list, whose option value is the string "1700000000000": no game is current, saving a note does nothing, and deleting removes no game | the found game's numeric id becomes the current reference | not executed | StoreFacts.SelectFromListHidesCurrentGame | StoreFacts.SelectGameFromListSelectsIt |
