/** The state transitions of the document: creating, selecting and deleting games,
    adding and removing athletes, adding athlete notes, adding and removing game
    notes.  Form fields, the pending image, the clock value `Date.now()` and the
    answer to a confirmation dialog are parameters.  A transition that shows an
    `alert` and returns reports it in `Step.alert` and leaves the document as it was. */
module Store {
  import opened Wrappers
  import opened Model
  import Seqs
  import Text

  datatype Alert = EmptyGameName | NoGameSelected | EmptyAthleteName | EmptyAthleteNote | EmptyNote

  datatype Step = Step(db: Db, alert: Option<Alert>)

  // ---------------------------------------------------------------- lookups

  /** Position of the game `getCurrentGame` returns: the first whose id is `===` the
      current reference. */
  function CurrentGameIndex(db: Db): (r: Option<nat>)
    ensures r.Some? ==> r.value < |db.games| && StrictEq(db.games[r.value].id, db.currentGame)
    ensures r.Some? ==> forall j :: 0 <= j < r.value ==> !StrictEq(db.games[j].id, db.currentGame)
    ensures r.None? <==> forall g :: g in db.games ==> !StrictEq(g.id, db.currentGame)
  {
    Seqs.FindIndex((g: Game) => StrictEq(g.id, db.currentGame), db.games)
  }

  /** `getCurrentGame()`. */
  function GetCurrentGame(db: Db): (r: Option<Game>)
    ensures r.Some? <==> exists g :: g in db.games && StrictEq(g.id, db.currentGame)
    ensures r.Some? ==> r.value in db.games && StrictEq(r.value.id, db.currentGame)
    ensures r.Some? ==> CurrentGameIndex(db).Some? && r.value == db.games[CurrentGameIndex(db).value]
  {
    match CurrentGameIndex(db)
    case None => None
    case Some(i) => Some(db.games[i])
  }

  /** Position of the athlete `db.athletes.find(a => a.id === r)` returns. */
  function AthleteIndex(athletes: seq<Athlete>, r: Ref): (k: Option<nat>)
    ensures k.Some? ==> k.value < |athletes| && StrictEq(athletes[k.value].id, r)
    ensures k.Some? ==> forall j :: 0 <= j < k.value ==> !StrictEq(athletes[j].id, r)
    ensures k.None? <==> forall a :: a in athletes ==> !StrictEq(a.id, r)
  {
    Seqs.FindIndex((a: Athlete) => StrictEq(a.id, r), athletes)
  }

  // ---------------------------------------------------------------- games

  /** `loadGame(gameId)`: when some game's id is `==` the argument, the argument
      itself (not the game's id) becomes the current reference; otherwise nothing. */
  function LoadGame(db: Db, r: Ref): (d: Db)
    ensures (exists g :: g in db.games && LooseEq(g.id, r)) ==> d == db.(currentGame := r)
    ensures (forall g :: g in db.games ==> !LooseEq(g.id, r)) ==> d == db
  {
    match Seqs.FindIndex((g: Game) => LooseEq(g.id, r), db.games)
    case None => db
    case Some(_) => db.(currentGame := r)
  }

  /** `createNewGame()` with the form's name and date, the clock value `now` and
      today's ISO date `today` (used when the date field is empty). */
  function CreateNewGame(db: Db, rawName: string, rawDate: string, now: int, today: string): (r: Step)
    ensures Text.AllWhitespace(rawName) ==> r == Step(db, Some(EmptyGameName))
    ensures !Text.AllWhitespace(rawName) ==>
      && r.alert == None
      && |r.db.games| == |db.games| + 1
      && r.db.games[..|db.games|] == db.games
      && r.db.currentGame == Num(now)
      && r.db.athletes == db.athletes && r.db.profile == db.profile && r.db.theme == db.theme
    ensures !Text.AllWhitespace(rawName) ==>
      var g := r.db.games[|db.games|];
      && g.id == now && g.name == Text.Trim(rawName) && g.name != "" && g.notes == []
      && g.date == (if rawDate == "" then today else rawDate)
      && g.profile == GameProfile("", "", "", "", "", "", g.name, rawDate, "")
  {
    var name := Text.Trim(rawName);
    if name == "" then Step(db, Some(EmptyGameName))
    else
      var profile := GameProfile("", "", "", "", "", "", name, rawDate, "");
      var game := Game(now, name, if rawDate == "" then today else rawDate, [], profile);
      var pushed := db.(games := db.games + [game], currentGame := Num(now));
      assert pushed.games[|db.games|] == game && pushed.games[..|db.games|] == db.games;
      assert game in pushed.games && LooseEq(game.id, Num(now));
      assert LoadGame(pushed, Num(now)) == pushed;
      Step(LoadGame(pushed, Num(now)), None)
  }

  /** `deleteCurrentGame()`, `confirmed` being the answer to the confirmation dialog. */
  function DeleteCurrentGame(db: Db, confirmed: bool): (r: Step)
    ensures !Truthy(db.currentGame) ==> r == Step(db, Some(NoGameSelected))
    ensures Truthy(db.currentGame) && !confirmed ==> r == Step(db, None)
    ensures Truthy(db.currentGame) && confirmed ==>
      && r.alert == None
      && r.db.currentGame == Null
      && (forall g :: g in r.db.games <==> g in db.games && !StrictEq(g.id, db.currentGame))
      && (forall g :: multiset(r.db.games)[g] == if StrictEq(g.id, db.currentGame) then 0 else multiset(db.games)[g])
      && Seqs.IsSubsequence(r.db.games, db.games)
      && r.db.athletes == db.athletes && r.db.profile == db.profile && r.db.theme == db.theme
  {
    if !Truthy(db.currentGame) then Step(db, Some(NoGameSelected))
    else if !confirmed then Step(db, None)
    else
      var keep := (g: Game) => !StrictEq(g.id, db.currentGame);
      Seqs.FilterIsSubsequence(keep, db.games);
      Seqs.FilterMultiset(keep, db.games);
      Step(db.(games := Seqs.Filter(keep, db.games), currentGame := Null), None)
  }

  // ---------------------------------------------------------------- athletes

  /** `saveAthlete()` with the form's name, number and position fields. */
  function SaveAthlete(db: Db, rawName: string, rawNumber: string, rawPosition: string, now: int): (r: Step)
    ensures Text.AllWhitespace(rawName) ==> r == Step(db, Some(EmptyAthleteName))
    ensures !Text.AllWhitespace(rawName) ==>
      && r.alert == None
      && |r.db.athletes| == |db.athletes| + 1
      && r.db.athletes[..|db.athletes|] == db.athletes
      && r.db.games == db.games && r.db.currentGame == db.currentGame
      && r.db.profile == db.profile && r.db.theme == db.theme
    ensures !Text.AllWhitespace(rawName) ==>
      var a := r.db.athletes[|db.athletes|];
      && a.id == now && a.name == Text.Trim(rawName) && a.name != ""
      && a.number == rawNumber && a.position == Text.Trim(rawPosition) && a.notes == []
  {
    var name := Text.Trim(rawName);
    if name == "" then Step(db, Some(EmptyAthleteName))
    else
      var athlete := Athlete(now, name, rawNumber, Text.Trim(rawPosition), []);
      Step(db.(athletes := db.athletes + [athlete]), None)
  }

  /** `deleteAthlete(id)`. */
  function DeleteAthlete(db: Db, id: int, confirmed: bool): (r: Db)
    ensures !confirmed ==> r == db
    ensures confirmed ==>
      && (forall a :: a in r.athletes <==> a in db.athletes && a.id != id)
      && (forall a :: multiset(r.athletes)[a] == if a.id == id then 0 else multiset(db.athletes)[a])
      && Seqs.IsSubsequence(r.athletes, db.athletes)
      && r.games == db.games && r.currentGame == db.currentGame
      && r.profile == db.profile && r.theme == db.theme
  {
    if !confirmed then db
    else
      var keep := (a: Athlete) => a.id != id;
      Seqs.FilterIsSubsequence(keep, db.athletes);
      Seqs.FilterMultiset(keep, db.athletes);
      db.(athletes := Seqs.Filter(keep, db.athletes))
  }

  /** `saveAthleteNote()`: `athlete` is the pending athlete id of the note form,
      `minute` the result of `parseInt` on the minute field (`None` for NaN). */
  function SaveAthleteNote(db: Db, athlete: Ref, rawText: string, minute: Option<int>, now: int, timestamp: string): (r: Step)
    ensures !Truthy(athlete) || AthleteIndex(db.athletes, athlete).None? ==> r == Step(db, None)
    ensures Truthy(athlete) && AthleteIndex(db.athletes, athlete).Some? && Text.AllWhitespace(rawText) ==>
      r == Step(db, Some(EmptyAthleteNote))
    ensures Truthy(athlete) && AthleteIndex(db.athletes, athlete).Some? && !Text.AllWhitespace(rawText) ==>
      var i := AthleteIndex(db.athletes, athlete).value;
      && r.alert == None
      && r.db.games == db.games && r.db.currentGame == db.currentGame
      && r.db.profile == db.profile && r.db.theme == db.theme
      && |r.db.athletes| == |db.athletes|
      && (forall j :: 0 <= j < |db.athletes| && j != i ==> r.db.athletes[j] == db.athletes[j])
      && r.db.athletes[i] == db.athletes[i].(notes := r.db.athletes[i].notes)
      && |r.db.athletes[i].notes| == |db.athletes[i].notes| + 1
      && r.db.athletes[i].notes[..|db.athletes[i].notes|] == db.athletes[i].notes
      && r.db.athletes[i].notes[|db.athletes[i].notes|]
         == AthleteNote(now, MinuteOrZero(minute), Text.Trim(rawText), timestamp)
  {
    if !Truthy(athlete) then Step(db, None)
    else match AthleteIndex(db.athletes, athlete)
      case None => Step(db, None)
      case Some(i) =>
        var text := Text.Trim(rawText);
        if text == "" then Step(db, Some(EmptyAthleteNote))
        else
          var a := db.athletes[i];
          var note := AthleteNote(now, MinuteOrZero(minute), text, timestamp);
          Step(db.(athletes := db.athletes[i := a.(notes := a.notes + [note])]), None)
  }

  // ---------------------------------------------------------------- game notes

  /** The note form holds nothing: blank text, no image, blank video link. */
  predicate BlankNote(rawText: string, image: Image, rawVideo: string) {
    Text.AllWhitespace(rawText) && !HasImage(image) && Text.AllWhitespace(rawVideo)
  }

  /** The games with `note` pushed onto the notes of game `i`. */
  function AppendGameNote(games: seq<Game>, i: nat, note: Note): (r: seq<Game>)
    requires i < |games|
    ensures |r| == |games|
    ensures forall j :: 0 <= j < |games| && j != i ==> r[j] == games[j]
    ensures r[i] == games[i].(notes := games[i].notes + [note])
  {
    games[i := games[i].(notes := games[i].notes + [note])]
  }

  lemma BlankIffTrimmedEmpty(rawText: string, image: Image, rawVideo: string)
    ensures BlankNote(rawText, image, rawVideo)
            <==> Text.Trim(rawText) == "" && !HasImage(image) && Text.Trim(rawVideo) == ""
  {
  }

  /** `saveNote()`: the note form's category and subcategory, text, video link,
      parsed minute and pending image. */
  function SaveNote(db: Db, category: string, subcategory: string, rawText: string, rawVideo: string,
                    minute: Option<int>, image: Image, now: int, timestamp: string): (r: Step)
    ensures CurrentGameIndex(db).None? ==> r == Step(db, None)
    ensures CurrentGameIndex(db).Some? && BlankNote(rawText, image, rawVideo) ==> r == Step(db, Some(EmptyNote))
    ensures CurrentGameIndex(db).Some? && !BlankNote(rawText, image, rawVideo) ==>
      && r.alert == None
      && r.db.currentGame == db.currentGame && r.db.athletes == db.athletes
      && r.db.profile == db.profile && r.db.theme == db.theme
      && |r.db.games| == |db.games|
    ensures CurrentGameIndex(db).Some? && !BlankNote(rawText, image, rawVideo) ==>
      var i := CurrentGameIndex(db).value;
      && (forall j :: 0 <= j < |db.games| && j != i ==> r.db.games[j] == db.games[j])
      && r.db.games[i] == db.games[i].(notes := r.db.games[i].notes)
    ensures CurrentGameIndex(db).Some? && !BlankNote(rawText, image, rawVideo) ==>
      var before := db.games[CurrentGameIndex(db).value].notes;
      var after := r.db.games[CurrentGameIndex(db).value].notes;
      && after == before + [Note(now, category, subcategory, MinuteOrZero(minute), Text.Trim(rawText),
                                 image, Text.Trim(rawVideo), timestamp)]
  {
    match CurrentGameIndex(db)
    case None => Step(db, None)
    case Some(i) =>
      var text := Text.Trim(rawText);
      var videoLink := Text.Trim(rawVideo);
      BlankIffTrimmedEmpty(rawText, image, rawVideo);
      if text == "" && !HasImage(image) && videoLink == "" then Step(db, Some(EmptyNote))
      else
        var note := Note(now, category, subcategory, MinuteOrZero(minute), text, image, videoLink, timestamp);
        Step(db.(games := AppendGameNote(db.games, i, note)), None)
  }

  /** `deleteNote(noteId)` on the current game. */
  function DeleteNote(db: Db, noteId: int, confirmed: bool): (r: Db)
    ensures !confirmed || CurrentGameIndex(db).None? ==> r == db
    ensures confirmed && CurrentGameIndex(db).Some? ==>
      && r.currentGame == db.currentGame && r.athletes == db.athletes
      && r.profile == db.profile && r.theme == db.theme
      && |r.games| == |db.games|
    ensures confirmed && CurrentGameIndex(db).Some? ==>
      var i := CurrentGameIndex(db).value;
      && (forall j :: 0 <= j < |db.games| && j != i ==> r.games[j] == db.games[j])
      && r.games[i] == db.games[i].(notes := r.games[i].notes)
    ensures confirmed && CurrentGameIndex(db).Some? ==>
      var before := db.games[CurrentGameIndex(db).value].notes;
      var after := r.games[CurrentGameIndex(db).value].notes;
      && (forall n :: n in after <==> n in before && n.id != noteId)
      && (forall n :: multiset(after)[n] == if n.id == noteId then 0 else multiset(before)[n])
      && Seqs.IsSubsequence(after, before)
  {
    if !confirmed then db
    else match CurrentGameIndex(db)
      case None => db
      case Some(i) =>
        var g := db.games[i];
        var keep := (n: Note) => n.id != noteId;
        Seqs.FilterIsSubsequence(keep, g.notes);
        Seqs.FilterMultiset(keep, g.notes);
        db.(games := db.games[i := g.(notes := Seqs.Filter(keep, g.notes))])
  }
}
