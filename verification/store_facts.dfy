/** Properties of the store transitions: what creating a game selects, what the
    `==`/`===` mix does to a reference that came from the game list, and the two
    document invariants (unique ids, a set current reference names a game) kept by
    every user action. */
module StoreFacts {
  import opened Wrappers
  import opened Model
  import opened Store
  import Seqs
  import Text

  // ---------------------------------------------------------------- selection

  /** With a fresh clock value, the game just created is what `getCurrentGame`
      returns afterwards. */
  lemma CreateNewGameSelectsIt(db: Db, rawName: string, rawDate: string, now: int, today: string)
    requires !Text.AllWhitespace(rawName)
    requires forall g :: g in db.games ==> g.id != now
    ensures var d := CreateNewGame(db, rawName, rawDate, now, today).db;
            GetCurrentGame(d) == Some(d.games[|db.games|])
  {
    var d := CreateNewGame(db, rawName, rawDate, now, today).db;
    var k := |db.games|;
    forall j | 0 <= j < k ensures !StrictEq(d.games[j].id, d.currentGame) {
      assert d.games[j] == d.games[..k][j];
      assert db.games[j] in db.games;
    }
    assert d.games[k] in d.games;
  }

  /** After a confirmed delete no game is current, and no remaining game has the
      deleted numeric id. */
  lemma DeleteCurrentGameClearsIt(db: Db, n: int)
    requires db.currentGame == Num(n) && n != 0
    ensures var d := DeleteCurrentGame(db, true).db;
            && GetCurrentGame(d) == None
            && (forall g :: g in d.games ==> g.id != n)
            && (forall g :: g in db.games && g.id != n ==> g in d.games)
  {
  }

  /** The game `<select>` hands `loadGame` the option value, the decimal rendering of
      the id.  `==` finds the game, so that string becomes the current reference,
      after which `===` matches no game: `getCurrentGame` is empty, so saving or
      deleting a note does nothing, and a confirmed delete removes no game although
      it clears the selection. */
  lemma SelectFromListHidesCurrentGame(db: Db, id: nat)
    requires exists g :: g in db.games && g.id == id
    ensures var d := LoadGame(db, Str(Text.NatToString(id)));
            && d.currentGame == Str(Text.NatToString(id))
            && GetCurrentGame(d) == None
            && DeleteCurrentGame(d, true).db.games == d.games
            && DeleteCurrentGame(d, true).db.currentGame == Null
            && (forall c, s, t, v, m, img, now, ts ::
                  SaveNote(d, c, s, t, v, m, img, now, ts) == Step(d, None))
  {
    var r := Str(Text.NatToString(id));
    Text.NumberRoundTrip(id);
    var g :| g in db.games && g.id == id;
    assert LooseEq(g.id, r);
    var d := LoadGame(db, r);
    assert Truthy(r);
    Seqs.FilterKeepsAll((h: Game) => !StrictEq(h.id, d.currentGame), d.games);
  }

  /** `loadGame` as evidently intended: the current reference becomes the id of the
      game that was found, so `===` finds that game afterwards. */
  function SelectGame(db: Db, r: Ref): (d: Db)
    ensures (forall g :: g in db.games ==> !LooseEq(g.id, r)) ==> d == db
    ensures (exists g :: g in db.games && LooseEq(g.id, r)) ==>
      && d.games == db.games && d.athletes == db.athletes
      && d.currentGame.Num?
      && (exists g :: g in db.games && LooseEq(g.id, r) && d.currentGame == Num(g.id))
  {
    match Seqs.FindIndex((g: Game) => LooseEq(g.id, r), db.games)
    case None => db
    case Some(i) => db.(currentGame := Num(db.games[i].id))
  }

  /** With the corrected selection, choosing any game from the list (by the string
      form of its id) makes a game with that id current. */
  lemma SelectGameFromListSelectsIt(db: Db, id: nat)
    requires exists g :: g in db.games && g.id == id
    ensures var d := SelectGame(db, Str(Text.NatToString(id)));
            GetCurrentGame(d).Some? && GetCurrentGame(d).value.id == id
  {
    Text.NumberRoundTrip(id);
    var g :| g in db.games && g.id == id;
    assert LooseEq(g.id, Str(Text.NatToString(id)));
    var d := SelectGame(db, Str(Text.NatToString(id)));
    var h :| h in db.games && LooseEq(h.id, Str(Text.NatToString(id))) && d.currentGame == Num(h.id);
    assert StrictEq(h.id, d.currentGame);
  }

  /** For a numeric argument, as `createNewGame` passes, the corrected selection and
      the source's `loadGame` agree. */
  lemma SelectGameAgreesOnNumbers(db: Db, n: int)
    ensures SelectGame(db, Num(n)) == LoadGame(db, Num(n))
  {
    if exists g :: g in db.games && LooseEq(g.id, Num(n)) {
      var d := SelectGame(db, Num(n));
      var g :| g in db.games && LooseEq(g.id, Num(n)) && d.currentGame == Num(g.id);
    }
  }

  // ---------------------------------------------------------------- actions

  /** One user action on the document.  Choosing a game from the list uses the
      corrected selection `SelectGame`. */
  datatype Action =
    | CreateGame(name: string, date: string, now: int, today: string)
    | ChooseGame(ref: Ref)
    | RemoveGame(confirmed: bool)
    | AddAthlete(athleteName: string, number: string, position: string, now: int)
    | RemoveAthlete(athleteId: int, confirmed: bool)
    | AddAthleteNote(athlete: Ref, athleteText: string, athleteMinute: Option<int>, now: int, stamp: string)
    | AddNote(category: string, subcategory: string, text: string, videoLink: string,
              minute: Option<int>, image: Image, now: int, stamp: string)
    | RemoveNote(noteId: int, confirmed: bool)

  /** The clock value an action reads, if it creates something. */
  function Clock(a: Action): Option<int> {
    match a
    case CreateGame(_, _, now, _) => Some(now)
    case AddAthlete(_, _, _, now) => Some(now)
    case AddAthleteNote(_, _, _, now, _) => Some(now)
    case AddNote(_, _, _, _, _, _, now, _) => Some(now)
    case _ => None
  }

  function Apply(db: Db, a: Action): Db {
    match a
    case CreateGame(name, date, now, today) => CreateNewGame(db, name, date, now, today).db
    case ChooseGame(r) => SelectGame(db, r)
    case RemoveGame(ok) => DeleteCurrentGame(db, ok).db
    case AddAthlete(name, number, position, now) => SaveAthlete(db, name, number, position, now).db
    case RemoveAthlete(id, ok) => DeleteAthlete(db, id, ok)
    case AddAthleteNote(r, text, minute, now, stamp) => SaveAthleteNote(db, r, text, minute, now, stamp).db
    case AddNote(c, s, text, video, minute, image, now, stamp) =>
      SaveNote(db, c, s, text, video, minute, image, now, stamp).db
    case RemoveNote(id, ok) => DeleteNote(db, id, ok)
  }

  function Run(db: Db, acts: seq<Action>): Db
    decreases |acts|
  {
    if acts == [] then db else Run(Apply(db, acts[0]), acts[1..])
  }

  /** The clock reads at least `t` at the first creating action and strictly
      increases from one creating action to the next. */
  ghost predicate Ticking(t: int, acts: seq<Action>)
    decreases |acts|
  {
    acts == [] ||
    match Clock(acts[0])
    case None => Ticking(t, acts[1..])
    case Some(n) => t <= n && Ticking(n + 1, acts[1..])
  }

  function NextTick(t: int, a: Action): int {
    match Clock(a)
    case None => t
    case Some(n) => n + 1
  }

  // ---------------------------------------------------------------- unique ids

  lemma SameGameIdsKeepDistinct(a: seq<Game>, b: seq<Game>)
    requires |a| == |b| && forall j :: 0 <= j < |a| ==> a[j].id == b[j].id
    requires Seqs.DistinctBy(IdOfGame, a)
    ensures Seqs.DistinctBy(IdOfGame, b)
  {
    forall i, j | 0 <= i < j < |b| ensures IdOfGame(b[i]) != IdOfGame(b[j]) {
      assert IdOfGame(a[i]) != IdOfGame(a[j]);
    }
  }

  lemma SameAthleteIdsKeepDistinct(a: seq<Athlete>, b: seq<Athlete>)
    requires |a| == |b| && forall j :: 0 <= j < |a| ==> a[j].id == b[j].id
    requires Seqs.DistinctBy(IdOfAthlete, a)
    ensures Seqs.DistinctBy(IdOfAthlete, b)
  {
    forall i, j | 0 <= i < j < |b| ensures IdOfAthlete(b[i]) != IdOfAthlete(b[j]) {
      assert IdOfAthlete(a[i]) != IdOfAthlete(a[j]);
    }
  }

  lemma IdsBelowMono(db: Db, t: int, u: int)
    requires IdsBelow(db, t) && t <= u
    ensures IdsBelow(db, u)
  {
    forall g | g in db.games ensures GameIdsBelow(g, u) {
      assert GameIdsBelow(g, t);
    }
    forall a | a in db.athletes ensures AthleteIdsBelow(a, u) {
      assert AthleteIdsBelow(a, t);
    }
  }

  lemma CreateKeepsUniqueIds(db: Db, name: string, date: string, now: int, today: string)
    requires UniqueIds(db) && IdsBelow(db, now)
    ensures UniqueIds(CreateNewGame(db, name, date, now, today).db)
    ensures IdsBelow(CreateNewGame(db, name, date, now, today).db, now + 1)
  {
    var d := CreateNewGame(db, name, date, now, today).db;
    IdsBelowMono(db, now, now + 1);
    if !Text.AllWhitespace(name) {
      var g := d.games[|db.games|];
      assert d.games == db.games + [g];
      PushGameKeepsUniqueIds(db, d, g, now);
    }
  }

  lemma PushGameKeepsUniqueIds(db: Db, d: Db, g: Game, now: int)
    requires UniqueIds(db) && IdsBelow(db, now)
    requires d.games == db.games + [g] && d.athletes == db.athletes && g.id == now && g.notes == []
    ensures UniqueIds(d) && IdsBelow(d, now + 1)
  {
    IdsBelowMono(db, now, now + 1);
    assert forall x :: x in db.games ==> x.id != g.id by {
      forall x | x in db.games ensures x.id != g.id {
        assert GameIdsBelow(x, now);
      }
    }
    Seqs.DistinctByAppend(IdOfGame, db.games, g);
    forall x | x in d.games
      ensures Seqs.DistinctBy(IdOfNote, x.notes) && GameIdsBelow(x, now + 1)
    {
      if x != g {
        assert x in db.games;
      }
    }
  }

  lemma AddAthleteKeepsUniqueIds(db: Db, name: string, number: string, position: string, now: int)
    requires UniqueIds(db) && IdsBelow(db, now)
    ensures UniqueIds(SaveAthlete(db, name, number, position, now).db)
    ensures IdsBelow(SaveAthlete(db, name, number, position, now).db, now + 1)
  {
    var d := SaveAthlete(db, name, number, position, now).db;
    IdsBelowMono(db, now, now + 1);
    if !Text.AllWhitespace(name) {
      var a := d.athletes[|db.athletes|];
      assert d.athletes == db.athletes + [a];
      PushAthleteKeepsUniqueIds(db, d, a, now);
    }
  }

  lemma PushAthleteKeepsUniqueIds(db: Db, d: Db, a: Athlete, now: int)
    requires UniqueIds(db) && IdsBelow(db, now)
    requires d.games == db.games && d.athletes == db.athletes + [a] && a.id == now && a.notes == []
    ensures UniqueIds(d) && IdsBelow(d, now + 1)
  {
    IdsBelowMono(db, now, now + 1);
    assert forall x :: x in db.athletes ==> x.id != a.id by {
      forall x | x in db.athletes ensures x.id != a.id {
        assert AthleteIdsBelow(x, now);
      }
    }
    Seqs.DistinctByAppend(IdOfAthlete, db.athletes, a);
    forall x | x in d.athletes
      ensures Seqs.DistinctBy(IdOfAthleteNote, x.notes) && AthleteIdsBelow(x, now + 1)
    {
      if x != a {
        assert x in db.athletes;
      }
    }
  }

  lemma AddAthleteNoteKeepsUniqueIds(db: Db, r: Ref, text: string, minute: Option<int>, now: int, stamp: string)
    requires UniqueIds(db) && IdsBelow(db, now)
    ensures UniqueIds(SaveAthleteNote(db, r, text, minute, now, stamp).db)
    ensures IdsBelow(SaveAthleteNote(db, r, text, minute, now, stamp).db, now + 1)
  {
    var d := SaveAthleteNote(db, r, text, minute, now, stamp).db;
    IdsBelowMono(db, now, now + 1);
    if Truthy(r) && AthleteIndex(db.athletes, r).Some? && !Text.AllWhitespace(text) {
      var i := AthleteIndex(db.athletes, r).value;
      var note := d.athletes[i].notes[|db.athletes[i].notes|];
      PushAthleteNoteKeepsUniqueIds(db, d, i, note, now);
    }
  }

  lemma PushAthleteNoteKeepsUniqueIds(db: Db, d: Db, i: nat, note: AthleteNote, now: int)
    requires UniqueIds(db) && IdsBelow(db, now)
    requires i < |db.athletes| && note.id == now
    requires d.games == db.games && |d.athletes| == |db.athletes|
    requires forall j :: 0 <= j < |db.athletes| && j != i ==> d.athletes[j] == db.athletes[j]
    requires d.athletes[i] == db.athletes[i].(notes := db.athletes[i].notes + [note])
    ensures UniqueIds(d) && IdsBelow(d, now + 1)
  {
    IdsBelowMono(db, now, now + 1);
    var before := db.athletes[i].notes;
    assert db.athletes[i] in db.athletes;
    assert AthleteIdsBelow(db.athletes[i], now);
    Seqs.DistinctByAppend(IdOfAthleteNote, before, note);
    SameAthleteIdsKeepDistinct(db.athletes, d.athletes);
    forall a | a in d.athletes
      ensures Seqs.DistinctBy(IdOfAthleteNote, a.notes) && AthleteIdsBelow(a, now + 1)
    {
      var j :| 0 <= j < |d.athletes| && d.athletes[j] == a;
      if j != i {
        assert db.athletes[j] in db.athletes;
      }
    }
  }

  lemma AddNoteKeepsUniqueIds(db: Db, c: string, s: string, text: string, video: string,
                              minute: Option<int>, image: Image, now: int, stamp: string)
    requires UniqueIds(db) && IdsBelow(db, now)
    ensures UniqueIds(SaveNote(db, c, s, text, video, minute, image, now, stamp).db)
    ensures IdsBelow(SaveNote(db, c, s, text, video, minute, image, now, stamp).db, now + 1)
  {
    var d := SaveNote(db, c, s, text, video, minute, image, now, stamp).db;
    IdsBelowMono(db, now, now + 1);
    if CurrentGameIndex(db).Some? && !BlankNote(text, image, video) {
      var i := CurrentGameIndex(db).value;
      var note := d.games[i].notes[|db.games[i].notes|];
      PushNoteKeepsUniqueIds(db, d, i, note, now);
    }
  }

  lemma PushNoteKeepsUniqueIds(db: Db, d: Db, i: nat, note: Note, now: int)
    requires UniqueIds(db) && IdsBelow(db, now)
    requires i < |db.games| && note.id == now
    requires d.athletes == db.athletes && |d.games| == |db.games|
    requires forall j :: 0 <= j < |db.games| && j != i ==> d.games[j] == db.games[j]
    requires d.games[i] == db.games[i].(notes := db.games[i].notes + [note])
    ensures UniqueIds(d) && IdsBelow(d, now + 1)
  {
    IdsBelowMono(db, now, now + 1);
    var before := db.games[i].notes;
    assert db.games[i] in db.games;
    assert GameIdsBelow(db.games[i], now);
    Seqs.DistinctByAppend(IdOfNote, before, note);
    SameGameIdsKeepDistinct(db.games, d.games);
    forall g | g in d.games
      ensures Seqs.DistinctBy(IdOfNote, g.notes) && GameIdsBelow(g, now + 1)
    {
      var j :| 0 <= j < |d.games| && d.games[j] == g;
      if j != i {
        assert db.games[j] in db.games;
      }
    }
  }

  lemma RemoveGameKeepsUniqueIds(db: Db, ok: bool, t: int)
    requires UniqueIds(db) && IdsBelow(db, t)
    ensures UniqueIds(DeleteCurrentGame(db, ok).db) && IdsBelow(DeleteCurrentGame(db, ok).db, t)
  {
    var d := DeleteCurrentGame(db, ok).db;
    if Truthy(db.currentGame) && ok {
      Seqs.SubsequenceDistinctBy(IdOfGame, d.games, db.games);
    }
  }

  lemma RemoveAthleteKeepsUniqueIds(db: Db, id: int, ok: bool, t: int)
    requires UniqueIds(db) && IdsBelow(db, t)
    ensures UniqueIds(DeleteAthlete(db, id, ok)) && IdsBelow(DeleteAthlete(db, id, ok), t)
  {
    if ok {
      Seqs.SubsequenceDistinctBy(IdOfAthlete, DeleteAthlete(db, id, ok).athletes, db.athletes);
    }
  }

  lemma RemoveNoteKeepsUniqueIds(db: Db, id: int, ok: bool, t: int)
    requires UniqueIds(db) && IdsBelow(db, t)
    ensures UniqueIds(DeleteNote(db, id, ok)) && IdsBelow(DeleteNote(db, id, ok), t)
  {
    var d := DeleteNote(db, id, ok);
    if ok && CurrentGameIndex(db).Some? {
      var i := CurrentGameIndex(db).value;
      assert db.games[i] in db.games;
      Seqs.SubsequenceDistinctBy(IdOfNote, d.games[i].notes, db.games[i].notes);
      SameGameIdsKeepDistinct(db.games, d.games);
      forall g | g in d.games
        ensures Seqs.DistinctBy(IdOfNote, g.notes)
        ensures GameIdsBelow(g, t)
      {
        var j :| 0 <= j < |d.games| && d.games[j] == g;
        if j != i {
          assert db.games[j] in db.games;
        }
      }
    }
  }

  lemma ChooseKeepsUniqueIds(db: Db, r: Ref, t: int)
    requires UniqueIds(db) && IdsBelow(db, t)
    ensures UniqueIds(SelectGame(db, r)) && IdsBelow(SelectGame(db, r), t)
  {
    var d := SelectGame(db, r);
    assert d.games == db.games && d.athletes == db.athletes;
  }

  lemma CreateGameCase(db: Db, a: Action, t: int)
    requires UniqueIds(db) && IdsBelow(db, t)
    requires a.CreateGame? && t <= a.now
    ensures UniqueIds(Apply(db, a)) && IdsBelow(Apply(db, a), a.now + 1)
  {
    IdsBelowMono(db, t, a.now);
    CreateKeepsUniqueIds(db, a.name, a.date, a.now, a.today);
  }

  lemma AddAthleteCase(db: Db, a: Action, t: int)
    requires UniqueIds(db) && IdsBelow(db, t)
    requires a.AddAthlete? && t <= a.now
    ensures UniqueIds(Apply(db, a)) && IdsBelow(Apply(db, a), a.now + 1)
  {
    IdsBelowMono(db, t, a.now);
    AddAthleteKeepsUniqueIds(db, a.athleteName, a.number, a.position, a.now);
  }

  lemma AddAthleteNoteCase(db: Db, a: Action, t: int)
    requires UniqueIds(db) && IdsBelow(db, t)
    requires a.AddAthleteNote? && t <= a.now
    ensures UniqueIds(Apply(db, a)) && IdsBelow(Apply(db, a), a.now + 1)
  {
    IdsBelowMono(db, t, a.now);
    AddAthleteNoteKeepsUniqueIds(db, a.athlete, a.athleteText, a.athleteMinute, a.now, a.stamp);
  }

  lemma AddNoteCase(db: Db, a: Action, t: int)
    requires UniqueIds(db) && IdsBelow(db, t)
    requires a.AddNote? && t <= a.now
    ensures UniqueIds(Apply(db, a)) && IdsBelow(Apply(db, a), a.now + 1)
  {
    IdsBelowMono(db, t, a.now);
    AddNoteKeepsUniqueIds(db, a.category, a.subcategory, a.text, a.videoLink, a.minute, a.image, a.now, a.stamp);
  }

  lemma ApplyKeepsUniqueIds(db: Db, a: Action, t: int)
    requires UniqueIds(db) && IdsBelow(db, t)
    requires Clock(a).Some? ==> t <= Clock(a).value
    ensures UniqueIds(Apply(db, a)) && IdsBelow(Apply(db, a), NextTick(t, a))
  {
    match a
    case CreateGame(_, _, _, _) => CreateGameCase(db, a, t);
    case AddAthlete(_, _, _, _) => AddAthleteCase(db, a, t);
    case AddAthleteNote(_, _, _, _, _) => AddAthleteNoteCase(db, a, t);
    case AddNote(_, _, _, _, _, _, _, _) => AddNoteCase(db, a, t);
    case ChooseGame(r) => ChooseKeepsUniqueIds(db, r, t);
    case RemoveGame(ok) => RemoveGameKeepsUniqueIds(db, ok, t);
    case RemoveAthlete(id, ok) => RemoveAthleteKeepsUniqueIds(db, id, ok, t);
    case RemoveNote(id, ok) => RemoveNoteKeepsUniqueIds(db, id, ok, t);
  }

  /** Id uniqueness: when the clock is ahead of every stored id and ticks between
      creations, no sequence of user actions makes two games, two athletes, two
      notes of one game or two notes of one athlete share an id. */
  lemma {:induction false} RunKeepsUniqueIds(db: Db, acts: seq<Action>, t: int)
    requires UniqueIds(db) && IdsBelow(db, t) && Ticking(t, acts)
    ensures UniqueIds(Run(db, acts))
    decreases |acts|
  {
    if acts != [] {
      ApplyKeepsUniqueIds(db, acts[0], t);
      RunKeepsUniqueIds(Apply(db, acts[0]), acts[1..], NextTick(t, acts[0]));
    }
  }

  // ---------------------------------------------------------------- current game

  /** Changing notes keeps every game's id in place, so the current game stays
      found. */
  lemma SameIdsKeepCurrent(db: Db, d: Db)
    requires CurrentIsLoaded(db)
    requires d.currentGame == db.currentGame && |d.games| == |db.games|
    requires forall j :: 0 <= j < |db.games| ==> d.games[j].id == db.games[j].id
    ensures CurrentIsLoaded(d)
  {
    if !db.currentGame.Null? {
      var g :| g in db.games && StrictEq(g.id, db.currentGame);
      var j :| 0 <= j < |db.games| && db.games[j] == g;
      assert d.games[j] in d.games;
    }
  }

  lemma CreateKeepsCurrent(db: Db, name: string, date: string, now: int, today: string)
    requires CurrentIsLoaded(db)
    ensures CurrentIsLoaded(CreateNewGame(db, name, date, now, today).db)
  {
    var d := CreateNewGame(db, name, date, now, today).db;
    if !Text.AllWhitespace(name) {
      assert d.games[|db.games|] in d.games;
    }
  }

  lemma SaveNoteKeepsCurrent(db: Db, c: string, s: string, text: string, video: string,
                             minute: Option<int>, image: Image, now: int, stamp: string)
    requires CurrentIsLoaded(db)
    ensures CurrentIsLoaded(SaveNote(db, c, s, text, video, minute, image, now, stamp).db)
  {
    var d := SaveNote(db, c, s, text, video, minute, image, now, stamp).db;
    if CurrentGameIndex(db).Some? && !BlankNote(text, image, video) {
      var i := CurrentGameIndex(db).value;
      assert d.games[i].id == db.games[i].id;
      SameIdsKeepCurrent(db, d);
    }
  }

  lemma DeleteNoteKeepsCurrent(db: Db, id: int, ok: bool)
    requires CurrentIsLoaded(db)
    ensures CurrentIsLoaded(DeleteNote(db, id, ok))
  {
    var d := DeleteNote(db, id, ok);
    if ok && CurrentGameIndex(db).Some? {
      var i := CurrentGameIndex(db).value;
      assert d.games[i].id == db.games[i].id;
      SameIdsKeepCurrent(db, d);
    }
  }

  lemma ApplyKeepsCurrentLoaded(db: Db, a: Action)
    requires CurrentIsLoaded(db)
    ensures CurrentIsLoaded(Apply(db, a))
  {
    match a
    case CreateGame(name, date, now, today) => CreateKeepsCurrent(db, name, date, now, today);
    case ChooseGame(r) =>
    case RemoveGame(ok) =>
    case AddAthlete(name, number, position, now) =>
    case RemoveAthlete(id, ok) =>
    case AddAthleteNote(r, text, minute, now, stamp) =>
    case AddNote(c, s, text, video, minute, image, now, stamp) =>
      SaveNoteKeepsCurrent(db, c, s, text, video, minute, image, now, stamp);
    case RemoveNote(id, ok) => DeleteNoteKeepsCurrent(db, id, ok);
  }

  /** Current-game consistency: with the corrected selection, a set current
      reference always names a stored game in the `===` sense, so `getCurrentGame`
      finds a game whenever one is selected, whatever the user does. */
  lemma {:induction false} RunKeepsCurrentLoaded(db: Db, acts: seq<Action>)
    requires CurrentIsLoaded(db)
    ensures CurrentIsLoaded(Run(db, acts))
    ensures Run(db, acts).currentGame.Null? || GetCurrentGame(Run(db, acts)).Some?
    decreases |acts|
  {
    if acts != [] {
      ApplyKeepsCurrentLoaded(db, acts[0]);
      RunKeepsCurrentLoaded(Apply(db, acts[0]), acts[1..]);
    }
  }
}
