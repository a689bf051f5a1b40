/** A session from start to end: a game is created, a note is written into one
    panel, the panel lists it, and deleting the game takes the note with it. */
module Scenario {
  import opened Wrappers
  import opened Model
  import Text
  import Store
  import Queries

  function Created(name: string, date: string, t0: int, today: string): Db {
    Store.CreateNewGame(EmptyDb, name, date, t0, today).db
  }

  lemma CreatedHasOneGame(name: string, date: string, t0: int, today: string)
    requires !Text.AllWhitespace(name)
    ensures |Created(name, date, t0, today).games| == 1
    ensures Store.CurrentGameIndex(Created(name, date, t0, today)) == Some(0)
    ensures Created(name, date, t0, today).games[0].id == t0
    ensures Created(name, date, t0, today).games[0].notes == []
  {
  }

  /** The note the form produces. */
  function FormNote(c: string, sub: string, text: string, video: string, minute: Option<int>, image: Image, t1: int, stamp: string): Note {
    Note(t1, c, sub, MinuteOrZero(minute), Text.Trim(text), image, Text.Trim(video), stamp)
  }

  lemma NotedHasOneNote(name: string, date: string, t0: int, today: string,
                        c: string, sub: string, text: string, video: string,
                        minute: Option<int>, image: Image, t1: int, stamp: string)
    requires !Text.AllWhitespace(name)
    requires !Store.BlankNote(text, image, video)
    ensures var s2 := Store.SaveNote(Created(name, date, t0, today), c, sub, text, video, minute, image, t1, stamp).db;
      && |s2.games| == 1 && s2.currentGame == Num(t0) && s2.games[0].id == t0
      && s2.games[0].notes == [FormNote(c, sub, text, video, minute, image, t1, stamp)]
  {
    CreatedHasOneGame(name, date, t0, today);
    SaveIntoOnlyGame(Created(name, date, t0, today), c, sub, text, video, minute, image, t1, stamp);
  }

  lemma SaveIntoOnlyGame(db: Db, c: string, sub: string, text: string, video: string,
                         minute: Option<int>, image: Image, t1: int, stamp: string)
    requires |db.games| == 1 && Store.CurrentGameIndex(db) == Some(0)
    requires !Store.BlankNote(text, image, video)
    ensures var d := Store.SaveNote(db, c, sub, text, video, minute, image, t1, stamp).db;
      && |d.games| == 1 && d.currentGame == db.currentGame && d.games[0].id == db.games[0].id
      && d.games[0].notes == db.games[0].notes + [FormNote(c, sub, text, video, minute, image, t1, stamp)]
  {
  }

  lemma ListsOnlyNote(db: Db, t0: int, n: Note)
    requires |db.games| == 1 && db.currentGame == Num(t0) && db.games[0].id == t0 && db.games[0].notes == [n]
    ensures Store.GetCurrentGame(db).Some?
    ensures Queries.NotesFor(Store.GetCurrentGame(db).value, n.category, n.subcategory) == [n]
  {
    assert db.games[0] in db.games;
    assert Store.GetCurrentGame(db).value == db.games[0];
  }

  lemma DeleteOnlyGame(db: Db, t0: int)
    requires t0 != 0
    requires |db.games| == 1 && db.currentGame == Num(t0) && db.games[0].id == t0
    ensures Store.DeleteCurrentGame(db, true).db.games == []
    ensures Store.DeleteCurrentGame(db, true).db.currentGame == Null
  {
  }

  /** After creating a game from nothing and saving a non-blank note into panel
      (c, sub), the current game's panel lists exactly that note; confirming
      the deletion of the game then leaves no game and no selection.  The clock
      value `t0` is not 0 (`Date.now()` is positive): a game id of 0 would be a
      falsy selection, which `deleteCurrentGame` treats as no selection. */
  lemma CreateNoteListDelete(name: string, date: string, t0: int, today: string,
                             c: string, sub: string, text: string, video: string,
                             minute: Option<int>, image: Image, t1: int, stamp: string)
    requires t0 != 0
    requires !Text.AllWhitespace(name)
    requires !Store.BlankNote(text, image, video)
    ensures
      var s2 := Store.SaveNote(Created(name, date, t0, today), c, sub, text, video, minute, image, t1, stamp).db;
      var s3 := Store.DeleteCurrentGame(s2, true).db;
      && Store.GetCurrentGame(s2).Some?
      && Queries.NotesFor(Store.GetCurrentGame(s2).value, c, sub) == [FormNote(c, sub, text, video, minute, image, t1, stamp)]
      && s3.games == [] && s3.currentGame == Null
  {
    var s2 := Store.SaveNote(Created(name, date, t0, today), c, sub, text, video, minute, image, t1, stamp).db;
    NotedHasOneNote(name, date, t0, today, c, sub, text, video, minute, image, t1, stamp);
    ListsOnlyNote(s2, t0, FormNote(c, sub, text, video, minute, image, t1, stamp));
    DeleteOnlyGame(s2, t0);
  }

  lemma FinalInputs()
    ensures !Text.AllWhitespace("Final")
    ensures Text.Trim("Pressing too high") == "Pressing too high" && Text.Trim("") == ""
    ensures !Store.BlankNote("Pressing too high", None, "")
  {
    assert !Text.IsWhitespace("Final"[0]);
    var t := "Pressing too high";
    assert !Text.IsWhitespace(t[0]) && !Text.IsWhitespace(t[16]);
    assert Text.TrimStart(t) == t;
    assert Text.TrimEnd(t) == t;
  }

  /** The concrete inputs: game "Final" on 2024-05-01, a note at minute 12 in the
      high-block panel of defensive organisation. */
  lemma FinalScenario(t0: int, t1: int, today: string, stamp: string)
    requires t0 != 0
    ensures
      var s2 := Store.SaveNote(Created("Final", "2024-05-01", t0, today), "org-def", "bloco-alto",
                               "Pressing too high", "", Some(12), None, t1, stamp).db;
      && Store.GetCurrentGame(s2).Some?
      && Queries.NotesFor(Store.GetCurrentGame(s2).value, "org-def", "bloco-alto")
         == [Note(t1, "org-def", "bloco-alto", 12, "Pressing too high", None, "", stamp)]
      && Store.DeleteCurrentGame(s2, true).db.games == []
      && Store.DeleteCurrentGame(s2, true).db.currentGame == Null
  {
    FinalInputs();
    assert FormNote("org-def", "bloco-alto", "Pressing too high", "", Some(12), None, t1, stamp)
        == Note(t1, "org-def", "bloco-alto", 12, "Pressing too high", None, "", stamp);
    CreateNoteListDelete("Final", "2024-05-01", t0, today, "org-def", "bloco-alto",
                         "Pressing too high", "", Some(12), None, t1, stamp);
  }
}
