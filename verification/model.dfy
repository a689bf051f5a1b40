/** The persisted document `db` and its entities.  Every id is the millisecond clock
    value `Date.now()` read when the entity was created, so ids are numbers.  What
    `db.currentGame` (and the pending athlete id of the note form) may hold is a
    JavaScript value: `null`, a number, or a string when it came from the game
    `<select>`; `Ref` keeps that distinction because the source compares it with
    both `==` and `===`. */
module Model {
  import opened Wrappers
  import Text
  import Seqs

  datatype Ref = Null | Num(n: int) | Str(s: string)

  /** JavaScript truthiness of a reference: `null`, `0` and `""` are falsy. */
  predicate Truthy(r: Ref) {
    match r
    case Null => false
    case Num(n) => n != 0
    case Str(s) => s != ""
  }

  /** `id === r` for a numeric id. */
  predicate StrictEq(id: int, r: Ref) {
    r.Num? && r.n == id
  }

  /** `id == r` for a numeric id: a string is converted to a number first,
      `null` equals no number. */
  predicate LooseEq(id: int, r: Ref) {
    match r
    case Null => false
    case Num(n) => n == id
    case Str(s) => Text.StringToNumber(s) == Some(id)
  }

  /** An image is a data URL read from a file, or nothing. */
  type Image = Option<string>

  predicate HasImage(img: Image) {
    img.Some? && img.value != ""
  }

  datatype Note = Note(
    id: int,
    category: string,
    subcategory: string,
    minute: int,
    text: string,
    image: Image,
    videoLink: string,
    timestamp: string)

  datatype GameProfile = GameProfile(
    teamName: string,
    coachName: string,
    opponentName: string,
    competitionName: string,
    gameLocation: string,
    formation: string,
    gameName: string,
    gameDate: string,
    gameNotes: string)

  datatype Game = Game(id: int, name: string, date: string, notes: seq<Note>, profile: GameProfile)

  datatype AthleteNote = AthleteNote(id: int, minute: int, text: string, timestamp: string)

  datatype Athlete = Athlete(id: int, name: string, number: string, position: string, notes: seq<AthleteNote>)

  datatype Profile = Profile(photo: Image, teamName: string, coachName: string)

  datatype Theme = Dark | Light

  datatype Db = Db(games: seq<Game>, currentGame: Ref, profile: Profile, athletes: seq<Athlete>, theme: Theme)

  /** The document before anything was saved. */
  const EmptyDb := Db([], Null, Profile(None, "", ""), [], Dark)

  /** `parseInt(field) || 0`, where `None` stands for `NaN`. */
  function MinuteOrZero(parsed: Option<int>): int {
    match parsed
    case None => 0
    case Some(m) => m
  }

  function IdOfGame(g: Game): int { g.id }
  function IdOfNote(n: Note): int { n.id }
  function IdOfAthlete(a: Athlete): int { a.id }
  function IdOfAthleteNote(n: AthleteNote): int { n.id }

  /** Ids are unique within each collection: the games, the athletes, the notes of
      one game, the notes of one athlete. */
  ghost predicate UniqueIds(db: Db) {
    && Seqs.DistinctBy(IdOfGame, db.games)
    && Seqs.DistinctBy(IdOfAthlete, db.athletes)
    && (forall g :: g in db.games ==> Seqs.DistinctBy(IdOfNote, g.notes))
    && (forall a :: a in db.athletes ==> Seqs.DistinctBy(IdOfAthleteNote, a.notes))
  }

  /** Every id in the document is below the clock value `t`. */
  ghost predicate IdsBelow(db: Db, t: int) {
    && (forall g :: g in db.games ==> GameIdsBelow(g, t))
    && (forall a :: a in db.athletes ==> AthleteIdsBelow(a, t))
  }

  ghost predicate GameIdsBelow(g: Game, t: int) {
    g.id < t && forall n :: n in g.notes ==> n.id < t
  }

  ghost predicate AthleteIdsBelow(a: Athlete, t: int) {
    a.id < t && forall n :: n in a.notes ==> n.id < t
  }

  /** A set current-game reference names a game, in the `===` sense
      `getCurrentGame` uses. */
  ghost predicate CurrentIsLoaded(db: Db) {
    db.currentGame.Null? || exists g :: g in db.games && StrictEq(g.id, db.currentGame)
  }
}
