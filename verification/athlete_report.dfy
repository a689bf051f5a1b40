/** `exportAthleteNotes(athleteId)` (script.js:416-507): one athlete's notes as
    the sequence of jsPDF calls it makes.  `wrap` is `splitTextToSize(text, 170)`,
    `pdfAvailable` the `window.jspdf` check, `isoDate` the date in the file name.
    This report has no footer. */
module AthleteReport {
  import opened Wrappers
  import opened Model
  import Text
  import Store
  import MinuteSort
  import Seqs
  import opened Layout

  /** `AthleteNotFound` is the silent `return` when no athlete has the id. */
  datatype ExportError = AthleteNotFound | NothingToExport | PdfUnavailable

  /** The body calls, the page count, the file name and the notes in the order
      they were printed. */
  datatype Report = Report(body: seq<Instr>, pages: nat, fileName: string, printed: seq<AthleteNote>)

  /** A report being drawn: the document so far and the notes whose blocks it
      holds, in the order they were drawn. */
  datatype Draft = Draft(doc: Doc, printed: seq<AthleteNote>)

  const Title := "NOTAS DA ATLETA"

  function Minute(n: AthleteNote): int { n.minute }

  /** The line under the name: position and number, whichever are set, joined
      by " | ". */
  function Meta(a: Athlete): (r: string)
    ensures r == "" <==> a.position == "" && a.number == ""
    ensures a.position != "" && a.number != "" ==>
      r == "Posição: " + a.position + " | " + "Número: #" + a.number
    ensures a.position != "" && a.number == "" ==> r == "Posição: " + a.position
    ensures a.position == "" && a.number != "" ==> r == "Número: #" + a.number
  {
    var parts := (if a.position != "" then ["Posição: " + a.position] else [])
               + (if a.number != "" then ["Número: #" + a.number] else []);
    if |parts| == 2 then
      assert parts[1..] == ["Número: #" + a.number];
      assert Text.Join(parts, " | ") == parts[0] + " | " + Text.Join(parts[1..], " | ");
      Text.Join(parts, " | ")
    else Text.Join(parts, " | ")
  }

  // ---------------------------------------------------------------- what is printed

  /** The texts of the header: title, name and the meta line when there is one. */
  function HeadingTexts(a: Athlete): seq<string> {
    var meta := Meta(a);
    if meta != "" then [Title, a.name, meta] else [Title, a.name]
  }

  /** The texts of one note: its minute, then its wrapped text. */
  function NoteTexts(n: AthleteNote, wrap: string -> seq<string>): seq<string> {
    [Text.IntToString(n.minute) + "'"] + wrap(n.text)
  }

  function NotesTexts(notes: seq<AthleteNote>, wrap: string -> seq<string>): seq<string>
    decreases |notes|
  {
    if notes == [] then [] else NoteTexts(notes[0], wrap) + NotesTexts(notes[1..], wrap)
  }

  /** Everything the report for `a` prints: the header, then the notes by
      ascending minute. */
  function ReportTexts(a: Athlete, wrap: string -> seq<string>): seq<string> {
    HeadingTexts(a) + NotesTexts(MinuteSort.SortBy(Minute, a.notes), wrap)
  }

  // ---------------------------------------------------------------- layout

  /** The title at 20 mm and the name at 32; the cursor ends at 38. */
  function Masthead(a: Athlete): (d: Doc)
    ensures Wf(d) && d.y == 38 && d.pages == 1 && CountRules(d.ops) == 0
  {
    var d0 := Start;
    assert Wf(d0) && d0.y == Top && d0.pages == 1 && CountRules(d0.ops) == 0;
    var d1 := Put(d0, Title, 105, Center);
    assert Wf(d1) && d1.y == Top && CountRules(d1.ops) == 0;
    Down(Put(Down(d1, 12), a.name, 105, Center), 6)
  }

  /** The header: title at 20 mm, name at 32, the meta line at 38 when there is
      one, and a rule at 46 (42 without meta line); notes start 8 mm lower. */
  function Heading(a: Athlete): (d: Doc)
    ensures Wf(d) && d.pages == 1 && CountRules(d.ops) == 1
    ensures d.y == if Meta(a) != "" then 54 else 50
  {
    var d2 := Masthead(a);
    var meta := Meta(a);
    var d3 := if meta != "" then Down(Put(d2, meta, 105, Center), 8) else Down(d2, 4);
    Down(Rule(d3), 8)
  }

  lemma MastheadPrints(a: Athlete)
    ensures Texts(Masthead(a).ops) == [Title, a.name]
  {
    var d0 := Start;
    var d1 := Put(d0, Title, 105, Center);
    assert Texts(d0.ops) == [];
    PutPrints(d0, Title, 105, Center);
    assert Texts(d1.ops) == [Title];
    PutPrints(Down(d1, 12), a.name, 105, Center);
  }

  /** The header prints the title, the name and the meta line when there is one. */
  lemma HeadingPrints(a: Athlete)
    ensures Texts(Heading(a).ops) == HeadingTexts(a)
  {
    var d2 := Masthead(a);
    MastheadPrints(a);
    var meta := Meta(a);
    var d3 := if meta != "" then Down(Put(d2, meta, 105, Center), 8) else Down(d2, 4);
    if meta != "" {
      PutPrints(d2, meta, 105, Center);
    }
    assert Texts(d3.ops) == HeadingTexts(a);
    RulePrints(d3);
  }


  /** One note: page check for 20 mm, the minute at the margin, the wrapped
      text, and a separating rule. */
  function NoteBlock(d: Doc, n: AthleteNote, wrap: string -> seq<string>): (r: Doc)
    ensures Wf(d) ==> Wf(r)
    ensures CountRules(r.ops) == CountRules(d.ops) + 1
    ensures d.pages <= r.pages
  {
    var d1 := CheckNewPage(d, 20);
    var d2 := Down(Put(d1, Text.IntToString(n.minute) + "'", Margin, Left), 6);
    var d3 := Lines(d2, wrap(n.text), Margin);
    Down(Rule(Down(d3, 3)), 6)
  }

  /** The blocks of `notes`, in order; each note joins the printed log as its
      block is drawn. */
  function NotesBlock(d: Draft, notes: seq<AthleteNote>, wrap: string -> seq<string>): (r: Draft)
    ensures Wf(d.doc) ==> Wf(r.doc)
    ensures CountRules(r.doc.ops) == CountRules(d.doc.ops) + |notes|
    ensures r.printed == d.printed + notes
    decreases |notes|
  {
    if notes == [] then d
    else
      var d1 := Draft(NoteBlock(d.doc, notes[0], wrap), d.printed + [notes[0]]);
      Seqs.AppendHead(d.printed, notes);
      NotesBlock(d1, notes[1..], wrap)
  }

  /** A note block prints the note's minute, then its wrapped text. */
  lemma NoteBlockPrints(d: Doc, n: AthleteNote, wrap: string -> seq<string>)
    ensures Texts(NoteBlock(d, n, wrap).ops) == Texts(d.ops) + NoteTexts(n, wrap)
  {
    var minute := [Text.IntToString(n.minute) + "'"];
    var d1 := CheckNewPage(d, 20);
    var d2 := Down(Put(d1, Text.IntToString(n.minute) + "'", Margin, Left), 6);
    CheckNewPagePrints(d, 20);
    PutPrints(d1, Text.IntToString(n.minute) + "'", Margin, Left);
    var d3 := Lines(d2, wrap(n.text), Margin);
    LinesPrints(d2, wrap(n.text), Margin);
    RulePrints(Down(d3, 3));
    Seqs.AppendAssoc(Texts(d.ops), minute, wrap(n.text));
  }

  lemma {:induction false} NotesBlockPrints(d: Draft, notes: seq<AthleteNote>, wrap: string -> seq<string>)
    ensures Texts(NotesBlock(d, notes, wrap).doc.ops) == Texts(d.doc.ops) + NotesTexts(notes, wrap)
    decreases |notes|
  {
    if notes == [] {
      assert Texts(d.doc.ops) + [] == Texts(d.doc.ops);
    } else {
      var d1 := Draft(NoteBlock(d.doc, notes[0], wrap), d.printed + [notes[0]]);
      NoteBlockPrints(d.doc, notes[0], wrap);
      NotesBlockPrints(d1, notes[1..], wrap);
      Seqs.AppendAssoc(Texts(d.doc.ops), NoteTexts(notes[0], wrap), NotesTexts(notes[1..], wrap));
    }
  }

  /** `exportAthleteNotes(athleteId)`: the athlete is looked up with `===`. */
  function ExportAthleteNotes(db: Db, athleteId: Ref, pdfAvailable: bool, wrap: string -> seq<string>, isoDate: string)
    : (r: Result<Report, ExportError>)
    ensures r == Failure(AthleteNotFound) <==> forall a :: a in db.athletes ==> !StrictEq(a.id, athleteId)
    ensures r.Success? || r == Failure(NothingToExport) || r == Failure(PdfUnavailable) ==>
      Store.AthleteIndex(db.athletes, athleteId).Some?
    ensures r == Failure(NothingToExport) <==>
      Store.AthleteIndex(db.athletes, athleteId).Some?
      && db.athletes[Store.AthleteIndex(db.athletes, athleteId).value].notes == []
    ensures r == Failure(PdfUnavailable) <==>
      Store.AthleteIndex(db.athletes, athleteId).Some?
      && db.athletes[Store.AthleteIndex(db.athletes, athleteId).value].notes != [] && !pdfAvailable
    ensures r.Success? ==>
      var a := db.athletes[Store.AthleteIndex(db.athletes, athleteId).value];
      && StrictEq(a.id, athleteId)
      && r.value.pages == 1 + CountNewPages(r.value.body)
      && (forall i :: 0 <= i < |r.value.body| ==> Fits(r.value.body[i]))
      && CountRules(r.value.body) == 1 + |a.notes|
      && r.value.fileName == FileName("Notas_", a.name, isoDate)
      && Texts(r.value.body) == ReportTexts(a, wrap)
      && r.value.printed == MinuteSort.SortBy(Minute, a.notes)
  {
    match Store.AthleteIndex(db.athletes, athleteId)
    case None => Failure(AthleteNotFound)
    case Some(i) =>
      var a := db.athletes[i];
      if a.notes == [] then Failure(NothingToExport)
      else if !pdfAvailable then Failure(PdfUnavailable)
      else
        var sorted := MinuteSort.SortBy(Minute, a.notes);
        var start := Draft(Heading(a), []);
        var d := NotesBlock(start, sorted, wrap);
        HeadingPrints(a);
        NotesBlockPrints(start, sorted, wrap);
        Success(Report(d.doc.ops, d.doc.pages, FileName("Notas_", a.name, isoDate), d.printed))
  }

  /** A successful export prints the athlete's notes by ascending minute, notes
      of the same minute in the order they were written, each exactly once. */
  lemma PrintOrderIsStableSort(db: Db, athleteId: Ref, pdfAvailable: bool, wrap: string -> seq<string>, isoDate: string, k: int)
    ensures var r := ExportAthleteNotes(db, athleteId, pdfAvailable, wrap, isoDate);
      r.Success? ==>
      var a := db.athletes[Store.AthleteIndex(db.athletes, athleteId).value];
      && MinuteSort.SortedBy(Minute, r.value.printed)
      && multiset(r.value.printed) == multiset(a.notes)
      && MinuteSort.WithKey(Minute, r.value.printed, k) == MinuteSort.WithKey(Minute, a.notes, k)
  {
    var r := ExportAthleteNotes(db, athleteId, pdfAvailable, wrap, isoDate);
    if r.Success? {
      var a := db.athletes[Store.AthleteIndex(db.athletes, athleteId).value];
      MinuteSort.SortIsStable(Minute, a.notes, k);
    }
  }
}
