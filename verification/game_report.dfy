/** `exportPDF()` (script.js:696-930): the game report as the sequence of jsPDF
    calls it makes.  `splitTextToSize(text, 170)` is the parameter `wrap`; the
    locale date (`toLocaleDateString('pt-PT')`) and the ISO date used in the file
    name are parameters too, and `pdfAvailable` stands for the `window.jspdf`
    check. */
module GameReport {
  import opened Wrappers
  import opened Model
  import Text
  import Store
  import MinuteSort
  import Grouping
  import Seqs
  import opened Layout

  datatype ExportError = NoGameSelected | NothingToExport | PdfUnavailable

  /** What the report consists of: the body calls, the footer calls drawn
      afterwards on every page, the page count, the file name and the notes in
      the order they were printed. */
  datatype Report = Report(body: seq<Instr>, footer: seq<Instr>, pages: nat, fileName: string, printed: seq<Note>)

  /** A report being drawn: the document so far and the notes whose blocks it
      holds, in the order they were drawn. */
  datatype Draft = Draft(doc: Doc, printed: seq<Note>)

  const Title := "\U{26BD} ANÁLISE TÁTICA"
  const ImageLine := "\U{1F4F7} Imagem anexada"
  const ProfileCaption := "INFORMAÇÕES"
  /** The name printed for a game without one. */
  const Untitled := "Jogo sem nome"

  function Minute(n: Note): int { n.minute }

  // ---------------------------------------------------------------- what is printed

  /** The texts of the title block: title, game name ("Jogo sem nome" when
      unnamed) and date (today when unset). */
  function HeadingTexts(g: Game, today: string): seq<string> {
    [Title, if g.name != "" then g.name else Untitled, if g.date != "" then g.date else today]
  }

  /** The texts of one note: its minute, the wrapped text when there is one, the
      image line when an image is attached and the video line when a link is set. */
  function NoteTexts(n: Note, wrap: string -> seq<string>): seq<string> {
    [Text.IntToString(n.minute) + "'"]
    + ((if n.text != "" then wrap(n.text) else [])
    + ((if HasImage(n.image) then [ImageLine] else [])
    + (if n.videoLink != "" then [VideoLine(n.videoLink)] else [])))
  }

  function NotesTexts(notes: seq<Note>, wrap: string -> seq<string>): seq<string>
    decreases |notes|
  {
    if notes == [] then [] else NoteTexts(notes[0], wrap) + NotesTexts(notes[1..], wrap)
  }

  /** The texts of one group: the category title and subcategory subtitle of its
      key, then its notes by ascending minute. */
  function GroupTexts(g: Grouping.NoteGroup, wrap: string -> seq<string>): seq<string> {
    var h := Grouping.GroupHeadings(g.key);
    [h.title, h.subtitle] + NotesTexts(MinuteSort.SortBy(Minute, g.notes), wrap)
  }

  function GroupsTexts(gs: seq<Grouping.NoteGroup>, wrap: string -> seq<string>): seq<string>
    decreases |gs|
  {
    if gs == [] then [] else GroupTexts(gs[0], wrap) + GroupsTexts(gs[1..], wrap)
  }

  /** Everything the body of the report for `g` prints, in order. */
  function ReportTexts(g: Game, wrap: string -> seq<string>, today: string): seq<string> {
    HeadingTexts(g, today) + (ProfileTexts(g.profile) + GroupsTexts(Grouping.GroupNotes(g.notes), wrap))
  }

  // ---------------------------------------------------------------- title and profile

  /** The title block: title at 20 mm, game name at 32, date at 40, a rule at 48;
      the content that follows starts at 58 mm on the first page. */
  function Heading(g: Game, today: string): (d: Doc)
    ensures Wf(d) && d.y == 58 && d.pages == 1 && CountRules(d.ops) == 1
  {
    var name := if g.name != "" then g.name else Untitled;
    var date := if g.date != "" then g.date else today;
    var d0 := Start;
    assert Wf(d0) && d0.y == Top && d0.pages == 1 && CountRules(d0.ops) == 0;
    var d1 := Put(d0, Title, 105, Center);
    assert Wf(d1) && d1.y == Top;
    var d2 := Put(Down(d1, 12), name, 105, Center);
    assert Wf(d2) && d2.y == 32;
    var d3 := Put(Down(d2, 8), date, 105, Center);
    assert Wf(d3) && d3.y == 40 && d3.pages == 1 && CountRules(d3.ops) == 0;
    Down(Rule(Down(d3, 8)), 10)
  }

  /** The title block prints the title, the game name and the date. */
  lemma HeadingPrints(g: Game, today: string)
    ensures Texts(Heading(g, today).ops) == HeadingTexts(g, today)
  {
    var name := if g.name != "" then g.name else Untitled;
    var date := if g.date != "" then g.date else today;
    var d0 := Start;
    var d1 := Put(d0, Title, 105, Center);
    var d2 := Put(Down(d1, 12), name, 105, Center);
    var d3 := Put(Down(d2, 8), date, 105, Center);
    assert Texts(d0.ops) == [];
    PutPrints(d0, Title, 105, Center);
    assert Texts(d1.ops) == [Title];
    PutPrints(Down(d1, 12), name, 105, Center);
    assert Texts(d2.ops) == [Title, name];
    PutPrints(Down(d2, 8), date, 105, Center);
    assert Texts(d3.ops) == [Title, name, date];
    RulePrints(Down(d3, 8));
  }

  /** The line printed for a field with this label and value: none when the value
      is empty. */
  function Labelled(caption: string, v: string): seq<string> {
    if v != "" then [caption + v] else []
  }

  /** The profile fields the report can print, each with its label, in print order. */
  function ProfileFields(p: GameProfile): seq<(string, string)> {
    [("Equipa: ", p.teamName), ("Treinador: ", p.coachName), ("Adversário: ", p.opponentName),
     ("Competição: ", p.competitionName), ("Local: ", p.gameLocation), ("Formação: ", p.formation)]
  }

  /** The lines of `fields`, in order. */
  function LabelledLines(fields: seq<(string, string)>): seq<string>
    decreases |fields|
  {
    if fields == [] then [] else Labelled(fields[0].0, fields[0].1) + LabelledLines(fields[1..])
  }

  lemma LabelledLinesStep(f: seq<(string, string)>, k: nat)
    requires k < |f|
    ensures LabelledLines(f[k..]) == Labelled(f[k].0, f[k].1) + LabelledLines(f[k + 1..])
  {
    assert f[k..][0] == f[k] && f[k..][1..] == f[k + 1..];
  }

  /** The profile lines that are printed: one line per non-empty field, label and
      value, in the order team, coach, opponent, competition, location, formation. */
  function ProfileLines(p: GameProfile): (r: seq<string>)
    ensures r == Labelled("Equipa: ", p.teamName) + (Labelled("Treinador: ", p.coachName)
               + (Labelled("Adversário: ", p.opponentName) + (Labelled("Competição: ", p.competitionName)
               + (Labelled("Local: ", p.gameLocation) + Labelled("Formação: ", p.formation)))))
    ensures r == [] <==>
      p.teamName == "" && p.coachName == "" && p.opponentName == ""
      && p.competitionName == "" && p.gameLocation == "" && p.formation == ""
  {
    var f := ProfileFields(p);
    assert LabelledLines(f[6..]) == [];
    LabelledLinesStep(f, 5);
    LabelledLinesStep(f, 4);
    LabelledLinesStep(f, 3);
    LabelledLinesStep(f, 2);
    LabelledLinesStep(f, 1);
    LabelledLinesStep(f, 0);
    assert f[0..] == f;
    assert LabelledLines(f[5..]) == Labelled("Formação: ", p.formation);
    LabelledLines(f)
  }

  /** The texts of the profile block: nothing when no field is set, otherwise
      the "INFORMAÇÕES" caption and the profile lines. */
  function ProfileTexts(p: GameProfile): seq<string> {
    if ProfileLines(p) == [] then [] else [ProfileCaption] + ProfileLines(p)
  }

  /** The "INFORMAÇÕES" block, printed only when some profile field is set; its
      lines are not page-checked, which is harmless because it always starts
      high on the first page. */
  function ProfileBlock(d: Doc, p: GameProfile): (r: Doc)
    ensures ProfileLines(p) == [] ==> r == d
    ensures Wf(d) && d.y + 43 <= Bottom ==> Wf(r) && r.pages == d.pages
    ensures CountRules(r.ops) == CountRules(d.ops)
  {
    var lines := ProfileLines(p);
    if lines == [] then d
    else
      var d1 := CheckNewPage(d, 20);
      var d2 := Down(Put(d1, ProfileCaption, Margin, Left), 7);
      Down(PlainLines(d2, lines, Margin, 6), 5)
  }

  /** The profile block prints the caption and the profile lines, or nothing. */
  lemma ProfileBlockPrints(d: Doc, p: GameProfile)
    ensures Texts(ProfileBlock(d, p).ops) == Texts(d.ops) + ProfileTexts(p)
  {
    var lines := ProfileLines(p);
    if lines == [] {
      assert Texts(d.ops) + [] == Texts(d.ops);
    } else {
      var d1 := CheckNewPage(d, 20);
      var d2 := Down(Put(d1, ProfileCaption, Margin, Left), 7);
      CheckNewPagePrints(d, 20);
      PutPrints(d1, ProfileCaption, Margin, Left);
      PlainLinesPrints(d2, lines, Margin, 6);
      Seqs.AppendAssoc(Texts(d.ops), [ProfileCaption], lines);
    }
  }

  // ---------------------------------------------------------------- notes

  /** The video line: a 9-character prefix, at most the first 40 characters of
      the link (`substring(0, 40)`), then "..." even when nothing was cut. */
  function VideoLine(v: string): (r: string)
    ensures |r| == 9 + (if |v| <= 40 then |v| else 40) + 3
    ensures r[9..|r| - 3] <= v
    ensures r[|r| - 3..] == "..."
  {
    "\U{1F3AC} Vídeo: " + Text.Take(v, 40) + "..."
  }

  /** An attachment line, 5 mm high, written only when `present`. */
  function AttachmentLine(d: Doc, present: bool, s: string): (r: Doc)
    ensures r.y == if present then d.y + 5 else d.y
    ensures r.pages == d.pages
    ensures Wf(d) && d.y <= Bottom ==> Wf(r)
    ensures CountRules(r.ops) == CountRules(d.ops)
  {
    if present then Down(Put(d, s, Margin + 5, Left), 5) else d
  }

  lemma AttachmentLinePrints(d: Doc, present: bool, s: string)
    ensures Texts(AttachmentLine(d, present, s).ops) == Texts(d.ops) + (if present then [s] else [])
  {
    if present {
      PutPrints(d, s, Margin + 5, Left);
    } else {
      assert Texts(d.ops) + [] == Texts(d.ops);
    }
  }

  /** The start of a note: page check for 25 mm, the minute, and the wrapped
      text when there is one. */
  function NoteText(d: Doc, n: Note, wrap: string -> seq<string>): (r: Doc)
    ensures Wf(d) ==> Wf(r)
    ensures r.y <= Bottom - 15
    ensures d.pages <= r.pages
    ensures CountRules(r.ops) == CountRules(d.ops)
  {
    var d1 := CheckNewPage(d, 25);
    var d2 := Down(Put(d1, Text.IntToString(n.minute) + "'", Margin + 5, Left), 6);
    if n.text != "" then Lines(d2, wrap(n.text), Margin + 5) else d2
  }

  /** The attachment lines of a note: the image line, then the video line. */
  function NoteAttachments(d: Doc, n: Note): (r: Doc)
    ensures Wf(d) && d.y + 5 <= Bottom ==> Wf(r)
    ensures r.y <= d.y + 10 && r.pages == d.pages
    ensures CountRules(r.ops) == CountRules(d.ops)
  {
    var d1 := AttachmentLine(d, HasImage(n.image), ImageLine);
    AttachmentLine(d1, n.videoLink != "", if n.videoLink != "" then VideoLine(n.videoLink) else "")
  }

  /** One note: the minute, the wrapped text (if any), the attachment lines, and
      a separating rule. */
  function NoteBlock(d: Doc, n: Note, wrap: string -> seq<string>): (r: Doc)
    ensures Wf(d) ==> Wf(r)
    ensures CountRules(r.ops) == CountRules(d.ops) + 1
    ensures d.pages <= r.pages
  {
    Down(Rule(Down(NoteAttachments(NoteText(d, n, wrap), n), 3)), 5)
  }

  /** The blocks of `notes`, in order; each note joins the printed log as its
      block is drawn. */
  function NotesBlock(d: Draft, notes: seq<Note>, wrap: string -> seq<string>): (r: Draft)
    ensures Wf(d.doc) ==> Wf(r.doc)
    ensures CountRules(r.doc.ops) == CountRules(d.doc.ops) + |notes|
    ensures d.doc.pages <= r.doc.pages
    ensures r.printed == d.printed + notes
    decreases |notes|
  {
    if notes == [] then d
    else
      var d1 := Draft(NoteBlock(d.doc, notes[0], wrap), d.printed + [notes[0]]);
      Seqs.AppendHead(d.printed, notes);
      NotesBlock(d1, notes[1..], wrap)
  }

  /** One group: page check for 30 mm, the category title, the subcategory
      subtitle, the notes by ascending minute, and 5 mm of space. */
  function GroupBlock(d: Draft, g: Grouping.NoteGroup, wrap: string -> seq<string>): (r: Draft)
    ensures Wf(d.doc) ==> Wf(r.doc)
    ensures CountRules(r.doc.ops) == CountRules(d.doc.ops) + |g.notes|
    ensures r.printed == d.printed + MinuteSort.SortBy(Minute, g.notes)
  {
    var d1 := CheckNewPage(d.doc, 30);
    var h := Grouping.GroupHeadings(g.key);
    var d2 := Down(Put(d1, h.title, Margin, Left), 7);
    var d3 := Down(Put(d2, h.subtitle, Margin, Left), 8);
    var r := NotesBlock(Draft(d3, d.printed), MinuteSort.SortBy(Minute, g.notes), wrap);
    r.(doc := Down(r.doc, 5))
  }

  function GroupsBlock(d: Draft, gs: seq<Grouping.NoteGroup>, wrap: string -> seq<string>): (r: Draft)
    ensures Wf(d.doc) ==> Wf(r.doc)
    ensures CountRules(r.doc.ops) == CountRules(d.doc.ops) + |Grouping.AllNotes(gs)|
    ensures r.printed == d.printed + PrintOrder(gs)
    decreases |gs|
  {
    if gs == [] then d
    else
      var d1 := GroupBlock(d, gs[0], wrap);
      Seqs.AppendAssoc(d.printed, MinuteSort.SortBy(Minute, gs[0].notes), PrintOrder(gs[1..]));
      GroupsBlock(d1, gs[1..], wrap)
  }

  // ---------------------------------------------------------------- what the blocks print

  /** A note block prints the note's minute, text and attachment lines. */
  lemma NoteBlockPrints(d: Doc, n: Note, wrap: string -> seq<string>)
    ensures Texts(NoteBlock(d, n, wrap).ops) == Texts(d.ops) + NoteTexts(n, wrap)
  {
    var minute := [Text.IntToString(n.minute) + "'"];
    var text := if n.text != "" then wrap(n.text) else [];
    var image := if HasImage(n.image) then [ImageLine] else [];
    var video := if n.videoLink != "" then [VideoLine(n.videoLink)] else [];
    var d1 := CheckNewPage(d, 25);
    var d2 := Down(Put(d1, Text.IntToString(n.minute) + "'", Margin + 5, Left), 6);
    CheckNewPagePrints(d, 25);
    PutPrints(d1, Text.IntToString(n.minute) + "'", Margin + 5, Left);
    var d3 := NoteText(d, n, wrap);
    if n.text != "" {
      LinesPrints(d2, wrap(n.text), Margin + 5);
    }
    assert Texts(d3.ops) == Texts(d.ops) + minute + text;
    var d4 := AttachmentLine(d3, HasImage(n.image), ImageLine);
    var d5 := AttachmentLine(d4, n.videoLink != "", if n.videoLink != "" then VideoLine(n.videoLink) else "");
    AttachmentLinePrints(d3, HasImage(n.image), ImageLine);
    AttachmentLinePrints(d4, n.videoLink != "", if n.videoLink != "" then VideoLine(n.videoLink) else "");
    assert d5 == NoteAttachments(d3, n);
    RulePrints(Down(d5, 3));
    assert Texts(d5.ops) == Texts(d.ops) + minute + text + image + video;
    assert NoteTexts(n, wrap) == minute + (text + (image + video));
    Seqs.AppendAssoc(Texts(d.ops) + minute + text, image, video);
    Seqs.AppendAssoc(Texts(d.ops) + minute, text, image + video);
    Seqs.AppendAssoc(Texts(d.ops), minute, text + (image + video));
  }

  lemma {:induction false} NotesBlockPrints(d: Draft, notes: seq<Note>, wrap: string -> seq<string>)
    ensures Texts(NotesBlock(d, notes, wrap).doc.ops) == Texts(d.doc.ops) + NotesTexts(notes, wrap)
    decreases |notes|
  {
    if notes == [] {
      assert Texts(d.doc.ops) + [] == Texts(d.doc.ops);
    } else {
      var d1 := Draft(NoteBlock(d.doc, notes[0], wrap), d.printed + [notes[0]]);
      NoteBlockPrints(d.doc, notes[0], wrap);
      NotesBlockPrints(d1, notes[1..], wrap);
      Seqs.AppendAssoc(Texts(d.doc.ops), NoteTexts(notes[0], wrap), NotesTexts(notes[1..], wrap));
    }
  }

  /** A group block prints its headings, then its notes by ascending minute. */
  lemma GroupBlockPrints(d: Draft, g: Grouping.NoteGroup, wrap: string -> seq<string>)
    ensures Texts(GroupBlock(d, g, wrap).doc.ops) == Texts(d.doc.ops) + GroupTexts(g, wrap)
  {
    var d1 := CheckNewPage(d.doc, 30);
    var h := Grouping.GroupHeadings(g.key);
    var d2 := Down(Put(d1, h.title, Margin, Left), 7);
    var d3 := Down(Put(d2, h.subtitle, Margin, Left), 8);
    CheckNewPagePrints(d.doc, 30);
    PutPrints(d1, h.title, Margin, Left);
    PutPrints(d2, h.subtitle, Margin, Left);
    assert Texts(d3.ops) == Texts(d.doc.ops) + [h.title, h.subtitle];
    var sorted := MinuteSort.SortBy(Minute, g.notes);
    NotesBlockPrints(Draft(d3, d.printed), sorted, wrap);
    Seqs.AppendAssoc(Texts(d.doc.ops), [h.title, h.subtitle], NotesTexts(sorted, wrap));
  }

  lemma {:induction false} GroupsBlockPrints(d: Draft, gs: seq<Grouping.NoteGroup>, wrap: string -> seq<string>)
    ensures Texts(GroupsBlock(d, gs, wrap).doc.ops) == Texts(d.doc.ops) + GroupsTexts(gs, wrap)
    decreases |gs|
  {
    if gs == [] {
      assert Texts(d.doc.ops) + [] == Texts(d.doc.ops);
    } else {
      var d1 := GroupBlock(d, gs[0], wrap);
      GroupBlockPrints(d, gs[0], wrap);
      GroupsBlockPrints(d1, gs[1..], wrap);
      Seqs.AppendAssoc(Texts(d.doc.ops), GroupTexts(gs[0], wrap), GroupsTexts(gs[1..], wrap));
    }
  }

  /** The order in which the notes are printed: group by group, each group by
      ascending minute. */
  function PrintOrder(gs: seq<Grouping.NoteGroup>): seq<Note> {
    if gs == [] then [] else MinuteSort.SortBy(Minute, gs[0].notes) + PrintOrder(gs[1..])
  }

  // ---------------------------------------------------------------- export

  /** The body of the report for game `g`. */
  function Body(g: Game, wrap: string -> seq<string>, today: string): (d: Draft)
    ensures Wf(d.doc)
    ensures CountRules(d.doc.ops) == 1 + |g.notes|
    ensures d.printed == PrintOrder(Grouping.GroupNotes(g.notes))
  {
    Grouping.GroupsArePermutation(g.notes);
    assert |Grouping.AllNotes(Grouping.GroupNotes(g.notes))| == |g.notes| by {
      assert |multiset(Grouping.AllNotes(Grouping.GroupNotes(g.notes)))| == |multiset(g.notes)|;
    }
    var d := ProfileBlock(Heading(g, today), g.profile);
    GroupsBlock(Draft(d, []), Grouping.GroupNotes(g.notes), wrap)
  }

  /** The body prints the title block, the profile block and the groups, in that
      order. */
  lemma BodyPrints(g: Game, wrap: string -> seq<string>, today: string)
    ensures Texts(Body(g, wrap, today).doc.ops) == ReportTexts(g, wrap, today)
  {
    var h := Heading(g, today);
    var d := ProfileBlock(h, g.profile);
    var gs := Grouping.GroupNotes(g.notes);
    HeadingPrints(g, today);
    ProfileBlockPrints(h, g.profile);
    GroupsBlockPrints(Draft(d, []), gs, wrap);
    Seqs.AppendAssoc(HeadingTexts(g, today), ProfileTexts(g.profile), GroupsTexts(gs, wrap));
  }

  /** `exportPDF()`: the current game's report, or the reason there is none. */
  function ExportPdf(db: Db, pdfAvailable: bool, wrap: string -> seq<string>, today: string, isoDate: string)
    : (r: Result<Report, ExportError>)
    ensures r == Failure(NoGameSelected) <==> Store.GetCurrentGame(db).None?
    ensures r == Failure(NothingToExport) <==>
      Store.GetCurrentGame(db).Some? && Store.GetCurrentGame(db).value.notes == []
    ensures r == Failure(PdfUnavailable) <==>
      Store.GetCurrentGame(db).Some? && Store.GetCurrentGame(db).value.notes != [] && !pdfAvailable
    ensures r.Success? ==>
      var g := Store.GetCurrentGame(db).value;
      && r.value.pages == 1 + CountNewPages(r.value.body)
      && (forall i :: 0 <= i < |r.value.body| ==> Fits(r.value.body[i]))
      && CountRules(r.value.body) == 1 + |g.notes|
      && r.value.footer == Footer(r.value.pages, today)
      && r.value.fileName == FileName("Analise_", g.name, isoDate)
      && Texts(r.value.body) == ReportTexts(g, wrap, today)
      && r.value.printed == PrintOrder(Grouping.GroupNotes(g.notes))
  {
    match Store.GetCurrentGame(db)
    case None => Failure(NoGameSelected)
    case Some(g) =>
      if g.notes == [] then Failure(NothingToExport)
      else if !pdfAvailable then Failure(PdfUnavailable)
      else
        var d := Body(g, wrap, today);
        BodyPrints(g, wrap, today);
        Success(Report(d.doc.ops, Footer(d.doc.pages, today), d.doc.pages, FileName("Analise_", g.name, isoDate), d.printed))
  }

  // ---------------------------------------------------------------- facts

  lemma {:induction false} PrintOrderPermutation(gs: seq<Grouping.NoteGroup>)
    ensures multiset(PrintOrder(gs)) == multiset(Grouping.AllNotes(gs))
    decreases |gs|
  {
    if gs != [] {
      PrintOrderPermutation(gs[1..]);
    }
  }

  /** A successful export prints every note of the current game exactly as
      often as it occurs, and nothing else. */
  lemma ReportPrintsEveryNote(db: Db, pdfAvailable: bool, wrap: string -> seq<string>, today: string, isoDate: string)
    ensures var r := ExportPdf(db, pdfAvailable, wrap, today, isoDate);
      r.Success? ==> multiset(r.value.printed) == multiset(Store.GetCurrentGame(db).value.notes)
  {
    var r := ExportPdf(db, pdfAvailable, wrap, today, isoDate);
    if r.Success? {
      var g := Store.GetCurrentGame(db).value;
      PrintOrderPermutation(Grouping.GroupNotes(g.notes));
      Grouping.GroupsArePermutation(g.notes);
    }
  }

  /** The footer of a successful export stamps every page `1..pages` once, in
      order, with "Página i/pages". */
  lemma FooterStampsEveryPage(db: Db, pdfAvailable: bool, wrap: string -> seq<string>, today: string, isoDate: string)
    ensures var r := ExportPdf(db, pdfAvailable, wrap, today, isoDate);
      r.Success? ==>
      && VisitedPages(r.value.footer) == seq(r.value.pages, i => i + 1)
      && forall i :: 0 <= i < r.value.pages ==>
           r.value.footer[3 * i + 1] == Write(FooterLine(i + 1, r.value.pages, today), 105, PageHeight - 10, Center)
  {
    var r := ExportPdf(db, pdfAvailable, wrap, today, isoDate);
    if r.Success? {
      FooterVisitsEachPageOnce(r.value.pages, r.value.pages, today);
    }
  }
}
