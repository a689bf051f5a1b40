/** The page model both reports draw on: an A4 portrait page measured in
    millimetres, the vertical cursor `yPos`, `checkNewPage` (script.js:441-448 and
    script.js:728-735) and the page footer of the game report
    (script.js:913-923).  Fonts, sizes and colours are not modelled; what is kept
    is where each piece of text and each rule lands and when pages are added. */
module Layout {
  import Text
  import Seqs

  const PageHeight := 297
  const Margin := 20
  /** `yPos` at the start of every page. */
  const Top := 20
  /** `pageHeight - margin`: the lowest position `checkNewPage` lets content reach. */
  const Bottom := PageHeight - Margin

  datatype Align = Left | Center

  /** The jsPDF calls that matter for the layout. */
  datatype Instr =
    | Write(s: string, x: int, y: int, align: Align)   // pdf.text
    | Line(x1: int, y: int, x2: int)                   // pdf.line, horizontal
    | NewPage                                          // pdf.addPage
    | GoToPage(page: int)                              // pdf.setPage

  /** A document being drawn: the cursor, the number of pages and the calls so far. */
  datatype Doc = Doc(y: int, pages: nat, ops: seq<Instr>)

  /** A fresh `jsPDF` document with `yPos = 20`. */
  const Start := Doc(Top, 1, [])

  /** The strings passed to `pdf.text`, in order. */
  function Texts(ops: seq<Instr>): seq<string> {
    if ops == [] then []
    else Texts(ops[..|ops| - 1]) + (if ops[|ops| - 1].Write? then [ops[|ops| - 1].s] else [])
  }

  lemma TextsAppend(ops: seq<Instr>, op: Instr)
    ensures Texts(ops + [op]) == Texts(ops) + (if op.Write? then [op.s] else [])
  {
    assert (ops + [op])[..|ops|] == ops;
  }

  function CountNewPages(ops: seq<Instr>): nat {
    if ops == [] then 0
    else CountNewPages(ops[..|ops| - 1]) + (if ops[|ops| - 1] == NewPage then 1 else 0)
  }

  lemma CountNewPagesAppend(ops: seq<Instr>, op: Instr)
    ensures CountNewPages(ops + [op]) == CountNewPages(ops) + (if op == NewPage then 1 else 0)
  {
    assert (ops + [op])[..|ops|] == ops;
  }

  function CountRules(ops: seq<Instr>): nat {
    if ops == [] then 0
    else CountRules(ops[..|ops| - 1]) + (if ops[|ops| - 1].Line? then 1 else 0)
  }

  lemma CountRulesAppend(ops: seq<Instr>, op: Instr)
    ensures CountRules(ops + [op]) == CountRules(ops) + (if op.Line? then 1 else 0)
  {
    assert (ops + [op])[..|ops|] == ops;
  }

  /** Text and rules lie between the top margin and the bottom margin. */
  predicate Fits(op: Instr) {
    match op
    case Write(_, _, y, _) => Top <= y <= Bottom
    case Line(_, y, _) => Top <= y <= Bottom
    case NewPage => true
    case GoToPage(_) => false
  }

  /** The layout invariant: the cursor is never above the top margin, every page
      but the first was added by `addPage`, and nothing drawn so far crosses a
      margin. */
  predicate Wf(d: Doc) {
    && Top <= d.y
    && d.pages == 1 + CountNewPages(d.ops)
    && forall i :: 0 <= i < |d.ops| ==> Fits(d.ops[i])
  }

  /** `pdf.text(s, x, yPos, ...)`. */
  function Put(d: Doc, s: string, x: int, align: Align): (r: Doc)
    ensures r.y == d.y && r.pages == d.pages
    ensures r.ops == d.ops + [Write(s, x, d.y, align)]
    ensures Wf(d) && d.y <= Bottom ==> Wf(r)
    ensures CountRules(r.ops) == CountRules(d.ops)
  {
    CountNewPagesAppend(d.ops, Write(s, x, d.y, align));
    CountRulesAppend(d.ops, Write(s, x, d.y, align));
    Doc(d.y, d.pages, d.ops + [Write(s, x, d.y, align)])
  }

  /** `pdf.line(margin, yPos, 210 - margin, yPos)`. */
  function Rule(d: Doc): (r: Doc)
    ensures r.y == d.y && r.pages == d.pages
    ensures r.ops == d.ops + [Line(Margin, d.y, 210 - Margin)]
    ensures Wf(d) && d.y <= Bottom ==> Wf(r)
    ensures CountRules(r.ops) == CountRules(d.ops) + 1
  {
    CountNewPagesAppend(d.ops, Line(Margin, d.y, 210 - Margin));
    CountRulesAppend(d.ops, Line(Margin, d.y, 210 - Margin));
    Doc(d.y, d.pages, d.ops + [Line(Margin, d.y, 210 - Margin)])
  }

  /** `yPos += dy`. */
  function Down(d: Doc, dy: nat): (r: Doc)
    ensures r.y == d.y + dy && r.pages == d.pages && r.ops == d.ops
    ensures Wf(d) ==> Wf(r)
  {
    d.(y := d.y + dy)
  }

  /** `checkNewPage(needed)`: a page is added, and the cursor returns to the top,
      exactly when `needed` millimetres below the cursor would cross the bottom
      margin. */
  function CheckNewPage(d: Doc, needed: int): (r: Doc)
    ensures r.pages == d.pages + 1 <==> d.y + needed > Bottom
    ensures r.pages == d.pages || r.pages == d.pages + 1
    ensures r.pages == d.pages + 1 ==> r.y == Top && r.ops == d.ops + [NewPage]
    ensures r.pages == d.pages ==> r == d
    ensures needed <= Bottom - Top ==> r.y + needed <= Bottom
    ensures Wf(d) ==> Wf(r)
    ensures CountRules(r.ops) == CountRules(d.ops)
  {
    if d.y + needed > Bottom then
      CountNewPagesAppend(d.ops, NewPage);
      CountRulesAppend(d.ops, NewPage);
      Doc(Top, d.pages + 1, d.ops + [NewPage])
    else d
  }

  /** The lines of one wrapped text, each preceded by `checkNewPage()` (20 mm)
      and followed by 5 mm. */
  function Lines(d: Doc, lines: seq<string>, x: int): (r: Doc)
    ensures lines == [] ==> r == d
    ensures lines != [] ==> r.y <= Bottom - 20 + 5
    ensures Wf(d) ==> Wf(r)
    ensures d.pages <= r.pages <= d.pages + |lines|
    ensures CountRules(r.ops) == CountRules(d.ops)
    decreases |lines|
  {
    if lines == [] then d
    else
      var d1 := CheckNewPage(d, 20);
      Lines(Down(Put(d1, lines[0], x, Left), 5), lines[1..], x)
  }

  /** How far `Lines` moves the cursor when no page is added. */
  lemma {:induction false} LinesAdvance(d: Doc, lines: seq<string>, x: int)
    requires d.y + 5 * |lines| + 15 <= Bottom
    ensures Lines(d, lines, x).y == d.y + 5 * |lines|
    ensures Lines(d, lines, x).pages == d.pages
    decreases |lines|
  {
    if lines != [] {
      LinesAdvance(Down(Put(d, lines[0], x, Left), 5), lines[1..], x);
    }
  }

  /** Lines written one below the other, `step` millimetres apart, with no page
      check in between. */
  function PlainLines(d: Doc, lines: seq<string>, x: int, step: nat): (r: Doc)
    ensures r.y == d.y + step * |lines| && r.pages == d.pages
    ensures Wf(d) && d.y + step * |lines| <= Bottom + step ==> Wf(r)
    ensures CountRules(r.ops) == CountRules(d.ops)
    decreases |lines|
  {
    if lines == [] then d
    else
      assert step * |lines| == step + step * |lines[1..]|;
      PlainLines(Down(Put(d, lines[0], x, Left), step), lines[1..], x, step)
  }

  // ---------------------------------------------------------------- what is printed

  lemma PutPrints(d: Doc, s: string, x: int, align: Align)
    ensures Texts(Put(d, s, x, align).ops) == Texts(d.ops) + [s]
  {
    TextsAppend(d.ops, Write(s, x, d.y, align));
  }

  lemma RulePrints(d: Doc)
    ensures Texts(Rule(d).ops) == Texts(d.ops)
  {
    TextsAppend(d.ops, Line(Margin, d.y, 210 - Margin));
  }

  lemma CheckNewPagePrints(d: Doc, needed: int)
    ensures Texts(CheckNewPage(d, needed).ops) == Texts(d.ops)
  {
    TextsAppend(d.ops, NewPage);
  }

  /** `Lines` prints the lines, in order, and nothing else. */
  lemma {:induction false} LinesPrints(d: Doc, lines: seq<string>, x: int)
    ensures Texts(Lines(d, lines, x).ops) == Texts(d.ops) + lines
    decreases |lines|
  {
    if lines == [] {
      assert Texts(d.ops) + lines == Texts(d.ops);
    } else {
      var d1 := CheckNewPage(d, 20);
      var d2 := Down(Put(d1, lines[0], x, Left), 5);
      CheckNewPagePrints(d, 20);
      PutPrints(d1, lines[0], x, Left);
      LinesPrints(d2, lines[1..], x);
      assert [lines[0]] + lines[1..] == lines;
      Seqs.AppendAssoc(Texts(d.ops), [lines[0]], lines[1..]);
    }
  }

  /** `PlainLines` prints the lines, in order, and nothing else. */
  lemma {:induction false} PlainLinesPrints(d: Doc, lines: seq<string>, x: int, step: nat)
    ensures Texts(PlainLines(d, lines, x, step).ops) == Texts(d.ops) + lines
    decreases |lines|
  {
    if lines == [] {
      assert Texts(d.ops) + lines == Texts(d.ops);
    } else {
      var d1 := Down(Put(d, lines[0], x, Left), step);
      PutPrints(d, lines[0], x, Left);
      PlainLinesPrints(d1, lines[1..], x, step);
      assert [lines[0]] + lines[1..] == lines;
      Seqs.AppendAssoc(Texts(d.ops), [lines[0]], lines[1..]);
    }
  }

  // ---------------------------------------------------------------- file name

  /** `${prefix}${name.replace(/[^a-z0-9]/gi, '_')}_${isoDate}.pdf`: every
      character of the name that is not an ASCII letter or digit becomes `_`. */
  function FileName(prefix: string, name: string, isoDate: string): (r: string)
    ensures |r| == |prefix| + |name| + 1 + |isoDate| + 4
    ensures r[..|prefix|] == prefix
    ensures forall k :: 0 <= k < |name| ==>
      r[|prefix| + k] == if Text.IsAsciiAlnum(name[k]) then name[k] else '_'
    ensures r[|prefix| + |name|..] == "_" + isoDate + ".pdf"
  {
    var s := Text.Sanitize(name);
    var r := prefix + s + "_" + isoDate + ".pdf";
    assert forall k :: 0 <= k < |name| ==> r[|prefix| + k] == s[k];
    assert r[|prefix| + |name|..] == "_" + isoDate + ".pdf";
    r
  }

  // ---------------------------------------------------------------- footer

  /** The first footer line of page `i` of `total`. */
  function FooterLine(i: nat, total: nat, date: string): string {
    "Gerado em: " + date + " - Página " + Text.NatToString(i) + "/" + Text.NatToString(total)
  }

  const FooterBrand := "Análise Tática Hub PRO v2.0"

  /** The footer calls for pages `1..n` of a `total`-page document. */
  function Stamps(n: nat, total: nat, date: string): (r: seq<Instr>)
    ensures |r| == 3 * n
    ensures forall i :: 0 <= i < n ==> r[3 * i] == GoToPage(i + 1)
    ensures forall i :: 0 <= i < n ==> r[3 * i + 1] == Write(FooterLine(i + 1, total, date), 105, PageHeight - 10, Center)
    ensures forall i :: 0 <= i < n ==> r[3 * i + 2] == Write(FooterBrand, 105, PageHeight - 5, Center)
  {
    if n == 0 then []
    else
      var prev := Stamps(n - 1, total, date);
      var r := prev + [GoToPage(n), Write(FooterLine(n, total, date), 105, PageHeight - 10, Center),
                       Write(FooterBrand, 105, PageHeight - 5, Center)];
      assert forall i :: 0 <= i < n - 1 ==> r[3 * i] == prev[3 * i] && r[3 * i + 1] == prev[3 * i + 1] && r[3 * i + 2] == prev[3 * i + 2];
      r
  }

  /** The footer loop `for (let i = 1; i <= totalPages; i++)`. */
  function Footer(total: nat, date: string): seq<Instr> {
    Stamps(total, total, date)
  }

  /** The pages the footer visits, in order. */
  function VisitedPages(ops: seq<Instr>): seq<int> {
    if ops == [] then []
    else (if ops[0].GoToPage? then [ops[0].page] else []) + VisitedPages(ops[1..])
  }

  lemma {:induction false} VisitedPagesAppend(a: seq<Instr>, b: seq<Instr>)
    ensures VisitedPages(a + b) == VisitedPages(a) + VisitedPages(b)
    decreases |a|
  {
    if a == [] {
      assert a + b == b;
    } else {
      var h := if a[0].GoToPage? then [a[0].page] else [];
      assert (a + b)[0] == a[0] && (a + b)[1..] == a[1..] + b;
      VisitedPagesAppend(a[1..], b);
      Seqs.AppendAssoc(h, VisitedPages(a[1..]), VisitedPages(b));
    }
  }

  /** The footer visits every page `1..total` exactly once, in increasing order. */
  lemma {:induction false} FooterVisitsEachPageOnce(n: nat, total: nat, date: string)
    ensures VisitedPages(Stamps(n, total, date)) == seq(n, i => i + 1)
    decreases n
  {
    if n > 0 {
      var prev := Stamps(n - 1, total, date);
      var last := [GoToPage(n), Write(FooterLine(n, total, date), 105, PageHeight - 10, Center),
                   Write(FooterBrand, 105, PageHeight - 5, Center)];
      FooterVisitsEachPageOnce(n - 1, total, date);
      VisitedPagesAppend(prev, last);
      assert last[1..][1..][1..] == [];
      assert VisitedPages(last[1..][1..]) == [];
      assert VisitedPages(last[1..]) == [];
      assert VisitedPages(last) == [n];
      assert Stamps(n, total, date) == prev + last;
      assert seq(n, i => i + 1) == seq(n - 1, i => i + 1) + [n];
    }
  }
}
