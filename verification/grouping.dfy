/** How the game report organises notes: `notesByCategory` (script.js:829-836),
    the split of a group key back into tokens (script.js:841-842) and the label
    tables that turn tokens into headings (script.js:808-826, 850, 856). */
module Grouping {
  import opened Wrappers
  import opened Model
  import Seqs
  import Text

  // ---------------------------------------------------------------- grouping

  /** One entry of `notesByCategory`: a key and the notes pushed under it. */
  datatype NoteGroup = NoteGroup(key: string, notes: seq<Note>)

  /** `${note.category}-${note.subcategory}`. */
  function GroupKey(n: Note): string {
    n.category + "-" + n.subcategory
  }

  /** Position of the group with key `k` (`notesByCategory[k]`), or `|gs|` when
      the object has no such key. */
  function KeyIndex(gs: seq<NoteGroup>, k: string): (i: nat)
    ensures i <= |gs|
    ensures i < |gs| ==> gs[i].key == k
    ensures forall j :: 0 <= j < i ==> gs[j].key != k
    decreases |gs|
  {
    if gs == [] then 0
    else if gs[0].key == k then 0
    else 1 + KeyIndex(gs[1..], k)
  }

  /** An object has each key once. */
  predicate DistinctKeys(gs: seq<NoteGroup>) {
    forall i, j :: 0 <= i < j < |gs| ==> gs[i].key != gs[j].key
  }

  /** The groups' notes one group after the other. */
  function AllNotes(gs: seq<NoteGroup>): seq<Note> {
    if gs == [] then [] else gs[0].notes + AllNotes(gs[1..])
  }

  /** One step of the `forEach`: `n` is pushed onto the group of its key; a key not
      yet present opens a new group at the end, which is where `Object.keys` lists
      it (group keys always contain "-", so they are never array-index keys, which
      `Object.keys` would list first). */
  function AddNote(gs: seq<NoteGroup>, n: Note): (r: seq<NoteGroup>)
    requires DistinctKeys(gs)
    ensures DistinctKeys(r)
  {
    var i := KeyIndex(gs, GroupKey(n));
    if i == |gs| then gs + [NoteGroup(GroupKey(n), [n])]
    else gs[i := NoteGroup(gs[i].key, gs[i].notes + [n])]
  }

  /** Adding a note keeps every existing key in place, and puts the note's key
      either where it already was or in a new last group. */
  lemma AddNoteKeys(gs: seq<NoteGroup>, n: Note)
    requires DistinctKeys(gs)
    ensures |AddNote(gs, n)| == if KeyIndex(gs, GroupKey(n)) < |gs| then |gs| else |gs| + 1
    ensures forall i :: 0 <= i < |gs| ==> AddNote(gs, n)[i].key == gs[i].key
    ensures KeyIndex(gs, GroupKey(n)) == |gs| ==> AddNote(gs, n)[|gs|] == NoteGroup(GroupKey(n), [n])
  {
  }

  /** The group of the note's key grows by the note; every other group is as it
      was. */
  lemma AddNoteContents(gs: seq<NoteGroup>, n: Note, i: nat)
    requires DistinctKeys(gs) && i < |gs|
    ensures AddNote(gs, n)[i].notes == gs[i].notes + (if gs[i].key == GroupKey(n) then [n] else [])
  {
    var k := KeyIndex(gs, GroupKey(n));
    if gs[i].key == GroupKey(n) {
      assert k == i;
    }
  }

  /** `notesByCategory` after the whole `forEach` over the game's notes. */
  function GroupNotes(s: seq<Note>): (r: seq<NoteGroup>)
    ensures DistinctKeys(r)
    decreases |s|
  {
    if s == [] then [] else AddNote(GroupNotes(s[..|s| - 1]), s[|s| - 1])
  }

  // ---------------------------------------------------------------- reference view

  /** The notes of `s` whose key is `k`, in their order in `s`. */
  function WithGroupKey(s: seq<Note>, k: string): seq<Note> {
    Seqs.Filter((n: Note) => GroupKey(n) == k, s)
  }

  /** Position of the first note with key `k`, or `|s|` when there is none. */
  function FirstWithKey(s: seq<Note>, k: string): (i: nat)
    ensures i <= |s|
    ensures i < |s| ==> GroupKey(s[i]) == k
    ensures forall j :: 0 <= j < i ==> GroupKey(s[j]) != k
    decreases |s|
  {
    if s == [] then 0
    else if GroupKey(s[0]) == k then 0
    else 1 + FirstWithKey(s[1..], k)
  }

  lemma {:induction false} FirstWithKeyAppend(s: seq<Note>, n: Note, k: string)
    ensures FirstWithKey(s, k) < |s| ==> FirstWithKey(s + [n], k) == FirstWithKey(s, k)
    ensures FirstWithKey(s, k) == |s| && GroupKey(n) == k ==> FirstWithKey(s + [n], k) == |s|
    ensures FirstWithKey(s, k) == |s| && GroupKey(n) != k ==> FirstWithKey(s + [n], k) == |s| + 1
    decreases |s|
  {
    if s != [] {
      assert (s + [n])[1..] == s[1..] + [n];
      FirstWithKeyAppend(s[1..], n, k);
    }
  }

  lemma WithGroupKeyLast(s: seq<Note>, k: string)
    requires s != []
    ensures WithGroupKey(s, k)
         == WithGroupKey(s[..|s| - 1], k) + (if GroupKey(s[|s| - 1]) == k then [s[|s| - 1]] else [])
  {
    Seqs.FilterAppend((n: Note) => GroupKey(n) == k, s[..|s| - 1], [s[|s| - 1]]);
    assert s == s[..|s| - 1] + [s[|s| - 1]];
  }

  lemma {:induction false} WithGroupKeyNone(s: seq<Note>, k: string)
    requires FirstWithKey(s, k) == |s|
    ensures WithGroupKey(s, k) == []
    decreases |s|
  {
    if s != [] {
      WithGroupKeyNone(s[1..], k);
    }
  }

  // ---------------------------------------------------------------- grouping facts

  /** After adding a note, the keys present are the old ones and the note's. */
  lemma AddNoteHasKey(gs: seq<NoteGroup>, n: Note, k: string)
    requires DistinctKeys(gs)
    ensures KeyIndex(AddNote(gs, n), k) < |AddNote(gs, n)| <==> KeyIndex(gs, k) < |gs| || GroupKey(n) == k
  {
    var r := AddNote(gs, n);
    AddNoteKeys(gs, n);
    if KeyIndex(gs, k) < |gs| {
      assert r[KeyIndex(gs, k)].key == k;
    } else if GroupKey(n) == k {
      assert r[KeyIndex(gs, GroupKey(n))].key == k;
    }
  }

  /** The group keys are exactly the keys of the game's notes. */
  lemma {:induction false} GroupKeysAreNoteKeys(s: seq<Note>, k: string)
    ensures KeyIndex(GroupNotes(s), k) < |GroupNotes(s)| <==> FirstWithKey(s, k) < |s|
    decreases |s|
  {
    if s != [] {
      var init, n := s[..|s| - 1], s[|s| - 1];
      GroupKeysAreNoteKeys(init, k);
      AddNoteHasKey(GroupNotes(init), n, k);
      FirstWithKeyAppend(init, n, k);
      assert s == init + [n];
    }
  }

  /** Each group holds exactly the notes with its key, in the order they were
      added. */
  lemma {:induction false} GroupsAreFilters(s: seq<Note>, i: nat)
    requires i < |GroupNotes(s)|
    ensures GroupNotes(s)[i].notes == WithGroupKey(s, GroupNotes(s)[i].key)
    decreases |s|
  {
    var init, n := s[..|s| - 1], s[|s| - 1];
    var gi := GroupNotes(init);
    var gs := GroupNotes(s);
    AddNoteKeys(gi, n);
    WithGroupKeyLast(s, gs[i].key);
    if i < |gi| {
      GroupsAreFilters(init, i);
      AddNoteContents(gi, n, i);
    } else {
      GroupKeysAreNoteKeys(init, GroupKey(n));
      WithGroupKeyNone(init, GroupKey(n));
    }
  }

  /** Groups appear in the order in which their keys are first met. */
  lemma {:induction false} GroupsInFirstOrder(s: seq<Note>, i: nat, j: nat)
    requires i < j < |GroupNotes(s)|
    ensures FirstWithKey(s, GroupNotes(s)[i].key) < FirstWithKey(s, GroupNotes(s)[j].key)
    decreases |s|
  {
    var init, n := s[..|s| - 1], s[|s| - 1];
    var gi := GroupNotes(init);
    var gs := GroupNotes(s);
    AddNoteKeys(gi, n);
    assert s == init + [n];
    GroupKeysAreNoteKeys(init, gi[i].key);
    assert KeyIndex(gi, gi[i].key) <= i;
    FirstWithKeyAppend(init, n, gi[i].key);
    if j < |gi| {
      GroupsInFirstOrder(init, i, j);
      GroupKeysAreNoteKeys(init, gi[j].key);
      assert KeyIndex(gi, gi[j].key) <= j;
      FirstWithKeyAppend(init, n, gi[j].key);
    } else {
      GroupKeysAreNoteKeys(init, GroupKey(n));
      FirstWithKeyAppend(init, n, GroupKey(n));
    }
  }

  lemma {:induction false} AllNotesConcat(a: seq<NoteGroup>, b: seq<NoteGroup>)
    ensures AllNotes(a + b) == AllNotes(a) + AllNotes(b)
    decreases |a|
  {
    if a == [] {
      assert a + b == b;
    } else {
      AllNotesConcat(a[1..], b);
      assert (a + b)[1..] == a[1..] + b;
    }
  }

  lemma AllNotesOne(g: NoteGroup)
    ensures AllNotes([g]) == g.notes
  {
    assert AllNotes([g]) == g.notes + AllNotes([]);
  }

  /** Pushing a note onto one group adds exactly that note to the contents. */
  lemma AllNotesPush(gs: seq<NoteGroup>, i: nat, n: Note)
    requires i < |gs|
    ensures multiset(AllNotes(gs[i := NoteGroup(gs[i].key, gs[i].notes + [n])])) == multiset(AllNotes(gs)) + multiset{n}
  {
    var g := NoteGroup(gs[i].key, gs[i].notes + [n]);
    var a, c := gs[..i], gs[i + 1..];
    assert gs == a + ([gs[i]] + c);
    assert gs[i := g] == a + ([g] + c);
    AllNotesConcat(a, [gs[i]] + c);
    AllNotesConcat([gs[i]], c);
    AllNotesConcat(a, [g] + c);
    AllNotesConcat([g], c);
    AllNotesOne(gs[i]);
    AllNotesOne(g);
    assert AllNotes(gs[i := g]) == AllNotes(a) + gs[i].notes + [n] + AllNotes(c);
    assert AllNotes(gs) == AllNotes(a) + gs[i].notes + AllNotes(c);
  }

  /** Adding a note adds exactly that note to the groups' contents. */
  lemma AddNoteAllNotes(gs: seq<NoteGroup>, n: Note)
    requires DistinctKeys(gs)
    ensures multiset(AllNotes(AddNote(gs, n))) == multiset(AllNotes(gs)) + multiset{n}
  {
    var k := KeyIndex(gs, GroupKey(n));
    if k == |gs| {
      AllNotesConcat(gs, [NoteGroup(GroupKey(n), [n])]);
      AllNotesOne(NoteGroup(GroupKey(n), [n]));
    } else {
      AllNotesPush(gs, k, n);
    }
  }

  /** The groups together hold every note exactly as often as the game does. */
  lemma {:induction false} GroupsArePermutation(s: seq<Note>)
    ensures multiset(AllNotes(GroupNotes(s))) == multiset(s)
    decreases |s|
  {
    if s != [] {
      var init, n := s[..|s| - 1], s[|s| - 1];
      GroupsArePermutation(init);
      AddNoteAllNotes(GroupNotes(init), n);
      assert s == init + [n];
    }
  }

  /** Each note of the game is in exactly one group: the one of its key. */
  lemma NoteInExactlyOneGroup(s: seq<Note>, n: Note, i: nat)
    requires n in s && i < |GroupNotes(s)|
    ensures n in GroupNotes(s)[i].notes <==> GroupNotes(s)[i].key == GroupKey(n)
  {
    GroupsAreFilters(s, i);
    Seqs.FilterMultiset((m: Note) => GroupKey(m) == GroupNotes(s)[i].key, s);
  }

  /** Every note of the game has a group. */
  lemma EveryNoteHasAGroup(s: seq<Note>, n: Note)
    requires n in s
    ensures KeyIndex(GroupNotes(s), GroupKey(n)) < |GroupNotes(s)|
  {
    GroupKeysAreNoteKeys(s, GroupKey(n));
    var j :| 0 <= j < |s| && s[j] == n;
  }

  // ---------------------------------------------------------------- key split

  /** The tokens the report takes back out of a group key: `key.split('-')[0]` and
      `key.split('-').slice(1).join('-')`. */
  datatype KeyParts = KeyParts(category: string, subcategory: string)

  function SplitGroupKey(key: string): (p: KeyParts)
    ensures '-' !in p.category
    ensures '-' in key ==> key == p.category + "-" + p.subcategory
  {
    var parts := Text.Split(key, '-');
    Text.JoinSplit(key, '-');
    assert '-' in key ==> |parts| >= 2;
    KeyParts(parts[0], Text.Join(parts[1..], "-"))
  }

  /** Text before the first dash is determined by the string. */
  lemma FirstDashUnique(a: string, b: string, c: string, d: string)
    requires '-' !in a && '-' !in c
    requires a + "-" + b == c + "-" + d
    ensures a == c && b == d
  {
    Text.SplitPrefix(a, b, '-');
    Text.SplitPrefix(c, d, '-');
    var l, m := [a] + Text.Split(b, '-'), [c] + Text.Split(d, '-');
    assert l == m;
    assert l[0] == a && m[0] == c;
    assert l[1..] == Text.Split(b, '-') && m[1..] == Text.Split(d, '-');
    Text.JoinSplit(b, '-');
    Text.JoinSplit(d, '-');
  }

  /** The split gives back a note's category and subcategory exactly when the
      category has no dash. */
  lemma SplitRecoversTokens(c: string, sub: string)
    ensures SplitGroupKey(c + "-" + sub) == KeyParts(c, sub) <==> '-' !in c
  {
    if '-' !in c {
      var p := SplitGroupKey(c + "-" + sub);
      assert '-' in c + "-" + sub by {
        assert (c + "-" + sub)[|c|] == '-';
      }
      FirstDashUnique(p.category, p.subcategory, c, sub);
    }
  }

  /** Without dashes in categories, notes share a group only when they share both
      tokens; with them, notes of different panels can meet in one group. */
  lemma KeysSeparatePanels(n: Note, m: Note)
    requires '-' !in n.category && '-' !in m.category
    ensures GroupKey(n) == GroupKey(m) <==> n.category == m.category && n.subcategory == m.subcategory
  {
    if GroupKey(n) == GroupKey(m) {
      FirstDashUnique(n.category, n.subcategory, m.category, m.subcategory);
    }
  }

  lemma KeysCollideWithDashes(n: Note, m: Note)
    requires n.category == "a-b" && n.subcategory == "c"
    requires m.category == "a" && m.subcategory == "b-c"
    ensures GroupKey(n) == GroupKey(m) && n.category != m.category
  {
  }

  // ---------------------------------------------------------------- headings

  /** `categories[token]`. */
  function CategoryLabel(token: string): Option<string> {
    if token == "org-def" then Some("\U{1F6E1}\U{FE0F} ORGANIZAÇÃO DEFENSIVA")
    else if token == "trans-def" then Some("\U{26A1} TRANSIÇÃO DEFENSIVA")
    else if token == "org-of" then Some("\U{2694}\U{FE0F} ORGANIZAÇÃO OFENSIVA")
    else if token == "trans-of" then Some("\U{1F680} TRANSIÇÃO OFENSIVA")
    else if token == "bolas" then Some("\U{26BD} BOLAS PARADAS")
    else None
  }

  /** `subcategories[token]`. */
  function SubcategoryLabel(token: string): Option<string> {
    if token == "bloco-alto" then Some("Bloco Alto / Pressão")
    else if token == "bloco-medio" then Some("Bloco Médio / Baixo")
    else if token == "reacao-perda" then Some("Reação à Perda")
    else if token == "recuo-critico" then Some("Recuo Crítico")
    else if token == "construcao" then Some("Construção")
    else if token == "criacao" then Some("Criação")
    else if token == "transicao" then Some("Transição Ofensiva")
    else if token == "ofensivas" then Some("Ofensivas")
    else if token == "defensivas" then Some("Defensivas")
    else None
  }

  /** `label || token`: every label is non-empty, so the token is shown only when
      there is no label. */
  function LabelOr(found: Option<string>, token: string): string {
    match found
    case Some(l) => if l != "" then l else token
    case None => token
  }

  /** The category title and the subtitle the report prints for a group. */
  datatype Headings = Headings(title: string, subtitle: string)

  function GroupHeadings(key: string): Headings {
    var p := SplitGroupKey(key);
    Headings(LabelOr(CategoryLabel(p.category), p.category), LabelOr(SubcategoryLabel(p.subcategory), p.subcategory))
  }

  /** A dash-free category is looked up under its own name and the subcategory
      under its own name. */
  lemma HeadingsOfPlainCategory(c: string, sub: string)
    requires '-' !in c
    ensures GroupHeadings(c + "-" + sub)
         == Headings(LabelOr(CategoryLabel(c), c), LabelOr(SubcategoryLabel(sub), sub))
  {
    SplitRecoversTokens(c, sub);
  }

  /** A category `a-b` is looked up as `a`, and the subcategory as `b-sub`. */
  lemma HeadingsOfDashedCategory(a: string, b: string, sub: string)
    requires '-' !in a
    ensures GroupHeadings(a + "-" + b + "-" + sub)
         == Headings(LabelOr(CategoryLabel(a), a), LabelOr(SubcategoryLabel(b + "-" + sub), b + "-" + sub))
  {
    assert a + "-" + b + "-" + sub == a + "-" + (b + "-" + sub);
    SplitRecoversTokens(a, b + "-" + sub);
  }

  /** A subcategory token that starts with "def-" or "of-" has no label. */
  lemma DashedRestHasNoLabel(b: string, sub: string)
    requires b == "def" || b == "of"
    ensures SubcategoryLabel(b + "-" + sub) == None
  {
    var t := b + "-" + sub;
    assert t[0] == b[0] && t[|b|] == '-';
    if b == "def" {
      assert "defensivas"[3] == 'e';
    } else {
      assert "ofensivas"[2] == 'e';
    }
  }

  /** The four dashed categories of the taxonomy never get their label: the title
      is the raw token before the dash and the subtitle the raw rest of the key. */
  lemma DashedTaxonomyShowsRawTokens(a: string, b: string, sub: string)
    requires (a, b) in {("org", "def"), ("trans", "def"), ("org", "of"), ("trans", "of")}
    ensures GroupHeadings(a + "-" + b + "-" + sub) == Headings(a, b + "-" + sub)
  {
    HeadingsOfDashedCategory(a, b, sub);
    DashedRestHasNoLabel(b, sub);
  }

  /** The one dash-free category of the taxonomy is labelled as intended. */
  lemma SetPiecesAreLabelled(sub: string)
    ensures GroupHeadings("bolas-" + sub)
         == Headings("\U{26BD} BOLAS PARADAS", LabelOr(SubcategoryLabel(sub), sub))
  {
    assert "bolas-" + sub == "bolas" + "-" + sub;
    HeadingsOfPlainCategory("bolas", sub);
  }
}
