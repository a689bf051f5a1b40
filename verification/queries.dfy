/** The two read-only views over the document: the notes of one category panel
    and the athlete search box. */
module Queries {
  import opened Model
  import Seqs
  import Text

  predicate InPanel(n: Note, category: string, subcategory: string) {
    n.category == category && n.subcategory == subcategory
  }

  /** The notes `renderNotes(category, subcategory)` lists: exact matches on both
      keys, as many times as they occur, in insertion order (no sorting). */
  function NotesFor(game: Game, category: string, subcategory: string): (r: seq<Note>)
    ensures forall n :: n in r <==> n in game.notes && InPanel(n, category, subcategory)
    ensures forall n :: multiset(r)[n] == if InPanel(n, category, subcategory) then multiset(game.notes)[n] else 0
    ensures Seqs.IsSubsequence(r, game.notes)
  {
    var keep := (n: Note) => InPanel(n, category, subcategory);
    Seqs.FilterIsSubsequence(keep, game.notes);
    Seqs.FilterMultiset(keep, game.notes);
    Seqs.Filter(keep, game.notes)
  }

  /** The normalised search term: trimmed, then lower-cased. */
  function SearchTerm(raw: string): string {
    Text.Lower(Text.Trim(raw))
  }

  /** The search predicate: the term occurs in the lower-cased name, in the number
      (when there is one) or in the lower-cased position (when there is one). */
  predicate AthleteMatches(a: Athlete, term: string) {
    || Text.Contains(Text.Lower(a.name), term)
    || (a.number != "" && Text.Contains(a.number, term))
    || (a.position != "" && Text.Contains(Text.Lower(a.position), term))
  }

  /** Whether athlete `a` is listed for the search box content `raw`. */
  predicate Listed(a: Athlete, raw: string) {
    AthleteMatches(a, SearchTerm(raw))
  }

  /** The athletes `renderAthletes` lists for the search box content `raw`. */
  function SearchAthletes(athletes: seq<Athlete>, raw: string): (r: seq<Athlete>)
    ensures forall a :: a in r <==> a in athletes && Listed(a, raw)
    ensures forall a :: multiset(r)[a] == if Listed(a, raw) then multiset(athletes)[a] else 0
    ensures Seqs.IsSubsequence(r, athletes)
  {
    var keep := (a: Athlete) => Listed(a, raw);
    Seqs.FilterIsSubsequence(keep, athletes);
    Seqs.FilterMultiset(keep, athletes);
    Seqs.Filter(keep, athletes)
  }

  /** An empty (or all-blank) search lists every athlete, in order. */
  lemma BlankSearchListsAll(athletes: seq<Athlete>, raw: string)
    requires Text.AllWhitespace(raw)
    ensures SearchAthletes(athletes, raw) == athletes
  {
    var term := SearchTerm(raw);
    assert term == [];
    forall a | a in athletes ensures Listed(a, raw) {
      assert term <= Text.Lower(a.name);
    }
    Seqs.FilterKeepsAll((a: Athlete) => Listed(a, raw), athletes);
  }

  lemma {:induction false} TrimStartLower(s: string)
    ensures Text.TrimStart(Text.Lower(s)) == Text.Lower(Text.TrimStart(s))
    decreases |s|
  {
    Text.LowerIdempotent(s);
    if s != [] && Text.IsWhitespace(s[0]) {
      assert Text.Lower(s)[1..] == Text.Lower(s[1..]);
      TrimStartLower(s[1..]);
    }
  }

  lemma {:induction false} TrimEndLower(s: string)
    ensures Text.TrimEnd(Text.Lower(s)) == Text.Lower(Text.TrimEnd(s))
    decreases |s|
  {
    Text.LowerIdempotent(s);
    if s != [] && Text.IsWhitespace(s[|s| - 1]) {
      assert Text.Lower(s)[..|s| - 1] == Text.Lower(s[..|s| - 1]);
      TrimEndLower(s[..|s| - 1]);
    }
  }

  /** The search ignores the letter case of what is typed. */
  lemma SearchIgnoresTermCase(athletes: seq<Athlete>, raw: string)
    ensures SearchAthletes(athletes, Text.Lower(raw)) == SearchAthletes(athletes, raw)
  {
    TrimStartLower(raw);
    TrimEndLower(Text.TrimStart(raw));
    Text.LowerIdempotent(Text.Trim(raw));
    assert SearchTerm(Text.Lower(raw)) == SearchTerm(raw);
    Seqs.FilterCongruent((a: Athlete) => Listed(a, Text.Lower(raw)), (a: Athlete) => Listed(a, raw), athletes);
  }
}
