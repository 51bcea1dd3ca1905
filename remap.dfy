/**
 * A model of the cmap substitution in remap.py: a visible phrase and a hidden
 * payload of the same length are paired position by position; every visible
 * codepoint is bound to the glyph that the font's best cmap gives the payload
 * character at the same position, and those bindings are then written into
 * every cmap subtable of the font.
 */
module Remap {

  datatype Option<T> = None | Some(value: T)

  /** A Unicode codepoint, as Python's `ord` gives it. */
  type Codepoint = int

  /** A glyph name internal to the font. */
  type GlyphName = string

  /** A codepoint-to-glyph-name table: the best cmap, a subtable's cmap, or the substitution. */
  type Cmap = map<Codepoint, GlyphName>

  /** Why a run stops before anything is mutated. */
  datatype BuildError =
    | LengthMismatch(visibleLength: nat, payloadLength: nat)  // both lengths are reported
    | NoCmap                                                  // the font has no usable best cmap
    | MissingGlyph(ch: char, cp: Codepoint)                   // the first payload character without a glyph

  datatype BuildResult = Built(mapping: Cmap) | Failed(error: BuildError)

  /** The phrase a reader sees, and the payload hidden in the font's table. */
  const VisiblePhrase: string := "Welcome to secret lab!"
  const Flag: string := "njccic{sne@kyfont3809}"

  function Ord(c: char): Codepoint
  {
    c as int
  }

  /** `not best_cmap` is true both when there is no best cmap and when it is empty. */
  predicate Usable(best: Option<Cmap>)
  {
    best.Some? && |best.value| > 0
  }

  /** The codepoints of the visible phrase: the keys the substitution must have. */
  function VisibleKeys(visible: seq<char>): set<Codepoint>
  {
    set j | 0 <= j < |visible| :: Ord(visible[j])
  }

  /** The first position whose payload codepoint has no glyph in `cmap`, if any. */
  function FirstMissing(payload: seq<char>, cmap: Cmap): (r: Option<nat>)
    ensures r.Some? ==> r.value < |payload| && Ord(payload[r.value]) !in cmap
    ensures r.Some? ==> forall j :: 0 <= j < r.value ==> Ord(payload[j]) in cmap
    ensures r.None? <==> forall j :: 0 <= j < |payload| ==> Ord(payload[j]) in cmap
  {
    if |payload| == 0 then None
    else if Ord(payload[0]) !in cmap then Some(0)
    else match FirstMissing(payload[1..], cmap)
      case None => None
      case Some(j) => Some(j + 1)
  }

  /** The last position of `s` whose codepoint is `cp`, if any. */
  function LastIndex(s: seq<char>, cp: Codepoint): (r: Option<nat>)
    ensures r.Some? ==> r.value < |s| && Ord(s[r.value]) == cp
    ensures r.Some? ==> forall j :: r.value < j < |s| ==> Ord(s[j]) != cp
    ensures r.None? <==> forall j :: 0 <= j < |s| ==> Ord(s[j]) != cp
  {
    if |s| == 0 then None
    else if Ord(s[|s| - 1]) == cp then Some(|s| - 1)
    else LastIndex(s[..|s| - 1], cp)
  }

  /**
   * The substitution with last-wins semantics, stated declaratively: each
   * visible codepoint takes the glyph of the payload character at the LAST
   * position where that codepoint occurs in the visible phrase.
   */
  function LastWins(visible: seq<char>, payload: seq<char>, cmap: Cmap): (r: Cmap)
    requires |visible| == |payload|
    requires forall j :: 0 <= j < |payload| ==> Ord(payload[j]) in cmap
    ensures r.Keys == VisibleKeys(visible)
    ensures forall k :: k in r ==> LastIndex(visible, k).Some? && r[k] == cmap[Ord(payload[LastIndex(visible, k).value])]
  {
    map k | k in VisibleKeys(visible) :: cmap[Ord(payload[LastIndex(visible, k).value])]
  }

  /** The glyph of a visible codepoint comes from the last position where it occurs. */
  lemma LastWinsAt(visible: seq<char>, payload: seq<char>, cmap: Cmap, j: nat)
    requires |visible| == |payload|
    requires forall l :: 0 <= l < |payload| ==> Ord(payload[l]) in cmap
    requires j < |visible|
    requires visible[j] !in visible[j + 1..]
    ensures Ord(visible[j]) in LastWins(visible, payload, cmap)
    ensures LastWins(visible, payload, cmap)[Ord(visible[j])] == cmap[Ord(payload[j])]
  {
  }

  /**
   * The outcome of building the substitution, as a reference definition:
   * the length check comes first, then the best-cmap check, then the first
   * missing payload glyph; otherwise the last-wins substitution.
   */
  function Substitution(visible: seq<char>, payload: seq<char>, best: Option<Cmap>): (r: BuildResult)
    ensures r.Built? ==> r.mapping.Keys == VisibleKeys(visible)
    ensures r.Failed? && r.error.MissingGlyph? ==> r.error.ch in payload && r.error.cp == Ord(r.error.ch)
  {
    if |visible| != |payload| then Failed(LengthMismatch(|visible|, |payload|))
    else if !Usable(best) then Failed(NoCmap)
    else match FirstMissing(payload, best.value)
      case Some(i) => Failed(MissingGlyph(payload[i], Ord(payload[i])))
      case None => Built(LastWins(visible, payload, best.value))
  }

  /** Appending one position to both phrases inserts one binding into the last-wins map. */
  lemma LastWinsStep(visible: seq<char>, payload: seq<char>, cmap: Cmap, i: nat)
    requires |visible| == |payload| && i < |visible|
    requires forall j :: 0 <= j <= i ==> Ord(payload[j]) in cmap
    ensures LastWins(visible[..i + 1], payload[..i + 1], cmap)
         == LastWins(visible[..i], payload[..i], cmap)[Ord(visible[i]) := cmap[Ord(payload[i])]]
  {
  }

  /**
   * Builds the substitution as the source does: the length check, the
   * best-cmap check, then one insertion per position with an early exit at
   * the first payload codepoint that has no glyph.
   */
  method BuildMapping(visible: seq<char>, payload: seq<char>, best: Option<Cmap>) returns (r: BuildResult)
    ensures r == Substitution(visible, payload, best)
  {
    if |visible| != |payload| {
      return Failed(LengthMismatch(|visible|, |payload|));
    }
    if !Usable(best) {
      return Failed(NoCmap);
    }
    var glyphForCodepoint := best.value;
    var mapping: Cmap := map[];
    var i := 0;
    while i < |visible|
      invariant 0 <= i <= |visible|
      invariant forall j :: 0 <= j < i ==> Ord(payload[j]) in glyphForCodepoint
      invariant mapping == LastWins(visible[..i], payload[..i], glyphForCodepoint)
    {
      var visCp := Ord(visible[i]);
      var tgtCp := Ord(payload[i]);
      if tgtCp !in glyphForCodepoint {
        return Failed(MissingGlyph(payload[i], tgtCp));
      }
      LastWinsStep(visible, payload, glyphForCodepoint, i);
      mapping := mapping[visCp := glyphForCodepoint[tgtCp]];
      i := i + 1;
    }
    assert visible[..i] == visible && payload[..i] == payload;
    r := Built(mapping);
  }

  /** The substitution succeeds exactly when all three checks pass. */
  lemma SubstitutionBuiltIff(visible: seq<char>, payload: seq<char>, best: Option<Cmap>)
    ensures Substitution(visible, payload, best).Built? <==>
              |visible| == |payload| && Usable(best) &&
              forall j :: 0 <= j < |payload| ==> Ord(payload[j]) in best.value
  {
  }

  /** A length mismatch is reported before the best cmap is looked at, with both lengths. */
  lemma LengthCheckFirst(visible: seq<char>, payload: seq<char>, best: Option<Cmap>)
    requires |visible| != |payload|
    ensures Substitution(visible, payload, best) == Failed(LengthMismatch(|visible|, |payload|))
  {
  }

  /** With equal lengths, an absent or empty best cmap is reported before any payload lookup. */
  lemma CmapCheckSecond(visible: seq<char>, payload: seq<char>, best: Option<Cmap>)
    requires |visible| == |payload| && !Usable(best)
    ensures Substitution(visible, payload, best) == Failed(NoCmap)
  {
  }

  /** The missing-glyph error names the first position, in order, whose payload codepoint is absent. */
  lemma MissingGlyphIsFirst(visible: seq<char>, payload: seq<char>, best: Option<Cmap>, i: nat)
    requires |visible| == |payload| && Usable(best)
    requires i < |payload| && Ord(payload[i]) !in best.value
    requires forall j :: 0 <= j < i ==> Ord(payload[j]) in best.value
    ensures Substitution(visible, payload, best) == Failed(MissingGlyph(payload[i], Ord(payload[i])))
  {
  }

  /**
   * On success the substitution has exactly the visible codepoints as keys,
   * and the last position of each visible codepoint decides its glyph.
   */
  lemma SubstitutionContents(visible: seq<char>, payload: seq<char>, best: Option<Cmap>, j: nat)
    requires Substitution(visible, payload, best).Built?
    requires j < |visible|
    requires visible[j] !in visible[j + 1..]
    ensures Substitution(visible, payload, best).mapping.Keys == VisibleKeys(visible)
    ensures Substitution(visible, payload, best).mapping[Ord(visible[j])] == best.value[Ord(payload[j])]
  {
  }

  /**
   * With the shipped phrases, 'e' occurs last at position 15 and the space at
   * position 17, so they take the glyphs of 'n' and of '3'.
   */
  lemma ShippedLastWins(cmap: Cmap)
    requires forall j :: 0 <= j < |Flag| ==> Ord(Flag[j]) in cmap
    ensures var r := Substitution(VisiblePhrase, Flag, Some(cmap));
              r.Built? && Ord('e') in r.mapping && Ord(' ') in r.mapping &&
              Ord('n') in cmap && Ord('3') in cmap &&
              r.mapping[Ord('e')] == cmap[Ord('n')] && r.mapping[Ord(' ')] == cmap[Ord('3')]
  {
    assert Ord(Flag[0]) in cmap;
    assert VisiblePhrase[15] == 'e' && Flag[15] == 'n' && VisiblePhrase[16..] == "t lab!";
    assert VisiblePhrase[17] == ' ' && Flag[17] == '3' && VisiblePhrase[18..] == "lab!";
    SubstitutionContents(VisiblePhrase, Flag, Some(cmap), 15);
    SubstitutionContents(VisiblePhrase, Flag, Some(cmap), 17);
  }

  /** Two positions, both payload glyphs present: each visible codepoint takes its partner's glyph. */
  lemma ScenarioBothPresent()
    ensures Substitution("ab", "XY", Some(map[Ord('X') := "glyph007", Ord('Y') := "glyph042"]))
         == Built(map[Ord('a') := "glyph007", Ord('b') := "glyph042"])
  {
    var cmap := map[Ord('X') := "glyph007", Ord('Y') := "glyph042"];
    LastWinsAt("ab", "XY", cmap, 0);
    LastWinsAt("ab", "XY", cmap, 1);
    assert VisibleKeys("ab") == {Ord('a'), Ord('b')} by {
      assert Ord("ab"[0]) == Ord('a') && Ord("ab"[1]) == Ord('b');
    }
  }

  /** Two positions, second payload glyph absent: the error names 'Y' and its codepoint. */
  lemma ScenarioSecondMissing()
    ensures Substitution("ab", "XY", Some(map[Ord('X') := "glyph007"])) == Failed(MissingGlyph('Y', 0x59))
  {
    MissingGlyphIsFirst("ab", "XY", Some(map[Ord('X') := "glyph007"]), 1);
  }

  /** Lengths 3 and 4: the error reports both lengths, whatever the font holds. */
  lemma ScenarioLengths(best: Option<Cmap>)
    ensures Substitution("abc", "WXYZ", best) == Failed(LengthMismatch(3, 4))
  {
  }

  /** One cmap subtable of the font; its `cmap` dictionary is updated in place. */
  class Subtable {
    var cmap: Cmap
  }

  /** The font's cmap table: the list of its subtables. */
  class CmapTable {
    var tables: seq<Subtable>
  }

  /**
   * What a subtable holds after every binding of `mapping` is written into it:
   * the bound codepoints are inserted or overwritten, and no other key changes.
   */
  function Overwrite(cmap: Cmap, mapping: Cmap): (r: Cmap)
    ensures r.Keys == cmap.Keys + mapping.Keys
    ensures forall k :: k in mapping ==> r[k] == mapping[k]
    ensures forall k :: k in cmap && k !in mapping ==> r[k] == cmap[k]
  {
    cmap + mapping
  }

  /** Writing the same substitution a second time changes nothing. */
  lemma OverwriteIdempotent(cmap: Cmap, mapping: Cmap)
    ensures Overwrite(Overwrite(cmap, mapping), mapping) == Overwrite(cmap, mapping)
  {
  }

  /** A codepoint outside the substitution keeps its entry, or stays absent, in every subtable. */
  lemma OverwriteKeepsOthers(cmap: Cmap, mapping: Cmap, k: Codepoint)
    requires k !in mapping
    ensures k in Overwrite(cmap, mapping) <==> k in cmap
    ensures k in cmap ==> Overwrite(cmap, mapping)[k] == cmap[k]
  {
  }

  /** A non-empty set of keys has a member to pick next. */
  lemma NonEmptyHasMember(s: set<Codepoint>)
    requires s != {}
    ensures exists x :: x in s
  {
    if forall x :: x !in s {
      assert false;
    }
  }

  /**
   * Writes every binding of `mapping` into every subtable, in place, as the
   * nested loops of the source do. A subtable listed twice ends the same,
   * since a second write of the substitution changes nothing.
   */
  method UpdateSubtables(cmapTable: CmapTable, mapping: Cmap)
    modifies set s | s in cmapTable.tables
    ensures cmapTable.tables == old(cmapTable.tables)
    ensures forall s :: s in cmapTable.tables ==> s.cmap == Overwrite(old(s.cmap), mapping)
  {
    var tables := cmapTable.tables;
    var i := 0;
    while i < |tables|
      invariant 0 <= i <= |tables|
      invariant forall s :: s in tables ==>
                  s.cmap == if s in tables[..i] then Overwrite(old(s.cmap), mapping) else old(s.cmap)
    {
      var subtable := tables[i];
      ghost var start := subtable.cmap;
      var todo := mapping.Keys;
      while todo != {}
        invariant todo <= mapping.Keys
        invariant subtable.cmap == Overwrite(start, mapping - todo)
        modifies subtable
        decreases todo
      {
        NonEmptyHasMember(todo);
        var visCp :| visCp in todo;
        subtable.cmap := subtable.cmap[visCp := mapping[visCp]];
        todo := todo - {visCp};
      }
      assert mapping - todo == mapping;
      if subtable in tables[..i] {
        OverwriteIdempotent(old(subtable.cmap), mapping);
      }
      assert tables[..i + 1] == tables[..i] + [subtable];
      i := i + 1;
    }
    assert tables[..i] == tables;
  }

  /**
   * The whole run: the substitution is built completely from the best cmap,
   * a snapshot taken before any write, and only then written into every
   * subtable. A failed run leaves every subtable as it was.
   */
  method Run(visible: seq<char>, payload: seq<char>, best: Option<Cmap>, cmapTable: CmapTable)
    returns (r: BuildResult)
    modifies set s | s in cmapTable.tables
    ensures cmapTable.tables == old(cmapTable.tables)
    ensures r == Substitution(visible, payload, best)
    ensures r.Failed? ==> forall s :: s in cmapTable.tables ==> s.cmap == old(s.cmap)
    ensures r.Built? ==> forall s :: s in cmapTable.tables ==> s.cmap == Overwrite(old(s.cmap), r.mapping)
    ensures r.Built? ==> forall s, j :: s in cmapTable.tables && 0 <= j < |visible| && visible[j] !in visible[j + 1..] ==>
              Ord(visible[j]) in s.cmap && s.cmap[Ord(visible[j])] == best.value[Ord(payload[j])]
  {
    r := BuildMapping(visible, payload, best);
    if r.Built? {
      UpdateSubtables(cmapTable, r.mapping);
      forall s, j | s in cmapTable.tables && 0 <= j < |visible| && visible[j] !in visible[j + 1..]
        ensures Ord(visible[j]) in s.cmap && s.cmap[Ord(visible[j])] == best.value[Ord(payload[j])]
      {
        RunResultInSubtable(visible, payload, best, old(s.cmap), j);
      }
    }
  }

  /**
   * Whatever a subtable held before, once a successful substitution is
   * written over it, it maps each visible codepoint to the glyph that the
   * best cmap gives the payload character at that codepoint's last position.
   */
  lemma RunResultInSubtable(visible: seq<char>, payload: seq<char>, best: Option<Cmap>, before: Cmap, j: nat)
    requires Substitution(visible, payload, best).Built?
    requires j < |visible|
    requires visible[j] !in visible[j + 1..]
    ensures Ord(visible[j]) in Overwrite(before, Substitution(visible, payload, best).mapping)
    ensures Overwrite(before, Substitution(visible, payload, best).mapping)[Ord(visible[j])]
         == best.value[Ord(payload[j])]
  {
  }
}
