# Font cmap remapping: a Dafny model

`remap.py` rewrites the character-to-glyph table (cmap) of a font so that a
visible phrase ("Welcome to secret lab!") still renders as that phrase, while
the table itself binds each visible codepoint to the glyph of the character at
the same position of a hidden payload ("njccic{sne@kyfont3809}").

This project models the two steps of that rewrite, in module `Remap`
(`remap.dfy`):

- **Substitution builder.** `BuildMapping` checks that the two phrases have the
  same length, then that the font's best cmap is present and non-empty, then
  walks the phrases position by position, inserting
  `ord(visible[i]) -> best_cmap[ord(payload[i])]` into the substitution and
  stopping at the first payload codepoint that has no glyph. It is proved equal
  to `Substitution`, a declarative reference built from `FirstMissing` (the
  first position whose payload codepoint is absent), `LastIndex` and
  `LastWins` (each visible codepoint takes the glyph chosen at its last
  position, which is what repeated dictionary insertion gives).
- **Table mutator.** `UpdateSubtables` writes every binding of the substitution
  into the `cmap` dictionary of every subtable of the font's `cmap` table, in
  place, in two nested loops. Each subtable ends as `Overwrite(old, mapping)`:
  the visible codepoints are inserted or overwritten and no other key changes.
  The postcondition is stated per subtable object, so it also holds when the
  same subtable object is listed twice, because writing the substitution again
  changes nothing (`OverwriteIdempotent`). The font library may also let two
  subtables share one `cmap` dictionary. Each subtable is modelled with its own
  `cmap` value, and for a shared dictionary that gives the same final state:
  the second write of the substitution changes nothing.
- **The run.** `Run` builds the substitution completely and only then mutates,
  so a failed run leaves every subtable as it was.

Codepoints are `int` (Python's `ord` of a `char`), glyph names are `string`,
cmaps are `map<int, string>`. The best cmap is passed in as an
`Option<Cmap>` value: `getBestCmap` may return `None`, and `not best_cmap`
also rejects an empty dictionary, so both are the `NoCmap` error. In the
font library the best cmap may be the very dictionary of one of the
subtables. Taking it as a value snapshot is faithful to the source, because
the substitution is fully built (remap.py:47-56) before the first write
(remap.py:59-65).

The error values keep what the diagnostics print: both lengths for a length
mismatch, and the payload character and its codepoint for a missing glyph.
The diagnostics themselves and the process exit are not modelled.

The comment at remap.py:43 mentions a reverse mapping from glyph name to
codepoint, but line 44 only aliases the best cmap, which maps codepoint to
glyph name; the model uses it that way.

## Model

| member | source | states |
|---|---|---|
| `Remap.VisiblePhrase` | remap.py:26 | the shipped visible phrase, "Welcome to secret lab!" (22 characters) |
| `Remap.Flag` | remap.py:27 | the shipped hidden payload, "njccic{sne@kyfont3809}" (22 characters) |
| `Remap.Usable` | remap.py:39 | a best cmap is usable exactly when it is present and non-empty, the negation of `not best_cmap` |
| `Remap.Substitution` | remap.py:29-56 | the reference outcome: length check first, then the best-cmap check, then the first missing payload glyph, otherwise the last-wins map; on success its keys are the visible codepoints, and a missing-glyph error carries a payload character with its own codepoint |
| `Remap.FirstMissing` | remap.py:48-54 | the result is the first position whose payload codepoint is absent from the cmap, and it is `None` exactly when every payload codepoint is present |
| `Remap.LastIndex` | remap.py:48-56 | the result is the last position whose codepoint is the given one, and it is `None` exactly when no position has it |
| `Remap.LastWins` | remap.py:47-56 | the keys are exactly the visible codepoints, and each key's glyph is the best-cmap glyph of the payload character at that key's last position |
| `Remap.LastWinsAt` | remap.py:56 | a visible character that does not occur again later takes the glyph of its own payload partner (last wins) |
| `Remap.LastWinsStep` | remap.py:56 | handling one more position inserts exactly one binding, overwriting an earlier one for the same visible codepoint |
| `Remap.BuildMapping` | remap.py:29-56 | the loop with early exit, after the length and best-cmap checks, returns exactly the reference `Substitution` outcome |
| `Remap.SubstitutionBuiltIff` | remap.py:29-56 | the build succeeds if and only if the lengths agree, the best cmap is present and non-empty, and every payload codepoint has a glyph |
| `Remap.LengthCheckFirst` | remap.py:29-32 | unequal lengths fail with both lengths, whatever the font's best cmap is |
| `Remap.CmapCheckSecond` | remap.py:38-41 | with equal lengths, an absent or empty best cmap fails before any payload lookup |
| `Remap.MissingGlyphIsFirst` | remap.py:48-54 | the missing-glyph error names the first position, in order, whose payload codepoint is absent, with its character and codepoint |
| `Remap.SubstitutionContents` | remap.py:47-56 | on success the substitution's keys are exactly the visible codepoints, and the last occurrence of a visible character decides its glyph |
| `Remap.ShippedLastWins` | remap.py:26-27 | with the shipped phrases and any cmap holding every payload glyph, 'e' gets the glyph of 'n' (position 15) and the space the glyph of '3' (position 17) |
| `Remap.ScenarioBothPresent` | remap.py:47-56 | "ab" over "XY" with X and Y present binds 'a' and 'b' to the glyphs of 'X' and 'Y', and nothing else |
| `Remap.ScenarioSecondMissing` | remap.py:51-54 | "ab" over "XY" with Y absent fails naming 'Y' and codepoint 0x59 |
| `Remap.ScenarioLengths` | remap.py:29-32 | lengths 3 and 4 fail reporting 3 and 4, whatever the font holds |
| `Remap.Overwrite` | remap.py:63-65 | after the writes a subtable holds its old keys plus the substitution's keys, the substitution's glyph on its keys and the old glyph elsewhere |
| `Remap.OverwriteIdempotent` | remap.py:63-65 | writing the substitution into a subtable a second time leaves it unchanged |
| `Remap.OverwriteKeepsOthers` | remap.py:63-65 | a codepoint that is not a substitution key keeps its old entry, or stays absent |
| `Remap.UpdateSubtables` | remap.py:59-65 | the list of subtables is unchanged, and the nested loops leave every subtable equal to its old contents overwritten with the substitution |
| `Remap.Run` | remap.py:29-65 | the run returns the reference outcome; on failure no subtable changes; on success every subtable is overwritten with the substitution and maps each visible codepoint to the best-cmap glyph of the payload character at that codepoint's last position |
| `Remap.RunResultInSubtable` | remap.py:47-65 | whatever a subtable held before, writing a successful substitution over it leaves each visible codepoint bound to the best-cmap glyph of the payload character at its last position |

## Left out

- LengthCheckFirst: in the program the length check (remap.py:29-32) runs at module level, before the argument check (remap.py:74) and before the font is loaded (remap.py:35). The model places it first in `BuildMapping`, where the best cmap and the subtables are already inputs, so "no font is loaded on a length mismatch" is rendered only as "the outcome does not depend on the best cmap, and no subtable changes".
- Font parsing (`ttLib.TTFont`, remap.py:35) and saving (`font.save`, remap.py:68): these are binary I/O in the font library. The subtables are taken as given objects, and the save step is not modelled.
- The choice of the best cmap among the subtables (`getBestCmap`, remap.py:38): that is the font library's policy, so the best cmap is an input.
- Command-line handling and the usage message (remap.py:73-77): process I/O only.
- Printed diagnostics and `sys.exit`: failures are `BuildResult.Failed` values that carry the reported lengths, or the character and its codepoint.
- The order of `mapping.items()` (remap.py:63): the inner loop picks the remaining keys in any order. The keys are distinct, so every order gives the same state, and the model covers all of them.
- Python strings may hold lone surrogate code points, but a Dafny `char` is a Unicode scalar value. Such phrases fall outside the model. The shipped phrases are plain ASCII.
- Checks that a subtable format can represent a codepoint: the source performs none, and neither does the model.
