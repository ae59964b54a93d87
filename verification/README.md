# refractive_indices: a Dafny model of the material-resolution logic

`refractive_indices.py` computes complex X-ray refractive indices of materials
over an energy range with the xraylib library and writes them to text files.
All numerics belong to xraylib and numpy. This project models the decision and
string logic the script itself contributes:

- the output file name (`get_filename`): spaces become `_`, `,` `(` `)` are
  deleted, `.txt` is appended (module `FileNames`);
- the interactive yes/no question (`query_yes_no`), with the operator's replies
  given as a sequence of strings (module `YesNo`);
- the scan of the NIST compound catalog when a name is not a chemical formula:
  a case-insensitive exact match wins and ends the scan, otherwise every entry
  that contains the name, ignoring case, is a candidate (module `Catalog`);
- the lookup that follows the scan, the density priority (explicit density,
  catalog density, density of the single element, else a warning and no
  density), the per-material pick of `--density` values, and the main loop
  over `--material` arguments, which stops at the first failure (module
  `Materials`);
- the Python string operations used, `str.lower`, `str.find` and
  `str.replace` (module `Text`).

xraylib's answers are parameters (`Materials.Library`): the element list from
`CompoundParser` (None when it raises ValueError), the catalog names from
`GetCompoundDataNISTList`, the density of `GetCompoundDataNISTByName`, and
`ElementDensity`.

The model follows the code as written; three behaviours are worth knowing:

- Spaces in a material name are replaced by `_`, not removed. So
  "Gallium Arsenide (GaAs)" becomes `Gallium_Arsenide_GaAs.txt`, because the
  space before `(` becomes `_` too.
- The "Did you mean ...?" prompt cannot be reached. `material_type` is assigned
  inside `get_refractive_index_from_xraylib` (lines 72, 77 and 88), so Python
  treats it as a local of that function. With exactly one candidate that is not
  an exact match, line 83 reads that local before anything has been assigned to
  it, and the call raises UnboundLocalError. `Materials.LookUp` returns
  `UnboundMaterialType` in that case. `Materials.NearMissFailsUnbound` shows a
  concrete catalog where this happens. As a consequence, a name that is not a
  formula is resolved only through an exact catalog match.
- A missing density is not an error. The code prints a warning and goes on with
  `None`. The model records the warning and leaves the density absent.

## Model

| member | source | states |
|---|---|---|
| `Text.Lower` | refractive_indices.py:44 | `str.lower` on ASCII: same length, each 'A'..'Z' becomes the matching 'a'..'z', every other character is kept |
| `Text.Find` | refractive_indices.py:80 | `str.find`: -1 exactly when the substring occurs nowhere; otherwise the first index where it occurs |
| `Text.ReplaceChar` | refractive_indices.py:53-56 | `str.replace` of one character: the length grows by `|t|-1` per occurrence, the character is gone when `t` does not hold it, and no new characters appear except those of `t` |
| `FileNames.Stem` | refractive_indices.py:53-56 | the stem holds no space, `,`, `(` or `)`, and is shorter than the name by exactly the number of `,()` characters |
| `FileNames.GetFilename` | refractive_indices.py:52-57 | the loop's result is `Stem(name) + ".txt"`, so it always ends in `.txt` and does not depend on `energies` |
| `FileNames.PassesComputeStem` | refractive_indices.py:53-56 | replacing spaces and then deleting `,()` computes the character-by-character stem |
| `FileNames.StripOneMore` | refractive_indices.py:55-56 | each pass of the loop deletes one more forbidden character from the result |
| `FileNames.StemConcat` | refractive_indices.py:53-56 | the stem keeps the order of the name: the stem of a concatenation is the concatenation of the stems |
| `FileNames.StemOfCleanName` | refractive_indices.py:53-56 | a name with no space and no `,()` is its own stem |
| `FileNames.StemIdempotent` | refractive_indices.py:53-56 | sanitising a sanitised stem changes nothing |
| `FileNames.StemKeeps` | refractive_indices.py:53-56 | every character other than space, `_`, `,`, `(` and `)` is in the stem exactly when it is in the name |
| `FileNames.StemUnderscores` | refractive_indices.py:53 | the stem has one `_` for each `_` and each space of the name |
| `YesNo.Decide` | refractive_indices.py:32-48 | a lower-cased reply means true exactly for yes, y, ye (or empty with default "yes"), false exactly for no, n (or empty with default "no"), and nothing otherwise |
| `YesNo.QueryYesNo` | refractive_indices.py:22-50 | the retry loop returns exactly what the reference definition `Answer` gives for the replies |
| `YesNo.AnswerFromIsFirstDecisive` | refractive_indices.py:42-50 | the answer is the meaning of the first reply that decides something; input runs out exactly when no reply decides |
| `YesNo.AnswerIsFirstDecisive` | refractive_indices.py:32-50 | a default other than None, "yes" or "no" fails with ValueError before any reply is read; otherwise the first deciding reply gives the answer |
| `YesNo.LaterRepliesIgnored` | refractive_indices.py:42-48 | replies after the deciding one are never read |
| `YesNo.CaseIgnored` | refractive_indices.py:44 | changing the case of any reply does not change the answer |
| `Catalog.FirstExact` | refractive_indices.py:75-79 | the index of the first entry equal to the name ignoring case, or None exactly when there is none |
| `Catalog.SubstringMatches` | refractive_indices.py:80-81 | the collected candidates are catalog entries that contain the name ignoring case, no more of them than catalog entries |
| `Catalog.SubstringMatchesComplete` | refractive_indices.py:80-81 | every entry that contains the name ignoring case is collected |
| `Catalog.SubstringMatchesConcat` | refractive_indices.py:75-81 | candidates come in catalog order: the matches of `a + b` are the matches of `a` followed by those of `b` |
| `Catalog.ExactIsSubstring` | refractive_indices.py:76-80 | an entry equal to the name ignoring case also contains it |
| `Catalog.ScanCatalog` | refractive_indices.py:74-81 | with an exact match, the candidates are exactly the first such entry and `material_type` becomes "nist"; without one, they are all substring matches in catalog order |
| `Catalog.ExactMatchResetsCandidates` | refractive_indices.py:75-81 | the first exact match would itself be collected as a substring match, after the earlier ones; the reset is what makes it the only candidate |
| `Materials.LookUp` | refractive_indices.py:70-95 | the lookup returns what the reference definition `ExpectedLookup` gives: a formula, the first exact catalog entry, exit on a count other than 1, or UnboundLocalError on a single near miss |
| `Materials.CatalogOnlyByExactMatch` | refractive_indices.py:74-95 | a name that is not a formula resolves exactly when some entry equals it ignoring case, and then to the first entry equal to it ignoring case, with that entry's catalog density |
| `Materials.NearMissFailsUnbound` | refractive_indices.py:80-86 | with catalog ["Gallium", "Water"], the name "gal" fails on the unbound `material_type` instead of prompting |
| `Materials.FailureReportsCandidates` | refractive_indices.py:93-95 | on exit, the reported count is the length of the printed list, never 1, and the list is exactly the entries containing the name |
| `Materials.ResolveDensity` | refractive_indices.py:96-105 | an explicit density is kept; a catalog compound otherwise gets its catalog density; the density is absent, with a warning, exactly for a formula of other than one element without an explicit density |
| `Materials.DensityIsFirstAvailable` | refractive_indices.py:96-105 | the density is the first present value among explicit, catalog and single-element density |
| `Materials.DensityFor` | refractive_indices.py:125-128 | material `i` gets `args.density[i]`, None without `--density`, and IndexError exactly when the list is too short |
| `Materials.ProcessMaterials` | refractive_indices.py:123-130 | materials are prepared in order as the reference step says, and the run ends at the first failure; with no failure every material is prepared |
| `Materials.DensityAlignment` | refractive_indices.py:125-129 | a prepared material `i` uses `args.density[i]` without warning, or the resolved density when no densities were given |
| `Materials.DensityIndexStop` | refractive_indices.py:125-126 | with fewer densities than materials, the run stops on the first material without a density, and not before |

## Left out

- xraylib (`CompoundParser`, `GetCompoundDataNISTList`, `GetCompoundDataNISTByName`, `ElementDensity`, `Refractive_Index`, `EdgeEnergy`): a native library; its answers are parameters of the model.
- The per-energy refractive-index loop and the file written by `np.savetxt` (lines 108-115), with its `{:.2e}` header: floating-point computation and file output. What xraylib does with a missing (None) density is therefore not modelled either.
- The per-energy query at line 110 passes the name the user typed, not the matched catalog name. Because that query is left out, the model does not carry this difference any further.
- The energy grid of `np.linspace` (line 120): floating-point numerics; the model takes the grid as a given sequence.
- `parse_args` and the `sys.path` additions (lines 3-4, 9-20): command-line plumbing. A missing `--material` list is not modelled.
- The prompt strings and the re-prompt message of `query_yes_no` (lines 33-38, 43, 50), and the confirmation `print` (line 130): console output only. The question text is therefore not a parameter.
- The "Did you mean" prompt branch (lines 86-92): it cannot be reached, as described above.
- `get_absorption_edges_in_interval` (lines 59-67): not called anywhere; its one call is commented out.
- setup.py: packaging metadata.
- Text.Lower: lower-cases ASCII letters only; Python's `str.lower` also maps non-ASCII letters.
- Materials.ProcessMaterials: assumes every per-energy query succeeds, so a material left without a density (only a warning) never stops the run, although xraylib would receive None at line 110.
- YesNo.QueryYesNo: when the replies run out, the model returns `OutOfReplies`; Python's `input()` would raise EOFError or block.
