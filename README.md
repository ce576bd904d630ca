# afpd core in Dafny

A model of the scoring and input-preparation core of afpd, a set of
AlphaFold pulldown scripts.

**Scoring a predicted complex** (`score_protein_complex.py`):
- Reading the structure file's fixed-column ATOM records. `parse_atm_record` becomes `Pdb.ParseAtmRecord`.
- Grouping the atoms per chain, with the CA and the CB-or-glycine-CA ("representative") indices. `read_pdb` becomes `Pdb.Build` / `Pdb.ReadPdb`.
- Keeping only the representatives with their B-factors. `read_pdb_pdockq` becomes `Pdb.BuildRep` / `Pdb.ReadPdbPdockq`.
- Cutting the flat pLDDT array per chain. `read_plddt_per_chain` becomes `Plddt.ReadPlddtPerChain`.
- The inter-chain contact set at a distance threshold (`Geometry.Contacts`).
- The N-chain interface score (`score_complex`, `Scoring.ScoreComplex`).
- The two logistic DockQ estimates (`calculate_mpDockQ`, `calc_pdockq`), in `DockQ`.
- Pairing each complex's structure file with its scores file. The join of `load_protein_complex_files` becomes `Complexes.LoadComplexFiles`.
- `main`'s loop with its chain-count dispatch (`DockQ.ScoreComplexes`), with the structure reader as a parameter: read_pdb as written, or with the chain-local counter.

**The ligand pulldown** (`run_af3_ligand_pulldown.py`):
- Reading the id and SMILES columns of the ligands CSV (`parse_ligands_csv`, `Ligands.ParseLigandsCsv`).
- Deriving one job specification per ligand from the bait's (`save_json_specs`, `Ligands.SaveJsonSpecs`).

**The FASTA fan-out** (`make_input_fasta.py`):
- One pulldown file per bait, with one paired record per target (`Fasta.MakePulldowns`).
- The target library's name (`Fasta.TargetName`, corrected as `Fasta.CorrectedTargetName`).

**How the modules are built**
- Every loop of the source is a method proved equal to a specification function, and the properties are lemmas about those functions.
- Python exceptions, such as a ValueError of `int()`, an IndexError of numpy or a KeyError, are the `None` / `Failure` cases of `Option` / `Result`.
- Python dictionaries are a key sequence in insertion order plus a `map`.
- Python's `int()` and `float()` on a column and numpy's `log10`/`exp` are parameters (`Pdb.Numerals`, `Scoring.Transcendentals`).
- Of `log10` and `exp`, the proofs use only the facts in `Scoring.Lawful`:
  - `exp` is positive and monotone;
  - `log10(1) = 0`;
  - `log10` is strictly increasing from 1 on.
- Floating-point values are `real`s.
- The distance test `sqrt(d²) <= t` is stated exactly as `t >= 0 && d² <= t*t`.

Files:
- `wrappers.dfy`, `seqs.dfy`, `text.dfy`: Option/Result, sequence helpers, and the Python string operations used (`strip`, `in`, `startswith`, `replace(p, '')`, `upper`).
- `geometry.dfy`, `pdb.dfy`, `plddt.dfy`, `scoring.dfy`, `dockq.dfy`, `complexes.dfy`: `score_protein_complex.py`.
- `ligands.dfy`: `run_af3_ligand_pulldown.py`.
- `fasta.dfy`: `make_input_fasta.py`.

## Model

| member | source | states |
|---|---|---|
| Pdb.ParseAtmRecord | src/score_protein_complex.py:194-213 | The record parses exactly when the line is longer than 26 characters and all seven numeric columns convert. It then has the name from [0,6), the atom name from [12,16) and the residue name from [17,20), each stripped. It has the chain at offset 21 and x, y, z from [30,38), [38,46), [46,54). It has the B-factor from [60,66). A too-short failure names an offset past the line's end. |
| Pdb.ParseLinesRecords | src/score_protein_complex.py:171-174 | A read succeeds exactly when every selected line parses. It then has one record per selected line, in file order, each that line's parse. |
| Pdb.ParseLinesFailureSticks | src/score_protein_complex.py:171-174 | Once a prefix of the file fails, the whole read fails with the same error. |
| Pdb.AddAtom | src/score_protein_complex.py:173-189 | One pass of read_pdb's loop body updates the four dictionaries and coord_ind exactly as one Step of the reference fold. |
| Pdb.ReadPdb | src/score_protein_complex.py:162-191 | The loop over the lines returns exactly ReadPdbSpec: the fold of Step over the records of the lines that contain "ATOM", or the first parse error. |
| Pdb.BuildChains | src/score_protein_complex.py:175-187 | The chain keys are the record chains in first-seen order. Each chain's coordinate list is the coordinates of that chain's records, in file order. |
| Pdb.ChainAtomsEmpty | src/score_protein_complex.py:175 | A chain has records exactly when some record names it. |
| Pdb.StepOpens | src/score_protein_complex.py:183-189 | The first record of a chain opens its coordinate list with that record, records no CB index, and resets coord_ind to 0. |
| Pdb.StepKeeps | src/score_protein_complex.py:175-189 | A record leaves every other chain's coordinates, CA indices and CB indices unchanged. It advances the shared coord_ind when its chain was seen before, and resets it otherwise. |
| Pdb.StepAppends | src/score_protein_complex.py:175-182 | A later record of a chain appends its coordinates and is recorded at the incremented coord_ind when it is a representative. |
| Pdb.ContiguousReadsAgree | src/score_protein_complex.py:175-189 | When each chain's records are contiguous, read_pdb's table equals the chain-local table, and coord_ind is one less than the length of the chain being read. |
| Pdb.ReadPdbIndicesValid | src/score_protein_complex.py:175-189 | With contiguous chains, each chain has one coordinate per record. Its CA and representative index lists are strictly increasing and in bounds. They list exactly the positions, after the chain's first atom, of its CA atoms and of its representatives. |
| Pdb.MarkedIndicesMarks | src/score_protein_complex.py:179-182 | The reference index list has exactly those properties: strictly increasing and in range, and exactly the marked positions after the first. |
| Pdb.LeakedCounterSteps | src/score_protein_complex.py:175-189 | For records A, B, B, A, where the last is a representative, read_pdb's four steps leave chain A with two coordinates and CB index list [2]: the counter carries B's count into A. |
| Pdb.LeakedCounter | src/score_protein_complex.py:175-189 | On those records chain A has two coordinates but its CB index list is [2], which is out of range. The chain-local reader gives [1]. |
| Pdb.OneChainSteps | src/score_protein_complex.py:175-189 | Three atoms of one chain, the later two not representatives, give that chain its three coordinates and no CB index. |
| Pdb.ResetThenAppend | src/score_protein_complex.py:183-189 | A new chain's first atom resets coord_ind to 0, so the next representative of an earlier chain is recorded at index 1. |
| Pdb.WrongAtomSteps | src/score_protein_complex.py:175-189 | For records A, A, A, B, A, where only the last A is a representative, read_pdb's five steps leave A with its four coordinates in order and CB index list [1]. |
| Pdb.LeakedCounterWrongAtom | src/score_protein_complex.py:175-189 | On those records read_pdb's index 1 is in range, so nothing raises, but it names the second atom of A and not the representative, the fourth. |
| Pdb.CorrectedCounterExample | src/score_protein_complex.py:175-189 | The chain-local reader indexes A's second atom at 1. |
| Pdb.CorrectedBuildChains | src/score_protein_complex.py:175-187 | With chain-local indices the keys are the first-seen chains. Every chain's entry describes its records: their coordinates, and the positions of its CA atoms and of its representatives after the first. |
| Pdb.CorrectedIndicesValid | src/score_protein_complex.py:175-189 | For any file, the chain-local reader's CA and representative indices are valid, increasing, and point at the right atoms of that chain. |
| Pdb.CorrectedKeys | src/score_protein_complex.py:175 | The chain-local table keys exactly the chains of the records. |
| Pdb.ReadersSameShape | src/score_protein_complex.py:162-191 | read_pdb as written and the chain-local reader fail on the same files with the same error, and otherwise key the same chains in the same order. |
| Pdb.ContiguousFileReadsAgree | src/score_protein_complex.py:162-191 | On a file whose chains are contiguous, read_pdb as written returns exactly the chain-local table. |
| Pdb.BuildRepChains | src/score_protein_complex.py:292-305 | read_pdb_pdockq keys the chains of the representatives in first-seen order. Each chain holds its representatives' coordinates and B-factors, in file order. |
| Pdb.RepLengths | src/score_protein_complex.py:299-305 | Each chain of read_pdb_pdockq has as many B-factors as coordinates, and at least one. |
| Pdb.KeepRepresentative | src/score_protein_complex.py:297-305 | One pass of the loop body is one AddRep step: only a CB atom or a glycine CA is kept, appended to its chain or opening it. |
| Pdb.ReadPdbPdockq | src/score_protein_complex.py:286-312 | The loop over the lines returns exactly ReadPdbPdockqSpec: only lines starting with "ATOM" are parsed. |
| Pdb.StartsWithAtomHasAtom | src/score_protein_complex.py:295 | A line that starts with "ATOM" contains "ATOM". |
| Pdb.ParseLinesFewer | src/score_protein_complex.py:293-297 | Selecting fewer lines cannot make a successful read fail. |
| Pdb.PdockqReadSucceeds | src/score_protein_complex.py:85-94 | When read_pdb reads a file, read_pdb_pdockq reads it too. |
| Plddt.CALengthsAt | src/score_protein_complex.py:220-224 | chain_lengths lists, in key order, each chain's number of CA indices. |
| Plddt.SlicesAt | src/score_protein_complex.py:226-231 | Slice k is plddt[s:s+len_k], clipped as Python clips, where s is the sum of the earlier chains' CA counts. |
| Plddt.SlicesCover | src/score_protein_complex.py:226-231 | Joined in order, the slices give back the prefix of plddt of length min(total CA count, len(plddt)). |
| Plddt.PerChainKeys | src/score_protein_complex.py:228-230 | The result's keys are exactly the chains. |
| Plddt.PerChainAt | src/score_protein_complex.py:228-230 | With distinct keys each chain's entry is its own slice. |
| Plddt.ReadPlddtPerChain | src/score_protein_complex.py:216-233 | The two loops return exactly PlddtPerChain: the chains' CA counts, then the consecutive slices keyed by chain. |
| Plddt.SliceRuns | src/score_protein_complex.py:226-231 | The second loop, with its curr_len accumulator, returns the per-key slices. |
| Plddt.RunOfKey | src/score_protein_complex.py:226-231 | Key k's entry is the run of len_k values starting after the earlier keys' runs. |
| Plddt.PlddtOfChain | src/score_protein_complex.py:216-233 | Chain k's pLDDT array is the run of the flat array that starts after the CA atoms of the chains before it and is as long as its CA count. |
| Geometry.Dist2 | src/score_protein_complex.py:261-263 | The squared distance is non-negative. |
| Geometry.RowContactsExactly | src/score_protein_complex.py:264-265 | Row i lists (i, j) exactly when A[i] and B[j] are within the threshold. |
| Geometry.RowContactsIncreasing | src/score_protein_complex.py:265 | A row's contacts come by increasing column. |
| Geometry.RowsContactsOrdered | src/score_protein_complex.py:265 | argwhere lists the contacts in row-major order. |
| Geometry.ContactsSound | src/score_protein_complex.py:261-265 | Every listed pair is within the threshold. |
| Geometry.ContactsOrdered | src/score_protein_complex.py:335 | The contacts are strictly increasing in row-major order, so none is listed twice. |
| Geometry.ContactRowsComplete | src/score_protein_complex.py:265 | Every pair within the threshold is listed. |
| Geometry.ContactsExactly | src/score_protein_complex.py:330-335 | (i, j) is a contact exactly when i indexes A, j indexes B, and the two are within the threshold. |
| Geometry.ContactsMonotone | src/score_protein_complex.py:335 | Raising the threshold keeps every contact. |
| Geometry.ContactsSymmetric | src/score_protein_complex.py:261-265 | Swapping the chains swaps every contact's indices. |
| Geometry.Unique | src/score_protein_complex.py:341 | np.unique gives the in-range entries of its input, each once, in increasing order. |
| Geometry.UniqueMembers | src/score_protein_complex.py:341 | x is in the unique list exactly when it is in range and occurs in the input. |
| Geometry.InterfaceRows | src/score_protein_complex.py:341 | The unique first indices are exactly the residues of A with some contact in B. |
| Geometry.InterfaceColumns | src/score_protein_complex.py:341 | The unique second indices are exactly the residues of B with some contact in A. |
| Scoring.MeanBelow | src/score_protein_complex.py:269 | A mean is at least any lower bound of the entries, and above any strict lower bound. |
| Scoring.LogOfCountPositive | src/score_protein_complex.py:270 | log10(n + 1) is positive for a positive contact count n. |
| Scoring.ContactTermSign | src/score_protein_complex.py:268-270 | With non-negative pLDDT values a pair's increment is never negative. With positive values it is 0 exactly when there are no contacts. |
| Scoring.RowPairsShape | src/score_protein_complex.py:256 | np.setdiff1d(chain_inds, i) visits every other chain index once, in increasing order. |
| Scoring.RowPairsComplete | src/score_protein_complex.py:256 | Every other chain index is visited. |
| Scoring.PairsBeforeCount | src/score_protein_complex.py:248-256 | The first r outer turns visit r * (n - 1) pairs. |
| Scoring.PairsBeforeBounds | src/score_protein_complex.py:248-256 | The visited pairs are of distinct chain indices, the first below r. |
| Scoring.PairsBeforeOrdered | src/score_protein_complex.py:248-256 | The visits run in row-major order. |
| Scoring.PairsBeforeComplete | src/score_protein_complex.py:248-256 | Every pair of distinct indices with its first below r is visited. |
| Scoring.OrderedPairsExactly | src/score_protein_complex.py:244-256 | score_complex visits (i, j) exactly when i and j are distinct chain indices. |
| Scoring.OrderedPairsOnce | src/score_protein_complex.py:244-256 | score_complex visits each ordered pair once, in row-major order, n * (n - 1) in total. |
| Scoring.VisitSign | src/score_protein_complex.py:246-270 | A total of non-negative terms is non-negative. It is 0 exactly when every term is 0. |
| Scoring.VisitDefined | src/score_protein_complex.py:246-270 | A total that does not raise has every term defined. |
| Scoring.RowFoldVisits | src/score_protein_complex.py:256-270 | The inner loop's fold equals the total over the visited pairs. |
| Scoring.RowTurnVisits | src/score_protein_complex.py:256-270 | One inner turn, skipped or not, keeps the fold equal to that total. |
| Scoring.OuterFoldVisits | src/score_protein_complex.py:248-270 | The nested loops' fold equals the total over the visited pairs. |
| Scoring.RowFoldStaysNone | src/score_protein_complex.py:256-270 | An exception in the inner loop ends it for good. |
| Scoring.OuterFoldStaysNone | src/score_protein_complex.py:248-270 | An exception in the outer loop ends it for good. |
| Scoring.ScoreOfAgreeing | src/score_protein_complex.py:244-272 | Any term function that agrees with PairTerm gives score_complex's result. |
| Scoring.ScoreComplex | src/score_protein_complex.py:236-272 | The nested loops return ScoreSpec and the number of chains. |
| Scoring.ScoreRow | src/score_protein_complex.py:256-270 | The inner loop for chain i returns the row fold. |
| Scoring.RowTurn | src/score_protein_complex.py:257-270 | One inner turn adds chain pair (i, j)'s term, unless j is i. |
| Scoring.ScoreByPairs | src/score_protein_complex.py:244-272 | The score is the total, in visiting order, of the terms of all ordered pairs of distinct chains. |
| Scoring.PairTermSign | src/score_protein_complex.py:264-270 | A pair's term is never negative. With positive pLDDT it is 0 exactly when the pair has no contacts. |
| Scoring.ScoreNonNegative | src/score_protein_complex.py:236-272 | With non-negative pLDDT values the complex score is never negative. |
| Scoring.ScoreZeroExactly | src/score_protein_complex.py:236-272 | With positive pLDDT values the complex score is 0 exactly when no two distinct chains have a contact. |
| Scoring.NoContactsByPairs | src/score_protein_complex.py:244-265 | "No contacts" over all chain pairs says the same as over the visited pairs. |
| DockQ.LogisticBounds | src/score_protein_complex.py:283 | A logistic with L > 0 lies strictly between b and L + b. |
| DockQ.LogisticMonotone | src/score_protein_complex.py:283 | A logistic with L > 0 and k >= 0 is monotone. |
| DockQ.MpDockQ | src/score_protein_complex.py:275-283 | mpDockQ with L = 0.827, x0 = 261.398, k = 0.036, b = 0.221 lies strictly between 0.221 and 1.048. |
| DockQ.MpDockQMonotone | src/score_protein_complex.py:275-283 | A higher complex score never lowers mpDockQ. |
| DockQ.PDockQ | src/score_protein_complex.py:345 | pDockQ with L = 0.724, x0 = 152.611, k = 0.052, b = 0.018 lies strictly between 0.018 and 0.742. |
| DockQ.PDockQMonotone | src/score_protein_complex.py:345 | A higher x never lowers pDockQ. |
| DockQ.InterfaceRowsNonEmpty | src/score_protein_complex.py:337-341 | With at least one contact, the unique-index mean has at least one entry. |
| DockQ.PdockqRange | src/score_protein_complex.py:315-347 | calc_pdockq succeeds only for two chains. It is then 0 exactly when they have no contact, and strictly between 0.018 and 0.742 otherwise. |
| DockQ.PdockqDefinedOnReads | src/score_protein_complex.py:315-347 | On read_pdb_pdockq's own tables with two chains, calc_pdockq never raises. |
| DockQ.LeakedCounterCrashes | src/score_protein_complex.py:175-189 | On records A, B, B, A read_pdb's table makes score_complex raise its IndexError. The chain-local table has A's representatives in range. |
| DockQ.CorrectedRepsReady | src/score_protein_complex.py:253-254 | With chain-local indices every chain's representative indices are within its coordinates, and read_plddt_per_chain gives every chain an array. |
| DockQ.CorrectedAllReady | src/score_protein_complex.py:244-254 | With chain-local indices every chain can take part in score_complex's loop. |
| DockQ.AssessKinds | src/score_protein_complex.py:85-95 | With either reader, a recorded estimate comes from a file that reads and has at least two chains. It is mpDockQ exactly when there are more than two. Both readers read that file and find the same chains. |
| DockQ.AssessBounds | src/score_protein_complex.py:90-95 | With either reader, mpDockQ lies in (0.221, 1.048). pDockQ is 0 or lies in (0.018, 0.742). |
| DockQ.AssessMultimer | src/score_protein_complex.py:85-92 | For more than two chains, read with the chain-local reader, or by read_pdb as written from a file with contiguous chains, every chain can take part in score_complex's loop. main then records mpDockQ of its result, or raises where it raises. |
| DockQ.AssessAgree | src/score_protein_complex.py:85-95 | On a file with contiguous chains, one turn of main as written records the same estimate as with the chain-local reader, or both raise. |
| DockQ.AssessMultimerMonotone | src/score_protein_complex.py:87-92 | Of two multimers, one with a lower or equal complex score gets a lower or equal mpDockQ. |
| DockQ.AssessPair | src/score_protein_complex.py:93-95 | With either reader, for two chains the second read cannot fail. pDockQ at threshold 8 is recorded, and it is defined when the second read also finds two chains. |
| DockQ.ScoreComplexes | src/score_protein_complex.py:79-101 | main's loop returns exactly AssessAll for its reader: one row per complex in order, or the first exception. With AsWritten it is main as written. |
| DockQ.CollectRows | src/score_protein_complex.py:97-101 | A finished run has one row per complex, each built from that complex's outcome. |
| DockQ.CollectFails | src/score_protein_complex.py:79-101 | A run fails exactly when some outcome fails. |
| DockQ.AssessAllRows | src/score_protein_complex.py:79-101 | When main finishes, row k is complex k's id, pLDDT average, pTM and ipTM (None where the scores file lacks the key) with its DockQ estimate. |
| DockQ.AssessAllFails | src/score_protein_complex.py:79-101 | main raises exactly when some complex's turn raises. |
| DockQ.AssessAllAgree | src/score_protein_complex.py:79-101 | When every structure file keeps its chains contiguous, main as written produces the same rows as with chain-local indices, or fails alike. |
| Complexes.LoadComplexFiles | src/score_protein_complex.py:118-142 | The two loops return exactly Join: id_to_files filled from the matches, then the ids with both paths. |
| Complexes.IndexedKeys | src/score_protein_complex.py:122-130 | id_to_files' keys are the captured ids in first-seen order. |
| Complexes.IndexedSlots | src/score_protein_complex.py:127-130 | Each entry holds the last path of each kind listed under its id. |
| Complexes.NoPathUnlisted | src/score_protein_complex.py:122-130 | An id with no entry has no file of either kind. |
| Complexes.JoinExactly | src/score_protein_complex.py:132-142 | (id, p, s) is returned exactly when p is the last structure file and s the last scores file listed under id. Ids lacking either are skipped. |
| Complexes.JoinOrder | src/score_protein_complex.py:132-142 | The returned ids come in the order of their first listing, and none twice. |
| Ligands.ParseLigandsCsv | src/run_af3_ligand_pulldown.py:149-170 | The loop returns exactly ParseLigandsSpec: the header checks, then the data rows' entries, or the first error. |
| Ligands.EntriesSucceed | src/run_af3_ligand_pulldown.py:167-168 | The data rows are read exactly when every row holds both columns. |
| Ligands.EntriesFailAt | src/run_af3_ligand_pulldown.py:168 | A failed read names the first data row that is too short, and every earlier row holds both columns. |
| Ligands.EntriesTable | src/run_af3_ligand_pulldown.py:150-168 | The table lists each id once, in first-seen order, with the same keys as its map. It has at most one entry per data row. |
| Ligands.EntriesLastWins | src/run_af3_ligand_pulldown.py:168 | An id is in the table exactly when some row carries it. Its value is the stripped SMILES of the last such row. |
| Ligands.ParseLigandsOutcome | src/run_af3_ligand_pulldown.py:157-168 | The missing-id error occurs exactly when the header lacks the id column. The missing-SMILES error occurs exactly when the header has the id column but not the SMILES column. Otherwise the data rows are read with the first occurrences' indices. The header never becomes an entry. |
| Ligands.SpecFiles | src/run_af3_ligand_pulldown.py:117-131 | One file per ligand. |
| Ligands.SaveJsonSpecs | src/run_af3_ligand_pulldown.py:117-132 | The loop returns exactly SpecFiles over the table's keys in order. |
| Ligands.SpecFileOf | src/run_af3_ligand_pulldown.py:119-131 | File k is "<id>.json". Its spec is named "<base name>__<id>" and has ligand k's seeds. Its sequences are the base's plus exactly one ligand entry "Z" with the ligand's SMILES. The other fields are the base's. |
| Ligands.SpecFileNamesDistinct | src/run_af3_ligand_pulldown.py:131 | Distinct ligand ids give distinct file names. |
| Fasta.TargetNameKeepsA | src/make_input_fasta.py:63 | As written, "<stem>.faa" with a dot-free stem is named "<stem>a". |
| Fasta.TargetNameCounterExample | src/make_input_fasta.py:63 | As written, "targets.faa" is named "targetsa". |
| Fasta.CorrectedTargetNameStem | src/make_input_fasta.py:63 | The corrected name of a dot-free stem with ".fasta", ".faa", ".fa" or no extension is the stem. |
| Fasta.TargetNamesAgree | src/make_input_fasta.py:63 | The written and corrected names agree, and give the stem, for ".fasta", ".fa" and no extension. |
| Fasta.MakePulldowns | src/make_input_fasta.py:63-85 | The nested loops return exactly Pulldowns over all baits, with the library named by target_name as written. |
| Fasta.PulldownRecord | src/make_input_fasta.py:67-85 | File b is named "<bait id>_<target name>_pulldown.fasta" and holds one record per target. Record t has id "<bait id>__<target id>", sequence upper(bait) + ":" + upper(target), and an empty name and description. |
| Fasta.PulldownCount | src/make_input_fasta.py:67-85 | The first n baits' files hold n * len(targets) records. |
| Fasta.RecordIdsDistinct | src/make_input_fasta.py:73-85 | Within a file, distinct target ids give distinct record ids. |
| Fasta.FileNamesDistinct | src/make_input_fasta.py:67-68 | Distinct bait ids give distinct file names, so no bait's file overwrites another's. |
| Text.StripTrims | src/score_protein_complex.py:199-206 | strip() returns a piece of its input that neither starts nor ends with whitespace. Everything cut off on either side is whitespace. |
| Text.Contains | src/score_protein_complex.py:173 | `p in s` holds exactly when p occurs in s at some offset. |
| Text.RemoveAllSkipsDotFree | src/make_input_fasta.py:63 | replace(p, '') with a dotted p leaves a dot-free prefix alone. |
| Text.UpperCases | src/make_input_fasta.py:72-74 | upper() keeps the length and leaves no lower-case ASCII letter. Each such letter becomes the capital at the same place in the alphabet, and every other character is kept. |
| Text.UpperIdempotent | src/make_input_fasta.py:72-74 | Upper-casing an upper-cased string changes nothing. |
| Seqs.FirstSeenOrder | src/score_protein_complex.py:133 | First-seen order lists the distinct elements by their first occurrence. |
| Seqs.PySlice | src/score_protein_complex.py:199-212 | Python slicing clips both bounds to the length and gives "" when they cross. |

## Left out

- I/O is not modelled. That covers opening and reading files, the directory listing, the `is_file` tests, `json.load`/`json.dump`, SeqIO parsing and writing, CSV tokenising, pandas, argparse, logging and `sys.exit`. Each reader takes the file's lines, rows or records as a sequence.
- The JSON scores are taken as inputs of each complex (`DockQ.Complex`). `read_scores_from_json_file` is not part of this model. pTM and ipTM are options, as `dict.get` gives None for a missing key. The pLDDT average is a real: the NaN that numpy gives as the mean of an empty array is not modelled.
- DockQ.AssessMultimer: for read_pdb as written (`Pdb.AsWritten`) every chain is proved ready for score_complex only on files whose chains are contiguous. On other files its indices can be out of range (`Pdb.LeakedCounter`, `DockQ.LeakedCounterCrashes`) or name the wrong atom (`Pdb.LeakedCounterWrongAtom`).
- `load_protein_complex_files`' two filename patterns are not modelled. The input is the list of files whose name matched, with the captured id and which pattern matched.
- The final pandas sort and CSV export are not modelled. `np.round(dockq, 4)` is not modelled either; rows carry the exact estimate.
- Floating point is modelled with reals.
- `int()`/`float()` on columns and numpy's `log10`/`exp` are parameters. The proofs use only `Scoring.Lawful` of them.
- The one-chain path of `main` is modelled as a failure (`None`): `np.round(None)` raises a TypeError there.
- `pdb_chains`, the raw lines per chain that `read_pdb` also returns, is not modelled. Its only caller discards it.
- `score_af3.py` is not part of this model.
- `run_af3`, the temporary directory and `gen_model_seeds` are not modelled. The seeds drawn for each ligand are a parameter of `Ligands.SaveJsonSpecs`.
- `main` of `run_af3_ligand_pulldown.py` is not modelled. Its line 85 reads `n_models` before assigning it.
- `deepcopy` and mutation in place are value semantics here: a `Spec` is a value, so the base spec cannot change. Aliasing is not modelled.
- `Text.Upper`: only ASCII letters are upper-cased. Python's `str.upper` also maps other Unicode letters.
- `SeqIO.to_dict`'s error on a repeated id is not modelled. `Fasta.MakePulldowns` takes the two dictionaries' records in order. The distinctness lemmas require distinct ids, as a dictionary's keys are.

## Findings

| source | as written | input that shows it | evidently intended | confidence | as-written member | corrected member |
|---|---|---|---|---|---|---|
| src/score_protein_complex.py:175-189 | `coord_ind` is shared by all chains and reset only when a chain is first seen, so a chain whose atoms resume after another chain's gets indices counted from the other chain. | Atoms A, B, B, A with the second A atom a CB: chain A has 2 coordinates but CB index 2. score_complex then raises IndexError on `chain_coords[chain_CB_inds]`. Atoms A, A, A, B, A with only the last A a CB: A's CB index is 1, which is in range but names A's second atom, so the wrong coordinates are scored without an error. | Each index is the atom's position in its own chain's coordinate list. | not executed | Pdb.LeakedCounter, DockQ.LeakedCounterCrashes, Pdb.LeakedCounterWrongAtom | Pdb.CorrectedIndicesValid, DockQ.CorrectedAllReady, DockQ.AssessMultimer |
| src/make_input_fasta.py:63 | `.replace('.fasta','').replace('.fa','').replace('.faa','')` removes ".fa" before ".faa", so the ".faa" step cannot match once ".fa" has cut a ".faa" extension. | "targets.faa" is named "targetsa". | ".faa" is removed before ".fa", so the name is "targets". | not executed | Fasta.TargetNameKeepsA, Fasta.TargetNameCounterExample | Fasta.CorrectedTargetNameStem |

The score pipeline (`DockQ.Assess`, `DockQ.ScoreComplexes`) takes the reader as a parameter (`Pdb.Reader`). `AsWritten` is main as written, with read_pdb's shared counter. `ChainLocal` is the corrected read (`Pdb.CorrectedReadPdbSpec`). The two agree on files whose chains are contiguous (`Pdb.ContiguousFileReadsAgree`, `DockQ.AssessAgree`, `DockQ.AssessAllAgree`). The fan-out (`Fasta.MakePulldowns`) names the library with `Fasta.TargetName` as written. `Fasta.Pulldowns` takes the name as a parameter, so the corrected name (`Fasta.CorrectedTargetName`) can be given instead.
