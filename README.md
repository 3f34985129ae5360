# Odorant substructure fingerprints, modelled in Dafny

The repository computes a substructure fingerprint for a batch of
molecules. It has a table of 42 SMARTS patterns for odorant chemistry
(`odorant_patterns_elife22`) and one routine, `get_fingerprint`. The routine
preallocates a zero matrix of shape molecules x patterns. It then walks the
molecules in order. An absent or invalid molecule has its whole row
overwritten with NaN. For a valid molecule it walks the columns
`j = 0 .. N-1` in ascending order, looks up the pattern under key `j`,
compiles its SMARTS and sets cell `(i, j)` to 1 when the molecule has a
substructure match.

The model has two modules:

- `Patterns` (`patterns.dfy`): the `Pattern` pair (SMARTS, name), the
  built-in table as a constant map from key to pattern, the contiguity
  condition on keys (`KeysContiguous`), and `FirstGap`, the first column
  index whose lookup fails.
- `Fingerprinting` (`fingerprinting.dfy`): the three-valued `Cell`
  (`Absent`, `Present`, `Missing` for 0.0, 1.0 and NaN) and a
  specification function `Fingerprint`. It also holds the imperative method
  `GetFingerprint`, which fills a fresh `array2<Cell>` with the source's
  nested loops and is proved equal to `Fingerprint`. The two row updates are
  the methods `MarkMissing` (the whole-row NaN assignment) and `FillRow`
  (the inner loop over patterns). The lemmas sit on top of these.

Modelling choices:

- The substructure test (`Chem.MolFromSmarts` followed by
  `HasSubstructMatch`) is the parameter `matches: (M, string) -> bool`. It
  is a total, deterministic function of the molecule and the SMARTS string.
  Molecules have an arbitrary type `M`. A batch is a `seq<Option<M>>`, and
  `None` stands for the falsy sentinel tested by `if not m`.
- The default `patterns=odorant_patterns_elife22` argument is kept as a
  default-valued parameter of `GetFingerprint` and `Fingerprint`.
- A key missing from the table raises `KeyError` in the source. Here it is
  the result `KeyError(k)`. The lookup only happens inside the branch for a
  valid molecule, so a table whose keys are not `0 .. N-1` fails only when
  the batch holds at least one valid molecule. The failing key `k` is then
  the least column index that has no entry. The model states exactly this.
  It does not require contiguous keys of every caller.
- The model does not record the order of a Python dict. A Dafny `map` has
  no insertion order, and the columns are defined by key alone.
  `OnlySmartsMatter` states that nothing but the keys and the SMARTS parts
  affects the result.
- Which substructure queries are made is recorded in a ghost out-parameter
  `log` of `(row, col)` pairs. It is proved equal to `QueryLog`: one query
  per column, in ascending order, for every valid molecule and none for an
  invalid one.
- Idempotence (two identical calls give identical matrices) holds by
  construction, because `Fingerprint` is a function. The three-valued cell
  domain is also by construction, because `Cell` is a three-constructor
  datatype. `CellMeaning` states which of the three values each cell holds.

## Model

| member | source | states |
|---|---|---|
| `Patterns.FirstGap` | fingerprinting.py:80-89 | the first index in 0..N-1 with no key: none exactly when every column index 0..N-1 is a key; otherwise it is absent from the table and every smaller index is present |
| `Patterns.ContiguousIffKeysAreRange` | fingerprinting.py:80-89 | every lookup `patterns[j]`, `j < len(patterns)`, succeeds exactly when the key set is {0, ..., N-1} |
| `Patterns.DefaultTableShape` | fingerprinting.py:20-66 | the built-in table has 42 entries with keys exactly 0..41, so it is contiguous and has no gap |
| `Fingerprinting.Row` | fingerprinting.py:83-92 | every row, valid or not, has one cell per table entry |
| `Fingerprinting.MarkMissing` | fingerprinting.py:83-87 | row i becomes all Missing and every other row is unchanged |
| `Fingerprinting.FillRow` | fingerprinting.py:88-92 | the inner loop stops at the table's first gap if it has one; otherwise row i is the molecule's row, the queries are (i,0)..(i,N-1) in order, and every other row is unchanged |
| `Fingerprinting.GetFingerprint` | fingerprinting.py:73-94 | the result is a fresh M x N matrix (M molecules) whose rows equal `Fingerprint`, or the KeyError `Fingerprint` predicts; the query log equals `QueryLog` |
| `Fingerprinting.FingerprintShape` | fingerprinting.py:80-81 | a successful result has exactly one row per molecule, each of exactly N cells |
| `Fingerprinting.CellMeaning` | fingerprinting.py:83-92 | cell (i,j) is Missing iff molecule i is invalid, Present iff it is valid and matches the SMARTS under key j, Absent iff it is valid and does not |
| `Fingerprinting.KeyErrorExactly` | fingerprinting.py:80-89 | the call fails iff the batch has a valid molecule and the key set is not {0..N-1}; the reported key is the least index in 0..N-1 with no entry |
| `Fingerprinting.EmptyTableGivesZeroColumns` | fingerprinting.py:80-81 | an empty table yields one empty row per molecule, not an error |
| `Fingerprinting.DefaultTableNeverFails` | fingerprinting.py:73 | with the built-in table the call never fails and every row has 42 cells |
| `Fingerprinting.OnlySmartsMatter` | fingerprinting.py:88-89 | two tables with the same keys and the same SMARTS under each key give the same result whatever the names |
| `Fingerprinting.RowsFollowMolecules` | fingerprinting.py:82-92 | reordering or sub-selecting the molecules reorders or sub-selects the rows identically (a permuted batch gives the permuted matrix) |
| `Fingerprinting.ReplaceMoleculeChangesOnlyItsRow` | fingerprinting.py:82-92 | replacing molecule k, for instance by the invalid sentinel, changes row k to that molecule's row and leaves every other row unchanged |
| `Fingerprinting.QueryLogMembers` | fingerprinting.py:83-91 | a query (i,j) is made iff molecule i is valid and j < N; none is made for an invalid molecule |
| `Fingerprinting.QueryLogOrdered` | fingerprinting.py:82-91 | queries are made in strictly increasing (row, column) order: rows in input order, columns ascending, each once |
| `Fingerprinting.ValidThenInvalidBatch` | fingerprinting.py:73-94 | with the built-in table, a batch [valid, invalid] gives a first row with no Missing cell and a second row of 42 Missing cells |

## Left out

- SMARTS parsing and compilation (`Chem.MolFromSmarts`) and the subgraph
  match (`HasSubstructMatch`) belong to RDKit. They are the uninterpreted
  parameter `matches`.
- A malformed SMARTS makes `MolFromSmarts` return None, and the match call
  then fails inside RDKit. The model does not capture this, because
  `matches` is total.
- Whether each SMARTS recognises the chemistry its name claims (ethanol
  hitting "alcohol", benzene hitting "ring") is left out. It depends
  entirely on RDKit.
- RDKit molecule internals and Python truthiness of Mol objects are left
  out. Only `None` is falsy in the model.
- NumPy floats and NaN are left out. Cells are the three-valued `Cell`.
- Keys are `int`. A key that Python treats as equal to an integer (`1.0`,
  `True`, a NumPy integer) behaves as that integer, which the model does not
  distinguish. Any other non-integer key leaves a gap in 0..N-1, and the
  source fails at that gap whenever the batch holds a valid molecule.
- `mols` is a finite sequence, not an arbitrary iterable. The source needs
  `len(mols)` anyway.
- The pattern-caching idea in the TODO comment (fingerprinting.py:68-70)
  is not implemented in the source and is not modelled.
- `Fingerprinting.GetFingerprint`: on the KeyError path, the ghost query log
  is left unconstrained. The source discards all partial work when it
  raises.
