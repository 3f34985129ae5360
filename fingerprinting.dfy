/** The fingerprint computer: for a batch of molecules and a pattern table
    it fills a molecules x patterns matrix with Present / Absent cells, and
    a whole row of Missing cells for a molecule that is absent or invalid.

    The substructure test (SMARTS compilation followed by a subgraph search)
    belongs to an external toolkit; here it is the parameter `matches`, a
    total and deterministic function from a molecule and a SMARTS string to
    a boolean. Molecules are of an arbitrary type M; `None` is the falsy
    "failed to parse" sentinel. */
module Fingerprinting {
  import opened Patterns

  /** One matrix cell: NumPy's 0.0, 1.0 and NaN in `fp_mat`. */
  datatype Cell = Absent | Present | Missing

  /** The outcome of a call: the matrix, or the key whose lookup raised. */
  datatype Result<+T> = Ok(value: T) | KeyError(key: int)

  /** One substructure query, made for molecule `row` against column `col`. */
  datatype Query = Query(row: nat, col: nat)

  // ---------------------------------------------------------------------
  // Specification

  /** The cell for a valid molecule and one pattern: only the SMARTS part of
      the pattern is consulted. */
  function CellFor<M>(mol: M, pattern: Pattern, matches: (M, string) -> bool): Cell
  {
    if matches(mol, pattern.smarts) then Present else Absent
  }

  /** The row of one molecule: all Missing for the sentinel, otherwise one
      cell per column, column j being the pattern under key j. */
  function Row<M>(m: Option<M>, patterns: PatternTable, matches: (M, string) -> bool): (r: seq<Cell>)
    requires m.Some? ==> KeysContiguous(patterns)
    ensures |r| == |patterns|
  {
    match m
    case None => seq(|patterns|, _ => Missing)
    case Some(mol) =>
      seq(|patterns|, j requires 0 <= j < |patterns| => CellFor(mol, patterns[j], matches))
  }

  /** Some molecule of the batch is valid, so the column lookups happen. */
  predicate HasValid<M>(mols: seq<Option<M>>)
  {
    exists i :: 0 <= i < |mols| && mols[i].Some?
  }

  /** What a call computes: the lookups of the columns 0 .. N-1 happen, in
      ascending order, as soon as a valid molecule is processed, so a table
      whose keys are not 0 .. N-1 fails at its first gap -- but only when
      the batch holds a valid molecule. */
  function Fingerprint<M>(matches: (M, string) -> bool, mols: seq<Option<M>>,
                          patterns: PatternTable := OdorantPatternsElife22): Result<seq<seq<Cell>>>
  {
    if HasValid(mols) && FirstGap(patterns).Some? then KeyError(FirstGap(patterns).value)
    else Ok(seq(|mols|, i requires 0 <= i < |mols| => Row(mols[i], patterns, matches)))
  }

  /** The queries made for a batch, in the order they are made: for every
      valid molecule, in input order, one query per column in ascending
      order; none for an invalid molecule. */
  ghost function QueryLog<M>(mols: seq<Option<M>>, n: nat): seq<Query>
    decreases |mols|
  {
    if mols == [] then []
    else
      var last := |mols| - 1;
      QueryLog(mols[..last], n) + (if mols[last].Some? then seq(n, j requires 0 <= j < n => Query(last, j)) else [])
  }

  /** `q` is made strictly before `q'`: an earlier row, or the same row and
      an earlier column. */
  predicate Precedes(q: Query, q': Query)
  {
    q.row < q'.row || (q.row == q'.row && q.col < q'.col)
  }

  /** The contents of a matrix, row by row. */
  ghost function Rows(a: array2<Cell>): seq<seq<Cell>>
    reads a
  {
    seq(a.Length0, i requires 0 <= i < a.Length0 reads a =>
      seq(a.Length1, j requires 0 <= j < a.Length1 reads a => a[i, j]))
  }

  // ---------------------------------------------------------------------
  // The computation

  /** `fp_mat[i, :] = nan-row`: overwrite row i with Missing, leaving every
      other row as it was. */
  method MarkMissing(fp: array2<Cell>, i: nat)
    requires i < fp.Length0
    modifies fp
    ensures forall b :: 0 <= b < fp.Length1 ==> fp[i, b] == Missing
    ensures forall a, b :: 0 <= a < fp.Length0 && a != i && 0 <= b < fp.Length1 ==>
              fp[a, b] == old(fp[a, b])
  {
    forall b | 0 <= b < fp.Length1 {
      fp[i, b] := Missing;
    }
  }

  /** The inner loop for a valid molecule: for j = 0 .. N-1 look up the
      pattern under key j and set cell (i, j) to Present when it matches.
      A missing key stops the loop with that key; otherwise the row is the
      molecule's row and the queries are (i, 0), ..., (i, N-1) in order. */
  method FillRow<M>(fp: array2<Cell>, i: nat, mol: M, patterns: PatternTable,
                    matches: (M, string) -> bool)
    returns (gap: Option<int>, ghost queries: seq<Query>)
    requires i < fp.Length0 && fp.Length1 == |patterns|
    requires forall b :: 0 <= b < fp.Length1 ==> fp[i, b] == Absent
    modifies fp
    ensures gap == FirstGap(patterns)
    ensures gap.None? ==> forall b :: 0 <= b < fp.Length1 ==>
              fp[i, b] == Row(Some(mol), patterns, matches)[b]
    ensures gap.None? ==> queries == seq(|patterns|, b requires 0 <= b < |patterns| => Query(i, b))
    ensures forall a, b :: 0 <= a < fp.Length0 && a != i && 0 <= b < fp.Length1 ==>
              fp[a, b] == old(fp[a, b])
  {
    var numPats := |patterns|;
    queries := [];
    var j := 0;
    while j < numPats
      invariant 0 <= j <= numPats
      invariant forall b :: 0 <= b < j ==> b in patterns
      invariant forall b :: 0 <= b < j ==> fp[i, b] == CellFor(mol, patterns[b], matches)
      invariant forall b :: j <= b < numPats ==> fp[i, b] == Absent
      invariant forall a, b :: 0 <= a < fp.Length0 && a != i && 0 <= b < fp.Length1 ==>
                  fp[a, b] == old(fp[a, b])
      invariant queries == seq(j, b requires 0 <= b < j => Query(i, b))
    {
      if j !in patterns {
        return Some(j), queries;
      }
      var smarts := patterns[j].smarts;
      queries := queries + [Query(i, j)];
      if matches(mol, smarts) {
        fp[i, j] := Present;
      }
      j := j + 1;
    }
    gap := None;
  }

  /** get_fingerprint: preallocate a zero matrix, then for each molecule in
      order either overwrite its row with Missing or test every pattern in
      ascending key order and set the matching cells to Present. The ghost
      `log` records every substructure query made. */
  method GetFingerprint<M>(matches: (M, string) -> bool, mols: seq<Option<M>>,
                           patterns: PatternTable := OdorantPatternsElife22)
    returns (r: Result<array2<Cell>>, ghost log: seq<Query>)
    ensures r.KeyError? ==> Fingerprint(matches, mols, patterns) == KeyError(r.key)
    ensures r.Ok? ==> fresh(r.value) && r.value.Length0 == |mols| && r.value.Length1 == |patterns|
    ensures r.Ok? ==> Fingerprint(matches, mols, patterns) == Ok(Rows(r.value))
    ensures r.Ok? ==> log == QueryLog(mols, |patterns|)
  {
    var numPats := |patterns|;
    var fp := new Cell[|mols|, numPats]((_, _) => Absent);
    log := [];
    var i := 0;
    while i < |mols|
      invariant 0 <= i <= |mols|
      invariant fp.Length0 == |mols| && fp.Length1 == numPats
      invariant HasValid(mols[..i]) ==> KeysContiguous(patterns)
      invariant forall a, b :: 0 <= a < i && 0 <= b < numPats ==>
                  fp[a, b] == Row(mols[a], patterns, matches)[b]
      invariant forall a, b :: i <= a < |mols| && 0 <= b < numPats ==> fp[a, b] == Absent
      invariant log == QueryLog(mols[..i], numPats)
    {
      assert mols[..i + 1][..i] == mols[..i];
      match mols[i] {
        case None =>
          MarkMissing(fp, i);
        case Some(m) =>
          var gap, queries := FillRow(fp, i, m, patterns, matches);
          if gap.Some? {
            return KeyError(gap.value), log + queries;
          }
          log := log + queries;
      }
      i := i + 1;
    }
    assert mols[..i] == mols;
    assert HasValid(mols) ==> FirstGap(patterns).None?;
    forall a | 0 <= a < |mols|
      ensures Rows(fp)[a] == Row(mols[a], patterns, matches)
    {
      assert forall b :: 0 <= b < numPats ==> Rows(fp)[a][b] == fp[a, b];
    }
    assert Rows(fp) == Fingerprint(matches, mols, patterns).value;
    r := Ok(fp);
  }

  // ---------------------------------------------------------------------
  // Properties

  /** Shape: one row per molecule, one column per table entry. */
  lemma FingerprintShape<M>(matches: (M, string) -> bool, mols: seq<Option<M>>, patterns: PatternTable)
    requires Fingerprint(matches, mols, patterns).Ok?
    ensures |Fingerprint(matches, mols, patterns).value| == |mols|
    ensures forall i :: 0 <= i < |mols| ==> |Fingerprint(matches, mols, patterns).value[i]| == |patterns|
  {
  }

  /** What each cell means: Missing exactly for an invalid molecule;
      otherwise Present exactly when the molecule matches the SMARTS stored
      under key j, and Absent exactly when it does not. */
  lemma CellMeaning<M>(matches: (M, string) -> bool, mols: seq<Option<M>>, patterns: PatternTable,
                       i: int, j: int)
    requires Fingerprint(matches, mols, patterns).Ok?
    requires 0 <= i < |mols| && 0 <= j < |patterns|
    ensures var c := Fingerprint(matches, mols, patterns).value[i][j];
            (c == Missing <==> mols[i].None?) &&
            (c == Present <==> mols[i].Some? && matches(mols[i].value, patterns[j].smarts)) &&
            (c == Absent <==> mols[i].Some? && !matches(mols[i].value, patterns[j].smarts))
  {
  }

  /** The call fails exactly when the batch holds a valid molecule and the
      keys are not 0 .. N-1; the reported key is then the least column
      index without an entry. A batch of invalid molecules never fails. */
  lemma KeyErrorExactly<M>(matches: (M, string) -> bool, mols: seq<Option<M>>, patterns: PatternTable)
    ensures Fingerprint(matches, mols, patterns).KeyError? <==>
              HasValid(mols) && patterns.Keys != KeyRange(|patterns|)
    ensures Fingerprint(matches, mols, patterns).KeyError? ==>
              var k := Fingerprint(matches, mols, patterns).key;
              0 <= k < |patterns| && k !in patterns &&
              forall j :: 0 <= j < k ==> j in patterns
  {
    ContiguousIffKeysAreRange(patterns);
  }

  /** A table with no entries gives one empty row per molecule, not an
      error. */
  lemma EmptyTableGivesZeroColumns<M>(matches: (M, string) -> bool, mols: seq<Option<M>>)
    ensures Fingerprint(matches, mols, map[]) == Ok(seq(|mols|, _ => []))
  {
    var rows := seq(|mols|, _ => []);
    assert Fingerprint(matches, mols, map[]).value == rows;
  }

  /** The built-in table never fails and gives 42 columns. */
  lemma DefaultTableNeverFails<M>(matches: (M, string) -> bool, mols: seq<Option<M>>)
    ensures Fingerprint(matches, mols).Ok?
    ensures forall i :: 0 <= i < |mols| ==> |Fingerprint(matches, mols).value[i]| == 42
  {
    DefaultTableShape();
  }

  /** Only the keys and the SMARTS parts of a table matter: two tables with
      the same keys and the same SMARTS under each key, whatever their
      names, give the same result. */
  lemma OnlySmartsMatter<M>(matches: (M, string) -> bool, mols: seq<Option<M>>,
                            p: PatternTable, p': PatternTable)
    requires p.Keys == p'.Keys
    requires forall k :: k in p ==> p[k].smarts == p'[k].smarts
    ensures Fingerprint(matches, mols, p) == Fingerprint(matches, mols, p')
  {
    assert |p| == |p'|;
    assert KeysContiguous(p) == KeysContiguous(p');
    if HasValid(mols) && FirstGap(p).Some? {
      assert FirstGap(p) == FirstGap(p');
    } else {
      forall i | 0 <= i < |mols|
        ensures Row(mols[i], p, matches) == Row(mols[i], p', matches)
      {
        if mols[i].Some? {
          forall j | 0 <= j < |p|
            ensures Row(mols[i], p, matches)[j] == Row(mols[i], p', matches)[j]
          {
            assert p[j].smarts == p'[j].smarts;
          }
        }
      }
      assert Fingerprint(matches, mols, p).value == Fingerprint(matches, mols, p').value;
    }
  }

  /** The molecules of `mols` picked by `sigma`, in that order. */
  function Select<T>(s: seq<T>, sigma: seq<nat>): (r: seq<T>)
    requires forall k :: 0 <= k < |sigma| ==> sigma[k] < |s|
    ensures |r| == |sigma|
    ensures forall k :: 0 <= k < |sigma| ==> r[k] == s[sigma[k]]
  {
    seq(|sigma|, k requires 0 <= k < |sigma| => s[sigma[k]])
  }

  /** Rows follow their molecules: taking the molecules in any order, or
      any sub-batch with repetitions, takes the rows in the same way. In
      particular a permuted batch gives the identically permuted matrix. */
  lemma {:induction false} RowsFollowMolecules<M>(matches: (M, string) -> bool, mols: seq<Option<M>>,
                                                  patterns: PatternTable, sigma: seq<nat>)
    requires forall k :: 0 <= k < |sigma| ==> sigma[k] < |mols|
    requires Fingerprint(matches, mols, patterns).Ok?
    ensures Fingerprint(matches, Select(mols, sigma), patterns) ==
              Ok(Select(Fingerprint(matches, mols, patterns).value, sigma))
  {
    var sub := Select(mols, sigma);
    if HasValid(sub) {
      var k :| 0 <= k < |sub| && sub[k].Some?;
      assert mols[sigma[k]].Some?;
      assert HasValid(mols);
    }
    assert Fingerprint(matches, sub, patterns).Ok?;
    assert Fingerprint(matches, sub, patterns).value ==
           Select(Fingerprint(matches, mols, patterns).value, sigma);
  }

  /** Row locality: replacing molecule k (with an invalid one, say) changes
      row k of the matrix and no other row. */
  lemma ReplaceMoleculeChangesOnlyItsRow<M>(matches: (M, string) -> bool, mols: seq<Option<M>>,
                                            patterns: PatternTable, k: int, x: Option<M>)
    requires 0 <= k < |mols|
    requires Fingerprint(matches, mols, patterns).Ok?
    requires x.Some? ==> KeysContiguous(patterns)
    ensures Fingerprint(matches, mols[k := x], patterns) ==
              Ok(Fingerprint(matches, mols, patterns).value[k := Row(x, patterns, matches)])
  {
    var mols' := mols[k := x];
    if HasValid(mols') {
      var i :| 0 <= i < |mols'| && mols'[i].Some?;
      if i != k {
        assert mols[i].Some?;
      }
    }
    assert Fingerprint(matches, mols', patterns).Ok?;
    assert Fingerprint(matches, mols', patterns).value ==
           Fingerprint(matches, mols, patterns).value[k := Row(x, patterns, matches)];
  }

  /** The queries made are exactly the pairs (i, j) of a valid molecule i
      and a column j: none is made for an invalid molecule. */
  lemma {:induction false} QueryLogMembers<M>(mols: seq<Option<M>>, n: nat, q: Query)
    ensures q in QueryLog(mols, n) <==> q.row < |mols| && mols[q.row].Some? && q.col < n
    decreases |mols|
  {
    if mols != [] {
      var last := |mols| - 1;
      var tail := if mols[last].Some? then seq(n, j requires 0 <= j < n => Query(last, j)) else [];
      assert QueryLog(mols, n) == QueryLog(mols[..last], n) + tail;
      QueryLogMembers(mols[..last], n, q);
      assert q in tail <==> q.row == last && mols[last].Some? && q.col < n by {
        if q.row == last && mols[last].Some? && q.col < n {
          assert tail[q.col] == q;
        }
      }
      if q.row < last {
        assert mols[..last][q.row] == mols[q.row];
      }
    }
  }

  /** The queries are made in strictly increasing (row, column) order, so
      every query is made once, rows follow the input order and columns
      ascend within a row. */
  lemma {:induction false} QueryLogOrdered<M>(mols: seq<Option<M>>, n: nat)
    ensures forall a, b :: 0 <= a < b < |QueryLog(mols, n)| ==>
              Precedes(QueryLog(mols, n)[a], QueryLog(mols, n)[b])
    decreases |mols|
  {
    if mols != [] {
      var last := |mols| - 1;
      var prefix := QueryLog(mols[..last], n);
      var tail := if mols[last].Some? then seq(n, j requires 0 <= j < n => Query(last, j)) else [];
      QueryLogOrdered(mols[..last], n);
      forall a | 0 <= a < |prefix|
        ensures prefix[a].row < last
      {
        QueryLogMembers(mols[..last], n, prefix[a]);
      }
      assert QueryLog(mols, n) == prefix + tail;
    }
  }

  /** A two-molecule batch whose second molecule is invalid, against the
      built-in table: the first row holds no Missing cell and the second row
      is all Missing. */
  lemma ValidThenInvalidBatch<M>(matches: (M, string) -> bool, m: M)
    ensures var fp := Fingerprint(matches, [Some(m), None]);
            fp.Ok? && |fp.value| == 2 && |fp.value[0]| == 42 &&
            (forall j :: 0 <= j < |fp.value[0]| ==> fp.value[0][j] != Missing) &&
            fp.value[1] == seq(42, _ => Missing)
  {
    DefaultTableShape();
  }
}
