/** The pattern dictionary: a map from a small integer index to a
    (SMARTS expression, human-readable name) pair, and the built-in
    "elife22" set of 42 odorant substructure patterns. */
module Patterns {

  datatype Option<+T> = None | Some(value: T)

  /** One substructure pattern: its SMARTS query and its label. */
  datatype Pattern = Pattern(smarts: string, name: string)

  type PatternTable = map<int, Pattern>

  /** The set {0, ..., n-1}. */
  function KeyRange(n: nat): (r: set<int>)
    ensures forall j :: j in r <==> 0 <= j < n
  {
    if n == 0 then {} else KeyRange(n - 1) + {n - 1}
  }

  /** Every column index 0 .. N-1 (N = number of entries) is a key of the
      table, so that looking up column j never fails. */
  predicate KeysContiguous(patterns: PatternTable)
  {
    forall j :: 0 <= j < |patterns| ==> j in patterns
  }

  /** The first column index in 0 .. N-1 that is not a key, if any: the key
      whose lookup raises the error when columns are read in ascending
      order. */
  function FirstGap(patterns: PatternTable, from: nat := 0): (r: Option<int>)
    requires forall j :: 0 <= j < from && j < |patterns| ==> j in patterns
    ensures r.None? <==> KeysContiguous(patterns)
    ensures r.Some? ==> from <= r.value < |patterns| && r.value !in patterns
    ensures r.Some? ==> forall j :: 0 <= j < r.value ==> j in patterns
    decreases |patterns| - from
  {
    if from >= |patterns| then None
    else if from !in patterns then Some(from)
    else FirstGap(patterns, from + 1)
  }

  lemma {:induction false} KeyRangeSize(n: nat)
    ensures |KeyRange(n)| == n
  {
    if n > 0 {
      KeyRangeSize(n - 1);
      assert KeyRange(n) == KeyRange(n - 1) + {n - 1};
    }
  }

  lemma SubsetOfSameSize(a: set<int>, b: set<int>)
    requires a <= b && |a| == |b|
    ensures a == b
  {
    assert b == a + (b - a);
    assert a * (b - a) == {};
    assert |b - a| == 0;
    forall x | x in b ensures x in a {
      assert x !in b - a;
    }
  }

  /** The contiguity condition is exactly "the key set is {0, ..., N-1}". */
  lemma ContiguousIffKeysAreRange(patterns: PatternTable)
    ensures KeysContiguous(patterns) <==> patterns.Keys == KeyRange(|patterns|)
  {
    KeyRangeSize(|patterns|);
    if KeysContiguous(patterns) {
      SubsetOfSameSize(KeyRange(|patterns|), patterns.Keys);
    }
  }

  /** The entries of the built-in table, in key order: entry k is the
      pattern stored under key k. */
  const Elife22Entries: seq<Pattern> := [
    /*  0 */ Pattern("*-C(=O)-[OH1]", "carboxylic acid"),
    /*  1 */ Pattern("[CH1]=O", "aldehyde"),
    /*  2 */ Pattern("C-C(=O)-[O]-C", "ester"),
    /*  3 */ Pattern("C-C(=O)-[S]-C", "thioester"),
    /*  4 */ Pattern("[!O&!S]-C(=O)-[!O&!S]", "ketone"),
    /*  5 */ Pattern("[OX2H][CX4&!$(C([OX2H])[O,S,#7,#15]),c]", "alcohol"),
    /*  6 */ Pattern("c1ccccc1", "benzyl"),
    /*  7 */ Pattern("C~C(~C)~C~C~C~C(~C)~C", "monoterpene"),
    /*  8 */ Pattern("[#8]1~[#6]~[#6]~[#6]~[#6]1", "furanoid"),
    /*  9 */ Pattern("o1cccc1", "furan"),
    /* 10 */ Pattern("[NH2][C]", "primary amine"),
    /* 11 */ Pattern("[NH](C)C", "secondary amine"),
    /* 12 */ Pattern("[NH0](C)(C)C", "tertiary amine"),
    /* 13 */ Pattern("[N,n]1~[C,c]~[C,c]~[C,c]~[C,c]~[C,c]1", "pyridine"),
    /* 14 */ Pattern("[n,N]1~[C,c]~[C,c]~[C,c]~[C,c]1", "pyrrole"),
    /* 15 */ Pattern("[N,n]1~[C,c]~[C,c]~[N,n]~[C,c]~[C,c]1", "pyrazine"),
    /* 16 */ Pattern("[#16]1~[#6]~[#7]~[#6]~[#6]1", "thiazoline"),
    /* 17 */ Pattern("[!#8]~C-S-C~[!#8]", "thioether"),
    /* 18 */ Pattern("[$(C-S-S-C),$(C-S-S-S-C)]", "sulfide"),
    /* 19 */ Pattern("[#6]-[SH]", "thiol"),
    /* 20 */ Pattern("[#6]=[#6]", "Alkene"),
    /* 21 */ Pattern("[#16]", "sulfur"),
    /* 22 */ Pattern("[#7]", "nitrogen"),
    /* 23 */ Pattern("[#8]", "oxygen"),
    /* 24 */ Pattern("[R]", "ring"),
    /* 25 */ Pattern("[CH3]-*-[CH2]-*", "terminal 4-bond chain"),
    /* 26 */ Pattern("*!@*@*!@*", "ortho-substituted ring"),
    /* 27 */ Pattern("*!@*@*@*!@*", "meta-substituted rings"),
    /* 28 */ Pattern("*1(!@*)@*@*@*(!@*)@*@*@1", "para-substituted 6-ring\n(but not fused ring)"),
    /* 29 */ Pattern("C~C(~C)~[R1]1~[R1]~[R1]~[R1](~C)~[R1]~[R1]~1", "menthane scaffold"),
    /* 30 */ Pattern("C~C(~C)~2~[R2]1~[R2]~2~[R1]~[R1](~C)~[R1]~[R1]~1", "carene scaffold"),
    /* 31 */ Pattern("C~C(~C)~[R2]12~[R1]~[R2]~2~[R1](~C)~[R1]~[R1]~1", "thujane scaffold"),
    /* 32 */ Pattern("C~C2(~C)~[R]1~[R]~[R]~2~[R](~C)~[R]~[R]~1", "pinane scaffold"),
    /* 33 */ Pattern("[!H]~[!H]2(~[!H])~[R]1~[R]~[R]~[R](~[!H])~2~[R]~[R]~1", "camphane scaffold"),
    /* 34 */ Pattern("[!H]~[!H]2(~[!H])~[R]~[R](~[!H])1~[R]~[R]~2~[R]~[R]~1", "fenchane scaffold"),
    /* 35 */ Pattern("C(-C)(-C)(-C)-C", "quadra C"),
    /* 36 */ Pattern("C-C-C-C-C-C", "six C single bond"),
    /* 37 */ Pattern("C-C-C-C-C-C-C", "seven C single bond"),
    /* 38 */ Pattern("C-C-C-C-C-C-C-C", "eight C single bond"),
    /* 39 */ Pattern("C-C-C-C-C-C-C-C-C", "nine C single bond"),
    /* 40 */ Pattern("C-C-C-C-C-C-C-C-C-C", "ten C single bond"),
    /* 41 */ Pattern("C-C-C-C-C-C-C-C-C-C-C", "eleven C single bond")
  ]

  /** The built-in "elife22" table: key k maps to the k-th entry. */
  const OdorantPatternsElife22: PatternTable :=
    map k | 0 <= k < |Elife22Entries| :: Elife22Entries[k]

  /** The built-in table has 42 entries keyed exactly 0 .. 41, so it meets
      the contiguity condition and no column lookup on it can fail. */
  lemma DefaultTableShape()
    ensures OdorantPatternsElife22.Keys == KeyRange(42)
    ensures |OdorantPatternsElife22| == 42
    ensures KeysContiguous(OdorantPatternsElife22)
    ensures FirstGap(OdorantPatternsElife22) == None
  {
    assert OdorantPatternsElife22.Keys == KeyRange(42);
    KeyRangeSize(42);
  }
}
