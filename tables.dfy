/** The constant tables that src/des.cpp takes from tables.cpp (initial and
    final permutations, expansion, round permutation, the two permuted
    choices, the eight S-boxes and the shift schedule). tables.cpp is not
    part of this model: the tables are a value whose well-formedness is what
    the code needs of them. */
module DesTables {

  datatype Tables = Tables(
    IP: seq<int>, FP: seq<int>, E: seq<int>, P: seq<int>,
    PC1: seq<int>, PC2: seq<int>, S: seq<seq<seq<int>>>, Shift: seq<int>)

  /** A `p_box` table of `n` entries selecting from an `m`-bit input: every
      entry is a position 1..m, so `input[M - table[i]]` is in range. */
  predicate Selects(table: seq<int>, n: nat, m: nat)
  {
    |table| == n && forall i :: 0 <= i < n ==> 1 <= table[i] <= m
  }

  /** Table `a` undoes table `b`: position `b[i]` of `a` names position i+1. */
  predicate Undoes(a: seq<int>, b: seq<int>)
    requires Selects(a, 64, 64) && Selects(b, 64, 64)
  {
    forall i :: 0 <= i < 64 ==> UndoesAt(a, b, i)
  }

  /** One position of `Undoes`. */
  predicate UndoesAt(a: seq<int>, b: seq<int>, i: int)
    requires Selects(a, 64, 64) && Selects(b, 64, 64) && 0 <= i < 64
  {
    a[b[i] - 1] == i + 1
  }

  /** Eight boxes of four rows of sixteen entries, as `S[i][row][col]` reads. */
  predicate SBoxShape(S: seq<seq<seq<int>>>)
  {
    |S| == 8 &&
    forall i :: 0 <= i < 8 ==>
      |S[i]| == 4 && forall r :: 0 <= r < 4 ==> |S[i][r]| == 16
  }

  predicate WellFormed(t: Tables)
  {
    && Selects(t.IP, 64, 64) && Selects(t.FP, 64, 64)
    && Undoes(t.IP, t.FP) && Undoes(t.FP, t.IP)
    && Selects(t.E, 48, 32) && Selects(t.P, 32, 32)
    && Selects(t.PC1, 56, 64) && Selects(t.PC2, 48, 56)
    && SBoxShape(t.S)
    && |t.Shift| == 16 && (forall i :: 0 <= i < 16 ==> t.Shift[i] >= 0)
  }

  type WfTables = t: Tables | WellFormed(t)
    witness Tables(
      seq(64, i => i + 1), seq(64, i => i + 1), seq(48, i => i % 32 + 1), seq(32, i => i + 1),
      seq(56, i => i + 1), seq(48, i => i + 1), seq(8, _ => seq(4, _ => seq(16, _ => 0))),
      seq(16, _ => 1))
}
