// Register-name lookup of the riscv32 guest: the ABI name table and the
// downward search that turns a register name into the register's value.

module Reg {
  import opened Common

  /** ABI names of the 32 integer registers, indexed by register number. */
  const REGS: seq<string> :=
    ["$0", "ra", "sp", "gp", "tp", "t0", "t1", "t2", "s0", "s1", "a0", "a1", "a2", "a3", "a4", "a5",
     "a6", "a7", "s2", "s3", "s4", "s5", "s6", "s7", "s8", "s9", "s10", "s11", "t3", "t4", "t5", "t6"]

  /** Number of registers the search covers: 16 in the embedded (RVE) configuration, 32 otherwise. */
  function NrRegs(rve: bool): (n: nat)
    ensures n <= |REGS|
    ensures rve <==> n < |REGS|
  {
    if rve then 16 else 32
  }

  /**
   * The largest index below n whose entry of names is name, or None when
   * no entry below n is name.
   */
  function LastIndexOf(names: seq<string>, name: string, n: nat): (r: Option<nat>)
    requires n <= |names|
    ensures r.Some? ==> r.value < n && names[r.value] == name
    ensures r.Some? ==> forall j :: r.value < j < n ==> names[j] != name
    ensures r.None? <==> forall j :: 0 <= j < n ==> names[j] != name
  {
    if n == 0 then None
    else if names[n - 1] == name then Some(n - 1)
    else LastIndexOf(names, name, n - 1)
  }

  /**
   * The loop of the lookup over a name table: counts n down and stops at the
   * first index whose name is name, reading that register from gpr; when no
   * index matches it hands value back unchanged.
   */
  method SearchDown(names: seq<string>, name: string, n: nat, value: Word, gpr: array<Word>) returns (found: bool, value': Word)
    requires n <= |names| && n <= gpr.Length
    ensures found <==> LastIndexOf(names, name, n).Some?
    ensures found ==> value' == gpr[LastIndexOf(names, name, n).value]
    ensures !found ==> value' == value
  {
    var regsLen: nat := n;
    while regsLen > 0
      invariant regsLen <= n
      invariant LastIndexOf(names, name, regsLen) == LastIndexOf(names, name, n)
    {
      regsLen := regsLen - 1;
      if name == names[regsLen] {
        return true, gpr[regsLen];
      }
    }
    return false, value;
  }

  /**
   * Looks name up among the first NrRegs(rve) register names, from the
   * highest index down. A missing name (None stands for a null pointer) and
   * a name not in the table both give false and hand value back unchanged;
   * otherwise the result is true with the value of the register found.
   * The register file gpr is only read. As for the tokenizer, a name is
   * the characters before its terminating NUL.
   */
  method Str2Val(name: Option<string>, value: Word, gpr: array<Word>, rve: bool) returns (found: bool, value': Word)
    requires NrRegs(rve) <= gpr.Length
    requires name.Some? ==> '\0' !in name.value
    ensures name.None? ==> !found
    ensures name.Some? ==> (found <==> LastIndexOf(REGS, name.value, NrRegs(rve)).Some?)
    ensures found ==> name.Some? && value' == gpr[LastIndexOf(REGS, name.value, NrRegs(rve)).value]
    ensures !found ==> value' == value
  {
    if name.None? {
      return false, value;
    }
    found, value' := SearchDown(REGS, name.value, NrRegs(rve), value, gpr);
  }

  /** No two registers share a name. */
  lemma RegNamesDistinct()
    ensures forall i, j :: 0 <= i < j < |REGS| ==> REGS[i] != REGS[j]
  {
  }

  /** Every register the configuration covers is found by its own name, and by no other index. */
  lemma NameFindsItsRegister(i: nat, rve: bool)
    requires i < NrRegs(rve)
    ensures LastIndexOf(REGS, REGS[i], NrRegs(rve)) == Some(i)
  {
    RegNamesDistinct();
  }

  /** In the embedded configuration the names of registers 16 to 31 are not found. */
  lemma UpperNamesMissingUnderRve(i: nat)
    requires 16 <= i < |REGS|
    ensures LastIndexOf(REGS, REGS[i], NrRegs(true)).None?
  {
    RegNamesDistinct();
  }
}
