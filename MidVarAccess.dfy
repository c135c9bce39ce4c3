// Src/VarAccess.c: the generation whose accessors are the same as those of
// C/Slave/Src/VarAccess.c (modelled in SlaveVarAccess) except for the
// start-up pass, which returns at the first failed reload, and the getter,
// which hands out a pointer into the variable table.
module MidVarAccess {
  import opened Base
  import opened Protocol
  import opened VarStore
  import opened SlaveVarAccess

  /**
   * `initVarstruct`: gives every EEPROM variable, in order, the next table
   * entry and the next free EEPROM address and reloads it; returns at the
   * first failed reload with its status, or with `PartitionTableNotSufficient`
   * when the table is full.
   */
  method initVarstruct(va: VarAccess) returns (err: SciError)
    requires va.Valid()
    modifies va
    ensures va.Valid()
    ensures var s := InitUpTo(va.vars, old(va.vals), old(va.table), va.ee.mem, va.ee.readFails,
                              va.at, va.hasReadCb, true, |va.vars|);
            err == s.err && va.table == s.table && va.vals == s.vals
  {
    var addr: uint16 := ADDRESS_OFFSET;
    var eeIdx := 0;
    err := NoError;
    var i := 0;
    while i < |va.vars|
      invariant 0 <= i <= |va.vars| && va.Valid()
      invariant InitUpTo(va.vars, old(va.vals), old(va.table), va.ee.mem, va.ee.readFails,
                         va.at, va.hasReadCb, true, i)
             == InitState(va.table, va.vals, eeIdx, addr, err, false)
    {
      var stop;
      eeIdx, addr, err, stop := InitRound(va, i, eeIdx, addr, err, true, old(va.vals), old(va.table));
      if stop {
        InitStopped(va.vars, old(va.vals), old(va.table), va.ee.mem, va.ee.readFails,
                    va.at, va.hasReadCb, true, i + 1, |va.vars|);
        return;
      }
      i := i + 1;
    }
  }

  /**
   * `getVarPtr` as written: the pointer handed out, as an index into the
   * variable table. Its guard `num > 0 && num` has no upper bound.
   */
  function GetVarPtrAsWritten(vars: seq<Var>, num: int): (r: (SciError, Option<int>))
    ensures r.0 == NoError <==> num > 0
    ensures r.1.Some? <==> r.0 == NoError
    ensures r.1.Some? ==> r.1.value == num - 1
  {
    if num > 0 then (NoError, Some(num - 1)) else (VarNumberInvalid, None)
  }

  /** As written, the pointer for the number one past the table points past its end. */
  lemma GetVarPtrPastEnd(vars: seq<Var>)
    ensures GetVarPtrAsWritten(vars, |vars| + 1) == (NoError, Some(|vars|))
  {
  }

  /** `getVarPtr` with the bound the other accessors check: every pointer it hands out is in the table. */
  function GetVarPtr(vars: seq<Var>, num: int): (r: (SciError, Option<int>))
    ensures r.0 == NoError <==> ValidNum(vars, num)
    ensures r.1.Some? <==> r.0 == NoError
    ensures r.1.Some? ==> 0 <= r.1.value < |vars| && r.1.value == num - 1
  {
    if 0 < num <= |vars| then (NoError, Some(num - 1)) else (VarNumberInvalid, None)
  }

  /** The corrected getter agrees with the one as written wherever that one stays in bounds. */
  lemma GetVarPtrAgrees(vars: seq<Var>, num: int)
    ensures num <= |vars| ==> GetVarPtr(vars, num) == GetVarPtrAsWritten(vars, num)
  {
  }
}
