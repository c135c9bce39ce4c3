// The variable table and EEPROM image shared by the three VarAccess.c
// generations: variable descriptors, the RAM variables they link to (as the
// unsigned 32-bit patterns a `VALUE_MODE_HEX` build moves through its unions), the
// EEPROM partition table, and the EEPROM behind the user's read/write callbacks.
// The word assembly and splitting of the EEPROM functions is specified here
// once, with its round trip; the loops that the generations share verbatim are
// the methods `ReadWords`, `MakeMask` and `WriteWords`.
module VarStore {
  import opened Base
  import opened Protocol
  import opened Bits

  /** `MAX_NUMBER_OF_EEPROM_VARS`: the size of the partition table. */
  const MAX_NUMBER_OF_EEPROM_VARS: nat := 10
  /** `ADDRESS_OFFET`: the EEPROM address given to the first EEPROM variable. */
  const ADDRESS_OFFSET: uint16 := 0
  /** `EEEPROM_ADDRESS_ILLEGAL`: what the address lookup returns for "not found". */
  const EEPROM_ADDRESS_ILLEGAL: uint16 := 0xFFFF

  /** A variable descriptor (`VAR`/`tsSCIVAR`) without its data pointer. */
  datatype Var = Var(vartype: VarType, dtype: DType, hasAction: bool)

  /** One partition table entry: a variable index and its first EEPROM address. */
  datatype Slot = Slot(idx: uint8, address: uint16)

  /** `EEPROM_PARTITION_INFO_DEFAULT`. */
  const SLOT_DEFAULT: Slot := Slot(0, 0)

  /** `EEPROM_ADDRESSTYPE`: bytes per EEPROM address (1, 2 or 4). */
  predicate AddressType(at: nat)
  {
    at == 1 || at == 2 || at == 4
  }

  /** At most `n` words of `at` bytes fit a 32-bit value. */
  predicate WordsFit(n: nat, at: nat)
  {
    (at == 1 && n <= 4) || (at == 2 && n <= 2) || (at == 4 && n <= 1)
  }

  /** The byte offset `i * at` of word `i`. */
  function WordOffset(i: nat, at: nat): (k: nat)
    requires WordsFit(i + 1, at)
    ensures k < 4
  {
    if at == 1 then i else if i == 0 then 0 else 2
  }

  /**
   * What a variable of type `d` holds after the union member of its width is
   * assigned from `v`: the low bytes; reading it back zero-extends.
   */
  function Narrow(v: nat, d: DType): (r: uint32)
    ensures Fits(r, d)
  {
    v % Scale(ByteLength(d))
  }

  /** A value a variable of type `d` can hold. */
  predicate Fits(v: nat, d: DType)
  {
    v < Scale(ByteLength(d))
  }

  /** Narrowing a value that fits changes nothing. */
  lemma NarrowFits(v: nat, d: DType)
    requires Fits(v, d)
    ensures Narrow(v, d) == v
  {
    var w := ByteLength(d);
    if w == 1 {
      assert Narrow(v, d) == v % 0x100;
    } else if w == 2 {
      assert Narrow(v, d) == v % 0x1_0000;
    } else {
      assert Narrow(v, d) == v % 0x1_0000_0000;
    }
  }

  /** A byte shifted into a 32-bit word loses nothing. */
  lemma ShlByte(w: uint32, k: nat)
    requires k < 4 && w < 0x100
    ensures Shl(w, k) == w * Scale(k)
  {
    if k == 1 {
      assert w * Scale(k) == w * 0x100;
    } else if k == 2 {
      assert w * Scale(k) == w * 0x1_0000;
    } else if k == 3 {
      assert w * Scale(k) == w * 0x100_0000;
    }
  }

  /** `ui8_numberOfIncs`: EEPROM addresses a variable occupies. */
  function Incs(d: DType, at: nat): (n: nat)
    requires AddressType(at)
    ensures 1 <= n && WordsFit(n, at)
  {
    if ByteLength(d) / at > 0 then ByteLength(d) / at else 1
  }

  /** `ui16_eepromAddress + i` passed as a `uint16_t`. */
  function WordAddress(addr: uint16, i: nat): uint16
  {
    (addr + i) % 0x1_0000
  }

  /** The word the EEPROM holds at `a`; never written cells read as 0. */
  function Word(mem: map<uint16, uint32>, a: uint16): uint32
  {
    if a in mem then mem[a] else 0
  }

  /** The `n` consecutive words from `addr`. */
  function Words(mem: map<uint16, uint32>, addr: uint16, n: nat): (ws: seq<uint32>)
    ensures |ws| == n
    ensures forall i :: 0 <= i < n ==> ws[i] == Word(mem, WordAddress(addr, i))
  {
    if n == 0 then [] else Words(mem, addr, n - 1) + [Word(mem, WordAddress(addr, n - 1))]
  }

  /** The accumulator of the read loop: word i shifted by `i * at` bytes and ORed in. */
  function Assemble(ws: seq<uint32>, at: nat): nat
    requires WordsFit(|ws|, at)
  {
    if ws == [] then 0
    else Or(Assemble(ws[..|ws| - 1], at), Shl(ws[|ws| - 1], WordOffset(|ws| - 1, at)))
  }

  /** The words the write loop emits: word i is the value's bytes `i * at ..` of `at` bytes. */
  function Split(v: uint32, n: nat, at: nat): (ws: seq<uint32>)
    requires AddressType(at) && WordsFit(n, at)
    ensures |ws| == n
  {
    if n == 0 then [] else Split(v, n - 1, at) + [Shr(v, WordOffset(n - 1, at)) % Scale(at)]
  }

  /** The value a variable of type `d` gets from the EEPROM words at `addr`. */
  function Loaded(mem: map<uint16, uint32>, addr: uint16, d: DType, at: nat): uint32
    requires AddressType(at)
  {
    Narrow(Assemble(Words(mem, addr, Incs(d, at)), at), d)
  }

  /** The EEPROM after the words `ws[lo..]` are written at `addr + lo ..`, highest first. */
  function StoreFrom(mem: map<uint16, uint32>, addr: uint16, ws: seq<uint32>, lo: nat): map<uint16, uint32>
    requires lo <= |ws|
    decreases |ws| - lo
  {
    if lo == |ws| then mem else StoreFrom(mem, addr, ws, lo + 1)[WordAddress(addr, lo) := ws[lo]]
  }

  /** None of the `n` words from `addr` is in `fails`. */
  predicate Clear(fails: set<uint16>, addr: uint16, n: nat)
  {
    forall i :: 0 <= i < n ==> WordAddress(addr, i) !in fails
  }

  /**
   * Where the high-to-low write loop stops: 0 when every word is written,
   * else one more than the highest index whose write fails.
   */
  function FailedFrom(fails: set<uint16>, addr: uint16, n: nat): (lo: nat)
    ensures lo <= n
    ensures lo > 0 ==> WordAddress(addr, lo - 1) in fails
    ensures Clear(fails, WordAddress(addr, lo), n - lo)
  {
    if n == 0 then 0
    else if WordAddress(addr, n - 1) in fails then n
    else
      var lo := FailedFrom(fails, addr, n - 1);
      ClearShift(fails, addr, lo, n);
      lo
  }

  /** `(x % m + y) % m == (x + y) % m`. */
  lemma ModAdd(x: nat, y: nat, m: nat)
    requires m > 0
    ensures (x % m + y) % m == (x + y) % m
  {
    var q, r := x / m, x % m;
    var q2, r2 := (r + y) / m, (r + y) % m;
    assert x + y == m * (q + q2) + r2;
    DivModUnique(x + y, m, q + q2, r2);
  }

  /** Counting from `addr + lo` is counting from `addr` past `lo`. */
  lemma WordAddressAdd(addr: uint16, lo: nat, i: nat)
    ensures WordAddress(WordAddress(addr, lo), i) == WordAddress(addr, lo + i)
  {
    ModAdd(addr + lo, i, 0x1_0000);
  }

  /** The words after the first `lo - 1` that are clear, seen from `addr + lo`. */
  lemma ClearShift(fails: set<uint16>, addr: uint16, lo: nat, n: nat)
    requires lo < n && WordAddress(addr, n - 1) !in fails
    requires Clear(fails, WordAddress(addr, lo), n - 1 - lo)
    ensures Clear(fails, WordAddress(addr, lo), n - lo)
  {
    WordAddressAdd(addr, lo, n - 1 - lo);
  }

  /** One more clear word extends a clear run. */
  lemma ClearMore(fails: set<uint16>, addr: uint16, i: nat)
    requires Clear(fails, addr, i) && WordAddress(addr, i) !in fails
    ensures Clear(fails, addr, i + 1)
  {
  }

  /** The write loop finishes exactly when no word fails. */
  lemma {:induction false} FailedFromZero(fails: set<uint16>, addr: uint16, n: nat)
    ensures FailedFrom(fails, addr, n) == 0 <==> Clear(fails, addr, n)
  {
    if n > 0 && WordAddress(addr, n - 1) !in fails {
      FailedFromZero(fails, addr, n - 1);
    }
  }

  // ---------------------------------------------------------------------------
  // The round trip: words written by the write loop reassemble to the value.
  // The bit-level identities (OR of disjoint words, shifts) are lemmas over
  // natural numbers in the Bits module.

  lemma AssembleOne(w: uint32, at: nat)
    requires AddressType(at)
    ensures Assemble([w], at) == w
  {
    assert [w][..0] == [];
  }

  lemma AssembleTwo(w0: uint32, w1: uint32, at: nat)
    requires at == 1 || at == 2
    ensures Assemble([w0, w1], at) == Or(w0, Shl(w1, at))
  {
    assert [w0, w1][..1] == [w0];
    AssembleOne(w0, at);
  }

  lemma AssembleFour(w0: uint32, w1: uint32, w2: uint32, w3: uint32)
    ensures Assemble([w0, w1, w2, w3], 1) == Or(Or(Or(w0, Shl(w1, 1)), Shl(w2, 2)), Shl(w3, 3))
  {
    assert [w0, w1, w2, w3][..3] == [w0, w1, w2];
    assert [w0, w1, w2][..2] == [w0, w1];
    AssembleTwo(w0, w1, 1);
  }

  lemma BytePairDigits(v: nat)
    requires v < 0x1_0000
    ensures v % 0x100 + (v / 0x100 % 0x100) * 0x100 == v
  {
  }

  lemma HalvesDigits(v: uint32)
    ensures v % 0x1_0000 + (v / 0x1_0000 % 0x1_0000) * 0x1_0000 == v
  {
  }

  lemma ByteDigits(v: uint32)
    ensures v % 0x100 + (v / 0x100 % 0x100) * 0x100 + (v / 0x1_0000 % 0x100) * 0x1_0000
            + (v / 0x100_0000 % 0x100) * 0x100_0000 == v
  {
  }

  /** A variable that takes a single word. */
  lemma SplitAssembleOne(v: uint32, d: DType, at: nat)
    requires AddressType(at) && Fits(v, d) && ByteLength(d) <= at
    ensures Narrow(Assemble(Split(v, 1, at), at), d) == v
  {
    var w := ByteLength(d);
    assert v < Scale(at) by {
      assert v < Scale(w);
      if w < at {
        assert Scale(w) <= Scale(at);
      }
    }
    assert Shr(v, 0) == v;
    assert v % Scale(at) == v;
    assert Split(v, 1, at) == [v];
    AssembleOne(v, at);
    NarrowFits(v, d);
  }

  /** A 16-bit variable in byte-wide EEPROM words. */
  lemma SplitAssembleBytePair(v: uint32)
    requires v < 0x1_0000
    ensures Assemble(Split(v, 2, 1), 1) == v
  {
    var w0, w1 := v % 0x100, v / 0x100 % 0x100;
    assert Split(v, 1, 1) == [w0];
    assert Split(v, 2, 1) == [w0, w1];
    AssembleTwo(w0, w1, 1);
    ShlByte(w1, 1);
    OrBytes(w0, w1, 1);
    BytePairDigits(v);
  }

  /** A 32-bit variable in 16-bit EEPROM words. */
  lemma SplitAssembleHalves(v: uint32)
    ensures Assemble(Split(v, 2, 2), 2) == v
  {
    var w0, w1 := v % 0x1_0000, v / 0x1_0000 % 0x1_0000;
    assert Scale(2) == 0x1_0000 && Shr(v, 0) == v && Shr(v, 2) == v / 0x1_0000;
    assert Split(v, 1, 2) == [w0];
    assert Split(v, 2, 2) == [w0, w1];
    AssembleTwo(w0, w1, 2);
    assert Shl(w1, 2) == w1 * Scale(2) by {
      assert w1 * Scale(2) == w1 * 0x1_0000;
    }
    OrBytes(w0, w1, 2);
    HalvesDigits(v);
  }

  /** Four bytes ORed into place add up. */
  lemma OrFour(w0: nat, w1: nat, w2: nat, w3: nat)
    requires w0 < 0x100 && w1 < 0x100 && w2 < 0x100
    ensures Or(Or(Or(w0, w1 * Scale(1)), w2 * Scale(2)), w3 * Scale(3))
         == w0 + w1 * 0x100 + w2 * 0x1_0000 + w3 * 0x100_0000
  {
    var a1 := w0 + w1 * 0x100;
    OrBytes(w0, w1, 1);
    assert a1 < Scale(2);
    OrBytes(a1, w2, 2);
    var a2 := a1 + w2 * 0x1_0000;
    assert a2 < Scale(3);
    OrBytes(a2, w3, 3);
  }

  /** The four byte words the write loop emits for a 32-bit value. */
  lemma SplitBytes(v: uint32)
    ensures Split(v, 4, 1) == [v % 0x100, v / 0x100 % 0x100, v / 0x1_0000 % 0x100, v / 0x100_0000 % 0x100]
  {
    var w0, w1, w2, w3 := v % 0x100, v / 0x100 % 0x100, v / 0x1_0000 % 0x100, v / 0x100_0000 % 0x100;
    assert Split(v, 1, 1) == [w0];
    assert Split(v, 2, 1) == [w0, w1];
    assert Split(v, 3, 1) == [w0, w1, w2];
  }

  /** A 32-bit variable in byte-wide EEPROM words. */
  lemma SplitAssembleBytes(v: uint32)
    ensures Assemble(Split(v, 4, 1), 1) == v
  {
    var w0, w1, w2, w3 := v % 0x100, v / 0x100 % 0x100, v / 0x1_0000 % 0x100, v / 0x100_0000 % 0x100;
    SplitBytes(v);
    AssembleFour(w0, w1, w2, w3);
    ShlByte(w1, 1);
    ShlByte(w2, 2);
    ShlByte(w3, 3);
    OrFour(w0, w1, w2, w3);
    ByteDigits(v);
  }

  /** `ui8_numberOfIncs` for each address type. */
  lemma IncsCases(d: DType, at: nat)
    requires AddressType(at)
    ensures ByteLength(d) <= at ==> Incs(d, at) == 1
    ensures at == 1 && ByteLength(d) == 2 ==> Incs(d, at) == 2
    ensures at == 1 && ByteLength(d) == 4 ==> Incs(d, at) == 4
    ensures at == 2 && ByteLength(d) == 4 ==> Incs(d, at) == 2
  {
    if at == 1 {
    } else if at == 2 {
    } else {
    }
  }

  /** Splitting a value into words and assembling them gives the value back. */
  lemma SplitAssemble(v: uint32, d: DType, at: nat)
    requires AddressType(at) && Fits(v, d)
    ensures Narrow(Assemble(Split(v, Incs(d, at), at), at), d) == v
  {
    IncsCases(d, at);
    var width := ByteLength(d);
    if width <= at {
      SplitAssembleOne(v, d, at);
    } else {
      var n := Incs(d, at);
      var x := Assemble(Split(v, n, at), at);
      if at == 2 {
        assert n == 2;
        SplitAssembleHalves(v);
        assert x == v;
      } else if width == 2 {
        assert at == 1 && n == 2;
        SplitAssembleBytePair(v);
        assert x == v;
      } else {
        assert at == 1 && n == 4;
        SplitAssembleBytes(v);
        assert x == v;
      }
      NarrowFits(x, d);
    }
  }

  /** Word `i` of a store at `addr` reads back as `ws[i]`. */
  lemma {:induction false} StoreFromAt(mem: map<uint16, uint32>, addr: uint16, ws: seq<uint32>, lo: nat, i: nat)
    requires lo <= i < |ws| <= 0x1_0000
    ensures Word(StoreFrom(mem, addr, ws, lo), WordAddress(addr, i)) == ws[i]
    decreases |ws| - lo
  {
    if lo < i {
      StoreFromAt(mem, addr, ws, lo + 1, i);
      assert WordAddress(addr, lo) != WordAddress(addr, i);
    }
  }

  /** A store changes no cell outside the words it writes. */
  lemma {:induction false} StoreFromElsewhere(mem: map<uint16, uint32>, addr: uint16, ws: seq<uint32>, lo: nat, a: uint16)
    requires lo <= |ws|
    requires forall i :: lo <= i < |ws| ==> WordAddress(addr, i) != a
    ensures Word(StoreFrom(mem, addr, ws, lo), a) == Word(mem, a)
    decreases |ws| - lo
  {
    if lo < |ws| {
      StoreFromElsewhere(mem, addr, ws, lo + 1, a);
    }
  }

  /** Reading back a complete store gives the stored words. */
  lemma StoreThenWords(mem: map<uint16, uint32>, addr: uint16, ws: seq<uint32>)
    requires |ws| <= 0x1_0000
    ensures Words(StoreFrom(mem, addr, ws, 0), addr, |ws|) == ws
  {
    forall i | 0 <= i < |ws|
      ensures Words(StoreFrom(mem, addr, ws, 0), addr, |ws|)[i] == ws[i]
    {
      StoreFromAt(mem, addr, ws, 0, i);
    }
  }

  /**
   * Write-then-read against a faithful EEPROM: the words written for a value
   * of type `d` load back as that value.
   */
  lemma EepromRoundTrip(mem: map<uint16, uint32>, addr: uint16, v: uint32, d: DType, at: nat)
    requires AddressType(at) && Fits(v, d)
    ensures Loaded(StoreFrom(mem, addr, Split(v, Incs(d, at), at), 0), addr, d, at) == v
  {
    StoreThenWords(mem, addr, Split(v, Incs(d, at), at));
    SplitAssemble(v, d, at);
  }

  // ---------------------------------------------------------------------------
  // The partition table lookup.

  /** The address of the first of the table entries from `k` whose index is `num - 1`. */
  function LookupFrom(table: seq<Slot>, num: int, k: nat): (a: uint16)
    decreases |table| - k
  {
    if k >= |table| then EEPROM_ADDRESS_ILLEGAL
    else if table[k].idx == num - 1 then table[k].address
    else LookupFrom(table, num, k + 1)
  }

  /** The lookup of the newer generations: the first match in the whole table. */
  function Lookup(table: seq<Slot>, num: int): uint16
  {
    LookupFrom(table, num, 0)
  }

  /** The first entry for `num` decides the lookup. */
  lemma {:induction false} LookupFirst(table: seq<Slot>, num: int, k: nat, from: nat)
    requires from <= k < |table| && table[k].idx == num - 1
    requires forall j :: from <= j < k ==> table[j].idx != num - 1
    ensures LookupFrom(table, num, from) == table[k].address
    decreases k - from
  {
    if from < k {
      LookupFirst(table, num, k, from + 1);
    }
  }

  /** Without an entry for `num` the lookup is `EEEPROM_ADDRESS_ILLEGAL`. */
  lemma {:induction false} LookupMissing(table: seq<Slot>, num: int, from: nat)
    requires forall j :: from <= j < |table| ==> table[j].idx != num - 1
    ensures LookupFrom(table, num, from) == EEPROM_ADDRESS_ILLEGAL
    decreases |table| - from
  {
    if from < |table| {
      LookupMissing(table, num, from + 1);
    }
  }

  // ---------------------------------------------------------------------------
  // The EEPROM behind the callbacks, and the variable table.

  /**
   * The EEPROM reached through `readEEPROM_cb`/`writeEEPROM_cb`: a word store
   * with the addresses at which a read or a write reports failure.
   */
  class Eeprom {
    var mem: map<uint16, uint32>
    var readFails: set<uint16>
    var writeFails: set<uint16>

    constructor (mem0: map<uint16, uint32>, readFails0: set<uint16>, writeFails0: set<uint16>)
      ensures mem == mem0 && readFails == readFails0 && writeFails == writeFails0
    {
      mem := mem0;
      readFails := readFails0;
      writeFails := writeFails0;
    }

    /** The read callback: the stored word unless the address fails. */
    method Read(a: uint16) returns (ok: bool, w: uint32)
      ensures ok == (a !in readFails)
      ensures ok ==> w == Word(mem, a)
    {
      ok := a !in readFails;
      w := if ok then Word(mem, a) else 0;
    }

    /** The write callback: stores the word unless the address fails. */
    method Write(w: uint32, a: uint16) returns (ok: bool)
      modifies this
      ensures ok == (a !in writeFails)
      ensures readFails == old(readFails) && writeFails == old(writeFails)
      ensures mem == if ok then old(mem)[a := w] else old(mem)
    {
      ok := a !in writeFails;
      if ok {
        mem := mem[a := w];
      }
    }
  }

  /**
   * `VAR_ACCESS`: the variable descriptors, the RAM variables they link to,
   * the partition table, which callbacks are present, and the address type.
   */
  class VarAccess {
    const vars: seq<Var>
    var vals: seq<uint32>
    var table: seq<Slot>
    const hasReadCb: bool
    const hasWriteCb: bool
    const at: nat
    const ee: Eeprom

    /** Every variable holds a value of its width; the table has its fixed size. */
    ghost predicate Valid()
      reads this
    {
      |vals| == |vars| < 0x100 && |table| == MAX_NUMBER_OF_EEPROM_VARS && AddressType(at) &&
      forall i :: 0 <= i < |vals| ==> Fits(vals[i], vars[i].dtype)
    }

    /** A `VAR_ACCESS` with a default partition table. */
    constructor (vars0: seq<Var>, vals0: seq<uint32>, readCb: bool, writeCb: bool, at0: nat, ee0: Eeprom)
      requires |vals0| == |vars0| < 0x100 && AddressType(at0)
      requires forall i :: 0 <= i < |vals0| ==> Fits(vals0[i], vars0[i].dtype)
      ensures Valid()
      ensures vars == vars0 && vals == vals0 && hasReadCb == readCb && hasWriteCb == writeCb
      ensures at == at0 && ee == ee0
      ensures table == seq(MAX_NUMBER_OF_EEPROM_VARS, _ => SLOT_DEFAULT)
    {
      vars := vars0;
      vals := vals0;
      table := seq(MAX_NUMBER_OF_EEPROM_VARS, _ => SLOT_DEFAULT);
      hasReadCb := readCb;
      hasWriteCb := writeCb;
      at := at0;
      ee := ee0;
    }
  }

  /** Storing a value of its width in one variable keeps every variable within its width. */
  lemma FitsAfterSet(vars: seq<Var>, vals: seq<uint32>, j: nat, x: uint32)
    requires |vals| == |vars| && j < |vals| && Fits(x, vars[j].dtype)
    requires forall i :: 0 <= i < |vals| ==> Fits(vals[i], vars[i].dtype)
    ensures forall i :: 0 <= i < |vals| ==> Fits(vals[j := x][i], vars[i].dtype)
  {
  }

  // ---------------------------------------------------------------------------
  // Reading and assigning a variable through its number.

  /** A variable number (1-based) that names an entry of the table. */
  predicate ValidNum(vars: seq<Var>, num: int)
  {
    0 < num <= |vars|
  }

  /** `ReadValFromVarStruct`: the status and, on success, the variable's bit pattern. */
  function ValueOf(vars: seq<Var>, vals: seq<uint32>, num: int): (r: (SciError, Option<uint32>))
    requires |vals| == |vars|
    ensures r.0 == NoError || r.0 == VarNumberInvalid
    ensures r.0 == NoError <==> ValidNum(vars, num)
    ensures r.1.Some? <==> r.0 == NoError
  {
    if ValidNum(vars, num) then (NoError, Some(vals[num - 1])) else (VarNumberInvalid, None)
  }

  /** `WriteValToVarStruct`: the status and the RAM image after assigning `v`. */
  function Assigned(vars: seq<Var>, vals: seq<uint32>, num: int, v: uint32): (r: (SciError, seq<uint32>))
    requires |vals| == |vars|
    ensures r.0 == NoError || r.0 == VarNumberInvalid
    ensures r.0 == NoError <==> ValidNum(vars, num)
    ensures |r.1| == |vals|
    ensures forall i :: 0 <= i < |vals| && i != num - 1 ==> r.1[i] == vals[i]
  {
    if ValidNum(vars, num) then (NoError, vals[num - 1 := Narrow(v, vars[num - 1].dtype)])
    else (VarNumberInvalid, vals)
  }

  /**
   * Reading a variable after assigning it gives the assigned value cut to the
   * variable's width, and exactly the value when it fits.
   */
  lemma AssignThenRead(vars: seq<Var>, vals: seq<uint32>, num: int, v: uint32)
    requires |vals| == |vars| && ValidNum(vars, num)
    ensures ValueOf(vars, Assigned(vars, vals, num, v).1, num).1 == Some(Narrow(v, vars[num - 1].dtype))
    ensures Fits(v, vars[num - 1].dtype) ==> ValueOf(vars, Assigned(vars, vals, num, v).1, num).1 == Some(v)
  {
    if Fits(v, vars[num - 1].dtype) {
      NarrowFits(v, vars[num - 1].dtype);
    }
  }

  /**
   * Assigning a variable the value it was read as restores the RAM image: the
   * roll-back after a failed EEPROM write undoes the assignment.
   */
  lemma AssignReadBack(vars: seq<Var>, vals: seq<uint32>, num: int, v: uint32)
    requires |vals| == |vars| && ValidNum(vars, num) && Fits(vals[num - 1], vars[num - 1].dtype)
    ensures Assigned(vars, Assigned(vars, vals, num, v).1, num, ValueOf(vars, vals, num).1.value).1 == vals
  {
    NarrowFits(vals[num - 1], vars[num - 1].dtype);
    var after := Assigned(vars, vals, num, v).1;
    assert after[num - 1 := vals[num - 1]] == vals;
  }

  // ---------------------------------------------------------------------------
  // Reload and save of one variable, as the newer generations do them.

  /**
   * `ReadEEPROMValueIntoVarStruct` for variable `j` whose lookup gave `addr`:
   * its status and the RAM image afterwards.
   */
  function Reload(vars: seq<Var>, vals: seq<uint32>, j: nat, addr: uint16, mem: map<uint16, uint32>,
                  fails: set<uint16>, at: nat, hasCb: bool): (r: (SciError, seq<uint32>))
    requires j < |vars| == |vals| && AddressType(at)
    ensures |r.1| == |vals|
    ensures r.0 == NoError || r.0 == AddressUnknown || r.0 == ReadoutFailed
    ensures r.0 != NoError ==> r.1 == vals
    ensures forall i :: 0 <= i < |vals| && i != j ==> r.1[i] == vals[i]
    ensures Fits(vals[j], vars[j].dtype) ==> Fits(r.1[j], vars[j].dtype)
  {
    var v := vars[j];
    if v.vartype != Eeprom || !hasCb then (NoError, vals)
    else if addr == EEPROM_ADDRESS_ILLEGAL then (AddressUnknown, vals)
    else if !Clear(fails, addr, Incs(v.dtype, at)) then (ReadoutFailed, vals)
    else (NoError, vals[j := Loaded(mem, addr, v.dtype, at)])
  }

  /**
   * `WriteEEPROMwithValueFromVarStruct` for variable `j` whose lookup gave
   * `addr`: its status and the EEPROM contents afterwards.
   */
  function Save(vars: seq<Var>, vals: seq<uint32>, j: nat, addr: uint16, mem: map<uint16, uint32>,
                fails: set<uint16>, at: nat, hasCb: bool): (r: (SciError, map<uint16, uint32>))
    requires j < |vars| == |vals| && AddressType(at)
    ensures r.0 == NoError || r.0 == AddressUnknown || r.0 == WriteFailed
    ensures r.0 == AddressUnknown ==> r.1 == mem
  {
    var v := vars[j];
    if v.vartype != Eeprom || !hasCb then (NoError, mem)
    else if addr == EEPROM_ADDRESS_ILLEGAL then (AddressUnknown, mem)
    else
      var ws := Split(vals[j], Incs(v.dtype, at), at);
      var lo := FailedFrom(fails, addr, |ws|);
      (if lo == 0 then NoError else WriteFailed, StoreFrom(mem, addr, ws, lo))
  }

  /**
   * A successful save followed by a successful reload leaves the variable as
   * it was: the EEPROM holds exactly the variable's value.
   */
  lemma SaveThenReload(vars: seq<Var>, vals: seq<uint32>, j: nat, addr: uint16, mem: map<uint16, uint32>,
                       wfails: set<uint16>, rfails: set<uint16>, at: nat)
    requires j < |vars| == |vals| && AddressType(at) && Fits(vals[j], vars[j].dtype)
    requires Save(vars, vals, j, addr, mem, wfails, at, true).0 == NoError
    requires Reload(vars, vals, j, addr, Save(vars, vals, j, addr, mem, wfails, at, true).1, rfails, at, true).0 == NoError
    ensures Reload(vars, vals, j, addr, Save(vars, vals, j, addr, mem, wfails, at, true).1, rfails, at, true).1 == vals
  {
    var v := vars[j];
    if v.vartype == Eeprom && addr != EEPROM_ADDRESS_ILLEGAL {
      var n := Incs(v.dtype, at);
      var ws := Split(vals[j], n, at);
      var lo := FailedFrom(wfails, addr, n);
      var saved := Save(vars, vals, j, addr, mem, wfails, at, true);
      assert saved == (if lo == 0 then NoError else WriteFailed, StoreFrom(mem, addr, ws, lo));
      assert lo == 0;
      var x := Loaded(saved.1, addr, v.dtype, at);
      assert x == vals[j] by {
        EepromRoundTrip(mem, addr, vals[j], v.dtype, at);
      }
      var reloaded := Reload(vars, vals, j, addr, saved.1, rfails, at, true);
      assert reloaded.1 == vals[j := x];
      assert vals[j := vals[j]] == vals;
    }
  }

  // ---------------------------------------------------------------------------
  // Building the partition table at start-up.

  /** `EEPROM_PARTITION_INFO_DEFAULT` in every entry. */
  function DefaultTable(): (t: seq<Slot>)
    ensures |t| == MAX_NUMBER_OF_EEPROM_VARS
    ensures forall k :: 0 <= k < |t| ==> t[k] == SLOT_DEFAULT
  {
    seq(MAX_NUMBER_OF_EEPROM_VARS, _ => SLOT_DEFAULT)
  }

  /** The number of EEPROM variables among the first `i`. */
  function EepromCount(vars: seq<Var>, i: nat): (c: nat)
    requires i <= |vars|
    ensures c <= i
  {
    if i == 0 then 0 else EepromCount(vars, i - 1) + (if vars[i - 1].vartype == Eeprom then 1 else 0)
  }

  /**
   * The initialisation loop's variables: the table, the RAM image, the next free
   * table entry, the next free EEPROM address, the status, and whether the
   * loop has returned.
   */
  datatype InitState = InitState(table: seq<Slot>, vals: seq<uint32>, count: nat, next: uint16,
                                 err: SciError, stopped: bool)

  /** The loop body for variable index `j`. */
  function InitStep(vars: seq<Var>, mem: map<uint16, uint32>, fails: set<uint16>, at: nat, hasCb: bool,
                    stopOnError: bool, s: InitState, j: nat): (s': InitState)
    requires j < |vars| == |s.vals| < 0x100 && |s.table| == MAX_NUMBER_OF_EEPROM_VARS
    requires s.count <= MAX_NUMBER_OF_EEPROM_VARS && AddressType(at)
    ensures |s'.table| == MAX_NUMBER_OF_EEPROM_VARS && |s'.vals| == |vars| && s'.count <= MAX_NUMBER_OF_EEPROM_VARS
  {
    if s.stopped || vars[j].vartype != Eeprom then s
    else if s.count == MAX_NUMBER_OF_EEPROM_VARS then s.(err := PartitionTableNotSufficient, stopped := true)
    else
      var t := s.table[s.count := Slot(j, s.next)];
      var r := Reload(vars, s.vals, j, Lookup(t, j + 1), mem, fails, at, hasCb);
      if stopOnError && r.0 != NoError then InitState(t, r.1, s.count + 1, s.next, r.0, true)
      else InitState(t, r.1, s.count + 1, WordAddress(s.next, Incs(vars[j].dtype, at)), r.0, false)
  }

  /**
   * The state after the first `i` variables: each EEPROM variable gets the next
   * table entry and the next free address and is reloaded from the EEPROM; an
   * EEPROM variable that finds the table full ends the loop with
   * `PartitionTableNotSufficient`. With `stopOnError` a failed reload also ends
   * it; without, the status is that of the last reload.
   */
  function InitUpTo(vars: seq<Var>, vals0: seq<uint32>, table0: seq<Slot>, mem: map<uint16, uint32>,
                    fails: set<uint16>, at: nat, hasCb: bool, stopOnError: bool, i: nat): (s: InitState)
    requires i <= |vars| == |vals0| < 0x100 && |table0| == MAX_NUMBER_OF_EEPROM_VARS && AddressType(at)
    ensures |s.table| == MAX_NUMBER_OF_EEPROM_VARS && |s.vals| == |vars| && s.count <= MAX_NUMBER_OF_EEPROM_VARS
  {
    if i == 0 then InitState(table0, vals0, 0, ADDRESS_OFFSET, NoError, false)
    else InitStep(vars, mem, fails, at, hasCb, stopOnError,
                  InitUpTo(vars, vals0, table0, mem, fails, at, hasCb, stopOnError, i - 1), i - 1)
  }

  /**
   * The first EEPROM address after the variables among the first `i` that are
   * EEPROM variables, packed from `ADDRESS_OFFET` in variable order.
   */
  function EepromEnd(vars: seq<Var>, at: nat, i: nat): uint16
    requires i <= |vars| && AddressType(at)
  {
    if i == 0 then ADDRESS_OFFSET
    else if vars[i - 1].vartype == Eeprom then WordAddress(EepromEnd(vars, at, i - 1), Incs(vars[i - 1].dtype, at))
    else EepromEnd(vars, at, i - 1)
  }

  /**
   * The table the loop builds: entry k names the k-th EEPROM variable, the
   * entries are in increasing variable order, each starts where the words of
   * the EEPROM variables before it end, and the unused entries are untouched.
   */
  predicate TableLaidOut(vars: seq<Var>, table0: seq<Slot>, at: nat, s: InitState, i: nat)
    requires i <= |vars| && |table0| == |s.table| == MAX_NUMBER_OF_EEPROM_VARS && s.count <= MAX_NUMBER_OF_EEPROM_VARS
    requires AddressType(at)
  {
    (forall k :: 0 <= k < s.count ==>
       s.table[k].idx < i && vars[s.table[k].idx].vartype == Eeprom &&
       s.table[k].address == EepromEnd(vars, at, s.table[k].idx)) &&
    (forall k, l :: 0 <= k < l < s.count ==> s.table[k].idx < s.table[l].idx) &&
    (forall k :: s.count <= k < MAX_NUMBER_OF_EEPROM_VARS ==> s.table[k] == table0[k]) &&
    (!s.stopped ==> s.next == EepromEnd(vars, at, i))
  }

  /** A step that enters variable `j` in the next free entry keeps the table laid out. */
  lemma LayOutEnter(vars: seq<Var>, table0: seq<Slot>, at: nat, s: InitState, s': InitState, j: nat)
    requires j < |vars| < 0x100 && |s.table| == |s'.table| == |table0| == MAX_NUMBER_OF_EEPROM_VARS && AddressType(at)
    requires s.count < MAX_NUMBER_OF_EEPROM_VARS && !s.stopped && vars[j].vartype == Eeprom
    requires TableLaidOut(vars, table0, at, s, j)
    requires s'.table == s.table[s.count := Slot(j, s.next)] && s'.count == s.count + 1
    requires !s'.stopped ==> s'.next == WordAddress(s.next, Incs(vars[j].dtype, at))
    ensures TableLaidOut(vars, table0, at, s', j + 1)
  {
    assert forall k :: 0 <= k < s.count ==> s'.table[k] == s.table[k];
    assert s'.table[s.count] == Slot(j, EepromEnd(vars, at, j));
  }

  /** A step that enters nothing keeps the table laid out. */
  lemma LayOutKeep(vars: seq<Var>, table0: seq<Slot>, at: nat, s: InitState, s': InitState, j: nat)
    requires j < |vars| && |s.table| == |table0| == MAX_NUMBER_OF_EEPROM_VARS && AddressType(at)
    requires s.count <= MAX_NUMBER_OF_EEPROM_VARS
    requires TableLaidOut(vars, table0, at, s, j)
    requires s'.table == s.table && s'.count == s.count && s'.next == s.next && (s.stopped ==> s'.stopped)
    requires !s'.stopped ==> vars[j].vartype != Eeprom
    ensures TableLaidOut(vars, table0, at, s', j + 1)
  {
  }

  /** The loop body keeps the table laid out and counts the EEPROM variables it enters. */
  lemma LayOutStep(vars: seq<Var>, table0: seq<Slot>, mem: map<uint16, uint32>, fails: set<uint16>, at: nat,
                   hasCb: bool, stopOnError: bool, s: InitState, j: nat)
    requires j < |vars| == |s.vals| < 0x100 && |s.table| == |table0| == MAX_NUMBER_OF_EEPROM_VARS
    requires s.count <= MAX_NUMBER_OF_EEPROM_VARS && AddressType(at)
    requires TableLaidOut(vars, table0, at, s, j)
    ensures TableLaidOut(vars, table0, at, InitStep(vars, mem, fails, at, hasCb, stopOnError, s, j), j + 1)
  {
    var s' := InitStep(vars, mem, fails, at, hasCb, stopOnError, s, j);
    if !s.stopped && vars[j].vartype == Eeprom && s.count < MAX_NUMBER_OF_EEPROM_VARS {
      LayOutEnter(vars, table0, at, s, s', j);
    } else {
      LayOutKeep(vars, table0, at, s, s', j);
    }
  }

  /** Every prefix of the loop leaves the table laid out. */
  lemma {:induction false} InitLaysOutTable(vars: seq<Var>, vals0: seq<uint32>, table0: seq<Slot>, mem: map<uint16, uint32>,
                                           fails: set<uint16>, at: nat, hasCb: bool, stopOnError: bool, i: nat)
    requires i <= |vars| == |vals0| < 0x100 && |table0| == MAX_NUMBER_OF_EEPROM_VARS && AddressType(at)
    ensures TableLaidOut(vars, table0, at, InitUpTo(vars, vals0, table0, mem, fails, at, hasCb, stopOnError, i), i)
  {
    if i > 0 {
      InitLaysOutTable(vars, vals0, table0, mem, fails, at, hasCb, stopOnError, i - 1);
      var s := InitUpTo(vars, vals0, table0, mem, fails, at, hasCb, stopOnError, i - 1);
      LayOutStep(vars, table0, mem, fails, at, hasCb, stopOnError, s, i - 1);
    }
  }

  /** Until the loop returns, every EEPROM variable seen has a table entry. */
  lemma {:induction false} InitCounts(vars: seq<Var>, vals0: seq<uint32>, table0: seq<Slot>, mem: map<uint16, uint32>,
                                      fails: set<uint16>, at: nat, hasCb: bool, stopOnError: bool, i: nat)
    requires i <= |vars| == |vals0| < 0x100 && |table0| == MAX_NUMBER_OF_EEPROM_VARS && AddressType(at)
    ensures !InitUpTo(vars, vals0, table0, mem, fails, at, hasCb, stopOnError, i).stopped ==>
              InitUpTo(vars, vals0, table0, mem, fails, at, hasCb, stopOnError, i).count == EepromCount(vars, i)
  {
    if i > 0 {
      InitCounts(vars, vals0, table0, mem, fails, at, hasCb, stopOnError, i - 1);
      var s := InitUpTo(vars, vals0, table0, mem, fails, at, hasCb, stopOnError, i - 1);
      StepCounts(vars, mem, fails, at, hasCb, stopOnError, s, i - 1);
    }
  }

  /** The loop body enters exactly the EEPROM variables, until it returns. */
  lemma StepCounts(vars: seq<Var>, mem: map<uint16, uint32>, fails: set<uint16>, at: nat, hasCb: bool,
                   stopOnError: bool, s: InitState, j: nat)
    requires j < |vars| == |s.vals| < 0x100 && |s.table| == MAX_NUMBER_OF_EEPROM_VARS
    requires s.count <= MAX_NUMBER_OF_EEPROM_VARS && AddressType(at)
    ensures !InitStep(vars, mem, fails, at, hasCb, stopOnError, s, j).stopped ==>
              !s.stopped && InitStep(vars, mem, fails, at, hasCb, stopOnError, s, j).count
              == s.count + (if vars[j].vartype == Eeprom then 1 else 0)
  {
  }

  /**
   * Without stopping at read errors, the loop body returns exactly when an
   * EEPROM variable finds the table full, and only then with
   * `PartitionTableNotSufficient`.
   */
  lemma StepStops(vars: seq<Var>, mem: map<uint16, uint32>, fails: set<uint16>, at: nat, hasCb: bool,
                  s: InitState, j: nat)
    requires j < |vars| == |s.vals| < 0x100 && |s.table| == MAX_NUMBER_OF_EEPROM_VARS
    requires s.count <= MAX_NUMBER_OF_EEPROM_VARS && AddressType(at) && !s.stopped && s.err != PartitionTableNotSufficient
    ensures InitStep(vars, mem, fails, at, hasCb, false, s, j).stopped
        <==> vars[j].vartype == Eeprom && s.count == MAX_NUMBER_OF_EEPROM_VARS
    ensures InitStep(vars, mem, fails, at, hasCb, false, s, j).stopped
        <==> InitStep(vars, mem, fails, at, hasCb, false, s, j).err == PartitionTableNotSufficient
  {
  }

  /** The loop passes over a variable that is not an EEPROM variable. */
  lemma InitSkips(vars: seq<Var>, vals0: seq<uint32>, table0: seq<Slot>, mem: map<uint16, uint32>,
                  fails: set<uint16>, at: nat, hasCb: bool, stopOnError: bool, i: nat)
    requires i < |vars| == |vals0| < 0x100 && |table0| == MAX_NUMBER_OF_EEPROM_VARS && AddressType(at)
    requires vars[i].vartype != Eeprom
    ensures InitUpTo(vars, vals0, table0, mem, fails, at, hasCb, stopOnError, i + 1)
         == InitUpTo(vars, vals0, table0, mem, fails, at, hasCb, stopOnError, i)
  {
  }

  /** The loop's state after entering EEPROM variable `i` with reload result `r`. */
  lemma InitEnters(vars: seq<Var>, vals0: seq<uint32>, table0: seq<Slot>, mem: map<uint16, uint32>,
                   fails: set<uint16>, at: nat, hasCb: bool, stopOnError: bool, i: nat,
                   t: seq<Slot>, r: (SciError, seq<uint32>))
    requires i < |vars| == |vals0| < 0x100 && |table0| == MAX_NUMBER_OF_EEPROM_VARS && AddressType(at)
    requires vars[i].vartype == Eeprom
    requires var s := InitUpTo(vars, vals0, table0, mem, fails, at, hasCb, stopOnError, i);
             !s.stopped && s.count < MAX_NUMBER_OF_EEPROM_VARS && t == s.table[s.count := Slot(i, s.next)] &&
             r == Reload(vars, s.vals, i, Lookup(t, i + 1), mem, fails, at, hasCb)
    ensures var s := InitUpTo(vars, vals0, table0, mem, fails, at, hasCb, stopOnError, i);
            InitUpTo(vars, vals0, table0, mem, fails, at, hasCb, stopOnError, i + 1)
            == if stopOnError && r.0 != NoError then InitState(t, r.1, s.count + 1, s.next, r.0, true)
               else InitState(t, r.1, s.count + 1, WordAddress(s.next, Incs(vars[i].dtype, at)), r.0, false)
  {
  }

  /** An EEPROM variable that finds the table full ends the loop. */
  lemma InitFull(vars: seq<Var>, vals0: seq<uint32>, table0: seq<Slot>, mem: map<uint16, uint32>,
                 fails: set<uint16>, at: nat, hasCb: bool, stopOnError: bool, i: nat)
    requires i < |vars| == |vals0| < 0x100 && |table0| == MAX_NUMBER_OF_EEPROM_VARS && AddressType(at)
    requires vars[i].vartype == Eeprom
    requires var s := InitUpTo(vars, vals0, table0, mem, fails, at, hasCb, stopOnError, i);
             !s.stopped && s.count == MAX_NUMBER_OF_EEPROM_VARS
    ensures var s := InitUpTo(vars, vals0, table0, mem, fails, at, hasCb, stopOnError, i);
            InitUpTo(vars, vals0, table0, mem, fails, at, hasCb, stopOnError, |vars|)
            == s.(err := PartitionTableNotSufficient, stopped := true)
  {
    InitStopped(vars, vals0, table0, mem, fails, at, hasCb, stopOnError, i + 1, |vars|);
  }

  /** Once the loop has returned, later variables change nothing. */
  lemma {:induction false} InitStopped(vars: seq<Var>, vals0: seq<uint32>, table0: seq<Slot>, mem: map<uint16, uint32>,
                                       fails: set<uint16>, at: nat, hasCb: bool, stopOnError: bool, i: nat, j: nat)
    requires i <= j <= |vars| == |vals0| < 0x100 && |table0| == MAX_NUMBER_OF_EEPROM_VARS && AddressType(at)
    requires InitUpTo(vars, vals0, table0, mem, fails, at, hasCb, stopOnError, i).stopped
    ensures InitUpTo(vars, vals0, table0, mem, fails, at, hasCb, stopOnError, j)
         == InitUpTo(vars, vals0, table0, mem, fails, at, hasCb, stopOnError, i)
    decreases j - i
  {
    if i < j {
      InitStopped(vars, vals0, table0, mem, fails, at, hasCb, stopOnError, i, j - 1);
    }
  }

  /**
   * Without stopping at read errors, the loop reports `PartitionTableNotSufficient`
   * exactly when there are more EEPROM variables than table entries.
   */
  lemma {:induction false} InitOverflow(vars: seq<Var>, vals0: seq<uint32>, table0: seq<Slot>, mem: map<uint16, uint32>,
                                        fails: set<uint16>, at: nat, hasCb: bool, i: nat)
    requires i <= |vars| == |vals0| < 0x100 && |table0| == MAX_NUMBER_OF_EEPROM_VARS && AddressType(at)
    ensures InitUpTo(vars, vals0, table0, mem, fails, at, hasCb, false, i).stopped
        <==> EepromCount(vars, i) > MAX_NUMBER_OF_EEPROM_VARS
    ensures InitUpTo(vars, vals0, table0, mem, fails, at, hasCb, false, i).stopped
        <==> InitUpTo(vars, vals0, table0, mem, fails, at, hasCb, false, i).err == PartitionTableNotSufficient
  {
    if i > 0 {
      InitOverflow(vars, vals0, table0, mem, fails, at, hasCb, i - 1);
      InitCounts(vars, vals0, table0, mem, fails, at, hasCb, false, i - 1);
      var s := InitUpTo(vars, vals0, table0, mem, fails, at, hasCb, false, i - 1);
      if s.stopped {
        assert InitUpTo(vars, vals0, table0, mem, fails, at, hasCb, false, i) == s;
      } else {
        StepStops(vars, mem, fails, at, hasCb, s, i - 1);
      }
    }
  }

  /**
   * After the loop (from the default table), the address lookup finds for each
   * entered variable the address the table gives it: no other entry shadows it.
   */
  lemma InitLookup(vars: seq<Var>, vals0: seq<uint32>, mem: map<uint16, uint32>,
                   fails: set<uint16>, at: nat, hasCb: bool, stopOnError: bool, i: nat, k: nat)
    requires i <= |vars| == |vals0| < 0x100 && AddressType(at)
    requires k < InitUpTo(vars, vals0, DefaultTable(), mem, fails, at, hasCb, stopOnError, i).count
    ensures var s := InitUpTo(vars, vals0, DefaultTable(), mem, fails, at, hasCb, stopOnError, i);
            Lookup(s.table, s.table[k].idx + 1) == s.table[k].address
  {
    var s := InitUpTo(vars, vals0, DefaultTable(), mem, fails, at, hasCb, stopOnError, i);
    InitLaysOutTable(vars, vals0, DefaultTable(), mem, fails, at, hasCb, stopOnError, i);
    LookupFirst(s.table, s.table[k].idx + 1, k, 0);
  }

  // ---------------------------------------------------------------------------
  // The loops the generations share.

  /**
   * The read loop: reads word i from `addr + i`, shifts it by `i * at` bytes and
   * ORs it into the accumulator, giving up at the first failed read.
   */
  method ReadWords(ee: Eeprom, addr: uint16, n: nat, at: nat) returns (ok: bool, acc: nat)
    requires WordsFit(n, at)
    ensures ok == Clear(ee.readFails, addr, n)
    ensures ok ==> acc == Assemble(Words(ee.mem, addr, n), at)
  {
    acc := 0;
    var i := 0;
    while i < n
      invariant 0 <= i <= n
      invariant Clear(ee.readFails, addr, i)
      invariant acc == Assemble(Words(ee.mem, addr, i), at)
    {
      var good, w := ee.Read(WordAddress(addr, i));
      if !good {
        return false, acc;
      }
      ClearMore(ee.readFails, addr, i);
      AssembleStep(ee.mem, addr, i, at);
      acc := Or(acc, Shl(w, WordOffset(i, at)));
      i := i + 1;
    }
    ok := true;
  }

  /** One more word read extends the accumulator. */
  lemma AssembleStep(mem: map<uint16, uint32>, addr: uint16, i: nat, at: nat)
    requires WordsFit(i + 1, at)
    ensures Assemble(Words(mem, addr, i + 1), at)
         == Or(Assemble(Words(mem, addr, i), at), Shl(Word(mem, WordAddress(addr, i)), WordOffset(i, at)))
  {
    assert Words(mem, addr, i + 1)[..i] == Words(mem, addr, i);
  }

  /** The mask loop: `0xFF << (i - 1) * 8` ORed in for i from `at` down to 1. */
  method MakeMask(at: nat) returns (mask: nat)
    requires AddressType(at)
    ensures mask == Scale(at) - 1
  {
    mask := 0;
    var i := at;
    while i > 0
      invariant 0 <= i <= at
      invariant mask == Scale(at) - Scale(i)
    {
      MaskStep(i, at);
      mask := Or(mask, Shl(0xFF, i - 1));
      i := i - 1;
    }
  }

  /** One step of the mask loop sets byte `i - 1` below the bytes already set. */
  lemma MaskStep(i: nat, at: nat)
    requires AddressType(at) && 0 < i <= at
    ensures Or(Scale(at) - Scale(i), Shl(0xFF, i - 1)) == Scale(at) - Scale(i - 1)
  {
    var low := 0xFF * Scale(i - 1);
    var high := Scale(at) / Scale(i) - 1;
    assert Scale(at) - Scale(i) == high * Scale(i) by {
      if at == 4 {
        assert i == 1 || i == 2 || i == 3 || i == 4;
      }
    }
    assert Shl(0xFF, i - 1) == low;
    assert low < Scale(i);
    OrBytes(low, high, i);
  }

  /**
   * The write loop: for i from n down to 1, writes `(v >> (i - 1) * at * 8) & mask`
   * at `addr + i - 1`, stopping at the first failed write.
   */
  method WriteWords(ee: Eeprom, addr: uint16, v: uint32, n: nat, at: nat, mask: nat) returns (ok: bool)
    requires AddressType(at) && WordsFit(n, at) && mask == Scale(at) - 1
    modifies ee
    ensures ee.readFails == old(ee.readFails) && ee.writeFails == old(ee.writeFails)
    ensures ok == (FailedFrom(ee.writeFails, addr, n) == 0)
    ensures ee.mem == StoreFrom(old(ee.mem), addr, Split(v, n, at), FailedFrom(ee.writeFails, addr, n))
  {
    ghost var ws := Split(v, n, at);
    var i := n;
    while i > 0
      invariant 0 <= i <= n
      invariant ee.readFails == old(ee.readFails) && ee.writeFails == old(ee.writeFails)
      invariant ee.mem == StoreFrom(old(ee.mem), addr, ws, i)
      invariant FailedFrom(ee.writeFails, addr, n) == FailedFrom(ee.writeFails, addr, i)
    {
      var word := And(Shr(v, WordOffset(i - 1, at)), mask);
      assert word == ws[i - 1] by {
        AndBytes(Shr(v, WordOffset(i - 1, at)), at);
        SplitAt(v, n, at, i - 1);
      }
      var good := ee.Write(word, WordAddress(addr, i - 1));
      if !good {
        return false;
      }
      i := i - 1;
    }
    ok := true;
  }

  lemma {:induction false} SplitAt(v: uint32, n: nat, at: nat, i: nat)
    requires AddressType(at) && WordsFit(n, at) && i < n
    ensures Split(v, n, at)[i] == Shr(v, WordOffset(i, at)) % Scale(at)
  {
    if i < n - 1 {
      SplitAt(v, n - 1, at, i);
    }
  }
}
