/** The Windows function table of a loaded module and the search for a program counter. */
module WinModule {
  import opened Common
  import opened Words

  /** A table entry: offsets from the image base; both ends belong to the function. */
  datatype RuntimeFunction = RuntimeFunction(startAddress: nat, endAddress: nat, unwindInfoOffset: nat)

  const ENTRY_SIZE: nat := 12

  /** The number of entries in a table of `size` bytes, a 32-bit size; what is left over at the
      end belongs to none. */
  function FuncTableCount(size: nat): (n: nat)
    ensures 12 * n <= size < 12 * n + 12
  {
    size / ENTRY_SIZE
  }

  datatype Lookup = Found(index: nat) | NotFound | OutOfBounds

  predicate In(f: RuntimeFunction, rva: nat) { f.startAddress <= rva <= f.endAddress }

  predicate EntryIn(table: seq<RuntimeFunction>, i: int, rva: nat) { 0 <= i < |table| && In(table[i], rva) }

  /** In address order; neighbours may share a boundary. */
  ghost predicate Sorted(table: seq<RuntimeFunction>) {
    && (forall i :: 0 <= i < |table| ==> table[i].startAddress <= table[i].endAddress < WORD32)
    && forall i, j :: 0 <= i < j < |table| ==> table[i].endAddress <= table[j].startAddress
  }

  /** What a search is for. */
  ghost predicate Answers(table: seq<RuntimeFunction>, rva: nat, r: Lookup) {
    match r
    case Found(i) => EntryIn(table, i, rva)
    case NotFound => table != [] && table[0].startAddress <= rva && forall i :: !EntryIn(table, i, rva)
    case OutOfBounds => table == [] || rva < table[0].startAddress
  }

  /** All entries before place `k` end below the address. */
  ghost predicate EndBelow(table: seq<RuntimeFunction>, rva: nat, k: int) {
    forall i :: 0 <= i < k && i < |table| ==> table[i].endAddress < rva
  }

  /** All entries from place `k` on start above the address. */
  ghost predicate StartAbove(table: seq<RuntimeFunction>, rva: nat, k: int) {
    forall i :: 0 <= i && k <= i < |table| ==> rva < table[i].startAddress
  }

  /** What one comparison says about the rest of a sorted table. */
  lemma {:induction false} Around(table: seq<RuntimeFunction>, rva: nat, mid: nat)
    requires Sorted(table) && mid < |table|
    ensures rva > table[mid].endAddress ==> EndBelow(table, rva, mid + 1)
    ensures rva < table[mid].startAddress ==> StartAbove(table, rva, mid)
  {
    assert forall i :: 0 <= i < mid ==> table[i].endAddress <= table[mid].startAddress <= table[mid].endAddress;
    assert forall i :: mid < i < |table| ==> table[mid].startAddress <= table[mid].endAddress <= table[i].startAddress;
  }

  /** With both together no place is left. */
  lemma {:induction false} NoneLeft(table: seq<RuntimeFunction>, rva: nat, start: nat, end: nat)
    requires 0 < start <= |table| && end < start && EndBelow(table, rva, start) && StartAbove(table, rva, end + 1)
    requires Sorted(table)
    ensures Answers(table, rva, NotFound)
  {
    assert table[0].startAddress <= table[0].endAddress < rva;
  }

  // ---------- exclusive ends ----------

  /** Linkers count `endAddress` as the first byte after a function. Read that way, entry `j`
      owns the address. */
  predicate Owns(table: seq<RuntimeFunction>, j: int, rva: nat) {
    0 <= j < |table| && table[j].startAddress <= rva < table[j].endAddress
  }

  predicate AllNonEmpty(table: seq<RuntimeFunction>) {
    forall i :: 0 <= i < |table| ==> table[i].startAddress < table[i].endAddress
  }

  /** Halving lo..hi, whether place `i` is looked at before place `i + 1`. */
  predicate LeftFirst(lo: nat, hi: nat, i: nat)
    requires lo <= i && i + 1 <= hi
    decreases hi - lo
  {
    var mid := (lo + hi) / 2;
    if mid == i then true
    else if mid == i + 1 then false
    else if mid < i then LeftFirst(mid + 1, hi, i)
    else LeftFirst(lo, mid - 1, i)
  }

  /** Function `i` ends where the next one begins, which is where the address lies. */
  predicate Boundary(table: seq<RuntimeFunction>, i: int, rva: nat) {
    0 <= i && i + 1 < |table| && table[i].endAddress == rva == table[i + 1].startAddress
  }

  /** The search names the function before the owner: the address is the owner's first byte,
      the function before touches it, and halving comes to that one first. */
  predicate Misled(table: seq<RuntimeFunction>, j: int, rva: nat) {
    j > 0 && Boundary(table, j - 1, rva) && LeftFirst(0, |table| - 1, j - 1)
  }

  lemma {:induction false} OneBoundary(table: seq<RuntimeFunction>, i: int, j: int, rva: nat)
    requires Sorted(table) && AllNonEmpty(table) && Boundary(table, i, rva) && Boundary(table, j, rva)
    ensures i == j
  {
    assert table[i].startAddress < rva < table[i + 1].endAddress;
    assert table[j].startAddress < rva < table[j + 1].endAddress;
  }

  /** What one halving does to the places around a boundary. */
  lemma {:induction false} Bisected(table: seq<RuntimeFunction>, rva: nat, start: nat, end: nat, b: nat, mid: nat)
    requires Sorted(table) && AllNonEmpty(table) && Boundary(table, b, rva)
    requires start <= b && b + 1 <= end < |table| && mid == (start + end) / 2
    ensures In(table[mid], rva) ==> mid == if LeftFirst(start, end, b) then b else b + 1
    ensures rva > table[mid].endAddress ==> mid + 1 <= b && LeftFirst(start, end, b) == LeftFirst(mid + 1, end, b)
    ensures rva < table[mid].startAddress ==> b + 1 < mid && LeftFirst(start, end, b) == LeftFirst(start, mid - 1, b)
  {
    if In(table[mid], rva) {
      AtBoundary(table, b, mid, rva);
    }
    Sides(table, rva, b, mid);
  }

  lemma {:induction false} Sides(table: seq<RuntimeFunction>, rva: nat, b: nat, mid: nat)
    requires Sorted(table) && Boundary(table, b, rva) && mid < |table|
    ensures rva > table[mid].endAddress ==> mid < b
    ensures rva < table[mid].startAddress ==> b + 1 < mid
  {
  }

  /** Only the two functions at a boundary hold its address. */
  lemma {:induction false} AtBoundary(table: seq<RuntimeFunction>, i: int, k: int, rva: nat)
    requires Sorted(table) && AllNonEmpty(table) && Boundary(table, i, rva) && EntryIn(table, k, rva)
    ensures k == i || k == i + 1
  {
    assert table[i].startAddress < rva < table[i + 1].endAddress;
  }

  /** An entry that holds an owned address is the owner's, or touches it from below. */
  lemma {:induction false} NearOwner(table: seq<RuntimeFunction>, rva: nat, f: int, j: int)
    requires Sorted(table) && AllNonEmpty(table) && EntryIn(table, f, rva) && Owns(table, j, rva)
    ensures f == j || (f == j - 1 && Boundary(table, j - 1, rva))
  {
    assert 0 < j ==> table[j - 1].startAddress < table[j - 1].endAddress <= table[j].startAddress;
  }

  /** From any answer that is right at boundaries to the owner. */
  lemma {:induction false} OwnerFound(table: seq<RuntimeFunction>, rva: nat, r: Lookup, j: int)
    requires Sorted(table) && AllNonEmpty(table) && Answers(table, rva, r) && Owns(table, j, rva)
    requires forall i :: Boundary(table, i, rva) ==> r == Found(if LeftFirst(0, |table| - 1, i) then i else i + 1)
    ensures r == Found(if Misled(table, j, rva) then j - 1 else j)
  {
    assert EntryIn(table, j, rva) && table[0].startAddress <= table[j].startAddress;
    NearOwner(table, rva, r.index, j);
  }

  /** Two functions that touch are already a case. */
  lemma {:induction false} TouchingMisleads(f: RuntimeFunction, g: RuntimeFunction)
    requires f.endAddress == g.startAddress
    ensures Misled([f, g], 1, g.startAddress)
  {
    assert LeftFirst(0, 1, 0);
  }

  class WinModule {
    const imageBaseStart: nat
    const funcTable: seq<RuntimeFunction>

    constructor (imageStart: nat, table: seq<RuntimeFunction>)
      ensures imageBaseStart == imageStart && funcTable == table
    {
      imageBaseStart, funcTable := imageStart, table;
    }

    /** The program counter relative to the image, in 64-bit arithmetic. */
    function Rva(pc: nat): nat { Wrap64(pc - imageBaseStart) }

    /** Binary search over unsigned 32-bit bounds. `OutOfBounds` is a read past the table's
        end: it happens exactly when the table is empty or the program counter lies below the
        first function; otherwise some entry holding it is found if there is one. With
        exclusive ends the owner is found unless the search is misled. */
    method GetRuntimeFunction(pc: nat, size: nat) returns (r: Lookup)
      requires Sorted(funcTable) && size < WORD32 && |funcTable| == FuncTableCount(size)
      ensures Answers(funcTable, Rva(pc), r)
      ensures AllNonEmpty(funcTable) ==>
        forall j :: Owns(funcTable, j, Rva(pc)) ==> r == Found(if Misled(funcTable, j, Rva(pc)) then j - 1 else j)
      // In addresses, both ends of a function included.
      ensures imageBaseStart <= pc < 0x1_0000_0000_0000_0000 ==>
        && (r.Found? ==> r.index < |funcTable| && imageBaseStart + funcTable[r.index].startAddress <= pc <= imageBaseStart + funcTable[r.index].endAddress)
        && (r.NotFound? ==> forall i :: 0 <= i < |funcTable| ==>
              !(imageBaseStart + funcTable[i].startAddress <= pc <= imageBaseStart + funcTable[i].endAddress))
        && (r.OutOfBounds? <==> funcTable == [] || pc < imageBaseStart + funcTable[0].startAddress)
      // Below the image the difference wraps. It meets no function unless the image ends past
      // the address space.
      ensures pc < imageBaseStart < 0x1_0000_0000_0000_0000 && r.Found? ==>
        r.index < |funcTable| && imageBaseStart + funcTable[r.index].startAddress <= pc + 0x1_0000_0000_0000_0000 <= imageBaseStart + funcTable[r.index].endAddress
      ensures pc < imageBaseStart <= 0xffff_ffff_0000_0000 ==> r == if funcTable == [] then OutOfBounds else NotFound
    {
      var rva := Rva(pc);
      r := Search(rva, |funcTable|);
      if imageBaseStart <= pc < WORD {
        InAddresses(pc, r);
      } else if pc < imageBaseStart < WORD {
        BelowImage(pc, r);
      }
      if AllNonEmpty(funcTable) {
        forall j | Owns(funcTable, j, rva)
          ensures r == Found(if Misled(funcTable, j, rva) then j - 1 else j)
        {
          OwnerFound(funcTable, rva, r, j);
        }
      }
    }

    lemma {:induction false} RvaInNumbers(pc: nat)
      requires pc < WORD && imageBaseStart < WORD
      ensures Rva(pc) == if pc >= imageBaseStart then pc - imageBaseStart else pc + WORD - imageBaseStart
    {
    }

    lemma {:induction false} InAddresses(pc: nat, r: Lookup)
      requires Sorted(funcTable) && Answers(funcTable, Rva(pc), r) && imageBaseStart <= pc < WORD
      ensures r.Found? ==> r.index < |funcTable| && imageBaseStart + funcTable[r.index].startAddress <= pc <= imageBaseStart + funcTable[r.index].endAddress
      ensures r.NotFound? ==> forall i :: 0 <= i < |funcTable| ==>
                !(imageBaseStart + funcTable[i].startAddress <= pc <= imageBaseStart + funcTable[i].endAddress)
      ensures r.OutOfBounds? <==> funcTable == [] || pc < imageBaseStart + funcTable[0].startAddress
    {
      RvaInNumbers(pc);
      if r.NotFound? {
        forall i | 0 <= i < |funcTable|
          ensures !(imageBaseStart + funcTable[i].startAddress <= pc <= imageBaseStart + funcTable[i].endAddress)
        {
          assert !EntryIn(funcTable, i, Rva(pc));
        }
      }
      if r.Found? {
        assert funcTable[0].startAddress <= funcTable[r.index].startAddress;
      }
    }

    lemma {:induction false} BelowImage(pc: nat, r: Lookup)
      requires Sorted(funcTable) && Answers(funcTable, Rva(pc), r) && pc < imageBaseStart < WORD
      ensures r.Found? ==>
        r.index < |funcTable| && imageBaseStart + funcTable[r.index].startAddress <= pc + WORD <= imageBaseStart + funcTable[r.index].endAddress
      ensures imageBaseStart <= WORD - WORD32 ==> r == if funcTable == [] then OutOfBounds else NotFound
    {
      RvaInNumbers(pc);
    }

    method Search(rva: nat, count: nat) returns (r: Lookup)
      requires Sorted(funcTable) && count == |funcTable| < 0x2000_0000
      ensures Answers(funcTable, rva, r)
      ensures AllNonEmpty(funcTable) ==>
        forall i :: Boundary(funcTable, i, rva) ==> r == Found(if LeftFirst(0, count - 1, i) then i else i + 1)
    {
      var start: nat := 0;
      var end: nat;
      end := Minus1(count);
      ghost var b := TheBoundary(rva);
      while start <= end
        invariant start <= count
        invariant end == WORD32 - 1 ==> start == 0 && (count == 0 || rva < funcTable[0].startAddress)
        invariant end != WORD32 - 1 ==> end < count
        invariant EndBelow(funcTable, rva, start) && StartAbove(funcTable, rva, end + 1)
        invariant b >= 0 ==> start <= b && b + 1 <= end < count && LeftFirst(start, end, b) == LeftFirst(0, count - 1, b)
        decreases if end == WORD32 - 1 then 0 else end + 2 - start
      {
        var mid := Mid(start, end);
        if mid >= count {
          return OutOfBounds;
        }
        Around(funcTable, rva, mid);
        if b >= 0 {
          Bisected(funcTable, rva, start, end, b, mid);
        }
        if In(funcTable[mid], rva) {
          return Found(mid);
        } else if rva > funcTable[mid].endAddress {
          start := mid + 1;
        } else {
          end := Minus1(mid);
        }
      }
      NoneLeft(funcTable, rva, start, end);
      return NotFound;
    }

    /** The boundary at an address in a table without empty functions, or -1. */
    ghost function TheBoundary(rva: nat): (b: int)
      requires Sorted(funcTable)
      ensures b >= -1 && (b >= 0 ==> AllNonEmpty(funcTable) && Boundary(funcTable, b, rva))
      ensures AllNonEmpty(funcTable) ==> forall i :: Boundary(funcTable, i, rva) ==> b == i
    {
      if AllNonEmpty(funcTable) && exists i :: Boundary(funcTable, i, rva) then
        var b :| Boundary(funcTable, b, rva);
        assert forall i :: Boundary(funcTable, i, rva) ==> b == i by {
          forall i | Boundary(funcTable, i, rva)
            ensures b == i
          {
            OneBoundary(funcTable, b, i, rva);
          }
        }
        b
      else -1
    }

    /** Half the unsigned 32-bit sum. */
    static method Mid(start: nat, end: nat) returns (mid: nat)
      ensures start + end < WORD32 ==> mid == (start + end) / 2
    {
      return (start + end) % WORD32 / 2;
    }

    /** Unsigned 32-bit predecessor. */
    static method Minus1(x: nat) returns (r: nat)
      requires x < WORD32
      ensures r == if x == 0 then WORD32 - 1 else x - 1
    {
      return (x - 1) % WORD32;
    }
  }
}
