// Status bytes and the scan for erased flash (fdb_utils.c: _fdb_set_status, _fdb_get_status,
// _fdb_write_status, _fdb_continue_ff_addr) for a write granularity of one bit.

module StatusTable {

  /** 0xFF >> k */
  function Mask(k: nat): bv8
    requires k < 8
  {
    match k
    case 0 => 0xFF case 1 => 0x7F case 2 => 0x3F case 3 => 0x1F
    case 4 => 0x0F case 5 => 0x07 case 6 => 0x03 case _ => 0x01
  }

  /** 0x80 >> k */
  function Bit(k: nat): bv8
    requires k < 8
  {
    match k
    case 0 => 0x80 case 1 => 0x40 case 2 => 0x20 case 3 => 0x10
    case 4 => 0x08 case 5 => 0x04 case 6 => 0x02 case _ => 0x01
  }

  lemma MaskBit(k: nat, j: nat)
    requires k < 8 && j < 8
    ensures Mask(k) & Bit(j) == 0 <==> j < k
  {
    if j < 4 {
    } else {
    }
  }

  lemma MaskAnd(j: nat, k: nat)
    requires j < 8 && k < 8
    ensures Mask(j) & Mask(k) == Mask(if j < k then k else j)
  {
    if j < 4 {
    } else {
    }
  }

  /** FDB_STATUS_TABLE_SIZE */
  function TableSize(num: nat): nat { (num + 7) / 8 }

  /** `_fdb_set_status`: the table, and the byte that has to be written, if any. */
  method SetStatus(num: nat, index: nat) returns (table: seq<bv8>, byteIndex: int)
    requires index < num
    ensures |table| == TableSize(num)
    ensures byteIndex == if index == 0 then -1 else (index - 1) / 8
    ensures forall i :: 0 <= i < |table| ==> table[i] == if i == byteIndex then Mask(index % 8) else 0xFF
  {
    table := seq(TableSize(num), _ => 0xFF as bv8);
    byteIndex := -1;
    if index > 0 {
      byteIndex := (index - 1) / 8;
      OnesAnd(Mask(index % 8));
      table := table[byteIndex := table[byteIndex] & Mask(index % 8)];
    }
  }

  lemma OnesAnd(x: bv8)
    ensures 0xFF & x == x && x & x == x && x & 0xFF == x
  {
  }

  predicate Zero(table: seq<bv8>, p: nat)
    requires p / 8 < |table|
  {
    table[p / 8] & Bit(p % 8) == 0
  }

  /** `_fdb_get_status`: one more than the last position that holds a zero. */
  method GetStatus(table: seq<bv8>, num: nat) returns (index: nat)
    requires 0 < num && |table| == TableSize(num)
    ensures index < num
    ensures forall p :: index <= p < num - 1 ==> !Zero(table, p)
    ensures index > 0 ==> Zero(table, index - 1)
  {
    var i, last, left := 0, num - 1, num - 1;
    while left > 0
      invariant i + left == last == num - 1
      invariant forall p :: left <= p < num - 1 ==> !Zero(table, p)
    {
      if table[(left - 1) / 8] & Bit((left - 1) % 8) == 0 {
        assert Zero(table, left - 1);
        break;
      }
      left := left - 1;
      i := i + 1;
    }
    index := last - i;
  }

  /** A status that is a multiple of eight is lost, any other is read back. */
  method SetThenGet(num: nat, index: nat) returns (got: nat)
    requires index < num
    ensures got == if index % 8 == 0 then 0 else index
    ensures got == index <==> index == 0 || index % 8 != 0
  {
    var table, b := SetStatus(num, index);
    got := GetStatus(table, num);
    ReadsAs(table, num, index, got);
  }

  lemma ReadsAs(table: seq<bv8>, num: nat, index: nat, got: nat)
    requires index < num && |table| == TableSize(num) && got < num
    requires forall i :: 0 <= i < |table| ==> table[i] == if index > 0 && i == (index - 1) / 8 then Mask(index % 8) else 0xFF
    requires (forall p :: got <= p < num - 1 ==> !Zero(table, p)) && (got > 0 ==> Zero(table, got - 1))
    ensures got == if index % 8 == 0 then 0 else index
  {
    forall p | 0 <= p < num - 1
      ensures Zero(table, p) <==> index % 8 != 0 && p / 8 == (index - 1) / 8 && p % 8 < index % 8
    {
      MaskBit(0, p % 8);
      MaskBit(index % 8, p % 8);
    }
    if index % 8 != 0 {
      assert (index - 1) / 8 == index / 8 && (index - 1) % 8 == index % 8 - 1;
      assert Zero(table, index - 1);
      assert got >= index;
    }
  }

  // ---------- statuses written over each other ----------

  /** What one status byte holds on flash once statuses up to `index` have been written. */
  ghost predicate ByteHolds(flash: seq<bv8>, index: nat) {
    |flash| == 1 && index < 8 && flash[0] == Mask(index)
  }

  /** `_fdb_write_status` on flash whose bits can only be cleared: a status never goes back. */
  method WriteStatus(flash: seq<bv8>, num: nat, index: nat, ghost current: nat) returns (flash': seq<bv8>)
    requires index < num <= 8 && current < num && ByteHolds(flash, current)
    ensures ByteHolds(flash', if index < current then current else index)
  {
    var table, byteIndex := SetStatus(num, index);
    flash' := flash;
    if byteIndex != -1 {
      MaskAnd(current, index);
      flash' := flash'[byteIndex := flash[byteIndex] & table[byteIndex]];
    }
  }

  /** ... and what is read is the furthest status written. */
  method ReadStatus(flash: seq<bv8>, num: nat, ghost current: nat) returns (index: nat)
    requires 0 < num <= 8 && current < num && ByteHolds(flash, current)
    ensures index == current
  {
    index := GetStatus(flash, num);
    ReadsAs(flash, num, current, index);
  }
}

module ErasedFlash {

  import opened RecordBytes

  /** Everything from `addr` on is erased, and `addr` cannot be lowered. */
  ghost predicate ErasedFrom(flash: seq<bv8>, start: nat, end: nat, addr: nat) {
    && start <= addr <= end <= |flash|
    && (forall i :: addr <= i < end ==> flash[i] == ERASED)
    && (addr > start ==> flash[addr - 1] != ERASED)
  }

  /** `_fdb_continue_ff_addr`, which reads 32 bytes at a time. */
  method ContinueFfAddr(flash: seq<bv8>, start: nat, end: nat, unit: nat) returns (result: nat)
    requires end <= |flash| && unit > 0
    ensures start <= end ==>
              exists addr: nat :: ErasedFrom(flash, start, end, addr) && result == if addr < end then Align(addr, unit) else end
    ensures start > end ==> result == end
  {
    var at: nat, from: nat, last: bv8 := start, start, 0;
    while from < end
      invariant start <= from
      invariant if start <= end then Scanned(flash, start, if from < end then from else end, at, last) else last == 0
    {
      var size := if from + 32 < end then 32 else end - from;
      var i: nat := 0;
      while i < size
        invariant 0 <= i <= size
        invariant Scanned(flash, start, from + i, at, last)
      {
        if last != ERASED && flash[from + i] == ERASED {
          at := from + i;
        }
        last := flash[from + i];
        i := i + 1;
      }
      from := from + 32;
    }
    if last == ERASED {
      assert ErasedFrom(flash, start, end, at);
      result := Align(at, unit);
    } else {
      assert start <= end ==> ErasedFrom(flash, start, end, end);
      result := end;
    }
  }

  /** After `upTo`: the last byte, and where the erased run that reaches it begins. */
  ghost predicate Scanned(flash: seq<bv8>, start: nat, upTo: nat, at: nat, last: bv8) {
    && start <= upTo <= |flash|
    && last == (if upTo == start then 0 else flash[upTo - 1])
    && (last == ERASED ==> ErasedFrom(flash, start, upTo, at) && at < upTo)
  }
}
