// The checksum of records (fdb_utils.c: fdb_calc_crc32 and its table; fdb_kvdb.c: create_kv_blob and
// read_kv). The reference is the bit-by-bit form of section 8 of RFC 1952.

/** A register that takes one byte after the other, for any step. */
module ByteRun {

  function Run<T, B>(next: (T, B) -> T, reg: T, bytes: seq<B>): T {
    if bytes == [] then reg else next(Run(next, reg, bytes[..|bytes|-1]), bytes[|bytes|-1])
  }

  lemma {:induction false} RunConcat<T, B>(next: (T, B) -> T, reg: T, a: seq<B>, b: seq<B>)
    ensures Run(next, reg, a + b) == Run(next, Run(next, reg, a), b)
    decreases |b|
  {
    if b == [] {
      assert a + b == a;
    } else {
      RunConcat(next, reg, a, b[..|b|-1]);
      assert (a + b)[..|a + b|-1] == a + b[..|b|-1];
    }
  }

  /** A bit step once for every bit of a byte. */
  function Repeat<T, B>(f: T -> T, x: T, bits: seq<B>): T {
    if bits == [] then x else f(Repeat(f, x, bits[..|bits|-1]))
  }

  lemma {:induction false} RepeatInjective<T(!new), B>(f: T -> T, x: T, y: T, bits: seq<B>)
    requires forall u, v :: f(u) == f(v) ==> u == v
    requires Repeat(f, x, bits) == Repeat(f, y, bits)
    ensures x == y
  {
    if bits != [] {
      RepeatInjective(f, x, y, bits[..|bits|-1]);
    }
  }

  /** Repeating a step that respects sums respects them, too. */
  lemma {:induction false} RepeatLinear<T(!new), B>(f: T -> T, plus: (T, T) -> T, x: T, y: T, bits: seq<B>)
    requires forall u, v :: f(plus(u, v)) == plus(f(u), f(v))
    ensures Repeat(f, plus(x, y), bits) == plus(Repeat(f, x, bits), Repeat(f, y, bits))
  {
    if bits != [] {
      RepeatLinear(f, plus, x, y, bits[..|bits|-1]);
    }
  }

  /** A step that takes its byte in and then repeats a bit step loses nothing. */
  lemma StepTells<T(!new), B(!new), C>(f: T -> T, take: (T, B) -> T, next: (T, B) -> T, bits: seq<C>)
    requires forall u, v :: f(u) == f(v) ==> u == v
    requires forall x, y, b :: take(x, b) == take(y, b) ==> x == y
    requires forall x, a, b :: take(x, a) == take(x, b) ==> a == b
    requires forall x, b :: next(x, b) == Repeat(f, take(x, b), bits)
    ensures Injective(next) && Told(next)
  {
    forall x, y, b | next(x, b) == next(y, b)
      ensures x == y
    {
      RepeatInjective(f, take(x, b), take(y, b), bits);
    }
    forall x, a, b | next(x, a) == next(x, b)
      ensures a == b
    {
      RepeatInjective(f, take(x, a), take(x, b), bits);
    }
  }

  lemma RepeatEight<T, B>(f: T -> T, x: T, bits: seq<B>)
    requires |bits| == 8
    ensures Repeat(f, x, bits) == f(f(f(f(f(f(f(f(x))))))))
  {
    var b4 := bits[..4];
    RepeatFour(f, x, b4);
    var x4 := f(f(f(f(x))));
    assert bits[..5][..4] == b4 && bits[..6][..5] == bits[..5] && bits[..7][..6] == bits[..6];
    assert Repeat(f, x, bits[..5]) == f(x4);
    assert Repeat(f, x, bits[..6]) == f(f(x4));
    assert Repeat(f, x, bits[..7]) == f(f(f(x4)));
  }

  lemma RepeatFour<T, B>(f: T -> T, x: T, bits: seq<B>)
    requires |bits| == 4
    ensures Repeat(f, x, bits) == f(f(f(f(x))))
  {
    assert bits[..1][..0] == [] && bits[..2][..1] == bits[..1] && bits[..3][..2] == bits[..2];
    assert Repeat(f, x, bits[..1]) == f(x);
    assert Repeat(f, x, bits[..2]) == f(f(x));
    assert Repeat(f, x, bits[..3]) == f(f(f(x)));
  }

  /** The loop over a buffer. */
  method Accumulate<T, B>(step: (T, B) -> T, ghost next: (T, B) -> T, reg: T, buf: seq<B>) returns (result: T)
    requires forall r, b :: step(r, b) == next(r, b)
    ensures result == Run(next, reg, buf)
  {
    result := reg;
    for i := 0 to |buf|
      invariant result == Run(next, reg, buf[..i])
    {
      assert buf[..i+1][..i] == buf[..i];
      result := step(result, buf[i]);
    }
    assert buf[..|buf|] == buf;
  }

  /** A step forgets nothing of the register. */
  ghost predicate Injective<T(!new), B(!new)>(next: (T, B) -> T) {
    forall x, y, b :: next(x, b) == next(y, b) ==> x == y
  }

  /** ... and nothing of the byte. */
  ghost predicate Told<T(!new), B(!new)>(next: (T, B) -> T) {
    forall r, a, b :: next(r, a) == next(r, b) ==> a == b
  }

  /** The same bytes take different registers to different registers. */
  lemma {:induction false} RunInjective<T(!new), B(!new)>(next: (T, B) -> T, x: T, y: T, bytes: seq<B>)
    requires Injective(next) && Run(next, x, bytes) == Run(next, y, bytes)
    ensures x == y
  {
    if bytes != [] {
      RunInjective(next, x, y, bytes[..|bytes|-1]);
    }
  }

  /** Chaining, when the register is kept inverted between the pieces. */
  lemma RunInverted<T(!new), B>(next: (T, B) -> T, inv: T -> T, x: T, a: seq<B>, b: seq<B>)
    requires forall y :: inv(inv(y)) == y
    ensures inv(Run(next, inv(inv(Run(next, inv(x), a))), b)) == inv(Run(next, inv(x), a + b))
  {
    RunConcat(next, inv(x), a, b);
  }

  lemma RunDetectsInverted<T(!new), B(!new)>(next: (T, B) -> T, inv: T -> T, x: T,
                                             before: seq<B>, good: B, bad: B, after: seq<B>)
    requires Injective(next) && Told(next) && good != bad && forall y :: inv(inv(y)) == y
    ensures inv(Run(next, inv(x), before + [good] + after)) != inv(Run(next, inv(x), before + [bad] + after))
  {
    RunDetects(next, inv(x), before, good, bad, after);
    assert inv(inv(Run(next, inv(x), before + [good] + after))) == Run(next, inv(x), before + [good] + after);
    assert inv(inv(Run(next, inv(x), before + [bad] + after))) == Run(next, inv(x), before + [bad] + after);
  }

  /** Two byte strings that differ in one byte leave different registers. */
  lemma RunDetects<T(!new), B(!new)>(next: (T, B) -> T, reg: T, before: seq<B>, good: B, bad: B, after: seq<B>)
    requires Injective(next) && Told(next) && good != bad
    ensures Run(next, reg, before + [good] + after) != Run(next, reg, before + [bad] + after)
  {
    RunConcat(next, reg, before + [good], after);
    RunConcat(next, reg, before + [bad], after);
    var mid := Run(next, reg, before);
    assert (before + [good])[..|before|] == before && (before + [bad])[..|before|] == before;
    assert next(mid, good) != next(mid, bad);
    if Run(next, reg, before + [good] + after) == Run(next, reg, before + [bad] + after) {
      RunInjective(next, next(mid, good), next(mid, bad), after);
    }
  }
}

module Crc32 {
  import opened ByteRun

  // ---------- the table, in rows of sixteen ----------

  function Row0(i: bv8): bv32 {
    match i
    case 0 => 0x00000000 case 1 => 0x77073096 case 2 => 0xee0e612c case 3 => 0x990951ba
    case 4 => 0x076dc419 case 5 => 0x706af48f case 6 => 0xe963a535 case 7 => 0x9e6495a3
    case 8 => 0x0edb8832 case 9 => 0x79dcb8a4 case 10 => 0xe0d5e91e case 11 => 0x97d2d988
    case 12 => 0x09b64c2b case 13 => 0x7eb17cbd case 14 => 0xe7b82d07 case _ => 0x90bf1d91
  }

  function Row1(i: bv8): bv32 {
    match i
    case 0 => 0x1db71064 case 1 => 0x6ab020f2 case 2 => 0xf3b97148 case 3 => 0x84be41de
    case 4 => 0x1adad47d case 5 => 0x6ddde4eb case 6 => 0xf4d4b551 case 7 => 0x83d385c7
    case 8 => 0x136c9856 case 9 => 0x646ba8c0 case 10 => 0xfd62f97a case 11 => 0x8a65c9ec
    case 12 => 0x14015c4f case 13 => 0x63066cd9 case 14 => 0xfa0f3d63 case _ => 0x8d080df5
  }

  function Row2(i: bv8): bv32 {
    match i
    case 0 => 0x3b6e20c8 case 1 => 0x4c69105e case 2 => 0xd56041e4 case 3 => 0xa2677172
    case 4 => 0x3c03e4d1 case 5 => 0x4b04d447 case 6 => 0xd20d85fd case 7 => 0xa50ab56b
    case 8 => 0x35b5a8fa case 9 => 0x42b2986c case 10 => 0xdbbbc9d6 case 11 => 0xacbcf940
    case 12 => 0x32d86ce3 case 13 => 0x45df5c75 case 14 => 0xdcd60dcf case _ => 0xabd13d59
  }

  function Row3(i: bv8): bv32 {
    match i
    case 0 => 0x26d930ac case 1 => 0x51de003a case 2 => 0xc8d75180 case 3 => 0xbfd06116
    case 4 => 0x21b4f4b5 case 5 => 0x56b3c423 case 6 => 0xcfba9599 case 7 => 0xb8bda50f
    case 8 => 0x2802b89e case 9 => 0x5f058808 case 10 => 0xc60cd9b2 case 11 => 0xb10be924
    case 12 => 0x2f6f7c87 case 13 => 0x58684c11 case 14 => 0xc1611dab case _ => 0xb6662d3d
  }

  function Row4(i: bv8): bv32 {
    match i
    case 0 => 0x76dc4190 case 1 => 0x01db7106 case 2 => 0x98d220bc case 3 => 0xefd5102a
    case 4 => 0x71b18589 case 5 => 0x06b6b51f case 6 => 0x9fbfe4a5 case 7 => 0xe8b8d433
    case 8 => 0x7807c9a2 case 9 => 0x0f00f934 case 10 => 0x9609a88e case 11 => 0xe10e9818
    case 12 => 0x7f6a0dbb case 13 => 0x086d3d2d case 14 => 0x91646c97 case _ => 0xe6635c01
  }

  function Row5(i: bv8): bv32 {
    match i
    case 0 => 0x6b6b51f4 case 1 => 0x1c6c6162 case 2 => 0x856530d8 case 3 => 0xf262004e
    case 4 => 0x6c0695ed case 5 => 0x1b01a57b case 6 => 0x8208f4c1 case 7 => 0xf50fc457
    case 8 => 0x65b0d9c6 case 9 => 0x12b7e950 case 10 => 0x8bbeb8ea case 11 => 0xfcb9887c
    case 12 => 0x62dd1ddf case 13 => 0x15da2d49 case 14 => 0x8cd37cf3 case _ => 0xfbd44c65
  }

  function Row6(i: bv8): bv32 {
    match i
    case 0 => 0x4db26158 case 1 => 0x3ab551ce case 2 => 0xa3bc0074 case 3 => 0xd4bb30e2
    case 4 => 0x4adfa541 case 5 => 0x3dd895d7 case 6 => 0xa4d1c46d case 7 => 0xd3d6f4fb
    case 8 => 0x4369e96a case 9 => 0x346ed9fc case 10 => 0xad678846 case 11 => 0xda60b8d0
    case 12 => 0x44042d73 case 13 => 0x33031de5 case 14 => 0xaa0a4c5f case _ => 0xdd0d7cc9
  }

  function Row7(i: bv8): bv32 {
    match i
    case 0 => 0x5005713c case 1 => 0x270241aa case 2 => 0xbe0b1010 case 3 => 0xc90c2086
    case 4 => 0x5768b525 case 5 => 0x206f85b3 case 6 => 0xb966d409 case 7 => 0xce61e49f
    case 8 => 0x5edef90e case 9 => 0x29d9c998 case 10 => 0xb0d09822 case 11 => 0xc7d7a8b4
    case 12 => 0x59b33d17 case 13 => 0x2eb40d81 case 14 => 0xb7bd5c3b case _ => 0xc0ba6cad
  }

  function Row8(i: bv8): bv32 {
    match i
    case 0 => 0xedb88320 case 1 => 0x9abfb3b6 case 2 => 0x03b6e20c case 3 => 0x74b1d29a
    case 4 => 0xead54739 case 5 => 0x9dd277af case 6 => 0x04db2615 case 7 => 0x73dc1683
    case 8 => 0xe3630b12 case 9 => 0x94643b84 case 10 => 0x0d6d6a3e case 11 => 0x7a6a5aa8
    case 12 => 0xe40ecf0b case 13 => 0x9309ff9d case 14 => 0x0a00ae27 case _ => 0x7d079eb1
  }

  function Row9(i: bv8): bv32 {
    match i
    case 0 => 0xf00f9344 case 1 => 0x8708a3d2 case 2 => 0x1e01f268 case 3 => 0x6906c2fe
    case 4 => 0xf762575d case 5 => 0x806567cb case 6 => 0x196c3671 case 7 => 0x6e6b06e7
    case 8 => 0xfed41b76 case 9 => 0x89d32be0 case 10 => 0x10da7a5a case 11 => 0x67dd4acc
    case 12 => 0xf9b9df6f case 13 => 0x8ebeeff9 case 14 => 0x17b7be43 case _ => 0x60b08ed5
  }

  function RowA(i: bv8): bv32 {
    match i
    case 0 => 0xd6d6a3e8 case 1 => 0xa1d1937e case 2 => 0x38d8c2c4 case 3 => 0x4fdff252
    case 4 => 0xd1bb67f1 case 5 => 0xa6bc5767 case 6 => 0x3fb506dd case 7 => 0x48b2364b
    case 8 => 0xd80d2bda case 9 => 0xaf0a1b4c case 10 => 0x36034af6 case 11 => 0x41047a60
    case 12 => 0xdf60efc3 case 13 => 0xa867df55 case 14 => 0x316e8eef case _ => 0x4669be79
  }

  function RowB(i: bv8): bv32 {
    match i
    case 0 => 0xcb61b38c case 1 => 0xbc66831a case 2 => 0x256fd2a0 case 3 => 0x5268e236
    case 4 => 0xcc0c7795 case 5 => 0xbb0b4703 case 6 => 0x220216b9 case 7 => 0x5505262f
    case 8 => 0xc5ba3bbe case 9 => 0xb2bd0b28 case 10 => 0x2bb45a92 case 11 => 0x5cb36a04
    case 12 => 0xc2d7ffa7 case 13 => 0xb5d0cf31 case 14 => 0x2cd99e8b case _ => 0x5bdeae1d
  }

  function RowC(i: bv8): bv32 {
    match i
    case 0 => 0x9b64c2b0 case 1 => 0xec63f226 case 2 => 0x756aa39c case 3 => 0x026d930a
    case 4 => 0x9c0906a9 case 5 => 0xeb0e363f case 6 => 0x72076785 case 7 => 0x05005713
    case 8 => 0x95bf4a82 case 9 => 0xe2b87a14 case 10 => 0x7bb12bae case 11 => 0x0cb61b38
    case 12 => 0x92d28e9b case 13 => 0xe5d5be0d case 14 => 0x7cdcefb7 case _ => 0x0bdbdf21
  }

  function RowD(i: bv8): bv32 {
    match i
    case 0 => 0x86d3d2d4 case 1 => 0xf1d4e242 case 2 => 0x68ddb3f8 case 3 => 0x1fda836e
    case 4 => 0x81be16cd case 5 => 0xf6b9265b case 6 => 0x6fb077e1 case 7 => 0x18b74777
    case 8 => 0x88085ae6 case 9 => 0xff0f6a70 case 10 => 0x66063bca case 11 => 0x11010b5c
    case 12 => 0x8f659eff case 13 => 0xf862ae69 case 14 => 0x616bffd3 case _ => 0x166ccf45
  }

  function RowE(i: bv8): bv32 {
    match i
    case 0 => 0xa00ae278 case 1 => 0xd70dd2ee case 2 => 0x4e048354 case 3 => 0x3903b3c2
    case 4 => 0xa7672661 case 5 => 0xd06016f7 case 6 => 0x4969474d case 7 => 0x3e6e77db
    case 8 => 0xaed16a4a case 9 => 0xd9d65adc case 10 => 0x40df0b66 case 11 => 0x37d83bf0
    case 12 => 0xa9bcae53 case 13 => 0xdebb9ec5 case 14 => 0x47b2cf7f case _ => 0x30b5ffe9
  }

  function RowF(i: bv8): bv32 {
    match i
    case 0 => 0xbdbdf21c case 1 => 0xcabac28a case 2 => 0x53b39330 case 3 => 0x24b4a3a6
    case 4 => 0xbad03605 case 5 => 0xcdd70693 case 6 => 0x54de5729 case 7 => 0x23d967bf
    case 8 => 0xb3667a2e case 9 => 0xc4614ab8 case 10 => 0x5d681b02 case 11 => 0x2a6f2b94
    case 12 => 0xb40bbe37 case 13 => 0xc30c8ea1 case 14 => 0x5a05df1b case _ => 0x2d02ef8d
  }

  /** `crc32_table` */
  function Table(i: bv8): bv32 {
    match i >> 4
    case 0 => Row0(i & 0x0F)
    case 1 => Row1(i & 0x0F)
    case 2 => Row2(i & 0x0F)
    case 3 => Row3(i & 0x0F)
    case 4 => Row4(i & 0x0F)
    case 5 => Row5(i & 0x0F)
    case 6 => Row6(i & 0x0F)
    case 7 => Row7(i & 0x0F)
    case 8 => Row8(i & 0x0F)
    case 9 => Row9(i & 0x0F)
    case 10 => RowA(i & 0x0F)
    case 11 => RowB(i & 0x0F)
    case 12 => RowC(i & 0x0F)
    case 13 => RowD(i & 0x0F)
    case 14 => RowE(i & 0x0F)
    case _ => RowF(i & 0x0F)
  }

  // ---------- the bitwise form ----------

  const POLYNOMIAL: bv32 := 0xEDB88320

  function BitStep(x: bv32): bv32 {
    if x & 1 == 1 then POLYNOMIAL ^ (x >> 1) else x >> 1
  }

  /** The bits of a byte. */
  const BITS: seq<nat> := seq(8, i => i)

  function EightSteps(x: bv32): bv32 {
    BitStep(BitStep(BitStep(BitStep(BitStep(BitStep(BitStep(BitStep(x))))))))
  }

  // ---------- the table ----------

  lemma Row0Entries(j: bv8)
    requires j < 16
    ensures Row0(j) == EightSteps((0x00 | j) as bv32)
  {
    match j
    case 0 => case 1 => case 2 => case 3 => case 4 => case 5 => case 6 => case 7 =>
    case 8 => case 9 => case 10 => case 11 => case 12 => case 13 => case 14 => case _ =>
  }

  lemma Row1Entries(j: bv8)
    requires j < 16
    ensures Row1(j) == EightSteps((0x10 | j) as bv32)
  {
    match j
    case 0 => case 1 => case 2 => case 3 => case 4 => case 5 => case 6 => case 7 =>
    case 8 => case 9 => case 10 => case 11 => case 12 => case 13 => case 14 => case _ =>
  }

  lemma Row2Entries(j: bv8)
    requires j < 16
    ensures Row2(j) == EightSteps((0x20 | j) as bv32)
  {
    match j
    case 0 => case 1 => case 2 => case 3 => case 4 => case 5 => case 6 => case 7 =>
    case 8 => case 9 => case 10 => case 11 => case 12 => case 13 => case 14 => case _ =>
  }

  lemma Row3Entries(j: bv8)
    requires j < 16
    ensures Row3(j) == EightSteps((0x30 | j) as bv32)
  {
    match j
    case 0 => case 1 => case 2 => case 3 => case 4 => case 5 => case 6 => case 7 =>
    case 8 => case 9 => case 10 => case 11 => case 12 => case 13 => case 14 => case _ =>
  }

  lemma Row4Entries(j: bv8)
    requires j < 16
    ensures Row4(j) == EightSteps((0x40 | j) as bv32)
  {
    match j
    case 0 => case 1 => case 2 => case 3 => case 4 => case 5 => case 6 => case 7 =>
    case 8 => case 9 => case 10 => case 11 => case 12 => case 13 => case 14 => case _ =>
  }

  lemma Row5Entries(j: bv8)
    requires j < 16
    ensures Row5(j) == EightSteps((0x50 | j) as bv32)
  {
    match j
    case 0 => case 1 => case 2 => case 3 => case 4 => case 5 => case 6 => case 7 =>
    case 8 => case 9 => case 10 => case 11 => case 12 => case 13 => case 14 => case _ =>
  }

  lemma Row6Entries(j: bv8)
    requires j < 16
    ensures Row6(j) == EightSteps((0x60 | j) as bv32)
  {
    match j
    case 0 => case 1 => case 2 => case 3 => case 4 => case 5 => case 6 => case 7 =>
    case 8 => case 9 => case 10 => case 11 => case 12 => case 13 => case 14 => case _ =>
  }

  lemma Row7Entries(j: bv8)
    requires j < 16
    ensures Row7(j) == EightSteps((0x70 | j) as bv32)
  {
    match j
    case 0 => case 1 => case 2 => case 3 => case 4 => case 5 => case 6 => case 7 =>
    case 8 => case 9 => case 10 => case 11 => case 12 => case 13 => case 14 => case _ =>
  }

  lemma Row8Entries(j: bv8)
    requires j < 16
    ensures Row8(j) == EightSteps((0x80 | j) as bv32)
  {
    match j
    case 0 => case 1 => case 2 => case 3 => case 4 => case 5 => case 6 => case 7 =>
    case 8 => case 9 => case 10 => case 11 => case 12 => case 13 => case 14 => case _ =>
  }

  lemma Row9Entries(j: bv8)
    requires j < 16
    ensures Row9(j) == EightSteps((0x90 | j) as bv32)
  {
    match j
    case 0 => case 1 => case 2 => case 3 => case 4 => case 5 => case 6 => case 7 =>
    case 8 => case 9 => case 10 => case 11 => case 12 => case 13 => case 14 => case _ =>
  }

  lemma RowAEntries(j: bv8)
    requires j < 16
    ensures RowA(j) == EightSteps((0xA0 | j) as bv32)
  {
    match j
    case 0 => case 1 => case 2 => case 3 => case 4 => case 5 => case 6 => case 7 =>
    case 8 => case 9 => case 10 => case 11 => case 12 => case 13 => case 14 => case _ =>
  }

  lemma RowBEntries(j: bv8)
    requires j < 16
    ensures RowB(j) == EightSteps((0xB0 | j) as bv32)
  {
    match j
    case 0 => case 1 => case 2 => case 3 => case 4 => case 5 => case 6 => case 7 =>
    case 8 => case 9 => case 10 => case 11 => case 12 => case 13 => case 14 => case _ =>
  }

  lemma RowCEntries(j: bv8)
    requires j < 16
    ensures RowC(j) == EightSteps((0xC0 | j) as bv32)
  {
    match j
    case 0 => case 1 => case 2 => case 3 => case 4 => case 5 => case 6 => case 7 =>
    case 8 => case 9 => case 10 => case 11 => case 12 => case 13 => case 14 => case _ =>
  }

  lemma RowDEntries(j: bv8)
    requires j < 16
    ensures RowD(j) == EightSteps((0xD0 | j) as bv32)
  {
    match j
    case 0 => case 1 => case 2 => case 3 => case 4 => case 5 => case 6 => case 7 =>
    case 8 => case 9 => case 10 => case 11 => case 12 => case 13 => case 14 => case _ =>
  }

  lemma RowEEntries(j: bv8)
    requires j < 16
    ensures RowE(j) == EightSteps((0xE0 | j) as bv32)
  {
    match j
    case 0 => case 1 => case 2 => case 3 => case 4 => case 5 => case 6 => case 7 =>
    case 8 => case 9 => case 10 => case 11 => case 12 => case 13 => case 14 => case _ =>
  }

  lemma RowFEntries(j: bv8)
    requires j < 16
    ensures RowF(j) == EightSteps((0xF0 | j) as bv32)
  {
    match j
    case 0 => case 1 => case 2 => case 3 => case 4 => case 5 => case 6 => case 7 =>
    case 8 => case 9 => case 10 => case 11 => case 12 => case 13 => case 14 => case _ =>
  }

  /** The eight bit steps of one byte. */
  function Eight(x: bv32): bv32 { Repeat(BitStep, x, BITS) }

  lemma EightIsEightSteps(x: bv32)
    ensures Eight(x) == EightSteps(x)
  {
    RepeatEight(BitStep, x, BITS);
  }

  lemma Row0IsEight(i: bv8)
    requires i >> 4 == 0
    ensures Row0(i & 0x0F) == Eight(i as bv32)
  {
    Row0Entries(i & 0x0F);
    EightIsEightSteps(i as bv32);
    assert 0x00 | (i & 0x0F) == i;
  }

  lemma Row1IsEight(i: bv8)
    requires i >> 4 == 1
    ensures Row1(i & 0x0F) == Eight(i as bv32)
  {
    Row1Entries(i & 0x0F);
    EightIsEightSteps(i as bv32);
    assert 0x10 | (i & 0x0F) == i;
  }

  lemma Row2IsEight(i: bv8)
    requires i >> 4 == 2
    ensures Row2(i & 0x0F) == Eight(i as bv32)
  {
    Row2Entries(i & 0x0F);
    EightIsEightSteps(i as bv32);
    assert 0x20 | (i & 0x0F) == i;
  }

  lemma Row3IsEight(i: bv8)
    requires i >> 4 == 3
    ensures Row3(i & 0x0F) == Eight(i as bv32)
  {
    Row3Entries(i & 0x0F);
    EightIsEightSteps(i as bv32);
    assert 0x30 | (i & 0x0F) == i;
  }

  lemma Row4IsEight(i: bv8)
    requires i >> 4 == 4
    ensures Row4(i & 0x0F) == Eight(i as bv32)
  {
    Row4Entries(i & 0x0F);
    EightIsEightSteps(i as bv32);
    assert 0x40 | (i & 0x0F) == i;
  }

  lemma Row5IsEight(i: bv8)
    requires i >> 4 == 5
    ensures Row5(i & 0x0F) == Eight(i as bv32)
  {
    Row5Entries(i & 0x0F);
    EightIsEightSteps(i as bv32);
    assert 0x50 | (i & 0x0F) == i;
  }

  lemma Row6IsEight(i: bv8)
    requires i >> 4 == 6
    ensures Row6(i & 0x0F) == Eight(i as bv32)
  {
    Row6Entries(i & 0x0F);
    EightIsEightSteps(i as bv32);
    assert 0x60 | (i & 0x0F) == i;
  }

  lemma Row7IsEight(i: bv8)
    requires i >> 4 == 7
    ensures Row7(i & 0x0F) == Eight(i as bv32)
  {
    Row7Entries(i & 0x0F);
    EightIsEightSteps(i as bv32);
    assert 0x70 | (i & 0x0F) == i;
  }

  lemma Row8IsEight(i: bv8)
    requires i >> 4 == 8
    ensures Row8(i & 0x0F) == Eight(i as bv32)
  {
    Row8Entries(i & 0x0F);
    EightIsEightSteps(i as bv32);
    assert 0x80 | (i & 0x0F) == i;
  }

  lemma Row9IsEight(i: bv8)
    requires i >> 4 == 9
    ensures Row9(i & 0x0F) == Eight(i as bv32)
  {
    Row9Entries(i & 0x0F);
    EightIsEightSteps(i as bv32);
    assert 0x90 | (i & 0x0F) == i;
  }

  lemma RowAIsEight(i: bv8)
    requires i >> 4 == 10
    ensures RowA(i & 0x0F) == Eight(i as bv32)
  {
    RowAEntries(i & 0x0F);
    EightIsEightSteps(i as bv32);
    assert 0xA0 | (i & 0x0F) == i;
  }

  lemma RowBIsEight(i: bv8)
    requires i >> 4 == 11
    ensures RowB(i & 0x0F) == Eight(i as bv32)
  {
    RowBEntries(i & 0x0F);
    EightIsEightSteps(i as bv32);
    assert 0xB0 | (i & 0x0F) == i;
  }

  lemma RowCIsEight(i: bv8)
    requires i >> 4 == 12
    ensures RowC(i & 0x0F) == Eight(i as bv32)
  {
    RowCEntries(i & 0x0F);
    EightIsEightSteps(i as bv32);
    assert 0xC0 | (i & 0x0F) == i;
  }

  lemma RowDIsEight(i: bv8)
    requires i >> 4 == 13
    ensures RowD(i & 0x0F) == Eight(i as bv32)
  {
    RowDEntries(i & 0x0F);
    EightIsEightSteps(i as bv32);
    assert 0xD0 | (i & 0x0F) == i;
  }

  lemma RowEIsEight(i: bv8)
    requires i >> 4 == 14
    ensures RowE(i & 0x0F) == Eight(i as bv32)
  {
    RowEEntries(i & 0x0F);
    EightIsEightSteps(i as bv32);
    assert 0xE0 | (i & 0x0F) == i;
  }

  lemma RowFIsEight(i: bv8)
    requires i >> 4 == 15
    ensures RowF(i & 0x0F) == Eight(i as bv32)
  {
    RowFEntries(i & 0x0F);
    EightIsEightSteps(i as bv32);
    assert 0xF0 | (i & 0x0F) == i;
  }

  /** Every entry of the table is eight bit steps on its index. */
  lemma TableIsBitwise(i: bv8)
    ensures Table(i) == Eight(i as bv32)
  {
    match i >> 4
    case 0 => Row0IsEight(i);
    case 1 => Row1IsEight(i);
    case 2 => Row2IsEight(i);
    case 3 => Row3IsEight(i);
    case 4 => Row4IsEight(i);
    case 5 => Row5IsEight(i);
    case 6 => Row6IsEight(i);
    case 7 => Row7IsEight(i);
    case 8 => Row8IsEight(i);
    case 9 => Row9IsEight(i);
    case 10 => RowAIsEight(i);
    case 11 => RowBIsEight(i);
    case 12 => RowCIsEight(i);
    case 13 => RowDIsEight(i);
    case 14 => RowEIsEight(i);
    case _ => RowFIsEight(i);
  }

  // ---------- one lookup is eight bit steps ----------

  lemma HalfOfSum(x: bv32, y: bv32)
    ensures (x ^ y) >> 1 == (x >> 1) ^ (y >> 1)
  {
  }

  lemma LowBit(x: bv32)
    ensures x & 1 == 0 || x & 1 == 1
  {
  }

  lemma LowBitOfSum(x: bv32, y: bv32)
    ensures (x ^ y) & 1 == (x & 1) ^ (y & 1)
  {
  }

  lemma SumOfSums(p: bv32, x: bv32, y: bv32)
    ensures p ^ (x ^ y) == (p ^ x) ^ y == x ^ (p ^ y)
    ensures (p ^ x) ^ (p ^ y) == x ^ y
  {
  }

  lemma BitStepLinear(x: bv32, y: bv32)
    ensures BitStep(x ^ y) == BitStep(x) ^ BitStep(y)
  {
    HalfOfSum(x, y);
    LowBitOfSum(x, y);
    LowBit(x);
    LowBit(y);
    SumOfSums(POLYNOMIAL, x >> 1, y >> 1);
  }

  function Xor(x: bv32, y: bv32): bv32 { x ^ y }

  lemma XorLinear()
    ensures forall x, y :: BitStep(Xor(x, y)) == Xor(BitStep(x), BitStep(y))
  {
    forall x, y
      ensures BitStep(Xor(x, y)) == Xor(BitStep(x), BitStep(y))
    {
      BitStepLinear(x, y);
    }
  }

  /** Steps that meet no bit only shift. */
  lemma ShiftSteps(x: bv32)
    requires x & 0xFF == 0
    ensures EightSteps(x) == x >> 8
  {
  }

  lemma Halves(x: bv32)
    ensures Xor(x & 0xFF, x & 0xFFFFFF00) == x
    ensures (x & 0xFFFFFF00) & 0xFF == 0 && (x & 0xFFFFFF00) >> 8 == x >> 8
  {
  }

  lemma HighSteps(x: bv32)
    ensures Eight(x & 0xFFFFFF00) == x >> 8
  {
    Halves(x);
    ShiftSteps(x & 0xFFFFFF00);
    EightIsEightSteps(x & 0xFFFFFF00);
  }

  lemma EightSplit(x: bv32, low: bv32)
    requires low == x & 0xFF
    ensures Xor(Eight(low), x >> 8) == Eight(x)
  {
    XorLinear();
    RepeatLinear(BitStep, Xor, x & 0xFF, x & 0xFFFFFF00, BITS);
    Halves(x);
    HighSteps(x);
  }

  /** A lookup at the low byte, and a shift of the rest. */
  lemma LookupIsEightSteps(x: bv32, i: bv8)
    requires x & 0xFF == i as bv32
    ensures Xor(Table(i), x >> 8) == Eight(x)
  {
    TableIsBitwise(i);
    EightSplit(x, i as bv32);
  }

  // ---------- one byte ----------

  function Next(reg: bv32, byte: bv8): bv32 { Repeat(BitStep, WithByte(reg, byte), BITS) }

  /** One round of the table loop. */
  function TableRound(reg: bv32, byte: bv8): bv32 {
    Table(((reg ^ (byte as bv32)) & 0xFF) as bv8) ^ (reg >> 8)
  }

  lemma RoundParts(reg: bv32, byte: bv8)
    ensures (reg ^ (byte as bv32)) >> 8 == reg >> 8
    ensures (reg ^ (byte as bv32)) & 0xFF == ((reg ^ (byte as bv32)) & 0xFF) as bv8 as bv32
  {
  }

  /** A round of the table loop is one byte of the bitwise form. */
  lemma RoundIsNext(reg: bv32, byte: bv8)
    ensures TableRound(reg, byte) == Next(reg, byte)
  {
    RoundParts(reg, byte);
    LookupIsEightSteps(reg ^ (byte as bv32), ((reg ^ (byte as bv32)) & 0xFF) as bv8);
  }

  lemma BitStepInjective(x: bv32, y: bv32)
    requires BitStep(x) == BitStep(y)
    ensures x == y
  {
  }

  function WithByte(reg: bv32, byte: bv8): bv32 { reg ^ (byte as bv32) }

  lemma WithByteTells()
    ensures forall x, y, b :: WithByte(x, b) == WithByte(y, b) ==> x == y
    ensures forall x, a, b :: WithByte(x, a) == WithByte(x, b) ==> a == b
  {
  }

  // ---------- the checksum ----------

  function Invert(x: bv32): bv32 { !x }

  function Crc(crc: bv32, bytes: seq<bv8>): bv32 {
    Invert(Run(Next, Invert(crc), bytes))
  }

  lemma InvertTwiceAll()
    ensures forall x :: Invert(Invert(x)) == x
  {
  }

  lemma XorOnes(x: bv32)
    ensures x ^ 0xFFFFFFFF == Invert(x)
  {
  }

  /** `fdb_calc_crc32` */
  method CalcCrc32(crc: bv32, buf: seq<bv8>) returns (result: bv32)
    ensures result == Crc(crc, buf)
  {
    XorOnes(crc);
    forall r: bv32, b: bv8
      ensures TableRound(r, b) == Next(r, b)
    {
      RoundIsNext(r, b);
    }
    var reg := Accumulate(TableRound, Next, crc ^ 0xFFFFFFFF, buf);
    XorOnes(reg);
    result := reg ^ 0xFFFFFFFF;
  }

  /** A checksum computed piece by piece is the checksum of the whole. */
  lemma CrcChains(crc: bv32, a: seq<bv8>, b: seq<bv8>)
    ensures Crc(Crc(crc, a), b) == Crc(crc, a + b)
  {
    InvertTwiceAll();
    RunInverted(Next, Invert, crc, a, b);
  }

  lemma NextTells()
    ensures ByteRun.Injective(Next) && ByteRun.Told(Next)
  {
    WithByteTells();
    forall u: bv32, v: bv32 | BitStep(u) == BitStep(v)
      ensures u == v
    {
      BitStepInjective(u, v);
    }
    StepTells(BitStep, WithByte, Next, BITS);
  }

  /** A changed byte is always detected. */
  lemma ChangeDetected(crc: bv32, before: seq<bv8>, good: bv8, bad: bv8, after: seq<bv8>)
    requires good != bad
    ensures Crc(crc, before + [good] + after) != Crc(crc, before + [bad] + after)
  {
    NextTells();
    InvertTwiceAll();
    RunDetectsInverted(Next, Invert, crc, before, good, bad, after);
  }
}

module RecordBytes {
  import opened Crc32

  const ERASED: bv8 := 0xFF

  /** FDB_WG_ALIGN and FDB_WG_ALIGN_DOWN; `unit` is the write granularity in bytes. */
  function Align(size: nat, unit: nat): (n: nat)
    requires unit > 0
    ensures size <= n < size + unit && n % unit == 0
  {
    AlignFacts(size, unit);
    size + unit - 1 - (size + unit - 1) % unit
  }

  lemma AlignFacts(size: nat, unit: nat)
    requires unit > 0
    ensures var n := size + unit - 1 - (size + unit - 1) % unit; size <= n < size + unit && n % unit == 0
  {
    var m := size + unit - 1;
    var q := m / unit;
    assert m == q * unit + m % unit;
    Multiple(q, unit);
  }

  lemma {:induction false} Multiple(q: nat, unit: nat)
    requires unit > 0
    ensures q * unit % unit == 0
  {
    if q > 0 {
      Multiple(q - 1, unit);
      assert q * unit == (q - 1) * unit + unit;
      AddUnit((q - 1) * unit, unit);
    }
  }

  lemma AddUnit(a: nat, unit: nat)
    requires unit > 0
    ensures (a + unit) % unit == a % unit
  {
    var q, r := a / unit, a % unit;
    assert a + unit == (q + 1) * unit + r;
    QuotientUnique(a + unit, q + 1, r, unit);
  }

  lemma NextMultiple(p: nat, q: nat, unit: nat)
    requires p < q
    ensures q * unit >= p * unit + unit
  {
    assert q * unit == (q - p - 1) * unit + p * unit + unit;
  }

  lemma QuotientUnique(x: nat, q: nat, r: nat, unit: nat)
    requires unit > 0 && x == q * unit + r && r < unit
    ensures x % unit == r
  {
    var p, s := x / unit, x % unit;
    assert x == p * unit + s;
    if p < q {
      NextMultiple(p, q, unit);
    } else if q < p {
      NextMultiple(q, p, unit);
    }
  }

  function Erased(n: nat): seq<bv8> { seq(n, _ => ERASED) }

  /** What a buffer is on flash: filled up to the write granularity with erased bytes. */
  function Padded(buf: seq<bv8>, unit: nat): (p: seq<bv8>)
    requires unit > 0
    ensures |p| == Align(|buf|, unit) && buf <= p
  {
    buf + Erased(Align(|buf|, unit) - |buf|)
  }

  /** `_fdb_flash_write_align`: the bytes it programs. */
  method FlashWriteAlign(buf: seq<bv8>, unit: nat) returns (flash: seq<bv8>)
    requires unit > 0
    ensures flash == Padded(buf, unit)
  {
    var down := |buf| / unit * unit;
    var rest := |buf| - down;
    AlignDown(|buf|, unit);
    flash := buf[..down];
    if rest != 0 {
      flash := flash + buf[down..] + Erased(unit - rest);
    }
    assert buf[..down] + buf[down..] == buf;
  }

  lemma AlignDown(size: nat, unit: nat)
    requires unit > 0
    ensures var down := size / unit * unit;
      && 0 <= size - down < unit
      && Align(size, unit) == if size == down then size else down + unit
  {
    var down := size / unit * unit;
    assert size == down + size % unit;
    var n := Align(size, unit);
    Multiple(size / unit, unit);
    if size == down {
      UniqueMultiple(size, n, unit);
    } else {
      AddUnit(down, unit);
      UniqueMultiple(n, down + unit, unit);
    }
  }

  lemma UniqueMultiple(a: nat, b: nat, unit: nat)
    requires unit > 0 && a % unit == 0 && b % unit == 0 && a - unit < b < a + unit
    ensures a == b
  {
    var p, q := a / unit, b / unit;
    assert a == p * unit && b == q * unit;
    if p < q {
      NextMultiple(p, q, unit);
    } else if q < p {
      NextMultiple(q, p, unit);
    }
  }

  /** The body of a record on flash: name, then value. */
  function Body(name: seq<bv8>, value: seq<bv8>, unit: nat): seq<bv8>
    requires unit > 0
  {
    Padded(name, unit) + Padded(value, unit)
  }

  /** The padding loops of `create_kv_blob`. */
  method CrcOfErased(crc: bv32, n: nat) returns (result: bv32)
    ensures result == Crc(crc, Erased(n))
  {
    result := crc;
    assert Erased(0) == [];
    for i := 0 to n
      invariant result == Crc(crc, Erased(i))
    {
      CrcChains(crc, Erased(i), [ERASED]);
      assert Erased(i + 1) == Erased(i) + [ERASED];
      result := CalcCrc32(result, [ERASED]);
    }
  }

  method AddPadded(crc: bv32, ghost before: seq<bv8>, buf: seq<bv8>, unit: nat) returns (result: bv32)
    requires unit > 0 && crc == Crc(0, before)
    ensures result == Crc(0, before + Padded(buf, unit))
  {
    result := CalcCrc32(crc, buf);
    CrcChains(0, before, buf);
    var fill := Align(|buf|, unit) - |buf|;
    result := CrcOfErased(result, fill);
    CrcChains(0, before + buf, Erased(fill));
    assert before + buf + Erased(fill) == before + Padded(buf, unit);
  }

  method AddLengths(lengths: seq<bv8>) returns (result: bv32)
    requires |lengths| == 8
    ensures result == Crc(0, lengths)
  {
    result := CalcCrc32(0, lengths[..4]);
    result := CalcCrc32(result, lengths[4..]);
    CrcChains(0, lengths[..4], lengths[4..]);
    assert lengths[..4] + lengths[4..] == lengths;
  }

  /** The checksum `create_kv_blob` stores; `lengths` is the name and value lengths as they stand in
      the header. */
  method CreateCrc(lengths: seq<bv8>, name: seq<bv8>, value: seq<bv8>, unit: nat) returns (crc: bv32)
    requires |lengths| == 8 && unit > 0
    ensures crc == Crc(0, lengths + Body(name, value, unit))
  {
    crc := AddLengths(lengths);
    crc := AddPadded(crc, lengths, name, unit);
    crc := AddPadded(crc, lengths + Padded(name, unit), value, unit);
    assert lengths + Padded(name, unit) + Padded(value, unit) == lengths + Body(name, value, unit);
  }

  /** The checksum `read_kv` computes, 32 bytes at a time. */
  method ReadCrc(lengths: seq<bv8>, body: seq<bv8>) returns (crc: bv32)
    requires |lengths| == 8
    ensures crc == Crc(0, lengths + body)
  {
    crc := AddLengths(lengths);
    var len := 0;
    assert lengths + body[..0] == lengths;
    while len < |body|
      invariant 0 <= len <= |body|
      invariant crc == Crc(0, lengths + body[..len])
    {
      var size := if len + 32 < |body| then 32 else |body| - len;
      CrcChains(0, lengths + body[..len], body[len..len + size]);
      assert lengths + body[..len] + body[len..len + size] == lengths + body[..len + size];
      crc := CalcCrc32(crc, body[len..len + size]);
      len := len + size;
    }
    assert body[..|body|] == body;
  }

  /** With a write granularity of one bit a body ends in the last byte of its value. */
  lemma BodyEnds(name: seq<bv8>, value: seq<bv8>)
    requires value != []
    ensures Body(name, value, 1) == name + value && Body(name, value, 1)[|name| + |value| - 1] == value[|value|-1]
  {
    assert Padded(name, 1) == name && Padded(value, 1) == value;
  }

  /** A changed last byte of a stretch of flash changes the checksum over it. */
  lemma LastByteTells(lengths: seq<bv8>, bytes: seq<bv8>, from: nat, end: nat, byte: bv8)
    requires from < end <= |bytes| && byte != bytes[end-1]
    ensures Crc(0, lengths + bytes[end-1 := byte][from..end]) != Crc(0, lengths + bytes[from..end])
  {
    var before := lengths + bytes[from..end-1];
    assert lengths + bytes[from..end] == before + [bytes[end-1]] + [];
    assert lengths + bytes[end-1 := byte][from..end] == before + [byte] + [];
    ChangeDetected(0, before, bytes[end-1], byte, []);
  }

  /** Creating a record and reading it back: the checksum agrees and name and value come back, for
      every name, value and write granularity; after one byte of the body has changed, the checksum
      does not agree any more. */
  method RoundTrip(lengths: seq<bv8>, name: seq<bv8>, value: seq<bv8>, unit: nat, at: nat, byte: bv8)
    returns (ok: bool, name': seq<bv8>, value': seq<bv8>, damagedOk: bool)
    requires |lengths| == 8 && unit > 0
    requires at < |Body(name, value, unit)|
    ensures ok && name' == name && value' == value
    ensures damagedOk <==> byte == Body(name, value, unit)[at]
  {
    var stored := CreateCrc(lengths, name, value, unit);
    var first := FlashWriteAlign(name, unit);
    var second := FlashWriteAlign(value, unit);
    var body := first + second;
    var crc := ReadCrc(lengths, body);
    ok := crc == stored;
    name' := body[..|name|];
    value' := body[Align(|name|, unit)..Align(|name|, unit) + |value|];
    var damaged := body[at := byte];
    var damagedCrc := ReadCrc(lengths, damaged);
    damagedOk := damagedCrc == stored;
    assert lengths + body == (lengths + body[..at]) + [body[at]] + body[at+1..];
    assert lengths + damaged == (lengths + body[..at]) + [byte] + body[at+1..];
    if byte != body[at] {
      ChangeDetected(0, lengths + body[..at], body[at], byte, body[at+1..]);
    }
  }
}
