/**
 The table-driven CRC-64: table generation, the little- and big-endian slice-by-8 loops,
 and the endianness switch. Tables are filled in place, once, on first use.
 */
module Crc64Engine {
  import opened Crc64Reference
  import opened Crc64Slices

  ghost predicate Shape(table: array2<bv64>) {
    table.Length0 == 8 && table.Length1 == 256
  }

  /* The first `rows` rows of the slicing table are filled in. */
  ghost predicate RowsFilled(table: array2<bv64>, rows: nat)
    requires Shape(table) && rows <= 8
    reads table
  {
    forall k, n :: 0 <= k < rows && 0 <= n < 256 ==> table[k, n] == Entry(k, n as bv8)
  }

  ghost predicate Filled(table: array2<bv64>)
    reads table
  {
    Shape(table) && RowsFilled(table, 8)
  }

  ghost predicate FilledReversed(table: array2<bv64>)
    reads table
  {
    Shape(table) && forall k, n :: 0 <= k < 8 && 0 <= n < 256 ==> table[k, n] == Rev8(Entry(k, n as bv8))
  }

  /* table[k][n], the column being a byte. */
  function Lookup(table: array2<bv64>, k: nat, n: bv8): bv64
    requires Shape(table) && k < 8
    reads table
  {
    table[k, n as int]
  }

  lemma LookupEntry(table: array2<bv64>, k: nat, n: bv8)
    requires Filled(table) && k < 8
    ensures Lookup(table, k, n) == Entry(k, n)
  {
    ByteIndex(n);
  }

  lemma LookupReversed(table: array2<bv64>, k: nat, n: bv8)
    requires FilledReversed(table) && k < 8
    ensures Lookup(table, k, n) == Rev8(Entry(k, n))
  {
    ByteIndex(n);
  }

  lemma ByteIndex(n: bv8)
    ensures 0 <= n as int < 256 && (n as int) as bv8 == n
  {
  }

  // ----- crc64_init

  /* CRC of the single byte `n`, bit by bit. */
  method SingleByte(n: bv8) returns (crc: bv64)
    ensures crc == Entry(0, n)
  {
    crc := Embed(n);
    for k := 0 to 8
      invariant ZeroBits(crc, 8 - k) == Entry(0, n)
    {
      ZeroBitsOne(crc, 8 - k);
      crc := if crc & 1 == 1 then Xor(POLY, crc >> 1) else crc >> 1;
    }
  }

  lemma NextRow(c: bv64, k: nat, n: bv8)
    requires c == Entry(k, n)
    ensures Xor(Entry(0, LowByte(c)), Shr8(c)) == Entry(k + 1, n)
  {
    ByteStep(c);
    ZeroBitsAdd(Embed(n), 8 * (k + 1), 8);
  }

  /* Column `n`: the byte followed by 1 to 7 zero bytes. */
  method FillColumn(table: array2<bv64>, n: int)
    requires Shape(table) && RowsFilled(table, 1) && 0 <= n < 256
    modifies table
    ensures forall k :: 0 <= k < 8 ==> table[k, n] == Entry(k, n as bv8)
    ensures forall k, j :: 0 <= k < 8 && 0 <= j < 256 && (j != n || k == 0) ==> table[k, j] == old(table[k, j])
  {
    var crc := table[0, n];
    for k := 1 to 8
      invariant crc == Entry(k - 1, n as bv8)
      invariant forall i :: 0 <= i < k ==> table[i, n] == Entry(i, n as bv8)
      invariant forall i, j :: 0 <= i < 8 && 0 <= j < 256 && (j != n || i == 0) ==> table[i, j] == old(table[i, j])
    {
      crc := NextInColumn(table, crc, k - 1, n as bv8);
      StoreCell(table, k, n, crc);
    }
  }

  method StoreCell(table: array2<bv64>, k: int, n: int, value: bv64)
    requires Shape(table) && 0 <= k < 8 && 0 <= n < 256
    modifies table
    ensures table[k, n] == value
    ensures forall i, j :: 0 <= i < 8 && 0 <= j < 256 && (i != k || j != n) ==> table[i, j] == old(table[i, j])
  {
    table[k, n] := value;
  }

  /* The byte followed by one more zero byte. */
  method NextInColumn(table: array2<bv64>, crc: bv64, k: nat, n: bv8) returns (next: bv64)
    requires Shape(table) && RowsFilled(table, 1) && crc == Entry(k, n)
    ensures next == Entry(k + 1, n)
  {
    NextRow(crc, k, n);
    ByteIndex(LowByte(crc));
    next := Xor(Lookup(table, 0, LowByte(crc)), Shr8(crc));
  }

  method StoreSingleByte(table: array2<bv64>, n: int)
    requires Shape(table) && 0 <= n < 256
    modifies table
    ensures forall k :: 0 <= k < 1 ==> table[k, n] == Entry(k, n as bv8)
    ensures forall k, j :: 0 <= k < 8 && 0 <= j < 256 && j != n ==> table[k, j] == old(table[k, j])
  {
    table[0, n] := SingleByte(n as bv8);
  }

  method FillSingleBytes(table: array2<bv64>)
    requires Shape(table)
    modifies table
    ensures RowsFilled(table, 1)
  {
    for n := 0 to 256
      invariant forall k, j :: 0 <= k < 1 && 0 <= j < n ==> table[k, j] == Entry(k, j as bv8)
    {
      StoreSingleByte(table, n);
    }
  }

  method Init(table: array2<bv64>)
    requires Shape(table)
    modifies table
    ensures Filled(table)
  {
    FillSingleBytes(table);
    for n := 0 to 256
      invariant RowsFilled(table, 1)
      invariant forall k, j :: 0 <= k < 8 && 0 <= j < n ==> table[k, j] == Entry(k, j as bv8)
    {
      FillColumn(table, n);
    }
  }

  method ReverseRow(table: array2<bv64>, k: int)
    requires Shape(table) && 0 <= k < 8
    modifies table
    ensures forall j :: 0 <= j < 256 ==> table[k, j] == Rev8(old(table[k, j]))
    ensures forall i, j :: 0 <= i < 8 && i != k && 0 <= j < 256 ==> table[i, j] == old(table[i, j])
  {
    for n := 0 to 256
      invariant forall i, j :: 0 <= i < 8 && i != k && 0 <= j < 256 ==> table[i, j] == old(table[i, j])
      invariant forall j :: 0 <= j < n ==> table[k, j] == Rev8(old(table[k, j]))
      invariant forall j :: n <= j < 256 ==> table[k, j] == old(table[k, j])
    {
      table[k, n] := Rev8(table[k, n]);
    }
  }

  method InitReversed(table: array2<bv64>)
    requires Shape(table)
    modifies table
    ensures FilledReversed(table)
  {
    Init(table);
    for k := 0 to 8
      invariant forall i, j :: 0 <= i < k && 0 <= j < 256 ==> table[i, j] == Rev8(Entry(i, j as bv8))
      invariant forall i, j :: k <= i < 8 && 0 <= j < 256 ==> table[i, j] == Entry(i, j as bv8)
    {
      ReverseRow(table, k);
    }
  }

  // ----- crc64_little, crc64_big, aos_crc64

  /* The eight look-ups of crc64_little, for the eight bytes of the register. */
  function LittleLookups(table: array2<bv64>, n0: bv8, n1: bv8, n2: bv8, n3: bv8, n4: bv8, n5: bv8, n6: bv8, n7: bv8): bv64
    requires Shape(table)
    reads table
  {
    Xor8(Lookup(table, 7, n0), Lookup(table, 6, n1), Lookup(table, 5, n2), Lookup(table, 4, n3),
         Lookup(table, 3, n4), Lookup(table, 2, n5), Lookup(table, 1, n6), Lookup(table, 0, n7))
  }

  lemma LittleLookupsAreEntries(table: array2<bv64>, n0: bv8, n1: bv8, n2: bv8, n3: bv8, n4: bv8, n5: bv8, n6: bv8, n7: bv8)
    requires Filled(table)
    ensures LittleLookups(table, n0, n1, n2, n3, n4, n5, n6, n7)
         == Xor8(Entry(7, n0), Entry(6, n1), Entry(5, n2), Entry(4, n3),
            Entry(3, n4), Entry(2, n5), Entry(1, n6), Entry(0, n7))
  {
    LookupEntry(table, 7, n0);
    LookupEntry(table, 6, n1);
    LookupEntry(table, 5, n2);
    LookupEntry(table, 4, n3);
    LookupEntry(table, 3, n4);
    LookupEntry(table, 2, n5);
    LookupEntry(table, 1, n6);
    LookupEntry(table, 0, n7);
  }

  /* The eight look-ups of crc64_big. */
  function BigLookups(table: array2<bv64>, n0: bv8, n1: bv8, n2: bv8, n3: bv8, n4: bv8, n5: bv8, n6: bv8, n7: bv8): bv64
    requires Shape(table)
    reads table
  {
    Xor8(Lookup(table, 0, n0), Lookup(table, 1, n1), Lookup(table, 2, n2), Lookup(table, 3, n3),
         Lookup(table, 4, n4), Lookup(table, 5, n5), Lookup(table, 6, n6), Lookup(table, 7, n7))
  }

  lemma BigLookupsAreEntries(table: array2<bv64>, n0: bv8, n1: bv8, n2: bv8, n3: bv8, n4: bv8, n5: bv8, n6: bv8, n7: bv8)
    requires FilledReversed(table)
    ensures BigLookups(table, n0, n1, n2, n3, n4, n5, n6, n7)
         == Xor8(Rev8(Entry(0, n0)), Rev8(Entry(1, n1)), Rev8(Entry(2, n2)), Rev8(Entry(3, n3)),
            Rev8(Entry(4, n4)), Rev8(Entry(5, n5)), Rev8(Entry(6, n6)), Rev8(Entry(7, n7)))
  {
    LookupReversed(table, 0, n0);
    LookupReversed(table, 1, n1);
    LookupReversed(table, 2, n2);
    LookupReversed(table, 3, n3);
    LookupReversed(table, 4, n4);
    LookupReversed(table, 5, n5);
    LookupReversed(table, 6, n6);
    LookupReversed(table, 7, n7);
  }

  lemma FeedNext(c: bv64, buf: seq<bv8>, i: nat)
    requires i < |buf|
    ensures Feed(c, buf[i..]) == Feed(FeedBits(c, buf[i], 8), buf[i + 1..])
  {
    assert buf[i..][1..] == buf[i + 1..];
  }

  lemma FeedNextWord(c: bv64, buf: seq<bv8>, i: nat)
    requires i + 8 <= |buf|
    ensures Feed(c, buf[i..]) == Feed(ZeroBits(Xor(c, LoadLittle(buf[i..i + 8])), 64), buf[i + 8..])
  {
    WordStep(c, buf[i..]);
    assert buf[i..][..8] == buf[i..i + 8] && buf[i..][8..] == buf[i + 8..];
  }

  method LittleByteAt(table: array2<bv64>, c: bv64, b: bv8) returns (c': bv64)
    requires Filled(table)
    ensures c' == FeedBits(c, b, 8)
  {
    LookupEntry(table, 0, LowByte(Xor(c, Embed(b))));
    LittleByteStep(c, b);
    c' := Xor(Lookup(table, 0, LowByte(Xor(c, Embed(b)))), Shr8(c));
  }

  method LittleWordAt(table: array2<bv64>, c: bv64, s: seq<bv8>) returns (c': bv64)
    requires Filled(table) && |s| == 8
    ensures c' == ZeroBits(Xor(c, LoadLittle(s)), 64)
  {
    var x := Xor(c, LoadLittle(s));
    LittleLookupsAreEntries(table, LowByte(x), LowByte(x >> 8), LowByte(x >> 16), LowByte(x >> 24),
                        LowByte(x >> 32), LowByte(x >> 40), LowByte(x >> 48), LowByte(x >> 56));
    SlicesAre64Steps(x);
    c' := LittleLookups(table, LowByte(x), LowByte(x >> 8), LowByte(x >> 16), LowByte(x >> 24),
                        LowByte(x >> 32), LowByte(x >> 40), LowByte(x >> 48), LowByte(x >> 56));
  }

  /* Bytes up to the next eight-byte boundary; `addr` is the address of buf[0]. */
  method LittleAlign(table: array2<bv64>, c: bv64, buf: seq<bv8>, i: nat, addr: nat) returns (c': bv64, i': nat)
    requires Filled(table) && i <= |buf|
    ensures i <= i' <= |buf| && Feed(c', buf[i'..]) == Feed(c, buf[i..])
    ensures i' == |buf| || (addr + i') % 8 == 0
  {
    c', i' := c, i;
    while i' < |buf| && (addr + i') % 8 != 0
      invariant i <= i' <= |buf|
      invariant Feed(c', buf[i'..]) == Feed(c, buf[i..])
    {
      FeedNext(c', buf, i');
      c' := LittleByteAt(table, c', buf[i']);
      i' := i' + 1;
    }
  }

  /* Eight bytes at a time. */
  method LittleWords(table: array2<bv64>, c: bv64, buf: seq<bv8>, i: nat) returns (c': bv64, i': nat)
    requires Filled(table) && i <= |buf|
    ensures i <= i' <= |buf| && Feed(c', buf[i'..]) == Feed(c, buf[i..])
    ensures |buf| - i' < 8
  {
    c', i' := c, i;
    while |buf| - i' >= 8
      invariant i <= i' <= |buf|
      invariant Feed(c', buf[i'..]) == Feed(c, buf[i..])
    {
      FeedNextWord(c', buf, i');
      c' := LittleWordAt(table, c', buf[i'..i' + 8]);
      i' := i' + 8;
    }
  }

  /* The bytes left over. */
  method LittleTail(table: array2<bv64>, c: bv64, buf: seq<bv8>, i: nat) returns (c': bv64, i': nat)
    requires Filled(table) && i <= |buf|
    ensures i <= i' <= |buf| && Feed(c', buf[i'..]) == Feed(c, buf[i..])
    ensures i' == |buf|
  {
    c', i' := c, i;
    while i' < |buf|
      invariant i <= i' <= |buf|
      invariant Feed(c', buf[i'..]) == Feed(c, buf[i..])
    {
      FeedNext(c', buf, i');
      c' := LittleByteAt(table, c', buf[i']);
      i' := i' + 1;
    }
  }

  method LittleLoops(table: array2<bv64>, crc: bv64, buf: seq<bv8>, addr: nat) returns (r: bv64)
    requires Filled(table)
    ensures r == Crc(crc, buf)
  {
    var c, i := LittleAlign(table, Not(crc), buf, 0, addr);
    c, i := LittleWords(table, c, buf, i);
    c, i := LittleTail(table, c, buf, i);
    assert buf[0..] == buf;
    r := Not(c);
  }

  method BigByteAt(table: array2<bv64>, r: bv64, b: bv8) returns (r': bv64)
    requires FilledReversed(table)
    ensures Rev8(r') == FeedBits(Rev8(r), b, 8)
  {
    LookupReversed(table, 0, LowByte(r >> 56) ^ b);
    BigByteStep(r, b);
    r' := Xor(Lookup(table, 0, LowByte(r >> 56) ^ b), Shl8(r));
  }

  /* One byte of the buffer. */
  method BigByteFed(table: array2<bv64>, c: bv64, buf: seq<bv8>, i: nat) returns (c': bv64)
    requires FilledReversed(table) && i < |buf|
    ensures Feed(Rev8(c'), buf[i + 1..]) == Feed(Rev8(c), buf[i..])
  {
    FeedNext(Rev8(c), buf, i);
    c' := BigByteAt(table, c, buf[i]);
  }

  method BigWordAt(table: array2<bv64>, r: bv64, s: seq<bv8>) returns (r': bv64)
    requires FilledReversed(table) && |s| == 8
    ensures Rev8(r') == ZeroBits(Xor(Rev8(r), LoadLittle(s)), 64)
  {
    BigLoad(r, s);
    var x := Xor(r, LoadBig(s));
    Rev8Involution(x);
    BigLookupsAreEntries(table, LowByte(x), LowByte(x >> 8), LowByte(x >> 16), LowByte(x >> 24),
                        LowByte(x >> 32), LowByte(x >> 40), LowByte(x >> 48), LowByte(x >> 56));
    BigWordLookups(x, Rev8(x));
    Rev8Involution(ZeroBits(Rev8(x), 64));
    r' := BigLookups(table, LowByte(x), LowByte(x >> 8), LowByte(x >> 16), LowByte(x >> 24),
                        LowByte(x >> 32), LowByte(x >> 40), LowByte(x >> 48), LowByte(x >> 56));
  }

  /* Bytes up to the next eight-byte boundary; `addr` is the address of buf[0]. */
  method BigAlign(table: array2<bv64>, c: bv64, buf: seq<bv8>, i: nat, addr: nat) returns (c': bv64, i': nat)
    requires FilledReversed(table) && i <= |buf|
    ensures i <= i' <= |buf| && Feed(Rev8(c'), buf[i'..]) == Feed(Rev8(c), buf[i..])
    ensures i' == |buf| || (addr + i') % 8 == 0
  {
    c', i' := c, i;
    while i' < |buf| && (addr + i') % 8 != 0
      invariant i <= i' <= |buf|
      invariant Feed(Rev8(c'), buf[i'..]) == Feed(Rev8(c), buf[i..])
    {
      c' := BigByteFed(table, c', buf, i');
      i' := i' + 1;
    }
  }

  /* Eight bytes at a time. */
  method BigWords(table: array2<bv64>, c: bv64, buf: seq<bv8>, i: nat) returns (c': bv64, i': nat)
    requires FilledReversed(table) && i <= |buf|
    ensures i <= i' <= |buf| && Feed(Rev8(c'), buf[i'..]) == Feed(Rev8(c), buf[i..])
    ensures |buf| - i' < 8
  {
    c', i' := c, i;
    while |buf| - i' >= 8
      invariant i <= i' <= |buf|
      invariant Feed(Rev8(c'), buf[i'..]) == Feed(Rev8(c), buf[i..])
    {
      FeedNextWord(Rev8(c'), buf, i');
      c' := BigWordAt(table, c', buf[i'..i' + 8]);
      i' := i' + 8;
    }
  }

  /* The bytes left over. */
  method BigTail(table: array2<bv64>, c: bv64, buf: seq<bv8>, i: nat) returns (c': bv64, i': nat)
    requires FilledReversed(table) && i <= |buf|
    ensures i <= i' <= |buf| && Feed(Rev8(c'), buf[i'..]) == Feed(Rev8(c), buf[i..])
    ensures i' == |buf|
  {
    c', i' := c, i;
    while i' < |buf|
      invariant i <= i' <= |buf|
      invariant Feed(Rev8(c'), buf[i'..]) == Feed(Rev8(c), buf[i..])
    {
      c' := BigByteFed(table, c', buf, i');
      i' := i' + 1;
    }
  }

  method BigLoops(table: array2<bv64>, crc: bv64, buf: seq<bv8>, addr: nat) returns (r: bv64)
    requires FilledReversed(table)
    ensures r == Crc(crc, buf)
  {
    Rev8Not(Rev8(crc));
    Rev8Involution(crc);
    var c, i := BigAlign(table, Not(Rev8(crc)), buf, 0, addr);
    c, i := BigWords(table, c, buf, i);
    c, i := BigTail(table, c, buf, i);
    assert buf[0..] == buf;
    r := Not(Rev8(c));
  }

  /** The two static tables with their run-once flags. */
  class Tables {
    const little: array2<bv64>
    const big: array2<bv64>
    var littleReady: bool
    var bigReady: bool

    ghost predicate Valid()
      reads this, little, big
    {
      && Shape(little) && Shape(big) && little != big
      && (littleReady ==> Filled(little))
      && (bigReady ==> FilledReversed(big))
    }

    constructor ()
      ensures Valid() && !littleReady && !bigReady && fresh(little) && fresh(big)
    {
      little := new bv64[8, 256];
      big := new bv64[8, 256];
      littleReady := false;
      bigReady := false;
    }

    method CrcLittle(crc: bv64, buf: seq<bv8>, addr: nat) returns (r: bv64)
      requires Valid()
      modifies this`littleReady, little
      ensures Valid() && littleReady
      ensures r == Crc(crc, buf)
    {
      if !littleReady {
        Init(little);
        littleReady := true;
      }
      r := LittleLoops(little, crc, buf, addr);
    }

    method CrcBig(crc: bv64, buf: seq<bv8>, addr: nat) returns (r: bv64)
      requires Valid()
      modifies this`bigReady, big
      ensures Valid() && bigReady
      ensures r == Crc(crc, buf)
    {
      if !bigReady {
        InitReversed(big);
        bigReady := true;
      }
      r := BigLoops(big, crc, buf, addr);
    }

    method Crc64(crc: bv64, buf: seq<bv8>, addr: nat, littleEndian: bool) returns (r: bv64)
      requires Valid()
      modifies this, little, big
      ensures Valid()
      ensures r == Crc(crc, buf)
    {
      if littleEndian {
        r := CrcLittle(crc, buf, addr);
      } else {
        r := CrcBig(crc, buf, addr);
      }
    }
  }
}
