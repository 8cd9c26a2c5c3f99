/** Fixed-slot pages: a header with the record count, then records one after another. */
module PageCodec {
  import opened Bytes
  import opened Disk
  import opened Records

  function ReadInt(d: PageData, off: nat): Int32
    requires off + 4 <= PAGE_SIZE
  {
    BytesInt(d[off..off + 4])
  }

  /** The record count in the header. */
  function Count(d: PageData): Int32 {
    ReadInt(d, 4)
  }

  /** How many records of a size fit a space; the quotient of the two, found by subtraction. */
  function Quotient(space: nat, size: nat): nat
    requires size > 0
    decreases space
  {
    if space < size then 0 else 1 + Quotient(space - size, size)
  }

  lemma {:induction false} QuotientDivides(space: nat, size: nat)
    requires size > 0
    ensures Quotient(space, size) == space / size
    decreases space
  {
    if space >= size {
      QuotientDivides(space - size, size);
      assert (space - size) / size == space / size - 1 by {
        OneLess(space, size);
      }
    }
  }

  lemma OneLess(a: nat, b: nat)
    requires 0 < b <= a
    ensures (a - b) / b == a / b - 1
  {
    var q, r := a / b, a % b;
    assert a - b == (q - 1) * b + r;
    DivisionIsUnique(b, q - 1, r);
  }

  lemma SmallMultiple(k: int, n: int)
    requires -n < k * n < n
    ensures k == 0
  {
  }

  /** Division finds the one quotient and the one remainder. */
  lemma DivisionIsUnique(n: nat, p: int, s: nat)
    requires s < n
    ensures (p * n + s) / n == p && (p * n + s) % n == s
  {
    var r := p * n + s;
    var q, t := r / n, r % n;
    assert q * n + t == r;
    assert (q - p) * n == q * n - p * n;
    SmallMultiple(q - p, n);
  }

  function RecordsPerPage(schema: Schema): nat
    requires RecordSize(schema) > 0
  {
    Quotient(PAGE_SIZE - PAGE_HEADER, RecordSize(schema))
  }

  lemma CapacityIsQuotient(schema: Schema)
    requires RecordSize(schema) > 0
    ensures RecordsPerPage(schema) == 4080 / RecordSize(schema)
  {
    QuotientDivides(4080, RecordSize(schema));
  }

  /** Where slot i begins: the slots follow one another behind the header. */
  function Offset(size: nat, i: nat): (off: nat)
    ensures off >= PAGE_HEADER
  {
    if i == 0 then PAGE_HEADER else Offset(size, i - 1) + size
  }

  lemma {:induction false} OffsetIsProduct(size: nat, i: nat)
    ensures Offset(size, i) == PAGE_HEADER + i * size
  {
    if i > 0 {
      OffsetIsProduct(size, i - 1);
      assert i * size == (i - 1) * size + size;
    }
  }

  lemma {:induction false} QuotientFits(space: nat, size: nat, n: nat)
    requires size > 0
    ensures n <= Quotient(space, size) <==> Offset(size, n) <= PAGE_HEADER + space
    decreases n
  {
    if n > 0 {
      if space >= size {
        QuotientFits(space - size, size, n - 1);
      }
    }
  }

  /** As many records fit a page as leave it within its size, and no more. */
  lemma FitsExactly(schema: Schema, n: nat)
    requires RecordSize(schema) > 0
    ensures n <= RecordsPerPage(schema) <==> PAGE_HEADER + n * RecordSize(schema) <= PAGE_SIZE
  {
    QuotientFits(PAGE_SIZE - PAGE_HEADER, RecordSize(schema), n);
    OffsetIsProduct(RecordSize(schema), n);
  }

  /** So a page has room for records at all exactly when one fits its data area. */
  lemma FitsAny(schema: Schema)
    requires RecordSize(schema) > 0
    ensures RecordsPerPage(schema) > 0 <==> RecordSize(schema) <= PAGE_SIZE - PAGE_HEADER
  {
  }

  /** The integer-division bound: slots below the page's capacity lie inside the page. */
  lemma SlotFits(size: nat, i: nat)
    requires size > 0 && i < Quotient(PAGE_SIZE - PAGE_HEADER, size)
    ensures Offset(size, i) + size <= PAGE_SIZE
  {
    QuotientFits(PAGE_SIZE - PAGE_HEADER, size, i + 1);
  }

  /** Slots do not overlap. */
  lemma {:induction false} SlotsDisjoint(size: nat, i: nat, j: nat)
    requires i < j
    ensures Offset(size, i) + size <= Offset(size, j)
    decreases j
  {
    if i < j - 1 {
      SlotsDisjoint(size, i, j - 1);
    }
  }

  /** A page whose count is within its schema's capacity. */
  predicate ValidPage(schema: Schema, d: PageData) {
    && ValidSchema(schema) && RecordSize(schema) > 0
    && 0 <= Count(d) <= RecordsPerPage(schema)
  }

  /** One more record would end within the page. */
  predicate TakesOneMore(schema: Schema, d: PageData) {
    Count(d) >= 0 && Offset(RecordSize(schema), Count(d) + 1) <= PAGE_SIZE
  }

  /** A page whose count is below the capacity is one that takes one more record. */
  lemma RoomIsSpace(schema: Schema, d: PageData)
    requires ValidPage(schema, d)
    ensures Count(d) < RecordsPerPage(schema) <==> TakesOneMore(schema, d)
  {
    hide Count;
    QuotientFits(PAGE_SIZE - PAGE_HEADER, RecordSize(schema), Count(d) + 1);
  }

  /** A page just initialised is valid and holds no records. */
  lemma InitIsEmpty(schema: Schema, pid: Int32)
    requires ValidSchema(schema) && RecordSize(schema) > 0
    ensures Count(InitData(pid)) == 0 && ValidPage(schema, InitData(pid))
  {
    hide BytesInt;
    var a := WriteAt(Zeros(), 0, IntBytes(pid));
    var b := WriteAt(a, 4, IntBytes(0));
    assert InitData(pid)[4..8] == b[4..8];
    IntRoundTrip(0);
  }

  /** The bytes of slot i. */
  function Record(schema: Schema, d: PageData, i: nat): (bs: seq<Byte>)
    requires RecordSize(schema) > 0 && i < RecordsPerPage(schema)
    ensures |bs| == RecordSize(schema)
  {
    SlotFits(RecordSize(schema), i);
    var off := Offset(RecordSize(schema), i);
    d[off..off + RecordSize(schema)]
  }

  /** The page after a record is written to the next slot and counted. */
  function Appended(schema: Schema, d: PageData, rec: seq<Byte>): PageData
    requires ValidPage(schema, d) && Count(d) < RecordsPerPage(schema) && |rec| == RecordSize(schema)
  {
    SlotFits(RecordSize(schema), Count(d));
    CountFits(schema, Count(d));
    WriteAt(WriteAt(d, Offset(RecordSize(schema), Count(d)), rec), 4, IntBytes(Count(d) + 1))
  }

  lemma CountFits(schema: Schema, n: nat)
    requires RecordSize(schema) > 0 && n < RecordsPerPage(schema)
    ensures n + 1 < 0x8000_0000
  {
    SlotFits(RecordSize(schema), n);
    OffsetGrows(RecordSize(schema), n);
  }

  lemma {:induction false} OffsetGrows(size: nat, n: nat)
    requires size > 0
    ensures n <= Offset(size, n)
  {
    if n > 0 {
      OffsetGrows(size, n - 1);
    }
  }

  /** Writing elsewhere leaves a range alone. */
  lemma WriteElsewhere(d: seq<Byte>, off: nat, bs: seq<Byte>, a: nat, b: nat)
    requires off + |bs| <= |d| && a <= b <= |d| && (b <= off || off + |bs| <= a)
    ensures WriteAt(d, off, bs)[a..b] == d[a..b]
  {
    var d' := WriteAt(d, off, bs);
    forall k | a <= k < b
      ensures d'[k] == d[k]
    {
    }
  }

  /** After an append the count is one higher, the new slot holds the record, earlier slots are
      byte for byte the same, and so is everything else in the page. */
  lemma AppendedFacts(schema: Schema, d: PageData, rec: seq<Byte>)
    requires ValidPage(schema, d) && Count(d) < RecordsPerPage(schema) && |rec| == RecordSize(schema)
    ensures var d' := Appended(schema, d, rec);
      && Count(d') == Count(d) + 1 && ValidPage(schema, d')
      && Record(schema, d', Count(d)) == rec
      && forall i :: 0 <= i < Count(d) ==> Record(schema, d', i) == Record(schema, d, i)
  {
    hide IntBytes, BytesInt, RecordsPerPage;
    var size, n := RecordSize(schema), Count(d);
    SlotFitsSchema(schema, n);
    CountFits(schema, n);
    var off := Offset(size, n);
    var m := WriteAt(d, off, rec);
    var d' := WriteAt(m, 4, IntBytes(n + 1));
    assert d' == Appended(schema, d, rec);
    assert d'[4..8] == IntBytes(n + 1);
    IntRoundTrip(n + 1);
    WriteElsewhere(m, 4, IntBytes(n + 1), off, off + size);
    assert m[off..off + size] == rec;
    forall i | 0 <= i < n
      ensures Record(schema, d', i) == Record(schema, d, i)
    {
      SlotsDisjoint(size, i, n);
      SlotFitsSchema(schema, i);
      var o := Offset(size, i);
      WriteElsewhere(d, off, rec, o, o + size);
      WriteElsewhere(m, 4, IntBytes(n + 1), o, o + size);
    }
  }

  lemma SlotFitsSchema(schema: Schema, i: nat)
    requires RecordSize(schema) > 0 && i < RecordsPerPage(schema)
    ensures Offset(RecordSize(schema), i) + RecordSize(schema) <= PAGE_SIZE
  {
    SlotFits(RecordSize(schema), i);
  }
}
