/** A page in memory: its byte array is overwritten in place. */
module PageBuffers {
  import opened Options
  import opened Bytes
  import opened Disk
  import opened Records
  import opened PageCodec
  import opened PoolModel
  import opened Transparency

  class PageBuffer {
    var pageId: int
    var isDirty: bool
    var isValid: bool
    const data: array<Byte>

    ghost predicate Valid()
      reads this
    {
      data.Length == PAGE_SIZE
    }

    ghost function Image(): PageData
      reads this, data
      requires Valid()
    {
      data[..]
    }

    constructor ()
      ensures Valid() && fresh(data) && !isValid && Image() == Zeros()
    {
      pageId, isDirty, isValid := -1, false, false;
      data := new Byte[PAGE_SIZE](_ => 0);
    }

    /** Writes a 32-bit integer, lowest byte first. */
    method WriteInt(off: nat, val: Int32)
      requires Valid() && off + 4 <= PAGE_SIZE
      modifies data
      ensures Image() == WriteAt(old(Image()), off, IntBytes(val))
    {
      hide BytesInt;
      var bs := IntBytes(val);
      data[off], data[off + 1], data[off + 2], data[off + 3] := bs[0], bs[1], bs[2], bs[3];
    }

    /** An empty page of the given number. */
    method Init(pid: Int32)
      requires Valid()
      modifies this, data
      ensures Valid() && Image() == InitData(pid) && pageId == pid && !isDirty && isValid
    {
      hide IntBytes, BytesInt;
      pageId, isDirty, isValid := pid, false, true;
      forall i | 0 <= i < PAGE_SIZE {
        data[i] := 0;
      }
      assert Image() == Zeros();
      WriteInt(0, pid);
      WriteInt(4, 0);
      WriteInt(8, -1);
    }

    method GetRecordCount() returns (cnt: Int32)
      requires Valid()
      ensures cnt == Count(Image())
    {
      hide BytesInt;
      cnt := BytesInt(data[4..8]);
      assert data[..][4..8] == data[4..8];
    }

    /** Writes a row into the next slot; a full page refuses it and stays as it was. */
    method AppendRow(schema: Schema, row: Row) returns (ok: bool)
      requires Valid() && ValidPage(schema, Image()) && RowMatches(schema, row)
      modifies this`isDirty, data
      ensures ok <==> PAGE_HEADER + (old(Count(Image())) + 1) * RecordSize(schema) <= PAGE_SIZE
      ensures ok <==> old(Count(Image())) < RecordsPerPage(schema)
      ensures ok ==> Image() == Appended(schema, old(Image()), EncodeRow(schema, row)) && isDirty
      ensures !ok ==> Image() == old(Image()) && isDirty == old(isDirty)
    {
      hide IntBytes, BytesInt, RecordsPerPage, EncodeRow;
      var size := RecordSize(schema);
      var cnt := GetRecordCount();
      OffsetIsProduct(size, cnt);
      FitsExactly(schema, cnt + 1);
      if cnt < RecordsPerPage(schema) {
        SlotFitsSchema(schema, cnt);
        CountFits(schema, cnt);
      }
      if cnt >= RecordsPerPage(schema) || PAGE_HEADER + cnt * size + size > PAGE_SIZE {
        return false;
      }
      Serialize(schema, row, data, Offset(size, cnt));
      WriteInt(4, cnt + 1);
      isDirty := true;
      return true;
    }

    /** The fields of a slot, or nothing outside the page's records. */
    method GetRow(schema: Schema, index: int) returns (row: Option<seq<Field>>)
      requires Valid() && ValidPage(schema, Image())
      ensures row == if 0 <= index < Count(Image()) then Some(DecodeRow(schema, Record(schema, Image(), index)))
        else None
    {
      hide IntBytes, BytesInt, RecordsPerPage, DecodeRow;
      var cnt := GetRecordCount();
      if index < 0 || index >= cnt {
        return None;
      }
      SlotFitsSchema(schema, index);
      var off := Offset(RecordSize(schema), index);
      assert data[..][off..off + RecordSize(schema)] == data[off..off + RecordSize(schema)];
      var fields := Deserialize(schema, data, off);
      return Some(fields);
    }
  }

  /** What a row reads back as once it has been appended. */
  lemma AppendThenGet(schema: Schema, d: PageData, row: Row)
    requires ValidPage(schema, d) && Count(d) < RecordsPerPage(schema) && RowMatches(schema, row)
    ensures var d' := Appended(schema, d, EncodeRow(schema, row));
      DecodeRow(schema, Record(schema, d', Count(d))) == StoredRow(schema, row)
  {
    hide IntBytes, BytesInt, RecordsPerPage, EncodeRow, DecodeRow, StoredRow;
    AppendedFacts(schema, d, EncodeRow(schema, row));
    RowRoundTrip(schema, row);
  }

  // ---------- appending through the buffer pool ----------

  /** The edit an append makes to a page's bytes, the identity on a page that cannot take it. */
  function AppendEdit(schema: Schema, rec: seq<Byte>): PageData -> PageData {
    (d: PageData) =>
      if ValidPage(schema, d) && Count(d) < RecordsPerPage(schema) && |rec| == RecordSize(schema)
      then Appended(schema, d, rec) else d
  }

  lemma BodyHasCount(d: PageData)
    ensures |Body(d)| >= 4 && Count(d) == BytesInt(Body(d)[..4]) && d[16..] == Body(d)[4..]
  {
    assert Body(d)[..4] == d[4..8];
  }

  lemma AppendedBody(schema: Schema, a: PageData, b: PageData, rec: seq<Byte>)
    requires ValidPage(schema, a) && Count(a) < RecordsPerPage(schema) && |rec| == RecordSize(schema)
    requires Body(a) == Body(b)
    ensures ValidPage(schema, b) && Count(b) == Count(a)
    ensures Body(Appended(schema, a, rec)) == Body(Appended(schema, b, rec))
  {
    hide IntBytes, BytesInt, RecordsPerPage, Count, Body, WriteAt, Offset;
    BodyHasCount(a);
    BodyHasCount(b);
    var size, n := RecordSize(schema), Count(a);
    SlotFitsSchema(schema, n);
    CountFits(schema, n);
    var off, bs := Offset(size, n), IntBytes(n + 1);
    BodyOfAppend(a, off, rec, bs);
    BodyOfAppend(b, off, rec, bs);
  }

  lemma BodyOfAppend(d: PageData, off: nat, rec: seq<Byte>, bs: seq<Byte>)
    requires PAGE_HEADER <= off && off + |rec| <= PAGE_SIZE && |bs| == 4
    ensures Body(WriteAt(WriteAt(d, off, rec), 4, bs)) == bs + WriteAt(d[16..], off - 16, rec)
  {
    var m := WriteAt(d, off, rec);
    var d' := WriteAt(m, 4, bs);
    assert d'[4..8] == bs;
    assert d'[16..] == m[16..];
    assert m[16..] == WriteAt(d[16..], off - 16, rec);
  }

  /** Appending a record depends on the page's records alone, so the pool is transparent to it. */
  lemma AppendRespectsBody(schema: Schema, rec: seq<Byte>)
    ensures RespectsBody(AppendEdit(schema, rec))
  {
    hide IntBytes, BytesInt, RecordsPerPage, Body, Appended;
    var edit := AppendEdit(schema, rec);
    forall a: PageData, b: PageData | Body(a) == Body(b)
      ensures Body(edit(a)) == Body(edit(b))
    {
      BodyHasCount(a);
      BodyHasCount(b);
      if ValidPage(schema, a) && Count(a) < RecordsPerPage(schema) && |rec| == RecordSize(schema) {
        AppendedBody(schema, a, b, rec);
      }
    }
  }
}
