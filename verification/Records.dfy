/** Schemas, fields and the byte form of a row. */
module Records {
  import opened Sequences
  import opened Bytes

  datatype FieldType = INT | FLOAT | STRING

  /** A column's type and the bytes it takes in a record. */
  datatype ColumnDef = ColumnDef(name: string, typ: FieldType, serSize: nat)

  /** Integers take four bytes and doubles eight; a string column has the size it declares. */
  predicate ValidColumn(col: ColumnDef) {
    match col.typ
    case INT => col.serSize == 4
    case FLOAT => col.serSize == 8
    case STRING => true
  }

  type Schema = seq<ColumnDef>

  predicate ValidSchema(schema: Schema) {
    forall i :: 0 <= i < |schema| ==> ValidColumn(schema[i])
  }

  function RecordSize(schema: Schema): nat {
    if schema == [] then 0 else RecordSize(schema[..|schema| - 1]) + schema[|schema| - 1].serSize
  }

  /** Longest text a string field keeps. */
  const MAX_LEN := 128

  /** A field's value: an integer, the eight bytes of a double, or a text without zero bytes. */
  datatype Field = IntField(val: Int32) | FloatField(bits: seq<Byte>) | StringField(text: seq<Byte>)

  predicate ValidField(f: Field) {
    match f
    case IntField(_) => true
    case FloatField(bits) => |bits| == 8
    case StringField(text) => |text| <= MAX_LEN && 0 !in text
  }

  /** A row's slots; one that was never set holds nothing. */
  datatype Slot = Empty | Holding(field: Field)

  type Row = seq<Slot>

  predicate Matches(col: ColumnDef, s: Slot) {
    s.Holding? ==>
      && ValidField(s.field)
      && match col.typ
         case INT => s.field.IntField?
         case FLOAT => s.field.FloatField?
         case STRING => s.field.StringField?
  }

  function SlotAt(row: Row, i: nat): Slot {
    if i < |row| then row[i] else Empty
  }

  /** Every column's slot is empty or of the column's type. */
  predicate RowMatches(schema: Schema, row: Row) {
    forall i :: 0 <= i < |schema| ==> Matches(schema[i], SlotAt(row, i))
  }

  function Zeroes(n: nat): (bs: seq<Byte>)
    ensures |bs| == n && forall i :: 0 <= i < n ==> bs[i] == 0
  {
    seq(n, i requires 0 <= i < n => 0)
  }

  /** The characters of a text that fit a column of this size with its final zero. */
  function Kept(text: seq<Byte>, serSize: nat): (kept: seq<Byte>)
    ensures kept <= text && |kept| <= serSize
    ensures serSize > 0 ==> |kept| < serSize
  {
    if serSize == 0 then [] else if |text| <= serSize - 1 then text else text[..serSize - 1]
  }

  function Encode(col: ColumnDef, s: Slot): (bs: seq<Byte>)
    requires ValidColumn(col) && Matches(col, s)
    ensures |bs| == col.serSize
  {
    match col.typ
    case INT => if s.Holding? then IntBytes(s.field.val) else Zeroes(4)
    case FLOAT => if s.Holding? then s.field.bits else Zeroes(8)
    case STRING =>
      var kept := Kept(if s.Holding? then s.field.text else [], col.serSize);
      kept + Zeroes(col.serSize - |kept|)
  }

  /** The bytes before the first zero. */
  function UpToZero(bs: seq<Byte>): (text: seq<Byte>)
    ensures text <= bs && 0 !in text
  {
    if bs == [] || bs[0] == 0 then [] else [bs[0]] + UpToZero(bs[1..])
  }

  function Decode(col: ColumnDef, bs: seq<Byte>): (f: Field)
    requires ValidColumn(col) && |bs| == col.serSize
    ensures ValidField(f)
  {
    match col.typ
    case INT => IntField(BytesInt(bs))
    case FLOAT => FloatField(bs)
    case STRING =>
      var read := UpToZero(if col.serSize < 255 then bs else bs[..255]);
      StringField(if |read| <= MAX_LEN then read else read[..MAX_LEN])
  }

  /** What a column keeps of a slot: empty slots become zero, of a text its first characters, one fewer
      than the column has bytes. */
  function Stored(col: ColumnDef, s: Slot): Field
    requires Matches(col, s)
  {
    match col.typ
    case INT => if s.Holding? then s.field else IntField(0)
    case FLOAT => if s.Holding? then s.field else FloatField(Zeroes(8))
    case STRING =>
      StringField(if s.Holding? && col.serSize > 0 then Take(s.field.text, col.serSize - 1) else [])
  }

  lemma {:induction false} UpToZeroOfPadded(text: seq<Byte>, pad: seq<Byte>)
    requires 0 !in text && (pad == [] || pad[0] == 0)
    ensures UpToZero(text + pad) == text
  {
    if text == [] {
      assert text + pad == pad;
    } else {
      assert (text + pad)[1..] == text[1..] + pad;
      UpToZeroOfPadded(text[1..], pad);
    }
  }

  lemma ZeroIsZeroes()
    ensures IntBytes(0) == Zeroes(4)
  {
  }

  lemma TextRoundTrip(col: ColumnDef, s: Slot)
    requires col.typ == STRING && Matches(col, s)
    ensures Decode(col, Encode(col, s)) == Stored(col, s)
  {
    var kept := Kept(if s.Holding? then s.field.text else [], col.serSize);
    var bs := Encode(col, s);
    var n := if col.serSize < 255 then col.serSize else 255;
    assert bs[..n] == kept + bs[|kept|..n];
    UpToZeroOfPadded(kept, bs[|kept|..n]);
    assert col.serSize < 255 ==> bs[..n] == bs;
  }

  /** Reading back a written field gives what the column keeps of it. */
  lemma FieldRoundTrip(col: ColumnDef, s: Slot)
    requires ValidColumn(col) && Matches(col, s)
    ensures Decode(col, Encode(col, s)) == Stored(col, s)
  {
    hide IntBytes, BytesInt;
    match col.typ
    case INT =>
      IntRoundTrip(if s.Holding? then s.field.val else 0);
      ZeroIsZeroes();
      IntRoundTrip(0);
    case FLOAT =>
    case STRING =>
      TextRoundTrip(col, s);
  }

  /** Of a text the column gives back the first characters, one fewer than it has bytes. */
  lemma TextIsCut(col: ColumnDef, text: seq<Byte>)
    requires col.typ == STRING && col.serSize > 0 && ValidField(StringField(text))
    ensures Decode(col, Encode(col, Holding(StringField(text)))) ==
      StringField(if |text| < col.serSize then text else text[..col.serSize - 1])
  {
    FieldRoundTrip(col, Holding(StringField(text)));
  }

  /** Whatever bytes a string column holds, they are read up to the first zero, and no more than 128. */
  lemma ReadsToZero(col: ColumnDef, bs: seq<Byte>)
    requires col.typ == STRING && |bs| == col.serSize
    ensures var f := Decode(col, bs);
      && f.StringField? && f.text <= bs && 0 !in f.text && |f.text| <= 128
      && (|f.text| < 128 && |f.text| < |bs| ==> bs[|f.text|] == 0)
  {
    StopsAtZero(if col.serSize < 255 then bs else bs[..255]);
  }

  lemma {:induction false} StopsAtZero(bs: seq<Byte>)
    ensures var n := |UpToZero(bs)|; n < |bs| ==> bs[n] == 0
  {
    if bs != [] && bs[0] != 0 {
      StopsAtZero(bs[1..]);
    }
  }

  /** The cut a column makes is idempotent: writing what was read changes no byte. */
  lemma StoredIsStable(col: ColumnDef, s: Slot)
    requires ValidColumn(col) && Matches(col, s)
    ensures Matches(col, Holding(Stored(col, s)))
    ensures Encode(col, Holding(Stored(col, s))) == Encode(col, s)
  {
    hide IntBytes, BytesInt;
    ZeroIsZeroes();
  }

  /** A text reads back as written if and only if it fits its column with the final zero, or is
      empty. */
  lemma TextSurvivesExactly(col: ColumnDef, text: seq<Byte>)
    requires col.typ == STRING && ValidField(StringField(text))
    ensures Decode(col, Encode(col, Holding(StringField(text)))) == StringField(text)
       <==> |text| < col.serSize || text == []
  {
    FieldRoundTrip(col, Holding(StringField(text)));
  }

  /** So one-byte string columns always read back empty. */
  lemma OneByteColumnsLoseEverything(col: ColumnDef, s: Slot)
    requires col.typ == STRING && col.serSize == 1 && Matches(col, s)
    ensures Decode(col, Encode(col, s)) == StringField([])
  {
    FieldRoundTrip(col, s);
  }

  // ---------- whole rows ----------

  /** The bytes of a record: its columns in order. */
  function EncodeRow(schema: Schema, row: Row): (bs: seq<Byte>)
    requires ValidSchema(schema) && RowMatches(schema, row)
    ensures |bs| == RecordSize(schema)
  {
    if schema == [] then []
    else
      var n := |schema| - 1;
      EncodeRow(schema[..n], row) + Encode(schema[n], SlotAt(row, n))
  }

  function DecodeRow(schema: Schema, bs: seq<Byte>): (fields: seq<Field>)
    requires ValidSchema(schema) && |bs| == RecordSize(schema)
    ensures |fields| == |schema|
  {
    if schema == [] then []
    else
      var n := |schema| - 1;
      var k := RecordSize(schema[..n]);
      DecodeRow(schema[..n], bs[..k]) + [Decode(schema[n], bs[k..])]
  }

  /** What a record keeps of a row. */
  function StoredRow(schema: Schema, row: Row): (fields: seq<Field>)
    requires RowMatches(schema, row)
    ensures |fields| == |schema|
    ensures forall i :: 0 <= i < |schema| ==> fields[i] == Stored(schema[i], SlotAt(row, i))
  {
    seq(|schema|, i requires 0 <= i < |schema| => Stored(schema[i], SlotAt(row, i)))
  }

  /** Reading a written record gives back the row, each field as its column keeps it. */
  lemma {:induction false} RowRoundTrip(schema: Schema, row: Row)
    requires ValidSchema(schema) && RowMatches(schema, row)
    ensures DecodeRow(schema, EncodeRow(schema, row)) == StoredRow(schema, row)
  {
    hide Encode, Decode, Stored, IntBytes, BytesInt;
    if schema == [] {
      assert StoredRow(schema, row) == [];
    } else {
      var n := |schema| - 1;
      RowRoundTrip(schema[..n], row);
      FieldRoundTrip(schema[n], SlotAt(row, n));
      var bs, k := EncodeRow(schema, row), RecordSize(schema[..n]);
      assert bs[..k] == EncodeRow(schema[..n], row) && bs[k..] == Encode(schema[n], SlotAt(row, n));
      assert StoredRow(schema, row) == StoredRow(schema[..n], row) + [Stored(schema[n], SlotAt(row, n))];
    }
  }

  /** And every text of a row comes back as far as its column keeps it. */
  lemma RowTextIsCut(schema: Schema, row: Row, i: nat, text: seq<Byte>)
    requires ValidSchema(schema) && RowMatches(schema, row)
    requires i < |schema| && schema[i].typ == STRING && schema[i].serSize > 0
    requires SlotAt(row, i) == Holding(StringField(text))
    ensures DecodeRow(schema, EncodeRow(schema, row))[i] ==
      StringField(if |text| < schema[i].serSize then text else text[..schema[i].serSize - 1])
  {
    hide EncodeRow, DecodeRow, IntBytes, BytesInt;
    RowRoundTrip(schema, row);
    assert Matches(schema[i], SlotAt(row, i));
    TextIsCut(schema[i], text);
    FieldRoundTrip(schema[i], SlotAt(row, i));
  }

  /** A column keeps what its slot holds: the slot is set, and a text fits. */
  predicate KeepsSlot(col: ColumnDef, s: Slot) {
    s.Holding? && (s.field.StringField? ==> |s.field.text| < col.serSize || s.field.text == [])
  }

  /** A record reads back as the very row that was written if and only if every column's slot is set
      and every text fits. */
  lemma RowSurvivesExactly(schema: Schema, row: Row)
    requires ValidSchema(schema) && RowMatches(schema, row)
    ensures (forall i :: 0 <= i < |schema| ==> SlotAt(row, i) == Holding(DecodeRow(schema, EncodeRow(schema, row))[i]))
       <==> (forall i :: 0 <= i < |schema| ==> KeepsSlot(schema[i], SlotAt(row, i)))
  {
    hide EncodeRow, DecodeRow;
    RowRoundTrip(schema, row);
    forall i | 0 <= i < |schema|
      ensures SlotAt(row, i) == Holding(StoredRow(schema, row)[i]) <==> KeepsSlot(schema[i], SlotAt(row, i))
    {
      StoredIsOwn(schema[i], SlotAt(row, i));
    }
  }

  lemma StoredIsOwn(col: ColumnDef, s: Slot)
    requires Matches(col, s)
    ensures s == Holding(Stored(col, s)) <==> KeepsSlot(col, s)
  {
  }

  // ---------- the code ----------

  lemma NothingWritten(d: seq<Byte>, start: nat)
    requires start <= |d|
    ensures WriteAt(d, start, []) == d
  {
  }

  /** Writes a row's bytes at a position of a buffer, column by column. */
  method Serialize(schema: Schema, row: Row, buf: array<Byte>, start: nat)
    requires ValidSchema(schema) && RowMatches(schema, row) && start + RecordSize(schema) <= buf.Length
    modifies buf
    ensures buf[..] == WriteAt(old(buf[..]), start, EncodeRow(schema, row))
  {
    hide Encode, IntBytes, BytesInt, Matches, ValidColumn, WriteAt;
    var offset := start;
    NothingWritten(buf[..], start);
    ghost var before := buf[..];
    for i := 0 to |schema|
      invariant offset == start + RecordSize(schema[..i]) <= buf.Length
      invariant buf[..] == WriteAt(before, start, EncodeRow(schema[..i], row))
    {
      PrefixFits(schema, i + 1);
      assert schema[..i + 1][..i] == schema[..i];
      var bytes := Encode(schema[i], SlotAt(row, i));
      WriteBytes(buf, offset, bytes);
      WriteNext(before, start, EncodeRow(schema[..i], row), bytes);
      offset := offset + schema[i].serSize;
    }
    assert schema[..|schema|] == schema;
  }

  method WriteBytes(buf: array<Byte>, offset: nat, bytes: seq<Byte>)
    requires offset + |bytes| <= buf.Length
    modifies buf
    ensures buf[..] == WriteAt(old(buf[..]), offset, bytes)
  {
    ghost var before := buf[..];
    for j := 0 to |bytes|
      invariant buf[..] == WriteAt(before, offset, bytes[..j])
    {
      buf[offset + j] := bytes[j];
    }
  }

  lemma WriteNext(d: seq<Byte>, start: nat, a: seq<Byte>, b: seq<Byte>)
    requires start + |a| + |b| <= |d|
    ensures WriteAt(WriteAt(d, start, a), start + |a|, b) == WriteAt(d, start, a + b)
  {
  }

  lemma {:induction false} PrefixFits(schema: Schema, i: nat)
    requires i <= |schema|
    ensures RecordSize(schema[..i]) <= RecordSize(schema)
    decreases |schema|
  {
    if i < |schema| {
      var n := |schema| - 1;
      PrefixFits(schema[..n], i);
      assert schema[..n][..i] == schema[..i];
    } else {
      assert schema[..i] == schema;
    }
  }

  lemma SliceSplits<T>(s: seq<T>, a: nat, b: nat, c: nat)
    requires a <= b <= c <= |s|
    ensures s[a..c][..b - a] == s[a..b] && s[a..c][b - a..] == s[b..c]
  {
  }

  /** Reads a record back from a position of a buffer, column by column. */
  method Deserialize(schema: Schema, buf: array<Byte>, start: nat) returns (fields: seq<Field>)
    requires ValidSchema(schema) && start + RecordSize(schema) <= buf.Length
    ensures fields == DecodeRow(schema, buf[start..start + RecordSize(schema)])
  {
    hide Decode, IntBytes, BytesInt;
    fields := [];
    var offset := start;
    for i := 0 to |schema|
      invariant offset == start + RecordSize(schema[..i]) <= buf.Length
      invariant fields == DecodeRow(schema[..i], buf[start..offset])
    {
      PrefixFits(schema, i + 1);
      assert schema[..i + 1][..i] == schema[..i];
      var next := offset + schema[i].serSize;
      assert RecordSize(schema[..i + 1]) == next - start;
      SliceSplits(buf[..], start, offset, next);
      assert buf[..][start..next] == buf[start..next] && buf[..][start..offset] == buf[start..offset];
      fields := fields + [Decode(schema[i], buf[offset..next])];
      offset := next;
    }
    assert schema[..|schema|] == schema;
  }
}
