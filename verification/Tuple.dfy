/** A row as an object that owns its bytes. */
module Tuple {
  import opened Config
  import opened Bytes
  import opened RowCodec

  /** Overwrites the bytes from `at` on. */
  method Put(a: array<byte>, at: nat, bs: seq<byte>)
    requires at + |bs| <= a.Length
    modifies a
    ensures a[..] == Splice(old(a[..]), at, bs)
  {
    forall k | 0 <= k < |bs| {
      a[at + k] := bs[k];
    }
  }

  /** Writes a value that is not NULL: a string after its length, anything else
      as it is. */
  method Serialize(t: DataType, bytes: seq<byte>, a: array<byte>, at: nat)
    requires WellTyped(t, Raw(bytes)) && at + StorageSize(t, Raw(bytes)) <= a.Length
    modifies a
    ensures a[..] == Splice(old(a[..]), at, Stored(t, bytes))
  {
    if t == Varchar {
      Put(a, at, LE32(|bytes|));
      Put(a, at + 4, bytes);
    } else {
      Put(a, at, bytes);
    }
  }

  lemma SpliceZeros(b: seq<byte>, p: seq<byte>, s: seq<byte>, z: nat)
    requires |s| <= z
    ensures Splice(b + p + Zeros(z), |b| + |p|, s) == b + (p + s) + Zeros(z - |s|)
  {
  }

  lemma UpdateFront(b: seq<byte>, k: nat, v: byte, rest: seq<byte>)
    requires k < |b|
    ensures (b + rest)[k := v] == b[k := v] + rest
  {
  }

  /** Column `i` fits behind the payload before it. */
  lemma ReservedStep(schema: seq<DataType>, row: seq<Value>, i: nat)
    requires Typed(schema, row) && i < |row|
    ensures |Payload(schema, row, i)| + StorageSize(schema[i], row[i]) <= Reserved(schema, row, |row|)
  {
    hide Stored, StorageSize, WellTyped;
    PayloadFits(schema, row, i, |row|);
    PayloadFits(schema, row, i + 1, |row|);
  }

  lemma ImageOfValue(schema: seq<DataType>, row: seq<Value>, i: nat)
    requires Typed(schema, row) && i < |row| && row[i].Raw?
    ensures |Payload(schema, row, i)| + StorageSize(schema[i], row[i]) <= Reserved(schema, row, |row|)
    ensures var at := BitmapSize(|row|) + |Payload(schema, row, i)|;
            Image(schema, row, i + 1) == Splice(Image(schema, row, i), at, Stored(schema[i], row[i].bytes))
  {
    hide Stored, StorageSize, WellTyped, Splice, Reserved;
    ReservedStep(schema, row, i);
    var b, p, s := Bitmap(row, i), Payload(schema, row, i), Stored(schema[i], row[i].bytes);
    var z := Reserved(schema, row, |row|) - |p|;
    SpliceZeros(b, p, s, z);
    assert Bitmap(row, i + 1) == b && Payload(schema, row, i + 1) == p + s;
    hide Bitmap, Payload;
    assert Image(schema, row, i) == b + p + Zeros(z);
    assert Image(schema, row, i + 1) == b + (p + s) + Zeros(z - |s|);
  }

  lemma ImageOfNull(schema: seq<DataType>, row: seq<Value>, i: nat)
    requires Typed(schema, row) && i < |row| && row[i].Null?
    ensures Image(schema, row, i + 1) ==
            Image(schema, row, i)[i / 8 := SetByte(Image(schema, row, i)[i / 8], i % 8)]
  {
    hide Stored, StorageSize, WellTyped, SetByte, Reserved;
    PayloadFits(schema, row, i, |row|);
    var b, p := Bitmap(row, i), Payload(schema, row, i);
    var rest := p + Zeros(Reserved(schema, row, |row|) - |p|);
    assert Payload(schema, row, i + 1) == p;
    assert Image(schema, row, i) == b + rest;
    assert Image(schema, row, i + 1) == Bitmap(row, i + 1) + rest;
    assert i / 8 < |b|;
    UpdateFront(b, i / 8, SetByte(b[i / 8], i % 8), rest);
  }

  /** Writing column `i` turns one image of the row into the next. */
  lemma ImageStep(schema: seq<DataType>, row: seq<Value>, i: nat)
    requires Typed(schema, row) && i < |row|
    ensures |Payload(schema, row, i)| + StorageSize(schema[i], row[i]) <= Reserved(schema, row, |row|)
    ensures var at := BitmapSize(|row|) + |Payload(schema, row, i)|;
            Image(schema, row, i + 1) ==
              if row[i].Raw? then Splice(Image(schema, row, i), at, Stored(schema[i], row[i].bytes))
              else Image(schema, row, i)[i / 8 := SetByte(Image(schema, row, i)[i / 8], i % 8)]
  {
    hide Stored, StorageSize, WellTyped, SetByte, Typed, Reserved, Image, Splice;
    ReservedStep(schema, row, i);
    if row[i].Raw? {
      ImageOfValue(schema, row, i);
    } else {
      ImageOfNull(schema, row, i);
    }
  }

  /** Writes column `i`: its bit if it is NULL, otherwise its bytes at the cursor. */
  method EncodeColumn(schema: seq<DataType>, row: seq<Value>, i: nat, data: array<byte>, at: nat) returns (next: nat)
    requires Typed(schema, row) && i < |row| && data[..] == Image(schema, row, i)
    requires at == BitmapSize(|row|) + |Payload(schema, row, i)|
    modifies data
    ensures data[..] == Image(schema, row, i + 1)
    ensures next == BitmapSize(|row|) + |Payload(schema, row, i + 1)|
  {
    hide Stored, StorageSize, WellTyped, Image;
    ImageStep(schema, row, i);
    next := at;
    if row[i].Null? {
      data[i / 8] := SetByte(data[i / 8], i % 8);
    } else {
      Serialize(schema[i], row[i].bytes, data, at);
      next := at + StorageSize(schema[i], row[i]);
    }
  }

  class Tuple {
    const data: array<byte>

    /** Encodes a row: its size first, then bitmap and values, column by column. */
    constructor (schema: seq<DataType>, row: seq<Value>)
      requires Typed(schema, row) && BitmapSize(|row|) + Reserved(schema, row, |row|) < U32_LIMIT
      ensures fresh(data) && data[..] == Encoded(schema, row)
    {
      hide Stored, StorageSize, WellTyped, Image;
      var size := BitmapSize(|row|);
      for i := 0 to |row|
        invariant size == BitmapSize(|row|) + Reserved(schema, row, i)
      {
        size := size + StorageSize(schema[i], row[i]);
      }
      data := new byte[size](_ => 0);
      new;
      var at := BitmapSize(|row|);
      ImageStart(schema, row);
      for i := 0 to |row|
        invariant data[..] == Image(schema, row, i)
        invariant at == BitmapSize(|row|) + |Payload(schema, row, i)|
      {
        at := EncodeColumn(schema, row, i, data, at);
      }
    }

    /** Decodes one column; `None` means that it reaches outside the row. */
    method Value(schema: seq<DataType>, i: nat) returns (v: Option<Value>)
      requires i < |schema| && BitmapSize(|schema|) <= data.Length
      ensures v == Column(schema, data[..], i)
    {
      hide U32;
      var offset := BitmapSize(|schema|);
      for j := 0 to i
        invariant Offset(schema, data[..], j) == Some(offset)
      {
        if schema[j] == Varchar {
          if offset + 4 > data.Length {
            OffsetStuck(schema, data[..], j + 1, i);
            return None;
          }
          offset := offset + (4 + U32(data[..], offset)) % U32_LIMIT;
        } else {
          offset := offset + TypeSize(schema[j]);
        }
      }
      if Bit(data[i / 8], i % 8) {
        return Some(Null);
      }
      v := Read(schema[i], data[..], offset);
    }
  }

  lemma ImageStart(schema: seq<DataType>, row: seq<Value>)
    requires Typed(schema, row)
    ensures Image(schema, row, 0) == Zeros(BitmapSize(|row|) + Reserved(schema, row, |row|))
  {
  }

  /** A walk that leaves the row does not come back. */
  lemma {:induction false} OffsetStuck(schema: seq<DataType>, bytes: seq<byte>, j: nat, i: nat)
    requires j <= i <= |schema| && Offset(schema, bytes, j).None?
    ensures Offset(schema, bytes, i).None?
  {
    if j < i {
      OffsetStuck(schema, bytes, j, i - 1);
    }
  }
}
