/** Rows as bytes: a bitmap of NULLs, then the stored columns one after another.
    NULL columns store nothing, though their size is reserved at the end. */
module RowCodec {
  import opened Config
  import opened Bytes

  datatype DataType = Boolean | TinyInt | SmallInt | Integer | BigInt | Decimal | Timestamp | Varchar

  /** A column's value: NULL, or its stored bytes without the length prefix. */
  datatype Value = Null | Raw(bytes: seq<byte>)

  // ---------------------------------------------------------------- types and values

  function TypeSize(t: DataType): nat
    requires t != Varchar
  {
    match t
    case Boolean => 1
    case TinyInt => 1
    case SmallInt => 2
    case Integer => 4
    case BigInt => 8
    case Decimal => 8
    case Timestamp => 8
  }

  /** The bytes that stand for NULL: the least value of a number, all ones for a
      timestamp. A `TINYINT` is read back as a wider number and has none. */
  function Sentinel(t: DataType): Option<seq<byte>> {
    match t
    case Boolean => Some([0x80])
    case SmallInt => Some([0, 0x80])
    case Integer => Some([0, 0, 0, 0x80])
    case BigInt => Some([0, 0, 0, 0, 0, 0, 0, 0x80])
    case Decimal => Some([0xFF, 0xFF, 0xFF, 0xFF, 0xFF, 0xFF, 0xEF, 0xFF])
    case Timestamp => Some([0xFF, 0xFF, 0xFF, 0xFF, 0xFF, 0xFF, 0xFF, 0xFF])
    case _ => None
  }

  predicate WellTyped(t: DataType, v: Value) {
    v.Raw? ==>
      if t == Varchar then |v.bytes| + 4 < U32_LIMIT
      else |v.bytes| == TypeSize(t) && Sentinel(t) != Some(v.bytes)
  }

  predicate Typed(schema: seq<DataType>, row: seq<Value>) {
    |schema| == |row| && forall i :: 0 <= i < |row| ==> WellTyped(schema[i], row[i])
  }

  /** Bytes reserved for a value, NULL or not. */
  function StorageSize(t: DataType, v: Value): nat {
    if t != Varchar then TypeSize(t) else if v.Null? then 4 else |v.bytes| + 4
  }

  /** The bytes of a value that is not NULL. */
  function Stored(t: DataType, bytes: seq<byte>): (s: seq<byte>)
    requires WellTyped(t, Raw(bytes))
    ensures |s| == StorageSize(t, Raw(bytes))
  {
    if t == Varchar then LE32(|bytes|) + bytes else bytes
  }

  // ---------------------------------------------------------------- the null bitmap

  predicate Bit(b: nat, j: nat) {
    if j == 0 then b % 2 == 1 else Bit(b / 2, j - 1)
  }

  function Pow2(n: nat): nat {
    if n == 0 then 1 else 2 * Pow2(n - 1)
  }

  /** Bitwise or with the mask of bit `j`. */
  function SetBit(b: nat, j: nat): nat {
    if j == 0 then (if b % 2 == 1 then b else b + 1) else 2 * SetBit(b / 2, j - 1) + b % 2
  }

  lemma {:induction false} SetBitIsOr(b: nat, j: nat, l: nat)
    ensures Bit(SetBit(b, j), l) <==> l == j || Bit(b, l)
  {
    if j > 0 && l > 0 {
      SetBitIsOr(b / 2, j - 1, l - 1);
    } else if j == 0 && l > 0 {
      assert SetBit(b, j) / 2 == b / 2;
    }
  }

  lemma HalfFits(b: nat, m: nat)
    requires b < 2 * m
    ensures b / 2 < m
  {
  }

  lemma {:induction false} SetBitFits(b: nat, j: nat, n: nat)
    requires b < Pow2(n) && j < n
    ensures SetBit(b, j) < Pow2(n)
  {
    if j > 0 {
      assert Pow2(n) == 2 * Pow2(n - 1);
      HalfFits(b, Pow2(n - 1));
      SetBitFits(b / 2, j - 1, n - 1);
    }
  }

  function SetByte(b: byte, j: nat): (r: byte)
    requires j < 8
    ensures forall l :: 0 <= l < 8 ==> (Bit(r, l) <==> l == j || Bit(b, l))
  {
    assert Pow2(8) == 256;
    SetBitFits(b, j, 8);
    assert forall l :: 0 <= l < 8 ==> (Bit(SetBit(b, j), l) <==> l == j || Bit(b, l)) by {
      forall l | 0 <= l < 8
        ensures Bit(SetBit(b, j), l) <==> l == j || Bit(b, l)
      {
        SetBitIsOr(b, j, l);
      }
    }
    SetBit(b, j)
  }

  function Zeros(n: nat): seq<byte> { seq(n, _ => 0) }

  function BitmapSize(n: nat): nat { (n + 7) / 8 }

  /** The bitmap after the first `i` columns have been written. */
  function Bitmap(row: seq<Value>, i: nat): (r: seq<byte>)
    requires i <= |row|
    ensures |r| == BitmapSize(|row|)
  {
    if i == 0 then Zeros(BitmapSize(|row|))
    else
      var r := Bitmap(row, i - 1);
      if row[i - 1].Null? then r[(i - 1) / 8 := SetByte(r[(i - 1) / 8], (i - 1) % 8)] else r
  }

  predicate IsNull(bytes: seq<byte>, i: nat)
    requires i / 8 < |bytes|
  {
    Bit(bytes[i / 8], i % 8)
  }

  lemma {:induction false} BitmapIsExact(row: seq<Value>, i: nat, j: nat)
    requires i <= |row| && j < |row|
    ensures IsNull(Bitmap(row, i), j) <==> j < i && row[j].Null?
  {
    if i == 0 {
      ZeroBits(j % 8);
    } else {
      BitmapIsExact(row, i - 1, j);
      assert j == 8 * (j / 8) + j % 8;
    }
  }

  lemma {:induction false} ZeroBits(j: nat)
    ensures !Bit(0, j)
  {
    if j > 0 {
      ZeroBits(j - 1);
    }
  }

  // ---------------------------------------------------------------- encoding

  /** The stored bytes of the first `i` columns. */
  function Payload(schema: seq<DataType>, row: seq<Value>, i: nat): seq<byte>
    requires Typed(schema, row) && i <= |row|
  {
    if i == 0 then []
    else if row[i - 1].Null? then Payload(schema, row, i - 1)
    else Payload(schema, row, i - 1) + Stored(schema[i - 1], row[i - 1].bytes)
  }

  /** Bytes reserved for the first `i` columns. */
  function Reserved(schema: seq<DataType>, row: seq<Value>, i: nat): nat
    requires Typed(schema, row) && i <= |row|
  {
    if i == 0 then 0 else Reserved(schema, row, i - 1) + StorageSize(schema[i - 1], row[i - 1])
  }

  lemma {:induction false} PayloadFits(schema: seq<DataType>, row: seq<Value>, i: nat, n: nat)
    requires Typed(schema, row) && i <= n <= |row|
    ensures |Payload(schema, row, i)| <= Reserved(schema, row, i) <= Reserved(schema, row, n)
  {
    hide Stored, StorageSize, WellTyped;
    if i < n {
      PayloadFits(schema, row, i, n - 1);
    } else if i > 0 {
      PayloadFits(schema, row, i - 1, n - 1);
    }
  }

  /** The row's bytes after the first `i` columns have been written. */
  function Image(schema: seq<DataType>, row: seq<Value>, i: nat): (r: seq<byte>)
    requires Typed(schema, row) && i <= |row|
    ensures |r| == BitmapSize(|row|) + Reserved(schema, row, |row|)
  {
    PayloadFits(schema, row, i, |row|);
    Bitmap(row, i) + Payload(schema, row, i) + Zeros(Reserved(schema, row, |row|) - |Payload(schema, row, i)|)
  }

  function Encoded(schema: seq<DataType>, row: seq<Value>): seq<byte>
    requires Typed(schema, row)
  {
    Image(schema, row, |row|)
  }

  // ---------------------------------------------------------------- decoding

  /** The walk's step over a column at `at`; `None` means that a length is read
      outside the row. */
  function Next(t: DataType, bytes: seq<byte>, at: nat): Option<nat> {
    if t != Varchar then Some(at + TypeSize(t))
    else if at + 4 <= |bytes| then Some(at + (4 + U32(bytes, at)) % U32_LIMIT)
    else None
  }

  /** Where column `i` is looked for: past the sizes of all columns before it,
      NULL or not. */
  function Offset(schema: seq<DataType>, bytes: seq<byte>, i: nat): Option<nat>
    requires i <= |schema|
  {
    if i == 0 then Some(BitmapSize(|schema|))
    else
      match Offset(schema, bytes, i - 1)
      case None => None
      case Some(at) => Next(schema[i - 1], bytes, at)
  }

  /** The value read at `at`; `None` means that it reaches outside the row. */
  function Read(t: DataType, bytes: seq<byte>, at: nat): Option<Value> {
    if t == Varchar then
      if at + 4 > |bytes| then None
      else
        var len := U32(bytes, at);
        if len == 0 || len == U32_LIMIT - 1 then Some(Null)
        else if at + 4 + len > |bytes| then None
        else Some(Raw(bytes[at + 4..at + 4 + len]))
    else if at + TypeSize(t) > |bytes| then None
    else
      var raw := bytes[at..at + TypeSize(t)];
      if Sentinel(t) == Some(raw) then Some(Null) else Some(Raw(raw))
  }

  function Column(schema: seq<DataType>, bytes: seq<byte>, i: nat): Option<Value>
    requires i < |schema| && BitmapSize(|schema|) <= |bytes|
  {
    match Offset(schema, bytes, i)
    case None => None
    case Some(at) => if IsNull(bytes, i) then Some(Null) else Read(schema[i], bytes, at)
  }

  ghost predicate RoundTrips(schema: seq<DataType>, row: seq<Value>)
    requires Typed(schema, row)
  {
    forall i :: 0 <= i < |row| ==> Column(schema, Encoded(schema, row), i) == Some(row[i])
  }

  // ---------------------------------------------------------------- which bytes are NULL

  /** The number that little-endian bytes stand for. */
  function Unsigned(bytes: seq<byte>): nat {
    if bytes == [] then 0 else bytes[0] as int + 0x100 * Unsigned(bytes[1..])
  }

  lemma {:induction false} UnsignedInjective(a: seq<byte>, b: seq<byte>)
    requires |a| == |b|
    ensures Unsigned(a) == Unsigned(b) ==> a == b
  {
    if a != [] {
      UnsignedInjective(a[1..], b[1..]);
      assert a == [a[0]] + a[1..] && b == [b[0]] + b[1..];
    }
  }

  /** The bit pattern that reads as NULL: the least number of its width, the least
      double, or the greatest timestamp. */
  function NullPattern(t: DataType): Option<nat> {
    match t
    case Boolean => Some(0x80)
    case SmallInt => Some(0x8000)
    case Integer => Some(0x8000_0000)
    case BigInt => Some(0x8000_0000_0000_0000)
    case Decimal => Some(0xFFEF_FFFF_FFFF_FFFF)
    case Timestamp => Some(0xFFFF_FFFF_FFFF_FFFF)
    case _ => None
  }

  /** Appending a byte at the high end. */
  lemma {:induction false} UnsignedAppend(bytes: seq<byte>, b: byte, scale: nat)
    requires scale == Power256(|bytes|)
    ensures Unsigned(bytes + [b]) == Unsigned(bytes) + scale * b as int
    decreases |bytes|
  {
    if bytes == [] {
      assert [] + [b] == [b] && [b][1..] == [];
    } else {
      assert (bytes + [b])[1..] == bytes[1..] + [b];
      UnsignedAppend(bytes[1..], b, Power256(|bytes| - 1));
    }
  }

  function Power256(n: nat): nat {
    if n == 0 then 1 else 0x100 * Power256(n - 1)
  }

  lemma {:induction false} UnsignedRepeat(b: byte, n: nat)
    ensures Unsigned(seq(n, _ => b)) * 0xFF == b as int * (Power256(n) - 1)
  {
    if n > 0 {
      UnsignedRepeat(b, n - 1);
      assert seq(n, _ => b)[1..] == seq(n - 1, _ => b);
    }
  }

  lemma LeastPattern(k: nat)
    ensures Unsigned(seq(k, _ => 0 as byte) + [0x80]) == 0x80 * Power256(k)
  {
    hide Unsigned;
    var zeros := seq(k, _ => 0 as byte);
    UnsignedRepeat(0, k);
    UnsignedAppend(zeros, 0x80, Power256(k));
  }

  lemma LowestDouble()
    ensures Unsigned([0xFF, 0xFF, 0xFF, 0xFF, 0xFF, 0xFF, 0xEF, 0xFF]) == 0xFFEF_FFFF_FFFF_FFFF
  {
    hide Unsigned, Power256;
    Powers();
    var ones := seq(6, _ => 0xFF as byte);
    UnsignedRepeat(0xFF, 6);
    UnsignedAppend(ones, 0xEF, Power256(6));
    UnsignedAppend(ones + [0xEF], 0xFF, Power256(7));
    assert ones + [0xEF] + [0xFF] == [0xFF, 0xFF, 0xFF, 0xFF, 0xFF, 0xFF, 0xEF, 0xFF];
  }

  lemma GreatestTimestamp()
    ensures Unsigned([0xFF, 0xFF, 0xFF, 0xFF, 0xFF, 0xFF, 0xFF, 0xFF]) == 0xFFFF_FFFF_FFFF_FFFF
  {
    hide Unsigned, Power256;
    Powers();
    UnsignedRepeat(0xFF, 8);
    assert seq(8, _ => 0xFF as byte) == [0xFF, 0xFF, 0xFF, 0xFF, 0xFF, 0xFF, 0xFF, 0xFF];
  }

  lemma SentinelPattern(t: DataType)
    ensures Sentinel(t).Some? <==> NullPattern(t).Some?
    ensures Sentinel(t).Some? ==> t != Varchar && |Sentinel(t).value| == TypeSize(t)
    ensures Sentinel(t).Some? ==> Unsigned(Sentinel(t).value) == NullPattern(t).value
  {
    hide Unsigned, Power256;
    Powers();
    match t {
      case Boolean =>
        LeastPattern(0);
        assert seq(0, _ => 0 as byte) + [0x80] == Sentinel(t).value;
      case SmallInt =>
        LeastPattern(1);
        assert seq(1, _ => 0 as byte) + [0x80] == Sentinel(t).value;
      case Integer =>
        LeastPattern(3);
        assert seq(3, _ => 0 as byte) + [0x80] == Sentinel(t).value;
      case BigInt =>
        LeastPattern(7);
        assert seq(7, _ => 0 as byte) + [0x80] == Sentinel(t).value;
      case Decimal => LowestDouble();
      case Timestamp => GreatestTimestamp();
      case _ =>
    }
  }

  lemma Powers()
    ensures Power256(0) == 1 && Power256(1) == 0x100 && Power256(3) == 0x100_0000 && Power256(6) == 0x1_0000_0000_0000
    ensures Power256(7) == 0x100_0000_0000_0000 && Power256(8) == 0x1_0000_0000_0000_0000
  {
    assert Power256(2) == 0x1_0000;
    assert Power256(4) == 0x1_0000_0000;
    assert Power256(5) == 0x100_0000_0000;
  }

  /** A number is read as NULL exactly if its bits are the pattern for NULL, and a
      string exactly if its length is zero or the greatest there is. */
  lemma ReadNullIff(t: DataType, bytes: seq<byte>, at: nat)
    requires at + StorageSize(t, Null) <= |bytes|
    ensures Read(t, bytes, at) == Some(Null) <==>
            if t == Varchar then U32(bytes, at) == 0 || U32(bytes, at) == 0xFFFF_FFFF
            else NullPattern(t) == Some(Unsigned(bytes[at..at + TypeSize(t)]))
  {
    hide Unsigned;
    SentinelPattern(t);
    if t != Varchar && Sentinel(t).Some? {
      UnsignedInjective(Sentinel(t).value, bytes[at..at + TypeSize(t)]);
    }
  }

  /** The walk steps over a string by its length and four, but for the four greatest
      lengths, whose step wraps at 32 bits. */
  lemma NextOverString(bytes: seq<byte>, at: nat)
    requires at + 4 <= |bytes|
    ensures var len := U32(bytes, at);
            Next(Varchar, bytes, at) == Some(if len < 0xFFFF_FFFC then at + 4 + len else at + (len - 0xFFFF_FFFC))
  {
  }

  /** The bitmap is the fewest bytes that have a bit for every column. */
  lemma BitmapSizeIsLeast(n: nat, size: nat)
    ensures 8 * size >= n <==> size >= BitmapSize(n)
  {
  }

  // ---------------------------------------------------------------- when rows survive

  ghost predicate NullsLast(mask: seq<bool>) {
    forall i, j :: 0 <= i < j < |mask| && mask[i] ==> mask[j]
  }

  function Mask(row: seq<Value>): (m: seq<bool>)
    ensures |m| == |row| && forall i :: 0 <= i < |row| ==> m[i] == row[i].Null?
  {
    seq(|row|, i requires 0 <= i < |row| => row[i].Null?)
  }

  ghost predicate NoEmptyString(schema: seq<DataType>, row: seq<Value>)
    requires Typed(schema, row)
  {
    forall i :: 0 <= i < |row| && schema[i] == Varchar ==> row[i] != Raw([])
  }

  /** Column `i`'s bytes lie where the payload before it ends. */
  lemma {:induction false} PayloadAt(schema: seq<DataType>, row: seq<Value>, i: nat, n: nat)
    requires Typed(schema, row) && i < n <= |row| && row[i].Raw?
    ensures var s := Stored(schema[i], row[i].bytes);
            var at := |Payload(schema, row, i)|;
            at + |s| <= |Payload(schema, row, n)| && Payload(schema, row, n)[at..at + |s|] == s
  {
    hide Stored, StorageSize, WellTyped;
    if i < n - 1 {
      PayloadAt(schema, row, i, n - 1);
    }
  }

  lemma Middle(b: seq<byte>, p: seq<byte>, z: seq<byte>, at: nat, n: nat)
    requires at + n <= |p|
    ensures (b + p + z)[|b| + at..|b| + at + n] == p[at..at + n]
  {
  }

  lemma EncodedAt(schema: seq<DataType>, row: seq<Value>, i: nat)
    requires Typed(schema, row) && i < |row| && row[i].Raw?
    ensures var s := Stored(schema[i], row[i].bytes);
            var at := BitmapSize(|row|) + |Payload(schema, row, i)|;
            at + |s| <= |Encoded(schema, row)| && Encoded(schema, row)[at..at + |s|] == s
  {
    hide Stored, StorageSize, WellTyped, Payload, Reserved, Bitmap;
    PayloadAt(schema, row, i, |row|);
    PayloadFits(schema, row, |row|, |row|);
    var p := Payload(schema, row, |row|);
    Middle(Bitmap(row, |row|), p, Zeros(Reserved(schema, row, |row|) - |p|),
           |Payload(schema, row, i)|, |Stored(schema[i], row[i].bytes)|);
  }

  /** A value whose bytes lie at `at` is read back, unless it is the empty string. */
  lemma ReadBack(t: DataType, v: Value, bytes: seq<byte>, at: nat)
    requires WellTyped(t, v) && v.Raw?
    requires at + |Stored(t, v.bytes)| <= |bytes|
    requires bytes[at..at + |Stored(t, v.bytes)|] == Stored(t, v.bytes)
    ensures Read(t, bytes, at) == Some(if t == Varchar && v.bytes == [] then Null else v)
    ensures Next(t, bytes, at) == Some(at + StorageSize(t, v))
  {
    if t == Varchar {
      var s := Stored(t, v.bytes);
      assert s[..4] == LE32(|v.bytes|) && s[4..] == v.bytes;
      assert forall k :: 0 <= k < 4 ==> bytes[at + k] == bytes[at..at + |s|][k] == s[k] == LE32(|v.bytes|)[k];
      assert bytes[at + 4..at + |s|] == bytes[at..at + |s|][4..];
    }
  }

  /** With NULLs last, the payload is as long as the bytes reserved before a
      column that is not NULL. */
  lemma {:induction false} PayloadFull(schema: seq<DataType>, row: seq<Value>, i: nat)
    requires Typed(schema, row) && i <= |row| && forall j :: 0 <= j < i ==> row[j].Raw?
    ensures |Payload(schema, row, i)| == Reserved(schema, row, i)
  {
    if i > 0 {
      PayloadFull(schema, row, i - 1);
    }
  }

  /** Past the bitmap a row's byte belongs to the payload or is zero. */
  lemma EncodedByte(schema: seq<DataType>, row: seq<Value>, b: nat)
    requires Typed(schema, row) && BitmapSize(|row|) <= b < |Encoded(schema, row)|
    ensures var k := b - BitmapSize(|row|);
            Encoded(schema, row)[b] == if k < |Payload(schema, row, |row|)| then Payload(schema, row, |row|)[k] else 0
  {
  }

  /** With only NULLs from column `i` on, the payload ends before column `i`. */
  lemma {:induction false} PayloadEnds(schema: seq<DataType>, row: seq<Value>, i: nat, n: nat)
    requires Typed(schema, row) && i <= n <= |row| && forall j :: i <= j < n ==> row[j].Null?
    ensures Payload(schema, row, n) == Payload(schema, row, i)
  {
    if i < n {
      PayloadEnds(schema, row, i, n - 1);
    }
  }

  /** The walk's step over a NULL whose reserved bytes are zeros. */
  lemma NextNull(t: DataType, bytes: seq<byte>, at: nat)
    requires at + StorageSize(t, Null) <= |bytes|
    requires forall b :: at <= b < at + StorageSize(t, Null) ==> bytes[b] == 0
    ensures Next(t, bytes, at) == Some(at + StorageSize(t, Null))
  {
  }

  /** With NULLs last, the bytes reserved for a NULL are zeros. */
  lemma NullIsZeros(schema: seq<DataType>, row: seq<Value>, i: nat)
    requires Typed(schema, row) && NullsLast(Mask(row)) && i < |row| && row[i].Null?
    ensures var at := BitmapSize(|row|) + Reserved(schema, row, i);
            && at + StorageSize(schema[i], Null) <= |Encoded(schema, row)|
            && forall b :: at <= b < at + StorageSize(schema[i], Null) ==> Encoded(schema, row)[b] == 0
  {
    hide Stored, StorageSize, WellTyped, Payload, Bitmap;
    assert Reserved(schema, row, i + 1) == Reserved(schema, row, i) + StorageSize(schema[i], Null);
    hide Reserved;
    assert forall j :: i <= j < |row| ==> Mask(row)[j];
    PayloadEnds(schema, row, i, |row|);
    PayloadFits(schema, row, i, |row|);
    PayloadFits(schema, row, i + 1, |row|);
  }

  /** With NULLs last, the walk finds every column's reserved place. */
  lemma {:induction false} OffsetIsReserved(schema: seq<DataType>, row: seq<Value>, i: nat)
    requires Typed(schema, row) && NullsLast(Mask(row)) && i <= |row|
    ensures Offset(schema, Encoded(schema, row), i) == Some(BitmapSize(|row|) + Reserved(schema, row, i))
  {
    hide Encoded, Next, StorageSize, Stored, NullsLast, Read, WellTyped;
    if i > 0 {
      OffsetIsReserved(schema, row, i - 1);
      var bytes, at := Encoded(schema, row), BitmapSize(|row|) + Reserved(schema, row, i - 1);
      if row[i - 1].Raw? {
        FoundAt(schema, row, i - 1);
        ReadBack(schema[i - 1], row[i - 1], bytes, at);
      } else {
        NullIsZeros(schema, row, i - 1);
        NextNull(schema[i - 1], bytes, at);
      }
    }
  }

  /** With NULLs last, a column that is not NULL lies in its reserved place. */
  lemma FoundAt(schema: seq<DataType>, row: seq<Value>, i: nat)
    requires Typed(schema, row) && NullsLast(Mask(row)) && i < |row| && row[i].Raw?
    ensures var s := Stored(schema[i], row[i].bytes);
            var at := BitmapSize(|row|) + Reserved(schema, row, i);
            at + |s| <= |Encoded(schema, row)| && Encoded(schema, row)[at..at + |s|] == s
  {
    hide Encoded, Payload, Reserved, Stored, StorageSize, WellTyped;
    assert forall j :: 0 <= j < i ==> !Mask(row)[j];
    PayloadFull(schema, row, i);
    EncodedAt(schema, row, i);
  }

  lemma EncodedBit(schema: seq<DataType>, row: seq<Value>, i: nat)
    requires Typed(schema, row) && i < |row|
    ensures BitmapSize(|row|) <= |Encoded(schema, row)|
    ensures IsNull(Encoded(schema, row), i) <==> row[i].Null?
  {
    BitmapIsExact(row, |row|, i);
    assert Encoded(schema, row)[i / 8] == Bitmap(row, |row|)[i / 8];
  }

  /** With NULLs last, every column is read back, but for empty strings, which
      become NULL. */
  lemma ColumnReadBack(schema: seq<DataType>, row: seq<Value>, i: nat)
    requires Typed(schema, row) && NullsLast(Mask(row)) && i < |row|
    ensures Column(schema, Encoded(schema, row), i) ==
            Some(if schema[i] == Varchar && row[i] == Raw([]) then Null else row[i])
  {
    hide Encoded, Offset, Stored, NullsLast, Read, WellTyped, IsNull;
    EncodedBit(schema, row, i);
    OffsetIsReserved(schema, row, i);
    if row[i].Raw? {
      FoundAt(schema, row, i);
      ReadBack(schema[i], row[i], Encoded(schema, row), BitmapSize(|row|) + Reserved(schema, row, i));
    }
  }

  /** Rows whose NULLs come last round trip exactly if no string is empty. */
  lemma RoundTripIffNoEmptyString(schema: seq<DataType>, row: seq<Value>)
    requires Typed(schema, row) && NullsLast(Mask(row))
    ensures RoundTrips(schema, row) <==> NoEmptyString(schema, row)
  {
    forall i | 0 <= i < |row|
      ensures Column(schema, Encoded(schema, row), i) ==
              Some(if schema[i] == Varchar && row[i] == Raw([]) then Null else row[i])
    {
      ColumnReadBack(schema, row, i);
    }
  }

  // ---------------------------------------------------------------- a NULL before a value loses a row

  /** A value whose first stored byte is 1, and one that stores no byte 1. */
  function Marked(t: DataType): (v: Value)
    ensures v.Raw? && WellTyped(t, v) && |Stored(t, v.bytes)| > 0 && Stored(t, v.bytes)[0] == 1
    ensures forall k :: 0 < k < |Stored(t, v.bytes)| ==> Stored(t, v.bytes)[k] == 0
  {
    assert t != Varchar && Sentinel(t).Some? ==> Sentinel(t).value[0] != 1;
    if t == Varchar then Raw([0]) else Raw([1] + Zeros(TypeSize(t) - 1))
  }

  function Blank(t: DataType): (v: Value)
    ensures v.Raw? && WellTyped(t, v)
    ensures forall k :: 0 <= k < |Stored(t, v.bytes)| ==> Stored(t, v.bytes)[k] in {0, 2}
  {
    assert t != Varchar && Sentinel(t).Some? ==> Sentinel(t).value[|Sentinel(t).value| - 1] != 0;
    if t == Varchar then Raw([0, 0]) else Raw(Zeros(TypeSize(t)))
  }

  function Witness(schema: seq<DataType>, mask: seq<bool>, k: nat): (row: seq<Value>)
    requires |mask| == |schema|
    ensures |row| == |schema|
    ensures forall i :: 0 <= i < |row| ==>
              row[i] == if mask[i] then Null else if i == k then Marked(schema[i]) else Blank(schema[i])
  {
    seq(|schema|, i requires 0 <= i < |schema| =>
      if mask[i] then Null else if i == k then Marked(schema[i]) else Blank(schema[i]))
  }

  lemma WitnessTyped(schema: seq<DataType>, mask: seq<bool>, k: nat)
    requires |mask| == |schema|
    ensures Typed(schema, Witness(schema, mask, k))
  {
  }

  /** After the marked column's first byte every byte of the row is 0 or 2. */
  lemma {:induction false} BytesAfterMark(schema: seq<DataType>, mask: seq<bool>, k: nat, n: nat)
    requires |mask| == |schema| && k < n <= |schema| && !mask[k]
    requires Typed(schema, Witness(schema, mask, k))
    ensures var row := Witness(schema, mask, k);
            var at := |Payload(schema, row, k)|;
            && at < |Payload(schema, row, n)| && Payload(schema, row, n)[at] == 1
            && forall b :: at < b < |Payload(schema, row, n)| ==> Payload(schema, row, n)[b] in {0, 2}
  {
    hide Stored, Typed, Witness, WellTyped, StorageSize, Marked, Blank;
    var row := Witness(schema, mask, k);
    if n > k + 1 {
      BytesAfterMark(schema, mask, k, n - 1);
    }
  }

  /** In bytes that are 0, 1 or 2 the walk moves on with every column. */
  lemma {:induction false} WalkMovesOn(schema: seq<DataType>, bytes: seq<byte>, first: nat, i: nat)
    requires first < i <= |schema| && Offset(schema, bytes, first).Some?
    requires forall b :: Offset(schema, bytes, first).value <= b < |bytes| ==> bytes[b] <= 2
    ensures Offset(schema, bytes, i).Some? ==> Offset(schema, bytes, i).value > Offset(schema, bytes, first).value
  {
    if first < i - 1 {
      WalkMovesOn(schema, bytes, first, i - 1);
    }
  }

  /** The marked value is not read where the first byte is not 1. */
  lemma ReadElsewhere(t: DataType, bytes: seq<byte>, at: nat)
    requires at < |bytes| ==> bytes[at] != 1
    ensures Read(t, bytes, at) != Some(Marked(t))
  {
    if t != Varchar && at + TypeSize(t) <= |bytes| {
      assert bytes[at..at + TypeSize(t)][0] == bytes[at];
    }
  }

  /** Of a NULL at `first` with only NULLs up to column `k`, which is not NULL,
      the walk makes that column unreadable. */
  lemma WitnessLost(schema: seq<DataType>, mask: seq<bool>, first: nat, k: nat)
    requires |mask| == |schema| && first < k < |schema| && !mask[k]
    requires forall i :: 0 <= i < first ==> !mask[i]
    requires forall i :: first <= i < k ==> mask[i]
    ensures Typed(schema, Witness(schema, mask, k)) && !RoundTrips(schema, Witness(schema, mask, k))
  {
    hide Encoded, Offset, Read, IsNull, Witness, Payload;
    var row := Witness(schema, mask, k);
    var bytes := Encoded(schema, row);
    var start := BitmapSize(|row|) + |Payload(schema, row, k)|;
    WitnessTyped(schema, mask, k);
    BytesAfterMark(schema, mask, k, |schema|);
    PayloadEnds(schema, row, first, k);
    OffsetBefore(schema, row, first);
    forall b | start <= b < |bytes|
      ensures bytes[b] in {0, 1, 2} && (b > start ==> bytes[b] != 1)
    {
      EncodedByte(schema, row, b);
    }
    WalkMovesOn(schema, bytes, first, k);
    EncodedBit(schema, row, k);
    if Offset(schema, bytes, k).Some? {
      ReadElsewhere(schema[k], bytes, Offset(schema, bytes, k).value);
    }
    assert Column(schema, bytes, k) != Some(row[k]);
  }

  /** Up to the first NULL the walk is right. */
  lemma {:induction false} OffsetBefore(schema: seq<DataType>, row: seq<Value>, i: nat)
    requires Typed(schema, row) && i <= |row| && forall j :: 0 <= j < i ==> row[j].Raw?
    ensures Offset(schema, Encoded(schema, row), i) == Some(BitmapSize(|row|) + |Payload(schema, row, i)|)
  {
    hide Encoded, Next, Read, Stored, WellTyped;
    if i > 0 {
      OffsetBefore(schema, row, i - 1);
      EncodedAt(schema, row, i - 1);
      ReadBack(schema[i - 1], row[i - 1], Encoded(schema, row), BitmapSize(|row|) + |Payload(schema, row, i - 1)|);
    }
  }

  /** The first NULL, and the first value behind it. */
  lemma FirstGap(mask: seq<bool>) returns (first: nat, k: nat)
    requires !NullsLast(mask)
    ensures first < k < |mask| && !mask[k]
    ensures forall i :: 0 <= i < first ==> !mask[i]
    ensures forall i :: first <= i < k ==> mask[i]
  {
    first := 0;
    while first < |mask| && !mask[first]
      invariant first <= |mask|
      invariant forall i :: 0 <= i < first ==> !mask[i]
    {
      first := first + 1;
    }
    k := first;
    while k < |mask| && mask[k]
      invariant first <= k <= |mask|
      invariant forall i :: first <= i < k ==> mask[i]
    {
      k := k + 1;
    }
  }

  /** For a schema and a choice of NULL columns, all rows without empty strings
      round trip exactly if the NULLs come last. */
  lemma RoundTripIffNullsLast(schema: seq<DataType>, mask: seq<bool>)
    requires |mask| == |schema|
    ensures NullsLast(mask) <==>
            forall row :: Typed(schema, row) && Mask(row) == mask && NoEmptyString(schema, row) ==> RoundTrips(schema, row)
  {
    if NullsLast(mask) {
      forall row | Typed(schema, row) && Mask(row) == mask && NoEmptyString(schema, row)
        ensures RoundTrips(schema, row)
      {
        RoundTripIffNoEmptyString(schema, row);
      }
    } else {
      var first, k := FirstGap(mask);
      WitnessLost(schema, mask, first, k);
      var row := Witness(schema, mask, k);
      assert Mask(row) == mask;
    }
  }
}
