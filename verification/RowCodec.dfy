/**
 Rows as bytes: each column value at its computed offset, each row in its slot.
 */
module RowCodec {

  type byte = x: int | 0 <= x < 256

  const MAX_STRING_SIZE: nat := 16

  /** In the numeric order of the source's enumeration. */
  datatype DataType = UNDEFINED | VARCHAR_16 | INT | BOOL | FLOAT

  /** A value: nothing, a string of bytes, a 32-bit integer, a truth value, or a double given by
      the 64 bits that represent it. */
  datatype Data = Null | Str(chars: seq<byte>) | Int(i: int) | Bool(b: bool) | Double(bits: nat)

  function DataSize(t: DataType): nat {
    match t
    case UNDEFINED => 0
    case VARCHAR_16 => 16
    case INT => 4
    case BOOL => 1
    case FLOAT => 8
  }

  function TypeOf(d: Data): DataType {
    match d
    case Null => UNDEFINED
    case Str(_) => VARCHAR_16
    case Int(_) => INT
    case Bool(_) => BOOL
    case Double(_) => FLOAT
  }

  /** The values that the machine types hold; strings may be of any length here. */
  predicate InRange(d: Data) {
    && (d.Int? ==> -0x8000_0000 <= d.i < 0x8000_0000)
    && (d.Double? ==> d.bits < 0x1_0000_0000_0000_0000)
  }

  // ---------------------------------------------------------------- machine words

  /** The `n` low-order bytes of `w`, least significant first. */
  function ToBytes(w: nat, n: nat): (r: seq<byte>)
    ensures |r| == n
  {
    if n == 0 then [] else [w % 256] + ToBytes(w / 256, n - 1)
  }

  function FromBytes(s: seq<byte>): nat {
    if s == [] then 0 else s[0] + 256 * FromBytes(s[1..])
  }

  function Limit(n: nat): nat {
    if n == 0 then 1 else 256 * Limit(n - 1)
  }

  lemma {:induction false} WordRoundTrip(w: nat, n: nat)
    requires w < Limit(n)
    ensures FromBytes(ToBytes(w, n)) == w
  {
    if n > 0 {
      WordRoundTrip(w / 256, n - 1);
      assert ToBytes(w, n)[1..] == ToBytes(w / 256, n - 1);
    }
  }

  /** Byte `k` is the digit of place `k` in base 256. */
  lemma {:induction false} ByteAt(w: nat, n: nat, k: nat)
    requires k < n
    ensures Limit(k) > 0 && ToBytes(w, n)[k] == w / Limit(k) % 256
  {
    if k > 0 {
      ByteAt(w / 256, n - 1, k - 1);
      DivideTwice(w, Limit(k - 1));
    }
  }

  lemma DivideTwice(w: nat, b: nat)
    requires b > 0
    ensures w / 256 / b == w / (256 * b)
  {
    var q := w / 256 / b;
    assert q * b <= w / 256 < q * b + b;
    assert 256 * (w / 256) <= w < 256 * (w / 256) + 256;
    QuotientIs(w, 256 * b, q);
  }

  lemma QuotientIs(w: nat, d: nat, q: nat)
    requires d > 0 && q * d <= w < q * d + d
    ensures w / d == q
  {
    var p := w / d;
    assert p * d <= w < p * d + d;
    NextMultiple(p, q, d);
    NextMultiple(q, p, d);
  }

  lemma NextMultiple(p: nat, q: nat, d: nat)
    ensures p < q ==> p * d + d <= q * d
  {
    if p < q {
      assert (p + 1) * d <= q * d;
    }
  }

  function IntToWord(i: int): nat
    requires -0x8000_0000 <= i < 0x8000_0000
  {
    if i < 0 then i + 0x1_0000_0000 else i
  }

  function WordToInt(w: nat): int {
    if w >= 0x8000_0000 then w - 0x1_0000_0000 else w
  }

  // ---------------------------------------------------------------- one value

  function Zeros(n: nat): seq<byte> {
    seq(n, _ => 0)
  }

  predicate Writable(d: Data) {
    d.Str? ==> |d.chars| <= MAX_STRING_SIZE
  }

  /** The bytes that `write_to_bytes` stores. */
  function Encode(d: Data): (r: seq<byte>)
    requires Writable(d) && InRange(d)
    ensures |r| == DataSize(TypeOf(d))
  {
    match d
    case Null => []
    case Str(chars) => chars + Zeros(MAX_STRING_SIZE - |chars|)
    case Int(i) => ToBytes(IntToWord(i), 4)
    case Bool(b) => [if b then 1 else 0]
    case Double(bits) => ToBytes(bits, 8)
  }

  /** The stored bytes: the characters and then NULs up to 16; the four bytes of an integer in two's
      complement, or the eight of a double, the least significant first; one byte for a truth value. */
  lemma EncodedBytes(d: Data, k: nat)
    requires Writable(d) && InRange(d) && k < |Encode(d)|
    ensures Limit(k) > 0
    ensures d.Str? ==> |Encode(d)| == 16 && Encode(d)[k] == if k < |d.chars| then d.chars[k] else 0
    ensures d.Int? ==> |Encode(d)| == 4 && Encode(d)[k] == d.i % 0x1_0000_0000 / Limit(k) % 256
    ensures d.Bool? ==> Encode(d) == [if d.b then 1 else 0]
    ensures d.Double? ==> |Encode(d)| == 8 && Encode(d)[k] == d.bits / Limit(k) % 256
  {
    match d
    case Int(i) =>
      ByteAt(IntToWord(i), 4, k);
      assert IntToWord(i) == i % 0x1_0000_0000;
    case Double(bits) =>
      ByteAt(bits, 8, k);
    case _ =>
      LimitPositive(k);
  }

  lemma {:induction false} LimitPositive(k: nat)
    ensures Limit(k) > 0
  {
    if k > 0 {
      LimitPositive(k - 1);
    }
  }

  /** The characters before the first NUL. */
  function UpToNul(s: seq<byte>): (r: seq<byte>)
    ensures r <= s && 0 !in r && (|r| < |s| ==> s[|r|] == 0)
  {
    if s == [] || s[0] == 0 then [] else [s[0]] + UpToNul(s[1..])
  }

  /** What `read_data` makes of the bytes of a column. */
  function Decode(t: DataType, s: seq<byte>): Data
    requires |s| == DataSize(t)
  {
    match t
    case UNDEFINED => Null
    case VARCHAR_16 => Str(UpToNul(s))
    case INT => Int(WordToInt(FromBytes(s)))
    case BOOL => Bool(s[0] != 0)
    case FLOAT => Double(FromBytes(s))
  }

  lemma {:induction false} UpToNulPadded(s: seq<byte>, n: nat)
    ensures UpToNul(s + Zeros(n)) == UpToNul(s)
  {
    if s == [] {
      assert s + Zeros(n) == Zeros(n);
    } else {
      assert (s + Zeros(n))[1..] == s[1..] + Zeros(n);
      UpToNulPadded(s[1..], n);
    }
  }

  lemma UpToNulWhole(s: seq<byte>)
    ensures UpToNul(s) == s <==> 0 !in s
  {
    var r := UpToNul(s);
    assert |r| < |s| ==> s[|r|] in s;
  }

  /** A value survives storage exactly if it is not a string with a NUL in it. */
  lemma ValueRoundTrip(d: Data)
    requires Writable(d) && InRange(d)
    ensures Decode(TypeOf(d), Encode(d)) == d <==> (d.Str? ==> 0 !in d.chars)
  {
    match d
    case Str(chars) =>
      UpToNulPadded(chars, MAX_STRING_SIZE - |chars|);
      UpToNulWhole(chars);
    case Int(i) =>
      assert Limit(4) == 0x1_0000_0000 by {
        assert Limit(1) == 256 && Limit(2) == 256 * Limit(1) && Limit(3) == 256 * Limit(2);
      }
      WordRoundTrip(IntToWord(i), 4);
    case Double(bits) =>
      assert Limit(8) == 0x1_0000_0000_0000_0000 by {
        assert Limit(2) == 256 * Limit(1) && Limit(3) == 256 * Limit(2) && Limit(4) == 256 * Limit(3);
        assert Limit(5) == 256 * Limit(4) && Limit(6) == 256 * Limit(5) && Limit(7) == 256 * Limit(6);
      }
      WordRoundTrip(bits, 8);
    case _ =>
  }

  // ---------------------------------------------------------------- one row

  function RowSize(types: seq<DataType>): nat {
    if types == [] then 0 else DataSize(types[0]) + RowSize(types[1..])
  }

  /** A row takes 16 bytes for each string, 4 for each integer, 1 for each truth value and 8 for each
      double, in whatever order the columns stand. */
  lemma {:induction false} RowSizeIs(types: seq<DataType>)
    ensures var n := multiset(types);
            RowSize(types) == 16 * n[VARCHAR_16] + 4 * n[INT] + n[BOOL] + 8 * n[FLOAT]
  {
    if types != [] {
      RowSizeIs(types[1..]);
      assert types == [types[0]] + types[1..];
    }
  }

  /** Where column `i` starts within its row. */
  function Offset(types: seq<DataType>, i: nat): nat
    requires i <= |types|
  {
    RowSize(types[..i])
  }

  /** A row with one value per column, of the column's type; strings are free of NULs. */
  predicate RowTyped(types: seq<DataType>, row: seq<Data>) {
    |row| == |types| && forall i :: 0 <= i < |row| ==> ValueTyped(types[i], row[i])
  }

  predicate ValueTyped(t: DataType, d: Data) {
    TypeOf(d) == t && InRange(d) && (d.Str? ==> 0 !in d.chars)
  }

  /** No string is too long to store. */
  predicate RowWritable(row: seq<Data>) {
    forall i :: 0 <= i < |row| ==> Writable(row[i])
  }

  predicate RowOk(types: seq<DataType>, row: seq<Data>) {
    RowTyped(types, row) && RowWritable(row)
  }

  function EncodeRow(types: seq<DataType>, row: seq<Data>): (r: seq<byte>)
    requires RowOk(types, row)
    ensures |r| == RowSize(types)
  {
    if types == [] then [] else Encode(row[0]) + EncodeRow(types[1..], row[1..])
  }

  function DecodeRow(types: seq<DataType>, s: seq<byte>): (r: seq<Data>)
    requires |s| == RowSize(types)
    ensures |r| == |types|
  {
    if types == [] then []
    else [Decode(types[0], s[..DataSize(types[0])])] + DecodeRow(types[1..], s[DataSize(types[0])..])
  }

  lemma {:induction false} RowRoundTrip(types: seq<DataType>, row: seq<Data>)
    requires RowOk(types, row)
    ensures DecodeRow(types, EncodeRow(types, row)) == row
  {
    if types != [] {
      var e := Encode(row[0]);
      ValueRoundTrip(row[0]);
      RowRoundTrip(types[1..], row[1..]);
      assert ValueTyped(types[0], row[0]);
      assert (e + EncodeRow(types[1..], row[1..]))[..DataSize(types[0])] == e;
      assert (e + EncodeRow(types[1..], row[1..]))[DataSize(types[0])..] == EncodeRow(types[1..], row[1..]);
    }
  }

  lemma {:induction false} OffsetStep(types: seq<DataType>, i: nat)
    requires i < |types|
    ensures Offset(types, i + 1) == Offset(types, i) + DataSize(types[i])
  {
    if i == 0 {
      assert types[..1][1..] == [];
    } else {
      OffsetStep(types[1..], i - 1);
      assert types[..i + 1][1..] == types[1..][..i] && types[..i][1..] == types[1..][..i - 1];
    }
  }

  lemma OffsetTail(types: seq<DataType>, i: nat)
    requires 0 < i <= |types|
    ensures Offset(types, i) == DataSize(types[0]) + Offset(types[1..], i - 1)
  {
    assert types[..i][1..] == types[1..][..i - 1];
  }

  lemma {:induction false} OffsetWithin(types: seq<DataType>, i: nat)
    requires i < |types|
    ensures Offset(types, i) + DataSize(types[i]) <= RowSize(types)
  {
    if i > 0 {
      OffsetWithin(types[1..], i - 1);
      OffsetTail(types, i);
    }
  }

  /** The bytes of column `i` of a row. */
  function ColumnBytes(types: seq<DataType>, s: seq<byte>, i: nat): (r: seq<byte>)
    requires i < |types| && |s| == RowSize(types)
    ensures |r| == DataSize(types[i])
  {
    OffsetWithin(types, i);
    s[Offset(types, i)..Offset(types, i) + DataSize(types[i])]
  }

  lemma ColumnTail(types: seq<DataType>, s: seq<byte>, i: nat)
    requires 0 < i < |types| && |s| == RowSize(types)
    ensures ColumnBytes(types, s, i) == ColumnBytes(types[1..], s[DataSize(types[0])..], i - 1)
  {
    OffsetTail(types, i);
    OffsetWithin(types, i);
  }

  /** Reading one column at its offset is decoding the row and taking that column. */
  lemma {:induction false} ColumnOfRow(types: seq<DataType>, s: seq<byte>, i: nat)
    requires i < |types| && |s| == RowSize(types)
    ensures Decode(types[i], ColumnBytes(types, s, i)) == DecodeRow(types, s)[i]
  {
    if i > 0 {
      ColumnTail(types, s, i);
      ColumnOfRow(types[1..], s[DataSize(types[0])..], i - 1);
    }
  }

  lemma RowOkConcat(t1: seq<DataType>, r1: seq<Data>, t2: seq<DataType>, r2: seq<Data>)
    requires RowOk(t1, r1) && RowOk(t2, r2)
    ensures RowOk(t1 + t2, r1 + r2)
  {
  }

  lemma {:induction false} EncodeConcat(t1: seq<DataType>, r1: seq<Data>, t2: seq<DataType>, r2: seq<Data>)
    requires RowOk(t1, r1) && RowOk(t2, r2) && RowOk(t1 + t2, r1 + r2)
    ensures EncodeRow(t1 + t2, r1 + r2) == EncodeRow(t1, r1) + EncodeRow(t2, r2)
  {
    if t1 == [] {
      assert t1 + t2 == t2 && r1 + r2 == r2;
    } else {
      assert (t1 + t2)[1..] == t1[1..] + t2 && (r1 + r2)[1..] == r1[1..] + r2;
      EncodeConcat(t1[1..], r1[1..], t2, r2);
    }
  }

  /** The encoding of one more column goes at the end. */
  lemma EncodeNext(types: seq<DataType>, row: seq<Data>, t: DataType, d: Data)
    requires RowOk(types, row) && ValueTyped(t, d) && Writable(d)
    ensures RowOk(types + [t], row + [d])
    ensures EncodeRow(types + [t], row + [d]) == EncodeRow(types, row) + Encode(d)
  {
    RowOkConcat(types, row, [t], [d]);
    EncodeConcat(types, row, [t], [d]);
    assert [t][1..] == [] && [d][1..] == [];
    assert EncodeRow([t], [d]) == Encode(d) + EncodeRow([], []);
  }

  // ---------------------------------------------------------------- writing in place

  /** `s` with `b` written at `at`. */
  function Splice(s: seq<byte>, at: nat, b: seq<byte>): (r: seq<byte>)
    requires at + |b| <= |s|
    ensures |r| == |s|
  {
    s[..at] + b + s[at + |b|..]
  }

  /** Store one value; false stands for the exception on a string that is too long. */
  method WriteToBytes(d: Data, buf: array<byte>, at: nat) returns (ok: bool)
    requires InRange(d) && at + DataSize(TypeOf(d)) <= buf.Length
    modifies buf
    ensures ok <==> Writable(d)
    ensures ok ==> buf[..] == Splice(old(buf[..]), at, Encode(d))
    ensures !ok ==> buf[..] == old(buf[..])
  {
    if d.Str? && |d.chars| > MAX_STRING_SIZE {
      return false;
    }
    var bytes := Encode(d);
    var i := 0;
    while i < |bytes|
      invariant i <= |bytes|
      invariant forall k :: 0 <= k < at || at + i <= k < buf.Length ==> buf[k] == old(buf[k])
      invariant forall k :: 0 <= k < i ==> buf[at + k] == bytes[k]
    {
      buf[at + i] := bytes[i];
      i := i + 1;
    }
    return true;
  }

  /** `s` with the first `n` columns of the row written at `at`. */
  ghost predicate Written(s: seq<byte>, s': seq<byte>, at: nat, types: seq<DataType>, row: seq<Data>, n: nat) {
    && n <= |types| == |row| && RowOk(types[..n], row[..n]) && at + Offset(types, n) <= |s|
    && s' == Splice(s, at, EncodeRow(types[..n], row[..n]))
  }

  lemma WrittenNext(s: seq<byte>, s1: seq<byte>, at: nat, types: seq<DataType>, row: seq<Data>, n: nat)
    requires Written(s, s1, at, types, row, n) && n < |types|
    requires ValueTyped(types[n], row[n]) && Writable(row[n]) && at + Offset(types, n + 1) <= |s|
    requires Offset(types, n + 1) == Offset(types, n) + DataSize(types[n])
    ensures Written(s, Splice(s1, at + Offset(types, n), Encode(row[n])), at, types, row, n + 1)
  {
    assert row[..n + 1] == row[..n] + [row[n]] && types[..n + 1] == types[..n] + [types[n]];
    EncodeNext(types[..n], row[..n], types[n], row[n]);
    SpliceMore(s, at, EncodeRow(types[..n], row[..n]), Encode(row[n]));
  }

  /** Store a row, column after column; false stands for the exception on a string too long. */
  method WriteRow(types: seq<DataType>, row: seq<Data>, buf: array<byte>, start: nat) returns (ok: bool)
    requires RowTyped(types, row) && start + RowSize(types) <= buf.Length
    modifies buf
    ensures ok <==> RowWritable(row)
    ensures ok ==> buf[..] == Splice(old(buf[..]), start, EncodeRow(types, row))
  {
    var startingByte := start;
    var col := 0;
    ghost var was := buf[..];
    while col < |types|
      invariant col <= |types| && startingByte == start + Offset(types, col)
      invariant Written(was, buf[..], start, types, row, col)
    {
      ghost var now := buf[..];
      OffsetStep(types, col);
      OffsetWithin(types, col);
      assert ValueTyped(types[col], row[col]);
      ok := WriteToBytes(row[col], buf, startingByte);
      if !ok {
        return;
      }
      WrittenNext(was, now, start, types, row, col);
      startingByte := startingByte + DataSize(types[col]);
      col := col + 1;
    }
    ok := true;
    WrittenAll(was, buf[..], start, types, row);
  }

  lemma WrittenAll(s: seq<byte>, s': seq<byte>, at: nat, types: seq<DataType>, row: seq<Data>)
    requires Written(s, s', at, types, row, |types|)
    ensures RowOk(types, row) && at + RowSize(types) <= |s| && s' == Splice(s, at, EncodeRow(types, row))
  {
    assert types[..|types|] == types && row[..|types|] == row;
  }

  lemma SpliceMore(s: seq<byte>, at: nat, a: seq<byte>, b: seq<byte>)
    requires at + |a| + |b| <= |s|
    ensures Splice(Splice(s, at, a), at + |a|, b) == Splice(s, at, a + b)
  {
  }

  /** Reading where a row was written gives the row; reading beside it gives what was there. */
  lemma SpliceRead(s: seq<byte>, at: nat, b: seq<byte>, from: nat, n: nat)
    requires at + |b| <= |s| && from + n <= |s|
    ensures from == at && n == |b| ==> Splice(s, at, b)[from..from + n] == b
    ensures from + n <= at || at + |b| <= from ==> Splice(s, at, b)[from..from + n] == s[from..from + n]
  {
  }
}
