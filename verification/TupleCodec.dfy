/**
  Tuples as bytes: the fixed-size part with one field a column, and behind it the VARCHAR payloads.

  An inlined value is the bit pattern of its type's size, NULL sentinels included; numbers are little-endian.
 */
module TupleCodec {
  type Byte = x: int | 0 <= x < 256

  datatype Type = BOOLEAN | TINYINT | SMALLINT | INTEGER | BIGINT | DECIMAL | TIMESTAMP | VARCHAR

  function TypeSize(ty: Type): nat {
    match ty
    case BOOLEAN => 1
    case TINYINT => 1
    case SMALLINT => 2
    case INTEGER => 4
    case VARCHAR => 12
    case _ => 8
  }

  const UINT32: nat := 4
  const NULL_LENGTH: nat := 0xFFFF_FFFF

  datatype Value = Inlined(ty: Type, bits: nat) | Varchar(bytes: seq<Byte>)

  function TypeOf(v: Value): Type {
    if v.Varchar? then VARCHAR else v.ty
  }

  function Pow256(n: nat): nat {
    if n == 0 then 1 else 256 * Pow256(n - 1)
  }

  /** A value of its type; no NULL VARCHAR, whose length is the greatest 32-bit number. */
  predicate ValueOk(v: Value) {
    if v.Varchar? then |v.bytes| < NULL_LENGTH else v.ty != VARCHAR && v.bits < Pow256(TypeSize(v.ty))
  }

  function Encode(n: nat, v: nat): (s: seq<Byte>)
    ensures |s| == n
  {
    if n == 0 then [] else [v % 256] + Encode(n - 1, v / 256)
  }

  function Decode(s: seq<Byte>): nat {
    if s == [] then 0 else s[0] + 256 * Decode(s[1..])
  }

  lemma {:induction false} DecodeEncode(n: nat, v: nat)
    requires v < Pow256(n)
    ensures Decode(Encode(n, v)) == v
  {
    if n > 0 { DecodeEncode(n - 1, v / 256); }
  }

  lemma QuotientIs(v: nat, d: nat, q: nat, r: nat)
    requires v == d * q + r && r < d
    ensures v / d == q
  {
    var p := v / d;
    assert d * p <= v < d * (p + 1) by { assert v == d * p + v % d; }
    if p < q { Grows(d, p + 1, q); }
    if q < p { Grows(d, q + 1, p); }
  }

  lemma Grows(d: nat, a: nat, b: nat)
    requires a <= b
    ensures d * a <= d * b
  {}

  lemma DivideTwice(v: nat, b: nat)
    requires b > 0
    ensures v / 256 / b == v / (256 * b)
  {
    var m := v / 256;
    var q, r := m / b, m % b;
    assert m == b * q + r;
    QuotientIs(v, 256 * b, q, 256 * r + v % 256);
  }

  /** The k-th byte is the k-th digit, the lowest first. */
  lemma {:induction false} EncodeAt(n: nat, v: nat, k: nat)
    requires k < n
    ensures Pow256(k) > 0 && Encode(n, v)[k] == v / Pow256(k) % 256
  {
    if k > 0 {
      EncodeAt(n - 1, v / 256, k - 1);
      DivideTwice(v, Pow256(k - 1));
    }
  }

  // ------------------------------------------------------------------ schema

  datatype Column = Column(ty: Type, offset: nat)

  datatype Schema = Schema(columns: seq<Column>, length: nat, uninlined: seq<nat>)

  /** The bytes that the first i columns take. */
  function FixedBefore(types: seq<Type>, i: nat): nat
    requires i <= |types|
  {
    if i == 0 then 0 else FixedBefore(types, i - 1) + TypeSize(types[i - 1])
  }

  /** The VARCHAR columns among the first i, in order. */
  function Uninlined(types: seq<Type>, i: nat): (r: seq<nat>)
    requires i <= |types|
    ensures forall k :: 0 <= k < |r| ==> r[k] < i && types[r[k]] == VARCHAR
  {
    if i == 0 then []
    else if types[i - 1] == VARCHAR then Uninlined(types, i - 1) + [i - 1]
    else Uninlined(types, i - 1)
  }

  ghost predicate SchemaOf(types: seq<Type>, s: Schema) {
    |s.columns| == |types| && s.length == FixedBefore(types, |types|) && s.uninlined == Uninlined(types, |types|) &&
    forall i {:trigger s.columns[i]} :: 0 <= i < |types| ==> s.columns[i] == Column(types[i], FixedBefore(types, i))
  }

  lemma {:induction false} UninlinedThere(types: seq<Type>, i: nat, k: nat)
    requires k < i <= |types| && types[k] == VARCHAR
    ensures k in Uninlined(types, i)
  {
    if k == i - 1 {
      assert Uninlined(types, i)[|Uninlined(types, i - 1)|] == k;
    } else {
      UninlinedThere(types, i - 1, k);
      assert Uninlined(types, i - 1) <= Uninlined(types, i);
    }
  }

  lemma {:induction false} UninlinedRise(types: seq<Type>, i: nat, j: nat, k: nat)
    requires i <= |types| && j < k < |Uninlined(types, i)|
    ensures Uninlined(types, i)[j] < Uninlined(types, i)[k]
  {
    var before := Uninlined(types, i - 1);
    if k < |before| { UninlinedRise(types, i - 1, j, k); }
  }

  /** All of them, in ascending order. */
  lemma UninlinedAre(types: seq<Type>, i: nat)
    requires i <= |types|
    ensures var r := Uninlined(types, i);
      (forall k :: 0 <= k < i && types[k] == VARCHAR ==> k in r) && forall j, k :: 0 <= j < k < |r| ==> r[j] < r[k]
  {
    forall k | 0 <= k < i && types[k] == VARCHAR ensures k in Uninlined(types, i) { UninlinedThere(types, i, k); }
    forall j, k | 0 <= j < k < |Uninlined(types, i)| ensures Uninlined(types, i)[j] < Uninlined(types, i)[k] {
      UninlinedRise(types, i, j, k);
    }
  }

  /** The fields lie one behind the other, in the order of the columns, and fill the fixed-size part. */
  lemma FieldsTile(types: seq<Type>, s: Schema, i: nat)
    requires SchemaOf(types, s) && i < |types|
    ensures s.columns[i].ty == types[i] && s.columns[0].offset == 0
    ensures s.columns[i].offset + TypeSize(types[i]) == if i + 1 < |types| then s.columns[i + 1].offset else s.length
  {
    assert s.columns[i] == Column(types[i], FixedBefore(types, i)) && s.columns[0] == Column(types[0], 0);
    if i + 1 < |types| { assert s.columns[i + 1] == Column(types[i + 1], FixedBefore(types, i + 1)); }
  }

  method MakeSchema(types: seq<Type>) returns (s: Schema)
    ensures SchemaOf(types, s)
  {
    var columns, offset, uninlined := [], 0, [];
    for i := 0 to |types|
      invariant |columns| == i && offset == FixedBefore(types, i) && uninlined == Uninlined(types, i)
      invariant forall k {:trigger columns[k]} :: 0 <= k < i ==> columns[k] == Column(types[k], FixedBefore(types, k))
    {
      if types[i] == VARCHAR {
        uninlined := uninlined + [i];
      }
      columns := columns + [Column(types[i], offset)];
      offset := offset + TypeSize(types[i]);
    }
    s := Schema(columns, offset, uninlined);
  }

  lemma {:induction false} FieldsApart(types: seq<Type>, i: nat, j: nat)
    requires i < j <= |types|
    ensures FixedBefore(types, i) + TypeSize(types[i]) <= FixedBefore(types, j)
    decreases j
  {
    if i + 1 < j { FieldsApart(types, i, j - 1); }
  }

  // ------------------------------------------------------------------ layout of a tuple

  function PayloadSize(v: Value): nat {
    if v.Varchar? then |v.bytes| + UINT32 else 0
  }

  /** The bytes that the payloads of the first i values take. */
  function PayloadBefore(values: seq<Value>, i: nat): nat
    requires i <= |values|
  {
    if i == 0 then 0 else PayloadBefore(values, i - 1) + PayloadSize(values[i - 1])
  }

  /** The payloads lie one behind the other, each with its length in front. */
  lemma PayloadsTile(s: Schema, values: seq<Value>, i: nat)
    requires i < |values|
    ensures PayloadAt(s, values, 0) == s.length
    ensures PayloadAt(s, values, i + 1) == PayloadAt(s, values, i) + if values[i].Varchar? then 4 + |values[i].bytes| else 0
  {}

  function Types(values: seq<Value>): (types: seq<Type>)
    ensures |types| == |values|
  {
    seq(|values|, i requires 0 <= i < |values| => TypeOf(values[i]))
  }

  lemma {:induction false} PayloadsApart(values: seq<Value>, i: nat, j: nat)
    requires i < j <= |values|
    ensures PayloadBefore(values, i) + PayloadSize(values[i]) <= PayloadBefore(values, j)
    decreases j
  {
    if i + 1 < j { PayloadsApart(values, i, j - 1); }
  }

  ghost predicate Holds(data: seq<Byte>, at: nat, bytes: seq<Byte>) {
    at + |bytes| <= |data| && data[at..at + |bytes|] == bytes
  }

  /** Where the payload of value i lies. */
  function PayloadAt(s: Schema, values: seq<Value>, i: nat): nat
    requires i <= |values|
  {
    s.length + PayloadBefore(values, i)
  }

  /** Value i lies where it belongs. */
  ghost predicate Stored(data: seq<Byte>, s: Schema, values: seq<Value>, i: nat)
    requires i < |values| == |s.columns|
  {
    var v, at, p := values[i], s.columns[i].offset, PayloadAt(s, values, i);
    if v.Varchar? then
      Holds(data, at, Encode(UINT32, p)) && Holds(data, p, Encode(UINT32, |v.bytes|)) && Holds(data, p + UINT32, v.bytes)
    else Holds(data, at, Encode(TypeSize(v.ty), v.bits))
  }

  // ------------------------------------------------------------------ reading

  predicate Readable(data: seq<Byte>, s: Schema, i: nat) {
    i < |s.columns| &&
    var c := s.columns[i];
    if c.ty != VARCHAR then c.offset + TypeSize(c.ty) <= |data|
    else
      c.offset + UINT32 <= |data| &&
      var p := Decode(data[c.offset..c.offset + UINT32]);
      p + UINT32 <= |data| && p + UINT32 + Decode(data[p..p + UINT32]) <= |data|
  }

  /** GetDataPtr: the field itself, or for a VARCHAR where its offset leads. */
  function GetDataPtr(data: seq<Byte>, s: Schema, i: nat): nat
    requires Readable(data, s, i)
  {
    var c := s.columns[i];
    if c.ty != VARCHAR then c.offset else Decode(data[c.offset..c.offset + UINT32])
  }

  function GetValue(data: seq<Byte>, s: Schema, i: nat): Value
    requires Readable(data, s, i)
  {
    var ty, p := s.columns[i].ty, GetDataPtr(data, s, i);
    if ty != VARCHAR then Inlined(ty, Decode(data[p..p + TypeSize(ty)]))
    else Varchar(data[p + UINT32..p + UINT32 + Decode(data[p..p + UINT32])])
  }

  lemma StoredReads(data: seq<Byte>, s: Schema, values: seq<Value>, i: nat)
    requires SchemaOf(Types(values), s) && i < |values| && ValueOk(values[i]) && Stored(data, s, values, i)
    requires PayloadAt(s, values, |values|) < 0x1_0000_0000
    ensures Readable(data, s, i) && GetValue(data, s, i) == values[i]
    ensures values[i].Varchar? ==> GetDataPtr(data, s, i) == PayloadAt(s, values, i)
  {
    assert s.columns[i] == Column(TypeOf(values[i]), FixedBefore(Types(values), i));
    if values[i].Varchar? {
      PayloadsApart(values, i, |values|);
      VarcharReads(data, s.columns[i].offset, PayloadAt(s, values, i), values[i].bytes);
    } else {
      DecodeEncode(TypeSize(values[i].ty), values[i].bits);
    }
  }

  lemma VarcharReads(data: seq<Byte>, at: nat, p: nat, bytes: seq<Byte>)
    requires p < 0x1_0000_0000 && |bytes| < NULL_LENGTH
    requires Holds(data, at, Encode(UINT32, p)) && Holds(data, p, Encode(UINT32, |bytes|)) && Holds(data, p + UINT32, bytes)
    ensures Decode(data[at..at + UINT32]) == p && Decode(data[p..p + UINT32]) == |bytes|
  {
    assert Pow256(4) == 256 * Pow256(3) && Pow256(3) == 256 * Pow256(2) && Pow256(2) == 256 * Pow256(1);
    DecodeEncode(UINT32, p);
    DecodeEncode(UINT32, |bytes|);
  }

  // ------------------------------------------------------------------ building

  /** The payloads of the listed values. */
  function PayloadOver(values: seq<Value>, list: seq<nat>): nat {
    if list == [] then 0
    else
      var i := list[|list| - 1];
      PayloadOver(values, list[..|list| - 1]) + if i < |values| then PayloadSize(values[i]) else 0
  }

  lemma {:induction false} PayloadOfUninlined(values: seq<Value>, i: nat)
    requires i <= |values|
    ensures PayloadOver(values, Uninlined(Types(values), i)) == PayloadBefore(values, i)
  {
    if i > 0 {
      PayloadOfUninlined(values, i - 1);
      var before := Uninlined(Types(values), i - 1);
      assert (before + [i - 1])[..|before|] == before;
    }
  }

  lemma UninlinedAt(values: seq<Value>, k: nat)
    requires k < |Uninlined(Types(values), |values|)| && forall i :: 0 <= i < |values| ==> ValueOk(values[i])
    ensures var i := Uninlined(Types(values), |values|)[k]; i < |values| && values[i].Varchar?
  {}

  /** The size of the tuple, summed over the columns that are not inlined. */
  method SizeOf(values: seq<Value>, s: Schema) returns (size: nat)
    requires SchemaOf(Types(values), s) && forall i :: 0 <= i < |values| ==> ValueOk(values[i])
    ensures size == PayloadAt(s, values, |values|)
  {
    size := s.length;
    for k := 0 to |s.uninlined|
      invariant size == s.length + PayloadOver(values, s.uninlined[..k])
    {
      var i := s.uninlined[k];
      assert s.uninlined[..k + 1][..k] == s.uninlined[..k];
      UninlinedAt(values, k);
      size := size + |values[i].bytes| + UINT32;
    }
    assert s.uninlined[..|s.uninlined|] == s.uninlined;
    PayloadOfUninlined(values, |values|);
  }

  method Put(data: array<Byte>, at: nat, bytes: seq<Byte>)
    requires at + |bytes| <= data.Length
    modifies data
    ensures Holds(data[..], at, bytes)
    ensures forall b :: 0 <= b < data.Length && !(at <= b < at + |bytes|) ==> data[b] == old(data[b])
  {
    for i := 0 to |bytes|
      invariant forall b :: at <= b < at + i ==> data[b] == bytes[b - at]
      invariant forall b :: 0 <= b < data.Length && !(at <= b < at + i) ==> data[b] == old(data[b])
    {
      data[at + i] := bytes[i];
    }
    assert data[at..at + |bytes|] == bytes;
  }

  /** The field of column i, and the payload of value i, keep clear of those of the columns after it. */
  lemma Regions(values: seq<Value>, s: Schema, i: nat)
    requires SchemaOf(Types(values), s) && i < |values|
    ensures s.columns[i].offset == FixedBefore(Types(values), i)
    ensures s.columns[i].offset + TypeSize(TypeOf(values[i])) <= s.length <= PayloadAt(s, values, i)
    ensures PayloadAt(s, values, i) + PayloadSize(values[i]) <= PayloadAt(s, values, |values|)
  {
    assert s.columns[i] == Column(TypeOf(values[i]), FixedBefore(Types(values), i));
    FieldsApart(Types(values), i, |values|);
    PayloadsApart(values, i, |values|);
  }

  lemma RegionsApart(values: seq<Value>, s: Schema, i: nat, j: nat)
    requires SchemaOf(Types(values), s) && i < j < |values|
    ensures s.columns[i].offset + TypeSize(TypeOf(values[i])) <= s.columns[j].offset
    ensures PayloadAt(s, values, i) + PayloadSize(values[i]) <= PayloadAt(s, values, j)
  {
    Regions(values, s, i);
    Regions(values, s, j);
    FieldsApart(Types(values), i, j);
    PayloadsApart(values, i, j);
  }

  /** The bytes that column j writes. */
  predicate Writes(s: Schema, values: seq<Value>, j: nat, b: nat)
    requires j < |values| == |s.columns|
  {
    var at, p := s.columns[j].offset, PayloadAt(s, values, j);
    at <= b < at + (if values[j].Varchar? then UINT32 else TypeSize(values[j].ty)) || p <= b < p + PayloadSize(values[j])
  }

  /** What lies where column j does not write stays. */
  lemma StoredKept(data: seq<Byte>, data': seq<Byte>, s: Schema, values: seq<Value>, i: nat, j: nat)
    requires SchemaOf(Types(values), s) && i < j < |values| && Stored(data, s, values, i) && |data| == |data'|
    requires forall b :: 0 <= b < |data| && !Writes(s, values, j, b) ==> data'[b] == data[b]
    ensures Stored(data', s, values, i)
  {
    RegionsApart(values, s, i, j);
    Regions(values, s, i);
    Regions(values, s, j);
    var v, at, p := values[i], s.columns[i].offset, PayloadAt(s, values, i);
    if v.Varchar? {
      HoldsKept(data, data', at, Encode(UINT32, p));
      HoldsKept(data, data', p, Encode(UINT32, |v.bytes|));
      HoldsKept(data, data', p + UINT32, v.bytes);
    } else {
      HoldsKept(data, data', at, Encode(TypeSize(v.ty), v.bits));
    }
  }

  lemma HoldsKept(data: seq<Byte>, data': seq<Byte>, at: nat, bytes: seq<Byte>)
    requires Holds(data, at, bytes) && |data'| == |data| && forall b :: at <= b < at + |bytes| ==> data'[b] == data[b]
    ensures Holds(data', at, bytes)
  {}

  /** The length and, behind it, the bytes. */
  method PutPayload(data: array<Byte>, at: nat, bytes: seq<Byte>)
    requires at + UINT32 + |bytes| <= data.Length
    modifies data
    ensures Holds(data[..], at, Encode(UINT32, |bytes|)) && Holds(data[..], at + UINT32, bytes)
    ensures forall b :: 0 <= b < data.Length && !(at <= b < at + UINT32 + |bytes|) ==> data[b] == old(data[b])
  {
    Put(data, at, Encode(UINT32, |bytes|));
    ghost var before := data[..];
    Put(data, at + UINT32, bytes);
    HoldsKept(before, data[..], at, Encode(UINT32, |bytes|));
  }

  /** Write column i: the value in place, or its offset in place and the payload behind what is there. */
  method PutColumn(data: array<Byte>, s: Schema, values: seq<Value>, i: nat, offset: nat)
    requires SchemaOf(Types(values), s) && i < |values| && ValueOk(values[i]) && offset == PayloadAt(s, values, i)
    requires data.Length == PayloadAt(s, values, |values|)
    modifies data
    ensures Stored(data[..], s, values, i)
    ensures forall b :: 0 <= b < data.Length && !Writes(s, values, i, b) ==> data[b] == old(data[b])
  {
    Regions(values, s, i);
    var at := s.columns[i].offset;
    match values[i] {
      case Varchar(bytes) =>
        Put(data, at, Encode(UINT32, offset));
        ghost var before := data[..];
        PutPayload(data, offset, bytes);
        HoldsKept(before, data[..], at, Encode(UINT32, offset));
      case Inlined(ty, bits) =>
        Put(data, at, Encode(TypeSize(ty), bits));
    }
  }

  /** Payloads lie in the order of the columns, and what no column writes is zero. */
  ghost predicate LaidOut(data: seq<Byte>, s: Schema, values: seq<Value>) {
    |values| == |s.columns| &&
    (forall i :: 0 <= i < |values| && values[i].Varchar? ==> Readable(data, s, i) && GetDataPtr(data, s, i) == PayloadAt(s, values, i)) &&
    forall b :: 0 <= b < |data| && (forall j :: 0 <= j < |values| ==> !Writes(s, values, j, b)) ==> data[b] == 0
  }

  /** The first i columns are written, and nothing else. */
  ghost predicate Written(data: seq<Byte>, s: Schema, values: seq<Value>, i: nat) {
    i <= |values| == |s.columns| && (forall j :: 0 <= j < i ==> Stored(data, s, values, j)) &&
    forall b :: 0 <= b < |data| && (forall j :: 0 <= j < i ==> !Writes(s, values, j, b)) ==> data[b] == 0
  }

  lemma WrittenNext(before: seq<Byte>, data: seq<Byte>, s: Schema, values: seq<Value>, i: nat)
    requires SchemaOf(Types(values), s) && i < |values| && Written(before, s, values, i) && |data| == |before|
    requires Stored(data, s, values, i) && forall b :: 0 <= b < |data| && !Writes(s, values, i, b) ==> data[b] == before[b]
    ensures Written(data, s, values, i + 1)
  {
    forall j | 0 <= j < i ensures Stored(data, s, values, j) { StoredKept(before, data, s, values, j, i); }
    forall b | 0 <= b < |data| && (forall j :: 0 <= j < i + 1 ==> !Writes(s, values, j, b)) ensures data[b] == 0 {
      assert !Writes(s, values, i, b);
    }
  }

  lemma WrittenReads(data: seq<Byte>, s: Schema, values: seq<Value>)
    requires SchemaOf(Types(values), s) && Written(data, s, values, |values|) && PayloadAt(s, values, |values|) < 0x8000_0000
    requires forall i :: 0 <= i < |values| ==> ValueOk(values[i])
    ensures ReadsAs(data, s, values) && LaidOut(data, s, values)
  {
    forall i | 0 <= i < |values| ensures Readable(data, s, i) && GetValue(data, s, i) == values[i] &&
      (values[i].Varchar? ==> GetDataPtr(data, s, i) == PayloadAt(s, values, i))
    {
      StoredReads(data, s, values, i);
    }
  }

  /** Every column reads back its value. */
  ghost predicate ReadsAs(data: seq<Byte>, s: Schema, values: seq<Value>) {
    forall i :: 0 <= i < |values| ==> Readable(data, s, i) && GetValue(data, s, i) == values[i]
  }

  /** The serialising constructor: afterwards every value is read back, whatever the schema and the values. */
  method MakeTuple(values: seq<Value>, s: Schema) returns (data: array<Byte>)
    requires SchemaOf(Types(values), s) && forall i :: 0 <= i < |values| ==> ValueOk(values[i])
    requires PayloadAt(s, values, |values|) < 0x8000_0000
    ensures fresh(data) && data.Length == PayloadAt(s, values, |values|)
    ensures ReadsAs(data[..], s, values) && LaidOut(data[..], s, values)
  {
    var size := SizeOf(values, s);
    data := new Byte[size](i => 0);
    var offset := s.length;
    for i := 0 to |values|
      invariant offset == PayloadAt(s, values, i) && Written(data[..], s, values, i)
    {
      ghost var before := data[..];
      PutColumn(data, s, values, i, offset);
      WrittenNext(before, data[..], s, values, i);
      offset := offset + PayloadSize(values[i]);
    }
    WrittenReads(data[..], s, values);
  }

  method Choose(data: seq<Byte>, s: Schema, attrs: seq<nat>, ghost values: seq<Value>) returns (chosen: seq<Value>)
    requires ReadsAs(data, s, values) && forall k :: 0 <= k < |attrs| ==> attrs[k] < |values|
    ensures chosen == Chosen(values, attrs)
  {
    chosen := [];
    for k := 0 to |attrs|
      invariant chosen == Chosen(values, attrs)[..k]
    {
      chosen := chosen + [GetValue(data, s, attrs[k])];
    }
  }

  /** The chosen columns of a tuple, as a tuple of the key schema. */
  method KeyFromTuple(data: seq<Byte>, s: Schema, keySchema: Schema, attrs: seq<nat>, ghost values: seq<Value>) returns (key: array<Byte>)
    requires SchemaOf(Types(values), s) && forall i :: 0 <= i < |values| ==> ValueOk(values[i])
    requires ReadsAs(data, s, values)
    requires forall k :: 0 <= k < |attrs| ==> attrs[k] < |values|
    requires SchemaOf(Types(Chosen(values, attrs)), keySchema)
    requires PayloadAt(keySchema, Chosen(values, attrs), |attrs|) < 0x8000_0000
    ensures forall k :: 0 <= k < |attrs| ==>
      Readable(key[..], keySchema, k) && GetValue(key[..], keySchema, k) == GetValue(data, s, attrs[k])
  {
    var chosen := Choose(data, s, attrs, values);
    key := MakeTuple(chosen, keySchema);
    KeyReads(key[..], keySchema, data, s, attrs, values);
  }

  lemma KeyReads(key: seq<Byte>, keySchema: Schema, data: seq<Byte>, s: Schema, attrs: seq<nat>, values: seq<Value>)
    requires ReadsAs(data, s, values) && (forall k :: 0 <= k < |attrs| ==> attrs[k] < |values|)
    requires ReadsAs(key, keySchema, Chosen(values, attrs))
    ensures forall k :: 0 <= k < |attrs| ==> Readable(key, keySchema, k) && GetValue(key, keySchema, k) == GetValue(data, s, attrs[k])
  {}

  function Chosen(values: seq<Value>, attrs: seq<nat>): (r: seq<Value>)
    requires forall k :: 0 <= k < |attrs| ==> attrs[k] < |values|
    ensures |r| == |attrs|
  {
    seq(|attrs|, k requires 0 <= k < |attrs| => values[attrs[k]])
  }
}
