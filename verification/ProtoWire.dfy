/**
 * The Protocol Buffers wire format as packages/adapters/src/tron-tx.ts writes and reads it: base 128 varints and
 * length-delimited records (the sections of those names in the Protocol Buffers encoding specification).
 */
module ProtoWire {
  import opened Results
  import opened Hex

  // ---- varints ------------------------------------------------------------------------------------------------

  /** Seven bits a byte, lowest first, the high bit set on every byte but the last. */
  function Varint(v: nat): (b: Bytes)
    ensures b != []
  {
    if v < 128 then [v] else [v % 128 + 128] + Varint(v / 128)
  }

  function Pow128(k: nat): (p: nat)
    ensures p > 0
  {
    if k == 0 then 1 else 128 * Pow128(k - 1)
  }

  /** The printing loop: its `do ... while` body runs at least once. */
  method WriteVarint(value: int) returns (r: Result<Bytes>)
    ensures r == if value < 0 then Err(InvalidArgument) else Ok(Varint(value))
  {
    if value < 0 { return Err(InvalidArgument); }
    var out: Bytes, v, more := [], value, true;
    while more
      invariant v >= 0 && (more || v == 0)
      invariant Varint(value) == if more then out + Varint(v) else out
      decreases more, v
    {
      var low := v % 128;
      ghost var whole := Varint(v);
      v := v / 128;
      var byte: Byte := if v > 0 then low + 128 else low;
      assert whole == if v > 0 then [byte] + Varint(v) else [byte];
      assert out + ([byte] + Varint(v)) == (out + [byte]) + Varint(v);
      out := out + [byte];
      more := v > 0;
    }
    r := Ok(out);
  }

  /** The number read at `i` when `k` bytes of it have gone before, and the position after it. */
  function ReadVarint(b: Bytes, i: nat, k: nat := 0): (r: Result<(nat, nat)>)
    ensures r.Ok? ==> i < r.value.1 <= |b|
    decreases |b| - i
  {
    if i >= |b| then Err(InvalidArgument)
    else if b[i] < 128 then Ok((b[i], i + 1))
    else if 7 * (k + 1) > 63 then Err(InvalidArgument)
    else
      var (v, next) :- ReadVarint(b, i + 1, k + 1);
      Ok((b[i] - 128 + 128 * v, next))
  }

  /** The reading loop, with its running shift: seven bits for each of the `k` bytes read, so 128 to the `k`. */
  method ReadVarintAt(b: Bytes, start: nat) returns (r: Result<(nat, nat)>)
    ensures r == ReadVarint(b, start)
  {
    hide ReadVarint, Scaled, Pow128;
    var i, shift := start, 0;
    var result: nat, k: nat := 0, 0;
    ScaledStart(b, start);
    while true
      invariant shift == 7 * k && k <= 9
      invariant ReadVarint(b, start) == Scaled(ReadVarint(b, i, k), result, Pow128(k))
      decreases |b| - i
    {
      ScaledStep(b, i, k, result);
      if i >= |b| { return Err(InvalidArgument); }
      var x := b[i];
      i := i + 1;
      result := result + x % 128 * Pow128(k);
      if x < 128 { return Ok((result, i)); }
      shift := shift + 7;
      k := k + 1;
      if shift > 63 { return Err(InvalidArgument); }
    }
  }

  ghost function Scaled(r: Result<(nat, nat)>, base: nat, scale: nat): Result<(nat, nat)> {
    if r.Ok? then Ok((base + scale * r.value.0, r.value.1)) else r
  }

  lemma ScaledStart(b: Bytes, i: nat)
    ensures ReadVarint(b, i) == Scaled(ReadVarint(b, i, 0), 0, Pow128(0))
  {
  }

  lemma ScaledStep(b: Bytes, i: nat, k: nat, result: nat)
    requires k <= 9
    ensures Scaled(ReadVarint(b, i, k), result, Pow128(k))
         == if i >= |b| then Err(InvalidArgument)
            else if b[i] < 128 then Ok((result + b[i] % 128 * Pow128(k), i + 1))
            else if k == 9 then Err(InvalidArgument)
            else Scaled(ReadVarint(b, i + 1, k + 1), result + b[i] % 128 * Pow128(k), Pow128(k + 1))
  {
    if i < |b| && b[i] >= 128 && k < 9 {
      var r := ReadVarint(b, i + 1, k + 1);
      if r.Ok? { Regroup(result, Pow128(k), b[i] - 128, r.value.0); }
    }
  }

  lemma Regroup(base: nat, scale: nat, low: nat, v: nat)
    ensures base + scale * (low + 128 * v) == base + low * scale + (128 * scale) * v
  {
  }

  /** Reading undoes printing exactly for numbers of at most ten groups of seven bits: anything longer is refused. */
  lemma {:induction false} ReadVarintOfVarint(pre: Bytes, v: nat, rest: Bytes, k: nat)
    requires k <= 9
    ensures ReadVarint(pre + Varint(v) + rest, |pre|, k)
         == if v < Pow128(10 - k) then Ok((v, |pre| + |Varint(v)|)) else Err(InvalidArgument)
    decreases v
  {
    var b := pre + Varint(v) + rest;
    if v < 128 {
      assert b[|pre|] == v;
      assert Pow128(10 - k) >= 128;
    } else {
      var head := v % 128 + 128;
      assert b[|pre|] == head;
      assert b == (pre + [head]) + Varint(v / 128) + rest;
      if k < 9 {
        ReadVarintOfVarint(pre + [head], v / 128, rest, k + 1);
        assert v < Pow128(10 - k) <==> v / 128 < Pow128(9 - k);
      } else {
        assert Pow128(1) == 128;
      }
    }
  }

  lemma Int64Fits(v: nat)
    requires v < 0x8000_0000_0000_0000
    ensures v < Pow128(10)
  {
    assert Pow128(10) == 128 * 128 * Pow128(8) == 128 * 128 * 128 * 128 * Pow128(6);
    assert Pow128(6) == 128 * 128 * Pow128(4) == 128 * 128 * 128 * 128 * Pow128(2);
  }

  /** The reader takes padded varints too; what it reads is the printer's own bytes only if the last byte is needed. */
  lemma {:induction false} ReadIsPrintedUnlessPadded(b: Bytes, i: nat, k: nat)
    requires ReadVarint(b, i, k).Ok?
    ensures var (v, next) := ReadVarint(b, i, k).value;
            b[i..next] == Varint(v) <==> next == i + 1 || b[next - 1] != 0
    decreases |b| - i
  {
    var (v, next) := ReadVarint(b, i, k).value;
    if b[i] < 128 {
      assert b[i..next] == [b[i]];
    } else {
      ReadIsPrintedUnlessPadded(b, i + 1, k + 1);
      var w := ReadVarint(b, i + 1, k + 1).value.0;
      assert b[i..next] == [b[i]] + b[i + 1..next];
      if v < 128 {
        assert w == 0 && |Varint(v)| == 1 && Varint(0) == [0];
        if next == i + 2 { assert b[i + 1] == 0; }
      } else {
        assert v / 128 == w && v % 128 + 128 == b[i];
        if next == i + 2 { assert b[i + 1] == w != 0; }
      }
    }
  }

  // ---- fields -------------------------------------------------------------------------------------------------

  datatype ProtoValue = IntValue(value: nat) | DataValue(data: Bytes)

  /** One field as it is written: a number and a value; the wire type is 0 for an integer and 2 for bytes. */
  datatype Field = Field(number: nat, value: ProtoValue)

  function Encode(f: Field): Bytes {
    match f.value
    case IntValue(v) => Varint(8 * f.number) + Varint(v)
    case DataValue(d) => Varint(8 * f.number + 2) + Varint(|d|) + d
  }

  function EncodeAll(fs: seq<Field>): Bytes {
    if fs == [] then [] else Encode(fs[0]) + EncodeAll(fs[1..])
  }

  lemma {:induction false} EncodeAllAppend(fs: seq<Field>, f: Field)
    ensures EncodeAll(fs + [f]) == EncodeAll(fs) + Encode(f)
  {
    if fs == [] {
      assert [] + [f] == [f];
      assert EncodeAll([f]) == Encode(f) + EncodeAll([]);
    } else {
      assert (fs + [f])[1..] == fs[1..] + [f];
      EncodeAllAppend(fs[1..], f);
    }
  }

  /** The growing bytes of a message, and the fields they stand for. */
  class ProtoWriter {
    var bytes: Bytes
    ghost var written: seq<Field>

    ghost predicate Valid()
      reads this
    {
      bytes == EncodeAll(written)
    }

    constructor ()
      ensures Valid() && written == []
    {
      bytes := [];
      written := [];
    }

    method Int(field: nat, value: int) returns (ok: bool)
      requires Valid()
      modifies this
      ensures ok == (value >= 0) && Valid()
      ensures written == if ok then old(written) + [Field(field, IntValue(value))] else old(written)
    {
      var key := WriteVarint(8 * field);
      var v := WriteVarint(value);
      if v.Err? { return false; }
      bytes := bytes + (key.value + v.value);
      EncodeAllAppend(written, Field(field, IntValue(value)));
      written := written + [Field(field, IntValue(value))];
      ok := true;
    }

    method Data(field: nat, value: Bytes)
      requires Valid()
      modifies this
      ensures Valid() && written == old(written) + [Field(field, DataValue(value))]
    {
      var key := WriteVarint(8 * field + 2);
      var length := WriteVarint(|value|);
      bytes := bytes + (key.value + length.value + value);
      EncodeAllAppend(written, Field(field, DataValue(value)));
      written := written + [Field(field, DataValue(value))];
    }
  }

  /** The field at `i` and the position after it. */
  function ReadField(b: Bytes, i: nat): (r: Result<(Field, nat)>)
    ensures r.Ok? ==> i < r.value.1 <= |b|
  {
    var (key, j) :- ReadVarint(b, i);
    if key % 8 == 0 then
      var (v, next) :- ReadVarint(b, j);
      Ok((Field(key / 8, IntValue(v)), next))
    else if key % 8 == 2 then
      var (len, start) :- ReadVarint(b, j);
      if start + len > |b| then Err(InvalidArgument)
      else Ok((Field(key / 8, DataValue(b[start..start + len])), start + len))
    else Err(InvalidArgument)
  }

  /** Every field from `i` to the end, in order. */
  function ReadFields(b: Bytes, i: nat := 0): Result<seq<Field>>
    requires i <= |b|
    decreases |b| - i
  {
    if i == |b| then Ok([])
    else
      var (f, next) :- ReadField(b, i);
      var rest :- ReadFields(b, next);
      Ok([f] + rest)
  }

  type FieldMap = map<nat, seq<ProtoValue>>

  function Lookup(m: FieldMap, number: nat): seq<ProtoValue> {
    if number in m then m[number] else []
  }

  function Add(m: FieldMap, f: Field): FieldMap {
    m[f.number := Lookup(m, f.number) + [f.value]]
  }

  /** The values of each field number, in the order they were read. */
  function Group(fs: seq<Field>): FieldMap {
    if fs == [] then map[] else Add(Group(fs[..|fs| - 1]), fs[|fs| - 1])
  }

  function ValuesOf(fs: seq<Field>, number: nat): seq<ProtoValue> {
    if fs == [] then []
    else if fs[0].number == number then [fs[0].value] + ValuesOf(fs[1..], number)
    else ValuesOf(fs[1..], number)
  }

  lemma {:induction false} ValuesOfAppend(a: seq<Field>, b: seq<Field>, number: nat)
    ensures ValuesOf(a + b, number) == ValuesOf(a, number) + ValuesOf(b, number)
  {
    if a == [] {
      assert a + b == b;
    } else {
      assert (a + b)[1..] == a[1..] + b;
      ValuesOfAppend(a[1..], b, number);
    }
  }

  lemma {:induction false} LookupGroup(fs: seq<Field>, number: nat)
    ensures Lookup(Group(fs), number) == ValuesOf(fs, number)
  {
    if fs != [] {
      var n := |fs| - 1;
      LookupGroup(fs[..n], number);
      ValuesOfAppend(fs[..n], [fs[n]], number);
      assert fs[..n] + [fs[n]] == fs;
    }
  }

  function ParseProto(b: Bytes): Result<FieldMap> {
    var fs :- ReadFields(b);
    Ok(Group(fs))
  }

  /** One turn of the reading loop: the field at `i` and where the next one starts. */
  method ReadFieldAt(b: Bytes, i: nat) returns (r: Result<(Field, nat)>)
    ensures r == ReadField(b, i)
  {
    var key := ReadVarintAt(b, i);
    if key.Err? { return Err(key.error); }
    var (k, at) := key.value;
    if k % 8 == 0 {
      var v := ReadVarintAt(b, at);
      if v.Err? { return Err(v.error); }
      return Ok((Field(k / 8, IntValue(v.value.0)), v.value.1));
    }
    if k % 8 == 2 {
      var len := ReadVarintAt(b, at);
      if len.Err? { return Err(len.error); }
      var end := len.value.1 + len.value.0;
      if end > |b| { return Err(InvalidArgument); }
      return Ok((Field(k / 8, DataValue(b[len.value.1..end])), end));
    }
    return Err(InvalidArgument);
  }

  ghost function Prepend(fs: seq<Field>, r: Result<seq<Field>>): Result<seq<Field>> {
    if r.Ok? then Ok(fs + r.value) else r
  }

  lemma PrependStep(b: Bytes, i: nat, read: seq<Field>, f: Field, next: nat)
    requires i < next <= |b| && ReadField(b, i) == Ok((f, next))
    ensures Prepend(read, ReadFields(b, i)) == Prepend(read + [f], ReadFields(b, next))
  {
    var rest := ReadFields(b, next);
    if rest.Ok? { assert read + ([f] + rest.value) == (read + [f]) + rest.value; }
  }

  /** The reading loop, filling the map as fields are read. */
  method ReadProto(b: Bytes) returns (r: Result<FieldMap>)
    ensures r == ParseProto(b)
  {
    var fields: FieldMap, i: nat := map[], 0;
    ghost var read: seq<Field> := [];
    assert ReadFields(b).Ok? ==> [] + ReadFields(b).value == ReadFields(b).value;
    while i < |b|
      invariant i <= |b| && fields == Group(read)
      invariant ReadFields(b) == Prepend(read, ReadFields(b, i))
      decreases |b| - i
    {
      var field := ReadFieldAt(b, i);
      if field.Err? { return Err(field.error); }
      var (f, next) := field.value;
      PrependStep(b, i, read, f, next);
      assert (read + [f])[..|read|] == read;
      fields := Add(fields, f);
      read := read + [f];
      i := next;
    }
    assert read + [] == read;
    r := Ok(fields);
  }

  // ---- the reader inverts the writer ---------------------------------------------------------------------------

  ghost predicate Fits(f: Field) {
    && 8 * f.number + 2 < Pow128(10)
    && match f.value { case IntValue(v) => v < Pow128(10) case DataValue(d) => |d| < Pow128(10) }
  }

  lemma EncodeNonempty(f: Field)
    ensures Encode(f) != []
  {
  }

  lemma ReadIntField(pre: Bytes, number: nat, v: nat, rest: Bytes)
    requires 8 * number + 2 < Pow128(10) && v < Pow128(10)
    ensures ReadField(pre + Varint(8 * number) + Varint(v) + rest, |pre|)
         == Ok((Field(number, IntValue(v)), |pre| + |Varint(8 * number)| + |Varint(v)|))
  {
    hide Varint, ReadVarint, Pow128;
    var key, val := Varint(8 * number), Varint(v);
    var b := pre + key + val + rest;
    assert b == pre + key + (val + rest);
    ReadVarintOfVarint(pre, 8 * number, val + rest, 0);
    ReadVarintOfVarint(pre + key, v, rest, 0);
  }

  lemma ReadDataField(pre: Bytes, number: nat, d: Bytes, rest: Bytes)
    requires 8 * number + 2 < Pow128(10) && |d| < Pow128(10)
    ensures ReadField(pre + Varint(8 * number + 2) + Varint(|d|) + d + rest, |pre|)
         == Ok((Field(number, DataValue(d)), |pre| + |Varint(8 * number + 2)| + |Varint(|d|)| + |d|))
  {
    hide Varint, ReadVarint, Pow128;
    var key, len := Varint(8 * number + 2), Varint(|d|);
    var b := pre + key + len + d + rest;
    assert b == pre + key + (len + d + rest);
    ReadVarintOfVarint(pre, 8 * number + 2, len + d + rest, 0);
    assert b == (pre + key) + len + (d + rest);
    ReadVarintOfVarint(pre + key, |d|, d + rest, 0);
    var start := |pre + key + len|;
    assert b[start..start + |d|] == d;
  }

  lemma ReadFieldOfEncode(pre: Bytes, f: Field, rest: Bytes)
    requires Fits(f)
    ensures ReadField(pre + Encode(f) + rest, |pre|) == Ok((f, |pre| + |Encode(f)|))
  {
    hide Varint, ReadField, Pow128;
    match f.value {
      case IntValue(v) =>
        ReadIntField(pre, f.number, v, rest);
        assert pre + Encode(f) + rest == pre + Varint(8 * f.number) + Varint(v) + rest;
      case DataValue(d) =>
        ReadDataField(pre, f.number, d, rest);
        assert pre + Encode(f) + rest == pre + Varint(8 * f.number + 2) + Varint(|d|) + d + rest;
    }
  }

  lemma ReadFieldsStep(b: Bytes, i: nat, f: Field, next: nat, rest: seq<Field>)
    requires i < next <= |b| && ReadField(b, i) == Ok((f, next)) && ReadFields(b, next) == Ok(rest)
    ensures ReadFields(b, i) == Ok([f] + rest)
  {
  }

  lemma ReadFieldAtEncode(b: Bytes, i: nat, f: Field, rest: Bytes)
    requires Fits(f) && i <= |b| && b[i..] == Encode(f) + rest
    ensures ReadField(b, i) == Ok((f, i + |Encode(f)|)) && i + |Encode(f)| <= |b|
    ensures b[i + |Encode(f)|..] == rest
  {
    hide Encode, ReadField, Fits;
    ReadFieldOfEncode(b[..i], f, rest);
    assert b == b[..i] + Encode(f) + rest;
  }

  lemma {:induction false} ReadFieldsAtEncodeAll(b: Bytes, i: nat, fs: seq<Field>)
    requires forall f :: f in fs ==> Fits(f)
    requires i <= |b| && b[i..] == EncodeAll(fs)
    ensures ReadFields(b, i) == Ok(fs)
    decreases |fs|
  {
    hide Encode, ReadField, Fits;
    if fs != [] {
      EncodeNonempty(fs[0]);
      ReadFieldAtEncode(b, i, fs[0], EncodeAll(fs[1..]));
      ReadFieldsAtEncodeAll(b, i + |Encode(fs[0])|, fs[1..]);
      ReadFieldsStep(b, i, fs[0], i + |Encode(fs[0])|, fs[1..]);
      assert [fs[0]] + fs[1..] == fs;
    }
  }

  /** Reading what was written gives back every field, in order. */
  lemma ReadUndoesWrite(fs: seq<Field>)
    requires forall f :: f in fs ==> Fits(f)
    ensures ReadFields(EncodeAll(fs)) == Ok(fs)
  {
    ReadFieldsAtEncodeAll(EncodeAll(fs), 0, fs);
  }

  /** Fields written after bytes that read well are read after them. */
  lemma {:induction false} ReadFieldsAfter(b: Bytes, c: Bytes, i: nat, more: seq<Field>)
    requires i <= |b| <= |c| && c[..|b|] == b && c[|b|..] == EncodeAll(more)
    requires ReadFields(b, i).Ok? && forall f :: f in more ==> Fits(f)
    ensures ReadFields(c, i) == Ok(ReadFields(b, i).value + more)
    decreases |b| - i
  {
    hide ReadField, EncodeAll, Fits;
    if i == |b| {
      ReadFieldsAtEncodeAll(c, i, more);
      assert [] + more == more;
    } else {
      var (f, next) := ReadField(b, i).value;
      assert ReadField(c, i) == Ok((f, next)) by {
        ReadFieldPrefix(b, EncodeAll(more), i);
        assert c == b + EncodeAll(more);
      }
      ReadFieldsAfter(b, c, next, more);
      var later := ReadFields(b, next).value;
      ReadFieldsStep(c, i, f, next, later + more);
      assert [f] + (later + more) == ([f] + later) + more;
    }
  }

  lemma {:induction false} ReadVarintPrefix(b: Bytes, rest: Bytes, i: nat, k: nat)
    requires ReadVarint(b, i, k).Ok?
    ensures ReadVarint(b + rest, i, k) == ReadVarint(b, i, k)
    decreases |b| - i
  {
    if b[i] >= 128 { ReadVarintPrefix(b, rest, i + 1, k + 1); }
  }

  lemma ReadFieldPrefix(b: Bytes, rest: Bytes, i: nat)
    requires ReadField(b, i).Ok?
    ensures ReadField(b + rest, i) == ReadField(b, i)
  {
    ReadVarintPrefix(b, rest, i, 0);
    var (key, j) := ReadVarint(b, i).value;
    ReadVarintPrefix(b, rest, j, 0);
    if key % 8 == 2 {
      var (len, start) := ReadVarint(b, j).value;
      assert (b + rest)[start..start + len] == b[start..start + len];
    }
  }
}
