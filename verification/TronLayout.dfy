/**
 * The bytes of a transaction said without its printer and its reader: what a builder of
 * packages/adapters/src/tron-tx.ts puts where, and what decodeTronTransaction demands of the fields it finds.
 */
module TronLayout {
  import opened Sequences
  import opened Results
  import opened Hex
  import opened ProtoWire
  import opened TronTx

  // ---- numbers and text -----------------------------------------------------------------------------------------

  /** The number that bytes stand for, highest first. */
  function BigEndian(b: Bytes): nat {
    if b == [] then 0 else 256 * BigEndian(b[..|b| - 1]) + b[|b| - 1]
  }

  /** The number that the low seven bits of each byte stand for, lowest first. */
  function Base128(b: Bytes): nat {
    if b == [] then 0 else b[0] % 128 + 128 * Base128(b[1..])
  }

  /** The high bit is set on every byte but the last. */
  ghost predicate OneVarint(b: Bytes) {
    b != [] && b[|b| - 1] < 128 && forall i :: 0 <= i < |b| - 1 ==> b[i] >= 128
  }

  ghost predicate StandsFor(b: Bytes, v: nat) {
    OneVarint(b) && v == Base128(b)
  }

  /** A printed number is the shortest varint that stands for it. */
  lemma {:induction false} VarintStandsFor(v: nat)
    ensures StandsFor(Varint(v), v)
    ensures |Varint(v)| > 1 ==> Varint(v)[|Varint(v)| - 1] != 0
  {
    if v >= 128 {
      VarintStandsFor(v / 128);
      assert Varint(v)[1..] == Varint(v / 128);
    }
  }

  /** Which bytes read as which number: one varint of at most ten bytes, padded or not. */
  lemma {:induction false} ReadsVarint(b: Bytes, i: nat, k: nat, v: nat, next: nat)
    requires k <= 9
    ensures ReadVarint(b, i, k) == Ok((v, next))
       <==> i < next <= |b| && next - i <= 10 - k && StandsFor(b[i..next], v)
    decreases |b| - i
  {
    hide ReadVarint, StandsFor;
    if i < |b| && b[i] < 128 {
      ReadsLast(b, i, k, v, next);
    } else if i < |b| && k < 9 {
      ReadsMore(b, i, k, v, next);
      ReadsVarint(b, i + 1, k + 1, v / 128, next);
      if i + 1 < next <= |b| {
        OneLess(b[i..next], v);
        assert b[i..next][1..] == b[i + 1..next];
      } else if next == i + 1 {
        NotOne(b[i..next], v);
      }
    } else {
      ReadsNone(b, i, k);
      if i < next <= |b| && next - i <= 10 - k { NotOne(b[i..next], v); }
    }
  }

  lemma ReadsLast(b: Bytes, i: nat, k: nat, v: nat, next: nat)
    requires k <= 9 && i < |b| && b[i] < 128
    ensures ReadVarint(b, i, k) == Ok((v, next))
       <==> i < next <= |b| && next - i <= 10 - k && StandsFor(b[i..next], v)
  {
    if i < next <= |b| {
      var part := b[i..next];
      assert part[0] == b[i] && (|part| > 1 ==> !OneVarint(part));
      assert |part| == 1 ==> part[1..] == [] && OneVarint(part) && Base128(part) == b[i];
    }
  }

  lemma ReadsMore(b: Bytes, i: nat, k: nat, v: nat, next: nat)
    requires k < 9 && i < |b| && b[i] >= 128
    ensures ReadVarint(b, i, k) == Ok((v, next))
       <==> v % 128 == b[i] - 128 && ReadVarint(b, i + 1, k + 1) == Ok((v / 128, next))
  {
  }

  lemma ReadsNone(b: Bytes, i: nat, k: nat)
    requires i >= |b| || (b[i] >= 128 && k >= 9)
    ensures ReadVarint(b, i, k).Err?
  {
  }

  lemma NotOne(b: Bytes, v: nat)
    requires |b| == 1 && b[0] >= 128
    ensures !StandsFor(b, v)
  {
  }

  lemma OneLess(b: Bytes, v: nat)
    requires |b| > 1 && b[0] >= 128
    ensures StandsFor(b, v) <==> v % 128 == b[0] - 128 && StandsFor(b[1..], v / 128)
  {
    var c := b[1..];
    assert c[|c| - 1] == b[|b| - 1];
    if OneVarint(c) {
      forall i | 0 <= i < |b| - 1 ensures b[i] >= 128 {
        assert i > 0 ==> b[i] == c[i - 1];
      }
    }
  }

  const DIGITS: string := "0123456789abcdef"

  lemma DigitIs(n: int)
    requires 0 <= n < 16
    ensures Digit(n) == DIGITS[n]
  {
  }

  /** Each byte is two digits, the high one first. */
  lemma {:induction false} HexDigitsOfByte(b: Bytes, i: nat)
    requires i < |b|
    ensures ToHex(b)[2 * i] == DIGITS[b[i] / 16] && ToHex(b)[2 * i + 1] == DIGITS[b[i] % 16]
  {
    DigitIs(b[i] / 16);
    DigitIs(b[i] % 16);
    if i > 0 { HexDigitsOfByte(b[1..], i - 1); }
  }

  /** The same text but for capitals among its digits. */
  ghost predicate InEitherCase(h: string, s: string) {
    |h| == |s| && forall i :: 0 <= i < |h| ==> h[i] == s[i] || ('A' <= h[i] <= 'Z' && h[i] + ' ' == s[i])
  }

  lemma LowerIs(h: string, s: string)
    requires forall i :: 0 <= i < |s| ==> !('A' <= s[i] <= 'Z')
    ensures Lower(h) == s <==> InEitherCase(h, s)
  {
    if InEitherCase(h, s) {
      assert forall i :: 0 <= i < |h| ==> Lower(h)[i] == s[i];
    }
  }

  /** Which texts read as which bytes: their digits in either case, with or without `0x` in front. */
  lemma ReadsHex(h: string, b: Bytes)
    ensures FromHex(h) == Ok(b) <==> InEitherCase(h, ToHex(b)) || InEitherCase(h, "0x" + ToHex(b))
  {
    hide ToHex, Pairs, Lower;
    LowerIs(h, ToHex(b));
    LowerIs(h, "0x" + ToHex(b));
    PairsToHex(b);
    var l := Lower(h);
    if FromHex(h) == Ok(b) {
      ToHexPairs(WithoutPrefix(l));
      assert "0x" <= l ==> l == "0x" + l[2..];
    }
    if l == ToHex(b) {
      assert |l| >= 2 ==> IsDigit(l[1]);
    }
    if l == "0x" + ToHex(b) {
      assert l[2..] == ToHex(b);
    }
  }

  // ---- what the reader demands ------------------------------------------------------------------------------------

  /** The field is there once, as bytes. */
  ghost predicate HoldsBytes(fs: seq<Field>, number: nat, data: Bytes) {
    ValuesOf(fs, number) == [DataValue(data)]
  }

  /** The field is there once, as an integer; one that is not there is a zero. */
  ghost predicate HoldsInt(fs: seq<Field>, number: nat, value: int) {
    value >= 0 && (ValuesOf(fs, number) == [IntValue(value)] || (value == 0 && ValuesOf(fs, number) == []))
  }

  /** Call data of `transfer`: the selector, the recipient in the low 20 bytes of 32, the amount in 32. */
  ghost predicate CallSays(data: Bytes, to: Account, amount: int) {
    && |data| == 68 && data[..4] == [0xa9, 0x05, 0x9c, 0xbb] && (forall i :: 4 <= i < 16 ==> data[i] == 0)
    && data[16..36] == to && BigEndian(data[36..]) == amount
  }

  ghost predicate ParameterSays(ps: seq<Field>, c: Contract) {
    && HoldsBytes(ps, 1, [0x41] + c.from)
    && match c {
         case Trx(_, to, amount) => HoldsBytes(ps, 2, [0x41] + to) && HoldsInt(ps, 3, amount)
         case Trc20(_, contract, to, amount) =>
           && HoldsBytes(ps, 2, [0x41] + contract)
           && HoldsInt(ps, 3, 0) && HoldsInt(ps, 5, 0) && HoldsInt(ps, 6, 0)
           && exists data :: HoldsBytes(ps, 4, data) && CallSays(data, to, amount)
       }
  }

  function UrlOf(c: Contract): string {
    if c.Trx? then "type.googleapis.com/protocol.TransferContract"
    else "type.googleapis.com/protocol.TriggerSmartContract"
  }

  /** A typed parameter: its URL, which a byte order mark may precede, and the parameter. */
  ghost predicate AnySays(any: Bytes, c: Contract) {
    && ReadFields(any).Ok?
    && var fs := ReadFields(any).value;
    && (HoldsBytes(fs, 1, Ascii(UrlOf(c))) || HoldsBytes(fs, 1, [0xEF, 0xBB, 0xBF] + Ascii(UrlOf(c))))
    && exists parameter :: && HoldsBytes(fs, 2, parameter) && ReadFields(parameter).Ok?
                           && ParameterSays(ReadFields(parameter).value, c)
  }

  ghost predicate ContractSays(message: Bytes, c: Contract) {
    && ReadFields(message).Ok?
    && var fs := ReadFields(message).value;
    && HoldsInt(fs, 1, if c.Trx? then 1 else 31)
    && exists any :: HoldsBytes(fs, 2, any) && AnySays(any, c)
  }

  /** The fields of raw data that tell everything about a transaction but its bytes. */
  ghost predicate RawSays(fs: seq<Field>, tx: UnsignedTx) {
    && (exists b :: HoldsBytes(fs, 1, b) && |b| == 2 && tx.refBlockNum == BigEndian(b))
    && (exists hash :: HoldsBytes(fs, 4, hash) && |hash| == 8)
    && HoldsInt(fs, 8, tx.expiration)
    && (exists message :: HoldsBytes(fs, 11, message) && ContractSays(message, tx.contract))
    && HoldsInt(fs, 14, tx.timestamp)
    && HoldsInt(fs, 18, if tx.feeLimitSun.Some? then tx.feeLimitSun.value else 0) && tx.feeLimitSun != Some(0)
  }

  lemma BytesHeld(fs: seq<Field>, number: nat, data: Bytes)
    ensures BytesOf(Group(fs), number) == Ok(Some(data)) <==> HoldsBytes(fs, number, data)
  {
    LookupGroup(fs, number);
  }

  lemma IntHeld(fs: seq<Field>, number: nat, value: nat)
    ensures IntOf(Group(fs), number) == Ok(value) <==> HoldsInt(fs, number, value)
  {
    LookupGroup(fs, number);
  }

  lemma AddressHeld(fs: seq<Field>, number: nat, a: Account)
    ensures BytesOf(Group(fs), number).Ok? && AddressFrom21(BytesOf(Group(fs), number).value) == Ok(a)
       <==> HoldsBytes(fs, number, [0x41] + a)
  {
    hide Group;
    BytesHeld(fs, number, [0x41] + a);
    var r := BytesOf(Group(fs), number);
    if r.Ok? && r.value.Some? && |r.value.value| == 21 && r.value.value[0] == 0x41 {
      assert r.value.value == [0x41] + r.value.value[1..];
    }
    assert ([0x41] + a)[1..] == a;
  }

  lemma {:induction false} ToHexAppend(a: Bytes, b: Bytes)
    ensures ToHex(a + b) == ToHex(a) + ToHex(b)
  {
    if a == [] {
      assert a + b == b;
    } else {
      assert (a + b)[1..] == a[1..] + b;
      ToHexAppend(a[1..], b);
    }
  }

  lemma ToHexSlice(b: Bytes, i: nat, j: nat)
    requires i <= j <= |b|
    ensures ToHex(b)[2 * i..2 * j] == ToHex(b[i..j])
  {
    hide ToHex;
    var x, y, z := ToHex(b[..i]), ToHex(b[i..j]), ToHex(b[j..]);
    assert ToHex(b) == x + y + z by {
      assert b == b[..i] + b[i..j] + b[j..];
      ThreeHex(b[..i], b[i..j], b[j..]);
    }
    assert |x| == 2 * i && |y| == 2 * (j - i);
    Between(x, y, z);
  }

  lemma ThreeHex(x: Bytes, y: Bytes, z: Bytes)
    ensures ToHex(x + y + z) == ToHex(x) + ToHex(y) + ToHex(z)
  {
    hide ToHex;
    ToHexAppend(x, y);
    ToHexAppend(x + y, z);
  }

  lemma Between(x: string, y: string, z: string)
    ensures (x + y + z)[|x|..|x| + |y|] == y
  {
  }

  lemma {:induction false} HexNumberOfBytes(b: Bytes)
    ensures HexNumber(ToHex(b)) == BigEndian(b)
  {
    if b != [] {
      var n, last := |b| - 1, b[|b| - 1];
      HexNumberOfBytes(b[..n]);
      assert b == b[..n] + [last];
      ToHexAppend(b[..n], [last]);
      assert ToHex([last]) == [Digit(last / 16), Digit(last % 16)] + ToHex([last][1..]);
      var s := ToHex(b);
      assert s == ToHex(b[..n]) + [Digit(last / 16), Digit(last % 16)];
      TwoDigits(ToHex(b[..n]), last / 16, last % 16);
    }
  }

  lemma TwoDigits(s: string, high: int, low: int)
    requires AllDigits(s) && 0 <= high < 16 && 0 <= low < 16
    ensures HexNumber(s + [Digit(high), Digit(low)]) == 256 * HexNumber(s) + 16 * high + low
  {
    var t := s + [Digit(high)];
    assert t[..|t| - 1] == s;
    assert (t + [Digit(low)])[..|t|] == t;
    assert s + [Digit(high), Digit(low)] == t + [Digit(low)];
  }

  lemma HexZeros(b: Bytes)
    ensures AllZeros(ToHex(b)) <==> forall i :: 0 <= i < |b| ==> b[i] == 0
  {
    hide ToHex;
    forall i | 0 <= i < |b|
      ensures b[i] == 0 <==> ToHex(b)[2 * i] == '0' && ToHex(b)[2 * i + 1] == '0'
    {
      HexDigitsOfByte(b, i);
    }
    if forall i :: 0 <= i < |b| ==> b[i] == 0 {
      forall j | 0 <= j < 2 * |b| ensures ToHex(b)[j] == '0' {
        assert b[j / 2] == 0;
      }
    }
  }

  lemma SelectorBytes()
    ensures ToHex([0xa9, 0x05, 0x9c, 0xbb]) == TRANSFER_SELECTOR
  {
    assert ToHex([0xbb]) == "bb" + ToHex([0xbb][1..]);
    assert ToHex([0x9c, 0xbb]) == "9c" + ToHex([0x9c, 0xbb][1..]) == "9cbb";
    assert ToHex([0x05, 0x9c, 0xbb]) == "05" + ToHex([0x05, 0x9c, 0xbb][1..]) == "059cbb";
    assert ToHex([0xa9, 0x05, 0x9c, 0xbb]) == "a9" + ToHex([0xa9, 0x05, 0x9c, 0xbb][1..]);
  }

  /** The four stretches of call data, each told by its digits. */
  lemma CallParts(data: Bytes)
    requires |data| == 68
    ensures var s := ToHex(data);
            && (s[..8] == TRANSFER_SELECTOR <==> data[..4] == [0xa9, 0x05, 0x9c, 0xbb])
            && (AllZeros(s[8..32]) <==> forall i :: 4 <= i < 16 ==> data[i] == 0)
            && FromHex(s[32..72]) == Ok(data[16..36]) && HexNumber(s[72..]) == BigEndian(data[36..])
  {
    hide ToHex, HexNumber, FromHex, BigEndian;
    var s := ToHex(data);
    assert s[..8] == TRANSFER_SELECTOR <==> data[..4] == [0xa9, 0x05, 0x9c, 0xbb] by {
      ToHexSlice(data, 0, 4);
      SelectorBytes();
      PairsToHex(data[..4]);
      PairsToHex([0xa9, 0x05, 0x9c, 0xbb]);
    }
    assert AllZeros(s[8..32]) <==> forall i :: 4 <= i < 16 ==> data[i] == 0 by {
      ToHexSlice(data, 4, 16);
      HexZeros(data[4..16]);
      assert forall i :: 4 <= i < 16 ==> data[i] == data[4..16][i - 4];
    }
    ToHexSlice(data, 16, 36);
    FromHexToHex(data[16..36]);
    ToHexSlice(data, 36, 68);
    HexNumberOfBytes(data[36..]);
    assert s[72..] == s[2 * 36..2 * 68] && data[36..] == data[36..68];
  }

  /** Reading call data takes exactly the calls of `transfer`. */
  lemma CallReads(data: Bytes, to: Account, amount: nat)
    ensures DecodeCall(ToHex(data)) == Ok((to, amount)) <==> CallSays(data, to, amount)
  {
    hide ToHex, HexNumber, FromHex, BigEndian, AllZeros;
    if |data| == 68 { CallParts(data); }
  }

  lemma TrxReads(ps: seq<Field>, c: Contract)
    ensures DecodeTrx(Group(ps)) == Ok(c) <==> c.Trx? && ParameterSays(ps, c)
  {
    hide Group, BytesOf, IntOf, AddressFrom21, ValuesOf;
    if c.Trx? {
      AddressHeld(ps, 1, c.from);
      AddressHeld(ps, 2, c.to);
      if c.amountSun >= 0 { IntHeld(ps, 3, c.amountSun); }
    }
  }

  /** The call that the reader finds in a parameter, if it finds one. */
  ghost predicate FindsCall(p: FieldMap, to: Account, amount: int) {
    var bytes := BytesOf(p, 4);
    bytes.Ok? && DecodeCall(ToHex(OrEmpty(bytes.value))).Ok?
    && DecodeCall(ToHex(OrEmpty(bytes.value))).value == (to, amount)
  }

  lemma CallHeld(ps: seq<Field>, to: Account, amount: int)
    ensures FindsCall(Group(ps), to, amount)
       <==> exists data :: HoldsBytes(ps, 4, data) && CallSays(data, to, amount)
  {
    hide Group, ValuesOf, DecodeCall, BytesOf, BigEndian, HoldsBytes;
    var r := BytesOf(Group(ps), 4);
    if r.Ok? && amount >= 0 {
      CallReads(OrEmpty(r.value), to, amount);
      if r.value.Some? { BytesHeld(ps, 4, r.value.value); }
    }
    if data :| HoldsBytes(ps, 4, data) && CallSays(data, to, amount) {
      BytesHeld(ps, 4, data);
    }
  }

  lemma Trc20Reads(ps: seq<Field>, c: Contract)
    ensures DecodeTrc20(Group(ps)) == Ok(c) <==> c.Trc20? && ParameterSays(ps, c)
  {
    hide Group, BytesOf, IntOf, AddressFrom21, ValuesOf, DecodeCall, CallSays, HoldsBytes, HoldsInt, ToHex;
    if c.Trc20? {
      AddressHeld(ps, 1, c.from);
      AddressHeld(ps, 2, c.contract);
      IntHeld(ps, 3, 0);
      IntHeld(ps, 5, 0);
      IntHeld(ps, 6, 0);
      CallHeld(ps, c.to, c.amountMinor);
    }
  }

  lemma ParameterReads(kind: nat, url: Bytes, ps: seq<Field>, c: Contract)
    ensures DecodeParameter(kind, url, Group(ps)) == Ok(c)
       <==> && kind == (if c.Trx? then 1 else 31) && ParameterSays(ps, c)
            && (url == Ascii(UrlOf(c)) || url == [0xEF, 0xBB, 0xBF] + Ascii(UrlOf(c)))
  {
    hide Group, DecodeTrx, DecodeTrc20, ParameterSays, Ascii;
    TrxReads(ps, c);
    Trc20Reads(ps, c);
  }

  /** What the reader makes of a typed parameter, once it knows the kind of the contract. */
  function DecodeAny(kind: nat, any: Bytes): Result<Contract> {
    var m :- ParseProto(any);
    var url :- BytesOf(m, 1);
    var parameter :- BytesOf(m, 2);
    var p :- ParseProto(OrEmpty(parameter));
    DecodeParameter(kind, OrEmpty(url), p)
  }

  lemma NoParameter(c: Contract)
    ensures !ParameterSays([], c)
  {
  }

  lemma AnyReads(kind: nat, any: Bytes, c: Contract)
    ensures DecodeAny(kind, any) == Ok(c) <==> kind == (if c.Trx? then 1 else 31) && AnySays(any, c)
  {
    hide Group, ValuesOf, ReadFields, ParameterSays, DecodeParameter, BytesOf, HoldsBytes, Ascii;
    if ReadFields(any).Ok? {
      var fs := ReadFields(any).value;
      UrlHeld(fs, c);
      var url, parameter := BytesOf(Group(fs), 1), BytesOf(Group(fs), 2);
      if url.Ok? && parameter.Ok? {
        var inner := OrEmpty(parameter.value);
        if ReadFields(inner).Ok? { ParameterReads(kind, OrEmpty(url.value), ReadFields(inner).value, c); }
        if parameter.value.Some? { BytesHeld(fs, 2, inner); } else { ReadsNothing(); NoParameter(c); }
      }
      if inner :| HoldsBytes(fs, 2, inner) && ReadFields(inner).Ok? && ParameterSays(ReadFields(inner).value, c) {
        BytesHeld(fs, 2, inner);
      }
    }
  }

  lemma ReadsNothing()
    ensures ReadFields([]) == Ok([])
  {
  }

  lemma UrlHeld(fs: seq<Field>, c: Contract)
    ensures (BytesOf(Group(fs), 1).Ok?
             && var url := OrEmpty(BytesOf(Group(fs), 1).value);
                url == Ascii(UrlOf(c)) || url == [0xEF, 0xBB, 0xBF] + Ascii(UrlOf(c)))
       <==> HoldsBytes(fs, 1, Ascii(UrlOf(c))) || HoldsBytes(fs, 1, [0xEF, 0xBB, 0xBF] + Ascii(UrlOf(c)))
  {
    hide Group, ValuesOf, HoldsBytes, BytesOf;
    BytesHeld(fs, 1, Ascii(UrlOf(c)));
    BytesHeld(fs, 1, [0xEF, 0xBB, 0xBF] + Ascii(UrlOf(c)));
  }

  lemma ContractReads(message: Bytes, c: Contract)
    ensures DecodeContract(message) == Ok(c) <==> ContractSays(message, c)
  {
    hide Group, ValuesOf, ReadFields, AnySays, BytesOf, HoldsBytes, HoldsInt, IntOf, DecodeParameter;
    if ReadFields(message).Ok? {
      var fs := ReadFields(message).value;
      var kind, any := IntOf(Group(fs), 1), BytesOf(Group(fs), 2);
      IntHeld(fs, 1, if c.Trx? then 1 else 31);
      if kind.Ok? && any.Ok? {
        AnyReads(kind.value, OrEmpty(any.value), c);
        assert DecodeContract(message) == DecodeAny(kind.value, OrEmpty(any.value));
        if any.value.Some? { BytesHeld(fs, 2, any.value.value); } else { EmptySaysNothing(c); }
      }
      if inner :| HoldsBytes(fs, 2, inner) && AnySays(inner, c) {
        BytesHeld(fs, 2, inner);
      }
    }
  }

  lemma EmptySaysNothing(c: Contract)
    ensures !AnySays([], c)
  {
    ReadsNothing();
  }

  lemma AnchorReads(fs: seq<Field>, number: int)
    ensures DecodeAnchor(Group(fs)) == Ok(number)
       <==> && (exists b :: HoldsBytes(fs, 1, b) && |b| == 2 && number == BigEndian(b))
            && (exists hash :: HoldsBytes(fs, 4, hash) && |hash| == 8)
  {
    hide Group, ValuesOf, HoldsBytes, BytesOf, BigEndian;
    var b, hash := BytesOf(Group(fs), 1), BytesOf(Group(fs), 4);
    if b.Ok? && b.value.Some? {
      BytesHeld(fs, 1, b.value.value);
      if |b.value.value| == 2 { TwoBytes(b.value.value); }
    }
    if hash.Ok? && hash.value.Some? { BytesHeld(fs, 4, hash.value.value); }
    if c :| HoldsBytes(fs, 1, c) && |c| == 2 && number == BigEndian(c) { BytesHeld(fs, 1, c); }
    if h :| HoldsBytes(fs, 4, h) && |h| == 8 { BytesHeld(fs, 4, h); }
  }

  lemma TwoBytes(b: Bytes)
    requires |b| == 2
    ensures BigEndian(b) == b[0] as int * 256 + b[1] as int
  {
    assert b[..1][..0] == [];
    assert BigEndian(b[..1]) == b[0] as int;
  }

  lemma OneContractReads(fs: seq<Field>, c: Contract)
    ensures OneContract(Group(fs)) == Ok(c)
            <==> exists message :: HoldsBytes(fs, 11, message) && ContractSays(message, c)
  {
    hide Group, ValuesOf, DecodeContract, ContractSays;
    LookupGroup(fs, 11);
    var vs := Lookup(Group(fs), 11);
    if |vs| == 1 && vs[0].DataValue? {
      ContractReads(vs[0].data, c);
      assert vs == [DataValue(vs[0].data)];
    }
  }

  /** Which bytes decode to which transaction: those that read as fields that say it, and no others. */
  lemma DecodesExactly(raw: Bytes, tx: UnsignedTx)
    ensures DecodeRaw(raw) == Ok(tx)
       <==> tx.rawDataHex == ToHex(raw) && ReadFields(raw).Ok? && RawSays(ReadFields(raw).value, tx)
  {
    hide Group, ValuesOf, ReadFields, HoldsInt, HoldsBytes, ContractSays, DecodeAnchor, OneContract, IntOf, ToHex,
         BigEndian;
    if ReadFields(raw).Ok? {
      var fs := ReadFields(raw).value;
      AnchorReads(fs, tx.refBlockNum);
      OneContractReads(fs, tx.contract);
      EachInt(fs, 8, tx.expiration);
      EachInt(fs, 14, tx.timestamp);
      EachInt(fs, 18, if tx.feeLimitSun.Some? then tx.feeLimitSun.value else 0);
    }
  }

  lemma EachInt(fs: seq<Field>, number: nat, value: int)
    ensures IntOf(Group(fs), number).Ok? && IntOf(Group(fs), number).value == value <==> HoldsInt(fs, number, value)
  {
    if value >= 0 { IntHeld(fs, number, value); }
  }

  // ---- what the builders print ------------------------------------------------------------------------------------

  function Delimited(tag: Byte, data: Bytes): Bytes {
    [tag] + Varint(|data|) + data
  }

  function TrxBytes(from: Account, to: Account, amount: nat): Bytes {
    [0x0a, 21, 0x41] + from + [0x12, 21, 0x41] + to + [0x18] + Varint(amount)
  }

  function Trc20Bytes(from: Account, contract: Account, data: Bytes): Bytes {
    [0x0a, 21, 0x41] + from + [0x12, 21, 0x41] + contract + Delimited(0x22, data)
  }

  function ContractBytes(kind: Byte, url: string, parameter: Bytes): Bytes {
    [0x08, kind] + Delimited(0x12, Delimited(0x0a, Ascii(url)) + Delimited(0x12, parameter))
  }

  function RawBytes(number: int, id: Bytes, contract: Bytes, expiration: nat, timestamp: nat): Bytes
    requires |id| == 32
  {
    [0x0a, 2, number / 256 % 256, number % 256, 0x22, 8] + id[8..16] + [0x40] + Varint(expiration)
    + Delimited(0x5a, contract) + [0x70] + Varint(timestamp)
  }

  /** A field numbered below 16 has a key of one byte. */
  lemma IntPrinted(number: nat, v: nat)
    requires number < 16
    ensures Encode(Field(number, IntValue(v))) == [8 * number] + Varint(v)
  {
    assert Varint(8 * number) == [8 * number];
  }

  lemma DataPrinted(number: nat, data: Bytes)
    requires number < 15
    ensures Encode(Field(number, DataValue(data))) == Delimited(8 * number + 2, data)
  {
    assert Varint(8 * number + 2) == [8 * number + 2];
  }

  lemma Short(tag: Byte, data: Bytes)
    requires |data| < 128
    ensures Delimited(tag, data) == [tag, |data|] + data
  {
    assert [tag] + [|data|] == [tag, |data|];
  }

  lemma TwoFields(fs: seq<Field>)
    requires |fs| == 2
    ensures EncodeAll(fs) == Encode(fs[0]) + Encode(fs[1])
  {
    assert EncodeAll(fs[1..]) == Encode(fs[1]) + EncodeAll(fs[1..][1..]);
  }

  lemma ThreeFields(fs: seq<Field>)
    requires |fs| == 3
    ensures EncodeAll(fs) == Encode(fs[0]) + Encode(fs[1]) + Encode(fs[2])
  {
    TwoFields(fs[1..]);
  }

  lemma AddressPrinted(number: nat, a: Account)
    requires number < 15
    ensures Encode(Field(number, DataValue(Address21(a)))) == [8 * number + 2, 21, 0x41] + a
  {
    hide Encode, Delimited;
    DataPrinted(number, Address21(a));
    Short(8 * number + 2, Address21(a));
    assert [8 * number + 2, 21] + ([0x41] + a) == [8 * number + 2, 21, 0x41] + a;
  }

  lemma TrxPrinted(from: Account, to: Account, amount: nat)
    ensures EncodeAll(TrxFields(from, to, amount)) == TrxBytes(from, to, amount)
  {
    hide Encode, EncodeAll, Varint;
    ThreeFields(TrxFields(from, to, amount));
    AddressPrinted(1, from);
    AddressPrinted(2, to);
    IntPrinted(3, amount);
  }

  lemma Trc20Printed(from: Account, contract: Account, data: Bytes)
    ensures EncodeAll(Trc20Fields(from, contract, data)) == Trc20Bytes(from, contract, data)
  {
    hide Encode, EncodeAll, Delimited;
    ThreeFields(Trc20Fields(from, contract, data));
    AddressPrinted(1, from);
    AddressPrinted(2, contract);
    DataPrinted(4, data);
  }

  lemma ContractPrinted(kind: Byte, url: string, parameter: Bytes)
    requires kind < 128
    ensures EncodeAll(ContractFields(kind, url, parameter)) == ContractBytes(kind, url, parameter)
  {
    hide Encode, EncodeAll, Delimited, Ascii;
    TwoFields(AnyFields(url, parameter));
    DataPrinted(1, Ascii(url));
    DataPrinted(2, parameter);
    var any := EncodeAll(AnyFields(url, parameter));
    TwoFields(ContractFields(kind, url, parameter));
    IntPrinted(1, kind);
    DataPrinted(2, any);
    assert Varint(kind) == [kind];
  }

  lemma AnchorPrinted(number: int, id: Bytes)
    requires |id| == 32
    ensures EncodeAll([Field(1, DataValue([number / 256 % 256, number % 256])), Field(4, DataValue(id[8..16]))])
         == [0x0a, 2, number / 256 % 256, number % 256, 0x22, 8] + id[8..16]
  {
    hide Encode, EncodeAll, Delimited;
    var two: Bytes := [number / 256 % 256, number % 256];
    TwoFields([Field(1, DataValue(two)), Field(4, DataValue(id[8..16]))]);
    DataPrinted(1, two);
    DataPrinted(4, id[8..16]);
    Short(0x0a, two);
    Short(0x22, id[8..16]);
  }

  lemma BodyPrinted(contract: Bytes, expiration: nat, timestamp: nat)
    ensures EncodeAll([Field(8, IntValue(expiration)), Field(11, DataValue(contract)), Field(14, IntValue(timestamp))])
         == [0x40] + Varint(expiration) + Delimited(0x5a, contract) + [0x70] + Varint(timestamp)
  {
    hide Encode, EncodeAll, Delimited, Varint;
    ThreeFields([Field(8, IntValue(expiration)), Field(11, DataValue(contract)), Field(14, IntValue(timestamp))]);
    IntPrinted(8, expiration);
    DataPrinted(11, contract);
    IntPrinted(14, timestamp);
  }

  lemma RawPrinted(number: int, id: Bytes, contract: Bytes, expiration: nat, timestamp: nat, fee: Option<nat>)
    requires |id| == 32
    ensures EncodeAll(RawFields([number / 256 % 256, number % 256], id[8..16], expiration, contract, timestamp, fee))
         == RawBytes(number, id, contract, expiration, timestamp) + FeeBytes(fee)
  {
    hide Encode, EncodeAll, Delimited, Varint, FeeBytes;
    var fs := RawFields([number / 256 % 256, number % 256], id[8..16], expiration, contract, timestamp, fee);
    EncodeSplit(fs[..5], fs[5..]);
    EncodeSplit(fs[..2], fs[2..5]);
    assert fs[..5] + fs[5..] == fs && fs[..2] + fs[2..5] == fs[..5];
    AnchorPrinted(number, id);
    assert fs[..2]
        == [Field(1, DataValue([number / 256 % 256, number % 256])), Field(4, DataValue(id[8..16]))];
    BodyPrinted(contract, expiration, timestamp);
    assert fs[2..5]
        == [Field(8, IntValue(expiration)), Field(11, DataValue(contract)), Field(14, IntValue(timestamp))];
    FeePrinted(fs[5..], fee);
  }

  function FeeBytes(fee: Option<nat>): Bytes {
    if fee.Some? then [0x90, 0x01] + Varint(fee.value) else []
  }

  lemma FeePrinted(fs: seq<Field>, fee: Option<nat>)
    requires fs == if fee.Some? then [Field(18, IntValue(fee.value))] else []
    ensures EncodeAll(fs) == FeeBytes(fee)
  {
    if fee.Some? {
      assert Varint(144) == [144, 1];
      assert EncodeAll(fs[1..]) == [];
    }
  }

  lemma RawDataPrinted(contract: Bytes, ref: ReferenceBlock, expiration: int, timestamp: int, fee: Option<int>)
    requires RawData(contract, ref, expiration, timestamp, fee).Ok?
    ensures FromHex(ref.id).Ok? && |FromHex(ref.id).value| == 32
    ensures timestamp >= 0 && expiration >= 0 && (fee.Some? ==> fee.value >= 0)
    ensures RawData(contract, ref, expiration, timestamp, fee)
         == Ok(RawBytes(ref.number, FromHex(ref.id).value, contract, expiration, timestamp)
               + FeeBytes(if fee.Some? then Some(fee.value) else None))
  {
    hide EncodeAll, FromHex, RawBytes, FeeBytes, RawFields;
    RawPrinted(ref.number, FromHex(ref.id).value, contract, expiration, timestamp,
               if fee.Some? then Some(fee.value) else None);
  }

  lemma {:induction false} EncodeSplit(a: seq<Field>, b: seq<Field>)
    ensures EncodeAll(a + b) == EncodeAll(a) + EncodeAll(b)
  {
    if a == [] {
      assert a + b == b;
    } else {
      assert (a + b)[1..] == a[1..] + b;
      EncodeSplit(a[1..], b);
    }
  }

  /** The call data that is printed: the selector, the recipient, the amount. */
  lemma CallPrinted(to: Account, amount: int) returns (data: Bytes)
    requires Positive(amount)
    ensures Trc20TransferData(to, amount).Ok? && FromHex(Trc20TransferData(to, amount).value) == Ok(data)
    ensures CallSays(data, to, amount)
  {
    hide FromHex, ToHex, DecodeCall, Trc20TransferData, CallSays;
    CallBytes(to, amount);
    data := FromHex(Trc20TransferData(to, amount).value).value;
    CallReads(data, to, amount);
  }

  /**
   * A top-up that is built is the one asked for: its record bears the values given, its bytes are laid out from them,
   * and reading them gives the same transaction, its block number cut to the two bytes kept.
   */
  lemma BuildsTrx(from: Account, to: Account, amount: int, ref: ReferenceBlock, expiration: int, timestamp: int)
    requires BuildTrxTransfer(from, to, amount, ref, expiration, timestamp).Ok?
    ensures var tx := BuildTrxTransfer(from, to, amount, ref, expiration, timestamp).value;
            && tx == UnsignedTx(tx.rawDataHex, Trx(from, to, amount), ref.number, expiration, timestamp, None)
            && FromHex(ref.id).Ok? && |FromHex(ref.id).value| == 32
            && amount >= 0 && timestamp >= 0 && expiration >= 0
            && FromHex(tx.rawDataHex)
            == Ok(RawBytes(ref.number, FromHex(ref.id).value,
                           ContractBytes(1, "type.googleapis.com/protocol.TransferContract",
                                         TrxBytes(from, to, amount)), expiration, timestamp))
            && DecodeRawHex(tx.rawDataHex)
            == Ok(DecodedTx(UnsignedTx(tx.rawDataHex, Trx(from, to, amount), ref.number % 65536, expiration, timestamp,
                                       None), []))
  {
    hide EncodeAll, FromHex, ToHex, Varint, Ascii, DecodeRaw, Built, RawBytes, ContractBytes, TrxBytes;
    var tx := BuildTrxTransfer(from, to, amount, ref, expiration, timestamp).value;
    assert Built(tx) by { BuiltTrx(from, to, amount, ref, expiration, timestamp); }
    DecodeUndoesBuild(tx);
    TrxPrinted(from, to, amount);
    ContractPrinted(1, TRANSFER_URL, TrxBytes(from, to, amount));
    var message := ContractMessage(Trx(from, to, amount)).value;
    RawDataPrinted(message, ref, expiration, timestamp, None);
    var raw := RawBytes(ref.number, FromHex(ref.id).value, message, expiration, timestamp);
    assert message == ContractBytes(1, TRANSFER_URL, TrxBytes(from, to, amount));
    assert raw + [] == raw;
    FromHexToHex(raw);
  }

  lemma BuiltTrx(from: Account, to: Account, amount: int, ref: ReferenceBlock, expiration: int, timestamp: int)
    requires BuildTrxTransfer(from, to, amount, ref, expiration, timestamp).Ok?
    ensures Built(BuildTrxTransfer(from, to, amount, ref, expiration, timestamp).value)
  {
    var tx := BuildTrxTransfer(from, to, amount, ref, expiration, timestamp).value;
    assert BuildTrxTransfer(from, to, amount, ref, expiration, timestamp) == Ok(tx);
  }

  /** So is a token transfer, with its call and its fee limit. */
  lemma BuildsTrc20(from: Account, contract: Account, to: Account, amount: int, fee: int, ref: ReferenceBlock,
                    expiration: int, timestamp: int) returns (data: Bytes)
    requires BuildTrc20Transfer(from, contract, to, amount, fee, ref, expiration, timestamp).Ok?
    ensures CallSays(data, to, amount)
    ensures var tx := BuildTrc20Transfer(from, contract, to, amount, fee, ref, expiration, timestamp).value;
            && tx == UnsignedTx(tx.rawDataHex, Trc20(from, contract, to, amount), ref.number, expiration, timestamp,
                                Some(fee))
            && FromHex(ref.id).Ok? && |FromHex(ref.id).value| == 32 && fee >= 0 && timestamp >= 0 && expiration >= 0
            && FromHex(tx.rawDataHex)
            == Ok(RawBytes(ref.number, FromHex(ref.id).value,
                           ContractBytes(31, "type.googleapis.com/protocol.TriggerSmartContract",
                                         Trc20Bytes(from, contract, data)), expiration, timestamp)
                  + ([0x90, 0x01] + Varint(fee)))
            && DecodeRawHex(tx.rawDataHex)
            == Ok(DecodedTx(UnsignedTx(tx.rawDataHex, Trc20(from, contract, to, amount), ref.number % 65536,
                                       expiration, timestamp, Some(fee)), []))
  {
    hide EncodeAll, FromHex, ToHex, Varint, Ascii, DecodeRaw, Built, RawBytes, ContractBytes, Trc20Bytes, CallSays,
         Trc20TransferData;
    var tx := BuildTrc20Transfer(from, contract, to, amount, fee, ref, expiration, timestamp).value;
    assert Built(tx) by { BuiltTrc20(from, contract, to, amount, fee, ref, expiration, timestamp); }
    DecodeUndoesBuild(tx);
    data := CallPrinted(to, amount);
    Trc20Printed(from, contract, data);
    ContractPrinted(31, TRIGGER_URL, Trc20Bytes(from, contract, data));
    var message := ContractMessage(Trc20(from, contract, to, amount)).value;
    RawDataPrinted(message, ref, expiration, timestamp, Some(fee));
    assert message == ContractBytes(31, TRIGGER_URL, Trc20Bytes(from, contract, data));
    FromHexToHex(RawData(message, ref, expiration, timestamp, Some(fee)).value);
  }

  lemma BuiltTrc20(from: Account, contract: Account, to: Account, amount: int, fee: int, ref: ReferenceBlock,
                   expiration: int, timestamp: int)
    requires BuildTrc20Transfer(from, contract, to, amount, fee, ref, expiration, timestamp).Ok?
    ensures Built(BuildTrc20Transfer(from, contract, to, amount, fee, ref, expiration, timestamp).value)
  {
    var tx := BuildTrc20Transfer(from, contract, to, amount, fee, ref, expiration, timestamp).value;
    assert BuildTrc20Transfer(from, contract, to, amount, fee, ref, expiration, timestamp) == Ok(tx);
  }

  /** The signed form holds the raw data and the signature of 65 bytes; no other signature is taken. */
  lemma Signs(rawDataHex: string, signatureHex: string)
    ensures var raw, signature, r := FromHex(rawDataHex), FromHex(signatureHex),
                                     SignedTransactionHex(rawDataHex, signatureHex);
            && (r.Ok? <==> raw.Ok? && signature.Ok? && |signature.value| == 65)
            && (r.Ok? ==> FromHex(r.value) == Ok(Delimited(0x0a, raw.value) + ([0x12, 65] + signature.value)))
  {
    hide FromHex, ToHex, Encode, EncodeAll, Delimited;
    var raw, signature := FromHex(rawDataHex), FromHex(signatureHex);
    if raw.Ok? && signature.Ok? && |signature.value| == 65 {
      var fs := [Field(1, DataValue(raw.value)), Field(2, DataValue(signature.value))];
      TwoFields(fs);
      DataPrinted(1, raw.value);
      DataPrinted(2, signature.value);
      Short(0x12, signature.value);
      FromHexToHex(EncodeAll(fs));
    }
  }

  /** The signatures are the hex of exactly the values of their field, all of them bytes, in order. */
  ghost predicate SignaturesAre(vs: seq<ProtoValue>, signatures: seq<string>) {
    |signatures| == |vs| && forall i :: 0 <= i < |vs| ==> vs[i].DataValue? && signatures[i] == ToHex(vs[i].data)
  }

  lemma {:induction false} SignaturesRead(vs: seq<ProtoValue>, signatures: seq<string>)
    ensures HexOfEach(vs) == Ok(signatures) <==> SignaturesAre(vs, signatures)
  {
    hide ToHex;
    if vs != [] && signatures != [] {
      SignaturesRead(vs[1..], signatures[1..]);
      assert signatures == [signatures[0]] + signatures[1..];
      if SignaturesAre(vs[1..], signatures[1..]) && vs[0].DataValue? && signatures[0] == ToHex(vs[0].data) {
        forall i | 0 <= i < |vs|
          ensures vs[i].DataValue? && signatures[i] == ToHex(vs[i].data)
        {
          assert i > 0 ==> vs[i] == vs[1..][i - 1] && signatures[i] == signatures[1..][i - 1];
        }
      }
    }
  }

  /** Which signed texts decode to what: the first field, or nothing, is the raw data, and the second its signatures. */
  lemma DecodesSignedExactly(signedHex: string, d: DecodedTx)
    ensures DecodeSignedHex(signedHex) == Ok(d)
       <==> && FromHex(signedHex).Ok? && ReadFields(FromHex(signedHex).value).Ok?
            && var fs := ReadFields(FromHex(signedHex).value).value;
            && SignaturesAre(ValuesOf(fs, 2), d.signatures)
            && exists raw :: && (HoldsBytes(fs, 1, raw) || (ValuesOf(fs, 1) == [] && raw == []))
                             && DecodeRaw(raw) == Ok(d.tx)
  {
    hide Group, ValuesOf, ReadFields, DecodeRaw, FromHex, HexOfEach, SignaturesAre, BytesOf, HoldsBytes;
    var bytes := FromHex(signedHex);
    if bytes.Ok? && ReadFields(bytes.value).Ok? {
      var fs := ReadFields(bytes.value).value;
      LookupGroup(fs, 2);
      SignaturesRead(ValuesOf(fs, 2), d.signatures);
      RawHeld(fs);
      var r := BytesOf(Group(fs), 1);
      if r.Ok? && r.value.Some? { BytesHeld(fs, 1, r.value.value); }
      forall raw | HoldsBytes(fs, 1, raw)
        ensures r == Ok(Some(raw))
      {
        BytesHeld(fs, 1, raw);
      }
    }
  }

  lemma RawHeld(fs: seq<Field>)
    ensures BytesOf(Group(fs), 1) == Ok(None) <==> ValuesOf(fs, 1) == []
  {
    LookupGroup(fs, 1);
  }
}
