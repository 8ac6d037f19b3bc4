/**
 * Transactions built and read locally, as packages/adapters/src/tron-tx.ts does it. An account is its 20 bytes: the
 * base58check text of an address stands for exactly one of them.
 */
module TronTx {
  import opened Sequences
  import opened Results
  import opened Hex
  import opened ProtoWire

  const MAX_INT64: int := 0x7fff_ffff_ffff_ffff
  const MAX_SAFE_INTEGER: int := 0x1f_ffff_ffff_ffff
  const TRANSFER_CONTRACT: nat := 1
  const TRIGGER_SMART_CONTRACT: nat := 31
  const TRANSFER_URL := "type.googleapis.com/protocol.TransferContract"
  const TRIGGER_URL := "type.googleapis.com/protocol.TriggerSmartContract"
  const TRANSFER_SELECTOR: string := "a9059cbb"

  type Account = a: Bytes | |a| == 20 witness seq(20, _ => 0)

  datatype ReferenceBlock = ReferenceBlock(number: int, id: string)

  datatype Contract =
    | Trx(from: Account, to: Account, amountSun: int)
    | Trc20(from: Account, contract: Account, to: Account, amountMinor: int)

  datatype UnsignedTx = UnsignedTx(
    rawDataHex: string, contract: Contract, refBlockNum: int, expiration: int, timestamp: int, feeLimitSun: Option<int>)

  datatype DecodedTx = DecodedTx(tx: UnsignedTx, signatures: seq<string>)

  // ---- printing -----------------------------------------------------------------------------------------------

  predicate Positive(value: int) {
    0 < value <= MAX_INT64
  }

  /** The bytes of the ASCII texts that are encoded here. */
  function Ascii(s: string): (b: Bytes)
    ensures |b| == |s|
  {
    seq(|s|, i requires 0 <= i < |s| => if s[i] < 128 as char then s[i] as int else 63)
  }

  /** An account as a transaction carries it: 21 bytes, the first 0x41. */
  function Address21(a: Account): Bytes {
    [0x41] + a
  }

  /** The last two bytes of the block number and the middle eight of the block id. */
  function Anchor(ref: ReferenceBlock): Result<(Bytes, Bytes)> {
    if !Positive(ref.number) then Err(InvalidArgument)
    else
      var id :- FromHex(ref.id);
      if |id| != 32 then Err(InvalidArgument)
      else Ok(([ref.number / 256 % 256, ref.number % 256], id[8..16]))
  }

  function AnyFields(url: string, parameter: Bytes): seq<Field> {
    [Field(1, DataValue(Ascii(url))), Field(2, DataValue(parameter))]
  }

  function ContractFields(kind: nat, url: string, parameter: Bytes): seq<Field> {
    [Field(1, IntValue(kind)), Field(2, DataValue(EncodeAll(AnyFields(url, parameter))))]
  }

  function RawFields(refBytes: Bytes, refHash: Bytes, expiration: nat, contract: Bytes, timestamp: nat,
                     fee: Option<nat>): seq<Field> {
    [Field(1, DataValue(refBytes)), Field(4, DataValue(refHash)), Field(8, IntValue(expiration)),
     Field(11, DataValue(contract)), Field(14, IntValue(timestamp))]
    + if fee.Some? then [Field(18, IntValue(fee.value))] else []
  }

  function RawData(contract: Bytes, ref: ReferenceBlock, expiration: int, timestamp: int,
                   fee: Option<int>): Result<Bytes> {
    if !(-MAX_SAFE_INTEGER <= timestamp < expiration <= MAX_SAFE_INTEGER) then Err(InvalidArgument)
    else
      var (refBytes, refHash) :- Anchor(ref);
      // A negative varint is refused where it would be printed; the expiration is the later of the two.
      if timestamp < 0 then Err(InvalidArgument)
      else if fee.Some? && !Positive(fee.value) then Err(InvalidAmount)
      else Ok(EncodeAll(RawFields(refBytes, refHash, expiration, contract, timestamp,
                                  if fee.Some? then Some(fee.value) else None)))
  }

  /** The same, printed field by field. */
  method PrintRawData(contract: Bytes, ref: ReferenceBlock, expiration: int, timestamp: int, fee: Option<int>)
      returns (r: Result<Bytes>)
    ensures r == RawData(contract, ref, expiration, timestamp, fee)
  {
    hide EncodeAll, Anchor;
    if !(-MAX_SAFE_INTEGER <= timestamp < expiration <= MAX_SAFE_INTEGER) { return Err(InvalidArgument); }
    var anchor := Anchor(ref);
    if anchor.Err? { return Err(anchor.error); }
    var w := new ProtoWriter();
    w.Data(1, anchor.value.0);
    w.Data(4, anchor.value.1);
    var ok := w.Int(8, expiration);
    if !ok { return Err(InvalidArgument); }
    w.Data(11, contract);
    ok := w.Int(14, timestamp);
    if !ok { return Err(InvalidArgument); }
    if fee.Some? {
      if !Positive(fee.value) { return Err(InvalidAmount); }
      ok := w.Int(18, fee.value);
    }
    assert w.written == RawFields(anchor.value.0, anchor.value.1, expiration, contract, timestamp,
                                  if fee.Some? then Some(fee.value) else None);
    r := Ok(w.bytes);
  }

  function TrxFields(from: Account, to: Account, amount: nat): seq<Field> {
    [Field(1, DataValue(Address21(from))), Field(2, DataValue(Address21(to))), Field(3, IntValue(amount))]
  }

  function Trc20Fields(from: Account, contract: Account, data: Bytes): seq<Field> {
    [Field(1, DataValue(Address21(from))), Field(2, DataValue(Address21(contract))), Field(4, DataValue(data))]
  }

  /** The call data of `transfer(to, amount)`, as hex text. */
  function Trc20TransferData(to: Account, amount: int): Result<string> {
    if !Positive(amount) then Err(InvalidAmount)
    else Ok(TRANSFER_SELECTOR + PadStart(ToHex(to), 64) + PadStart(NumberHex(amount), 64))
  }

  /** The `Contract` message of either transfer. */
  function ContractMessage(c: Contract): Result<Bytes> {
    match c
    case Trx(from, to, amount) =>
      if amount < 0 then Err(InvalidArgument)
      else Ok(EncodeAll(ContractFields(TRANSFER_CONTRACT, TRANSFER_URL, EncodeAll(TrxFields(from, to, amount)))))
    case Trc20(from, contract, to, amount) =>
      var text :- Trc20TransferData(to, amount);
      var data :- FromHex(text);
      Ok(EncodeAll(ContractFields(TRIGGER_SMART_CONTRACT, TRIGGER_URL, EncodeAll(Trc20Fields(from, contract, data)))))
  }

  function BuildTrxTransfer(from: Account, to: Account, amount: int, ref: ReferenceBlock, expiration: int,
                            timestamp: int): Result<UnsignedTx> {
    if from == to then Err(InvalidArgument)
    else if !Positive(amount) then Err(InvalidAmount)
    else
      var message :- ContractMessage(Trx(from, to, amount));
      var raw :- RawData(message, ref, expiration, timestamp, None);
      Ok(UnsignedTx(ToHex(raw), Trx(from, to, amount), ref.number, expiration, timestamp, None))
  }

  function BuildTrc20Transfer(from: Account, contract: Account, to: Account, amount: int, fee: int, ref: ReferenceBlock,
                              expiration: int, timestamp: int): Result<UnsignedTx> {
    if from == to then Err(InvalidArgument)
    else if !Positive(amount) then Err(InvalidAmount)
    else
      var message :- ContractMessage(Trc20(from, contract, to, amount));
      var raw :- RawData(message, ref, expiration, timestamp, Some(fee));
      Ok(UnsignedTx(ToHex(raw), Trc20(from, contract, to, amount), ref.number, expiration, timestamp, Some(fee)))
  }

  function SignedTransactionHex(rawDataHex: string, signatureHex: string): Result<string> {
    var signature :- FromHex(signatureHex);
    if |signature| != 65 then Err(InvalidArgument)
    else
      var raw :- FromHex(rawDataHex);
      Ok(ToHex(EncodeAll([Field(1, DataValue(raw)), Field(2, DataValue(signature))])))
  }

  // ---- reading ------------------------------------------------------------------------------------------------

  /** The one value of a field, if it is there; a repeated field is refused. */
  function One(m: FieldMap, number: nat): Result<Option<ProtoValue>> {
    var vs := Lookup(m, number);
    if |vs| > 1 then Err(InvalidArgument) else if |vs| == 1 then Ok(Some(vs[0])) else Ok(None)
  }

  function BytesOf(m: FieldMap, number: nat): Result<Option<Bytes>> {
    var v :- One(m, number);
    match v
    case None => Ok(None)
    case Some(IntValue(_)) => Err(InvalidArgument)
    case Some(DataValue(d)) => Ok(Some(d))
  }

  function IntOf(m: FieldMap, number: nat): Result<nat> {
    var v :- One(m, number);
    match v
    case None => Ok(0)
    case Some(IntValue(n)) => Ok(n)
    case Some(DataValue(_)) => Err(InvalidArgument)
  }

  function OrEmpty(b: Option<Bytes>): Bytes {
    if b.Some? then b.value else []
  }

  /** Absent bytes make the source throw here as well, though as a type error. */
  function AddressFrom21(b: Option<Bytes>): Result<Account> {
    if b.None? || |b.value| != 21 || b.value[0] != 0x41 then Err(InvalidArgument) else Ok(b.value[1..])
  }

  /** Whether bytes decode to an ASCII text: UTF-8 decoding drops a byte order mark in front of it. */
  predicate Spells(b: Bytes, text: string) {
    b == Ascii(text) || b == [0xEF, 0xBB, 0xBF] + Ascii(text)
  }

  predicate AllZeros(s: string) {
    forall i :: 0 <= i < |s| ==> s[i] == '0'
  }

  function DecodeCall(data: string): Result<(Account, nat)>
    requires AllDigits(data)
  {
    if |data| != 8 + 128 || data[..8] != TRANSFER_SELECTOR || !AllZeros(data[8..32]) then Err(InvalidArgument)
    else
      var to :- FromHex(data[32..72]);
      if |to| != 20 then Err(InvalidArgument)
      else Ok((to, HexNumber(data[72..])))
  }

  function DecodeTrx(p: FieldMap): Result<Contract> {
    var fromBytes :- BytesOf(p, 1);
    var from :- AddressFrom21(fromBytes);
    var toBytes :- BytesOf(p, 2);
    var to :- AddressFrom21(toBytes);
    var amount :- IntOf(p, 3);
    Ok(Trx(from, to, amount))
  }

  function DecodeTrc20(p: FieldMap): Result<Contract> {
    var callValue :- IntOf(p, 3);
    var tokenValue :- if callValue != 0 then Err(InvalidArgument) else IntOf(p, 5);
    var tokenId :- if tokenValue != 0 then Err(InvalidArgument) else IntOf(p, 6);
    if tokenId != 0 then Err(InvalidArgument)
    else
      var bytes :- BytesOf(p, 4);
      var (to, amount) :- DecodeCall(ToHex(OrEmpty(bytes)));
      var fromBytes :- BytesOf(p, 1);
      var from :- AddressFrom21(fromBytes);
      var contractBytes :- BytesOf(p, 2);
      var contract :- AddressFrom21(contractBytes);
      Ok(Trc20(from, contract, to, amount))
  }

  function DecodeContract(message: Bytes): Result<Contract> {
    var c :- ParseProto(message);
    var kind :- IntOf(c, 1);
    var anyBytes :- BytesOf(c, 2);
    var any :- ParseProto(OrEmpty(anyBytes));
    var url :- BytesOf(any, 1);
    var parameter :- BytesOf(any, 2);
    var p :- ParseProto(OrEmpty(parameter));
    DecodeParameter(kind, OrEmpty(url), p)
  }

  function DecodeParameter(kind: nat, url: Bytes, p: FieldMap): Result<Contract> {
    if kind == TRANSFER_CONTRACT && Spells(url, TRANSFER_URL) then DecodeTrx(p)
    else if kind == TRIGGER_SMART_CONTRACT && Spells(url, TRIGGER_URL) then DecodeTrc20(p)
    else Err(InvalidArgument)
  }

  /** The two bytes that say which block a transaction is anchored to, as a number. */
  function DecodeAnchor(r: FieldMap): Result<int> {
    var refBytes :- BytesOf(r, 1);
    var refHash :- BytesOf(r, 4);
    if refBytes.None? || |refBytes.value| != 2 || refHash.None? || |refHash.value| != 8 then Err(InvalidArgument)
    else Ok(refBytes.value[0] as int * 256 + refBytes.value[1] as int)
  }

  function OneContract(r: FieldMap): Result<Contract> {
    var contracts := Lookup(r, 11);
    if |contracts| != 1 || contracts[0].IntValue? then Err(InvalidArgument) else DecodeContract(contracts[0].data)
  }

  function DecodeRaw(raw: Bytes): Result<UnsignedTx> {
    var r :- ParseProto(raw);
    var refBlockNum :- DecodeAnchor(r);
    var contract :- OneContract(r);
    var fee :- IntOf(r, 18);
    var expiration :- IntOf(r, 8);
    var timestamp :- IntOf(r, 14);
    Ok(UnsignedTx(ToHex(raw), contract, refBlockNum, expiration, timestamp, if fee == 0 then None else Some(fee)))
  }

  function HexOfEach(vs: seq<ProtoValue>): Result<seq<string>> {
    if vs == [] then Ok([])
    else if vs[0].IntValue? then Err(InvalidArgument)
    else
      var rest :- HexOfEach(vs[1..]);
      Ok([ToHex(vs[0].data)] + rest)
  }

  function DecodeRawHex(rawDataHex: string): Result<DecodedTx> {
    var raw :- FromHex(rawDataHex);
    var tx :- DecodeRaw(raw);
    Ok(DecodedTx(tx, []))
  }

  function DecodeSignedHex(signedHex: string): Result<DecodedTx> {
    var bytes :- FromHex(signedHex);
    var m :- ParseProto(bytes);
    var raw :- BytesOf(m, 1);
    var signatures :- HexOfEach(Lookup(m, 2));
    var tx :- DecodeRaw(OrEmpty(raw));
    Ok(DecodedTx(tx, signatures))
  }

  // ---- decode undoes build --------------------------------------------------------------------------------------

  ghost predicate NumberedApart(fs: seq<Field>) {
    forall i, j :: 0 <= i < j < |fs| ==> fs[i].number != fs[j].number
  }

  /** A message whose fields fit the reader's varints and are numbered apart. */
  ghost predicate Readable(fs: seq<Field>) {
    && (forall i :: 0 <= i < |fs| ==> Fits(fs[i]))
    && NumberedApart(fs)
  }

  lemma {:induction false} ValuesOfOne(fs: seq<Field>, i: nat)
    requires i < |fs| && NumberedApart(fs)
    ensures ValuesOf(fs, fs[i].number) == [fs[i].value]
  {
    if i == 0 {
      ValuesOfNone(fs[1..], fs[0].number);
    } else {
      ValuesOfOne(fs[1..], i - 1);
    }
  }

  lemma {:induction false} ValuesOfNone(fs: seq<Field>, number: nat)
    requires forall i :: 0 <= i < |fs| ==> fs[i].number != number
    ensures ValuesOf(fs, number) == []
  {
    if fs != [] { ValuesOfNone(fs[1..], number); }
  }

  /** Reading back a message field by field finds each of them once. */
  lemma FieldReadBack(fs: seq<Field>, i: nat)
    requires i < |fs| && Readable(fs)
    ensures ParseProto(EncodeAll(fs)) == Ok(Group(fs))
    ensures Lookup(Group(fs), fs[i].number) == [fs[i].value]
  {
    ReadUndoesWrite(fs);
    LookupGroup(fs, fs[i].number);
    ValuesOfOne(fs, i);
  }

  lemma AbsentReadBack(fs: seq<Field>, number: nat)
    requires forall i :: 0 <= i < |fs| ==> fs[i].number != number
    ensures Lookup(Group(fs), number) == []
  {
    LookupGroup(fs, number);
    ValuesOfNone(fs, number);
  }

  lemma {:induction false} VarintSize(v: nat, k: nat)
    requires k > 0 && v < Pow128(k)
    ensures |Varint(v)| <= k
  {
    if v >= 128 {
      assert k > 1;
      VarintSize(v / 128, k - 1);
    }
  }

  function PayloadSize(f: Field): nat {
    if f.value.DataValue? then |f.value.data| else 0
  }

  lemma EncodeSize(f: Field)
    requires Fits(f)
    ensures |Encode(f)| <= 20 + PayloadSize(f)
  {
    VarintSize(8 * f.number, 10);
    VarintSize(8 * f.number + 2, 10);
    VarintSize(if f.value.IntValue? then f.value.value else |f.value.data|, 10);
  }

  function TotalPayload(fs: seq<Field>): nat {
    if fs == [] then 0 else PayloadSize(fs[0]) + TotalPayload(fs[1..])
  }

  lemma {:induction false} EncodeAllSize(fs: seq<Field>)
    requires forall i :: 0 <= i < |fs| ==> Fits(fs[i])
    ensures |EncodeAll(fs)| <= 20 * |fs| + TotalPayload(fs)
  {
    if fs != [] {
      EncodeSize(fs[0]);
      EncodeAllSize(fs[1..]);
    }
  }

  /** Everything built here is short, and every number fits in 64 bits. */
  lemma SmallFits(number: nat, value: ProtoValue)
    requires number < 100 && (if value.IntValue? then value.value <= MAX_INT64 else |value.data| < 10000)
    ensures Fits(Field(number, value))
  {
    Int64Fits(if value.IntValue? then value.value else |value.data|);
    Int64Fits(8 * number + 2);
  }

  lemma TrxReadBack(from: Account, to: Account, amount: int)
    requires Positive(amount)
    ensures var fs := TrxFields(from, to, amount);
            |EncodeAll(fs)| < 1000 && ParseProto(EncodeAll(fs)) == Ok(Group(fs))
              && DecodeTrx(Group(fs)) == Ok(Trx(from, to, amount))
  {
    var fs := TrxFields(from, to, amount);
    SmallFits(1, fs[0].value);
    SmallFits(2, fs[1].value);
    SmallFits(3, fs[2].value);
    FieldReadBack(fs, 0);
    FieldReadBack(fs, 1);
    FieldReadBack(fs, 2);
    EncodeAllSize(fs);
    ThreePayloads(fs);
  }

  lemma ThreePayloads(fs: seq<Field>)
    requires |fs| == 3
    ensures TotalPayload(fs) == PayloadSize(fs[0]) + PayloadSize(fs[1]) + PayloadSize(fs[2])
  {
    assert TotalPayload(fs[1..][1..]) == PayloadSize(fs[2]) + TotalPayload(fs[1..][1..][1..]);
  }

  lemma Trc20FieldsReadBack(from: Account, contract: Account, data: Bytes)
    requires |data| == 68
    ensures var fs := Trc20Fields(from, contract, data);
            && |EncodeAll(fs)| < 1000 && ParseProto(EncodeAll(fs)) == Ok(Group(fs))
            && BytesOf(Group(fs), 1) == Ok(Some(Address21(from)))
            && BytesOf(Group(fs), 2) == Ok(Some(Address21(contract)))
            && BytesOf(Group(fs), 4) == Ok(Some(data))
            && IntOf(Group(fs), 3) == Ok(0) && IntOf(Group(fs), 5) == Ok(0) && IntOf(Group(fs), 6) == Ok(0)
  {
    var fs := Trc20Fields(from, contract, data);
    SmallFits(1, fs[0].value);
    SmallFits(2, fs[1].value);
    SmallFits(4, fs[2].value);
    FieldReadBack(fs, 0);
    FieldReadBack(fs, 1);
    FieldReadBack(fs, 2);
    AbsentReadBack(fs, 3);
    AbsentReadBack(fs, 5);
    AbsentReadBack(fs, 6);
    EncodeAllSize(fs);
    ThreePayloads(fs);
  }

  lemma CallBytes(to: Account, amount: int)
    requires Positive(amount)
    ensures Trc20TransferData(to, amount).Ok? && FromHex(Trc20TransferData(to, amount).value).Ok?
    ensures var data := FromHex(Trc20TransferData(to, amount).value).value;
            |data| == 68 && DecodeCall(ToHex(data)) == Ok((to, amount))
  {
    DecodeCallUndoesData(to, amount);
    var text := Trc20TransferData(to, amount).value;
    FromHexDigits(text);
    ToHexPairs(text);
  }

  lemma Trc20FromFields(p: FieldMap, from: Account, contract: Account, to: Account, amount: nat, data: Bytes)
    requires BytesOf(p, 1) == Ok(Some(Address21(from))) && BytesOf(p, 2) == Ok(Some(Address21(contract)))
    requires BytesOf(p, 4) == Ok(Some(data)) && DecodeCall(ToHex(data)) == Ok((to, amount))
    requires IntOf(p, 3) == Ok(0) && IntOf(p, 5) == Ok(0) && IntOf(p, 6) == Ok(0)
    ensures DecodeTrc20(p) == Ok(Trc20(from, contract, to, amount))
  {
    assert Address21(from)[1..] == from && Address21(contract)[1..] == contract;
  }

  lemma AnyReadBack(url: string, parameter: Bytes)
    requires |url| < 100 && |parameter| < 1000
    ensures var fs := AnyFields(url, parameter);
            && |EncodeAll(fs)| < 1200 && ParseProto(EncodeAll(fs)) == Ok(Group(fs))
            && BytesOf(Group(fs), 1) == Ok(Some(Ascii(url))) && BytesOf(Group(fs), 2) == Ok(Some(parameter))
  {
    var fs := AnyFields(url, parameter);
    SmallFits(1, fs[0].value);
    SmallFits(2, fs[1].value);
    FieldReadBack(fs, 0);
    FieldReadBack(fs, 1);
    EncodeAllSize(fs);
    TwoPayloads(fs);
  }

  lemma TwoPayloads(fs: seq<Field>)
    requires |fs| == 2
    ensures TotalPayload(fs) == PayloadSize(fs[0]) + PayloadSize(fs[1])
  {
    assert TotalPayload(fs[1..]) == PayloadSize(fs[1]) + TotalPayload(fs[1..][1..]);
  }

  /** A contract message reads back as its type, its URL and its parameter. */
  lemma ContractReadBack(kind: nat, url: string, ps: seq<Field>)
    requires kind < 100 && |url| < 100 && |EncodeAll(ps)| < 1000 && ParseProto(EncodeAll(ps)) == Ok(Group(ps))
    ensures var message := EncodeAll(ContractFields(kind, url, EncodeAll(ps)));
            |message| < 2000 && DecodeContract(message) == DecodeParameter(kind, Ascii(url), Group(ps))
  {
    hide Encode, EncodeAll, ReadFields, Group, DecodeParameter;
    AnyReadBack(url, EncodeAll(ps));
    var fs := ContractFields(kind, url, EncodeAll(ps));
    SmallFits(1, fs[0].value);
    SmallFits(2, fs[1].value);
    FieldReadBack(fs, 0);
    FieldReadBack(fs, 1);
    EncodeAllSize(fs);
    TwoPayloads(fs);
  }

  /** Decoding the contract message that a builder prints gives back the contract. */
  lemma DecodeContractUndoesBuild(c: Contract)
    requires Positive(if c.Trx? then c.amountSun else c.amountMinor)
    ensures ContractMessage(c).Ok? && |ContractMessage(c).value| < 2000
    ensures DecodeContract(ContractMessage(c).value) == Ok(c)
  {
    match c {
      case Trx(from, to, amount) =>
        TrxReadBack(from, to, amount);
        ContractReadBack(TRANSFER_CONTRACT, TRANSFER_URL, TrxFields(from, to, amount));
      case Trc20(from, contract, to, amount) =>
        CallBytes(to, amount);
        var data := FromHex(Trc20TransferData(to, amount).value).value;
        Trc20FieldsReadBack(from, contract, data);
        Trc20FromFields(Group(Trc20Fields(from, contract, data)), from, contract, to, amount, data);
        ContractReadBack(TRIGGER_SMART_CONTRACT, TRIGGER_URL, Trc20Fields(from, contract, data));
    }
  }

  lemma FourParts(a: string, b: string, c: string, d: string)
    requires |a| == 8 && |b| == 24 && |c| == 40 && |d| == 64
    requires AllDigits(a) && AllDigits(b) && AllDigits(c) && AllDigits(d)
    ensures var t := a + b + c + d;
            |t| == 136 && AllDigits(t) && t[..8] == a && t[8..32] == b && t[32..72] == c && t[72..] == d
  {
  }

  lemma CallLayout(to: Account, amount: int)
    requires Positive(amount)
    ensures Trc20TransferData(to, amount).Ok?
    ensures var t := Trc20TransferData(to, amount).value;
            && |t| == 136 && AllDigits(t) && t[..8] == TRANSFER_SELECTOR && AllZeros(t[8..32])
            && t[32..72] == ToHex(to) && HexNumber(t[72..]) == amount
  {
    hide ToHex, NumberHex, HexNumber, Pow16;
    var number := PadStart(NumberHex(amount), 64);
    BelowPow16();
    PaddedNumber(amount, 64);
    FourParts(TRANSFER_SELECTOR, Zeros(24), ToHex(to), number);
    assert Trc20TransferData(to, amount).value == TRANSFER_SELECTOR + Zeros(24) + ToHex(to) + number;
  }

  /** Reading the call data of a transfer gives back its recipient and amount. */
  lemma DecodeCallUndoesData(to: Account, amount: int)
    requires Positive(amount)
    ensures Trc20TransferData(to, amount).Ok?
    ensures var t := Trc20TransferData(to, amount).value;
            |t| == 136 && AllDigits(t) && DecodeCall(t) == Ok((to, amount))
  {
    CallLayout(to, amount);
    FromHexToHex(to);
  }

  lemma BelowPow16()
    ensures MAX_INT64 < Pow16(64)
  {
    Pow16Grows(16, 64);
    FourMore(0);
    FourMore(4);
    FourMore(8);
    FourMore(12);
  }

  lemma FourMore(k: nat)
    ensures Pow16(k + 4) == 65536 * Pow16(k)
  {
    assert Pow16(k + 4) == 256 * Pow16(k + 2);
  }

  lemma {:induction false} Pow16Grows(a: nat, b: nat)
    requires a <= b
    ensures Pow16(a) <= Pow16(b)
    decreases b
  {
    if a < b { Pow16Grows(a, b - 1); }
  }

  // ---- whole transactions ---------------------------------------------------------------------------------------

  lemma RawReadable(fs: seq<Field>, refBytes: Bytes, refHash: Bytes, expiration: nat, message: Bytes, timestamp: nat,
                    fee: Option<nat>)
    requires fs == RawFields(refBytes, refHash, expiration, message, timestamp, fee)
    requires |refBytes| == 2 && |refHash| == 8 && |message| < 2000
    requires expiration <= MAX_SAFE_INTEGER && timestamp <= MAX_SAFE_INTEGER && (fee.Some? ==> Positive(fee.value))
    ensures Readable(fs)
  {
    SmallFits(1, fs[0].value);
    SmallFits(4, fs[1].value);
    SmallFits(8, fs[2].value);
    SmallFits(11, fs[3].value);
    SmallFits(14, fs[4].value);
    if fee.Some? { SmallFits(18, fs[5].value); }
  }

  lemma RawReadBack(refBytes: Bytes, refHash: Bytes, expiration: nat, message: Bytes, timestamp: nat, fee: Option<nat>)
    requires |refBytes| == 2 && |refHash| == 8 && |message| < 2000
    requires expiration <= MAX_SAFE_INTEGER && timestamp <= MAX_SAFE_INTEGER && (fee.Some? ==> Positive(fee.value))
    ensures var fs := RawFields(refBytes, refHash, expiration, message, timestamp, fee);
            var m := Group(fs);
            && ParseProto(EncodeAll(fs)) == Ok(m)
            && BytesOf(m, 1) == Ok(Some(refBytes)) && BytesOf(m, 4) == Ok(Some(refHash))
            && Lookup(m, 11) == [DataValue(message)]
            && IntOf(m, 8) == Ok(expiration) && IntOf(m, 14) == Ok(timestamp)
            && IntOf(m, 18) == Ok(if fee.Some? then fee.value else 0)
  {
    var fs := RawFields(refBytes, refHash, expiration, message, timestamp, fee);
    RawReadable(fs, refBytes, refHash, expiration, message, timestamp, fee);
    FieldReadBack(fs, 0);
    FieldReadBack(fs, 1);
    FieldReadBack(fs, 2);
    FieldReadBack(fs, 3);
    FieldReadBack(fs, 4);
    if fee.Some? { FieldReadBack(fs, 5); } else { AbsentReadBack(fs, 18); }
  }

  /** The two reference bytes, read as one number, are the block number modulo 2^16. */
  lemma AnchorNumber(ref: ReferenceBlock)
    requires Anchor(ref).Ok?
    ensures var (b, h) := Anchor(ref).value;
            |b| == 2 && |h| == 8 && b[0] as int * 256 + b[1] as int == ref.number % 65536
  {
  }

  lemma AnchorFromMap(m: FieldMap, refBytes: Bytes, refHash: Bytes)
    requires BytesOf(m, 1) == Ok(Some(refBytes)) && |refBytes| == 2 && BytesOf(m, 4) == Ok(Some(refHash))
             && |refHash| == 8
    ensures DecodeAnchor(m) == Ok(refBytes[0] as int * 256 + refBytes[1] as int)
  {
  }

  lemma ContractFromMap(m: FieldMap, message: Bytes)
    requires Lookup(m, 11) == [DataValue(message)]
    ensures OneContract(m) == DecodeContract(message)
  {
  }

  lemma RawFromMap(raw: Bytes, m: FieldMap, anchor: int, c: Contract, expiration: nat, timestamp: nat, fee: nat)
    requires ParseProto(raw) == Ok(m) && DecodeAnchor(m) == Ok(anchor) && OneContract(m) == Ok(c)
    requires IntOf(m, 8) == Ok(expiration) && IntOf(m, 14) == Ok(timestamp) && IntOf(m, 18) == Ok(fee)
    ensures DecodeRaw(raw) == Ok(UnsignedTx(ToHex(raw), c, anchor, expiration, timestamp,
                                            if fee == 0 then None else Some(fee)))
  {
  }

  lemma RawSize(fs: seq<Field>, refBytes: Bytes, refHash: Bytes, expiration: nat, message: Bytes, timestamp: nat,
                fee: Option<nat>)
    requires Readable(fs) && fs == RawFields(refBytes, refHash, expiration, message, timestamp, fee)
    requires |refBytes| == 2 && |refHash| == 8 && |message| < 2000
    ensures |EncodeAll(fs)| < 4000
  {
    EncodeAllSize(fs);
    RawPayload(fs);
  }

  lemma DecodeRawFields(c: Contract, message: Bytes, refBytes: Bytes, refHash: Bytes, expiration: nat, timestamp: nat,
                        fee: Option<nat>)
    requires DecodeContract(message) == Ok(c) && |message| < 2000 && |refBytes| == 2 && |refHash| == 8
    requires expiration <= MAX_SAFE_INTEGER && timestamp <= MAX_SAFE_INTEGER && (fee.Some? ==> Positive(fee.value))
    ensures var raw := EncodeAll(RawFields(refBytes, refHash, expiration, message, timestamp, fee));
            && |raw| < 4000
            && DecodeRaw(raw) == Ok(UnsignedTx(ToHex(raw), c, refBytes[0] as int * 256 + refBytes[1] as int,
                                               expiration, timestamp, fee))
  {
    hide DecodeContract, ParseProto, DecodeRaw, EncodeAll, ToHex, Group;
    var fs := RawFields(refBytes, refHash, expiration, message, timestamp, fee);
    RawReadBack(refBytes, refHash, expiration, message, timestamp, fee);
    AnchorFromMap(Group(fs), refBytes, refHash);
    ContractFromMap(Group(fs), message);
    RawFromMap(EncodeAll(fs), Group(fs), refBytes[0] as int * 256 + refBytes[1] as int, c, expiration, timestamp,
               if fee.Some? then fee.value else 0);
    RawReadable(fs, refBytes, refHash, expiration, message, timestamp, fee);
    RawSize(fs, refBytes, refHash, expiration, message, timestamp, fee);
  }

  lemma DecodeRawUndoesRawData(c: Contract, message: Bytes, ref: ReferenceBlock, expiration: int, timestamp: int,
                               fee: Option<int>)
    requires DecodeContract(message) == Ok(c) && |message| < 2000
    requires RawData(message, ref, expiration, timestamp, fee).Ok?
    ensures var raw := RawData(message, ref, expiration, timestamp, fee).value;
            DecodeRaw(raw) == Ok(UnsignedTx(ToHex(raw), c, ref.number % 65536, expiration, timestamp, fee))
            && |raw| < 4000
  {
    hide DecodeContract, ParseProto, DecodeRaw, EncodeAll, ToHex, Group;
    var (refBytes, refHash) := Anchor(ref).value;
    AnchorNumber(ref);
    DecodeRawFields(c, message, refBytes, refHash, expiration, timestamp, if fee.Some? then Some(fee.value) else None);
  }

  lemma RawPayload(fs: seq<Field>)
    requires 5 <= |fs| <= 6 && (|fs| == 6 ==> fs[5].value.IntValue?)
    ensures TotalPayload(fs) == PayloadSize(fs[0]) + PayloadSize(fs[1]) + PayloadSize(fs[2]) + PayloadSize(fs[3])
            + PayloadSize(fs[4])
  {
    var tail := fs[2..];
    assert fs[1..][1..] == tail;
    ThreePayloads(tail[..3]);
    if |fs| == 5 { assert tail[..3] == tail; } else { SixthPayload(tail); }
  }

  lemma SixthPayload(fs: seq<Field>)
    requires |fs| == 4 && fs[3].value.IntValue?
    ensures TotalPayload(fs) == PayloadSize(fs[0]) + PayloadSize(fs[1]) + PayloadSize(fs[2])
  {
    ThreePayloads(fs[1..]);
  }

  /** What decoding a built transaction gives: the transaction, with its block number cut to the two bytes kept. */
  function Anchored(tx: UnsignedTx): UnsignedTx {
    tx.(refBlockNum := tx.refBlockNum % 65536)
  }

  /** A transaction one of the two builders returned for some input. */
  ghost predicate Built(tx: UnsignedTx) {
    || (exists from, to, amount, ref, expiration, timestamp ::
          BuildTrxTransfer(from, to, amount, ref, expiration, timestamp) == Ok(tx))
    || (exists from, contract, to, amount, fee, ref, expiration, timestamp ::
          BuildTrc20Transfer(from, contract, to, amount, fee, ref, expiration, timestamp) == Ok(tx))
  }

  /** The bytes of a built transaction, and what they decode to. */
  lemma BuiltBytes(tx: UnsignedTx) returns (raw: Bytes)
    requires Built(tx)
    ensures tx.rawDataHex == ToHex(raw) && |raw| < 4000 && DecodeRaw(raw) == Ok(Anchored(tx))
  {
    hide DecodeRaw, DecodeContract, ContractMessage, ToHex;
    if from, to, amount, ref, expiration, timestamp :|
        BuildTrxTransfer(from, to, amount, ref, expiration, timestamp) == Ok(tx) {
      DecodeContractUndoesBuild(tx.contract);
      var message := ContractMessage(tx.contract).value;
      raw := RawData(message, ref, expiration, timestamp, None).value;
      DecodeRawUndoesRawData(tx.contract, message, ref, expiration, timestamp, None);
    } else {
      var from, contract, to, amount, fee, ref, expiration, timestamp :|
        BuildTrc20Transfer(from, contract, to, amount, fee, ref, expiration, timestamp) == Ok(tx);
      DecodeContractUndoesBuild(tx.contract);
      var message := ContractMessage(tx.contract).value;
      raw := RawData(message, ref, expiration, timestamp, Some(fee)).value;
      DecodeRawUndoesRawData(tx.contract, message, ref, expiration, timestamp, Some(fee));
    }
  }

  /** Decoding the raw data of a built transaction gives it back. */
  lemma DecodeUndoesBuild(tx: UnsignedTx)
    requires Built(tx)
    ensures DecodeRawHex(tx.rawDataHex) == Ok(DecodedTx(Anchored(tx), []))
  {
    var raw := BuiltBytes(tx);
    FromHexToHex(raw);
  }

  lemma SignedReadBack(raw: Bytes, signature: Bytes)
    requires |raw| < 4000 && |signature| == 65
    ensures var fs := [Field(1, DataValue(raw)), Field(2, DataValue(signature))];
            && ParseProto(EncodeAll(fs)) == Ok(Group(fs))
            && BytesOf(Group(fs), 1) == Ok(Some(raw)) && HexOfEach(Lookup(Group(fs), 2)) == Ok([ToHex(signature)])
  {
    var fs := [Field(1, DataValue(raw)), Field(2, DataValue(signature))];
    SmallFits(1, fs[0].value);
    SmallFits(2, fs[1].value);
    FieldReadBack(fs, 0);
    FieldReadBack(fs, 1);
    HexOfOne(signature);
  }

  lemma HexOfOne(data: Bytes)
    ensures HexOfEach([DataValue(data)]) == Ok([ToHex(data)])
  {
    var vs := [DataValue(data)];
    assert vs[1..] == [];
    assert HexOfEach(vs[1..]) == Ok([]);
    assert [ToHex(data)] + [] == [ToHex(data)];
  }

  /** So does decoding it signed, together with the signature. */
  lemma DecodeUndoesSign(tx: UnsignedTx, signatureHex: string)
    requires Built(tx) && SignedTransactionHex(tx.rawDataHex, signatureHex).Ok?
    ensures FromHex(signatureHex).Ok?
    ensures DecodeSignedHex(SignedTransactionHex(tx.rawDataHex, signatureHex).value)
         == Ok(DecodedTx(Anchored(tx), [ToHex(FromHex(signatureHex).value)]))
  {
    var raw := BuiltBytes(tx);
    FromHexToHex(raw);
    var signature := FromHex(signatureHex).value;
    SignedReadBack(raw, signature);
    FromHexToHex(EncodeAll([Field(1, DataValue(raw)), Field(2, DataValue(signature))]));
  }

  /** Different transfers never share their raw bytes, so they never share the id that is the hash of them. */
  lemma RawBytesTellTransfersApart(a: UnsignedTx, b: UnsignedTx)
    requires Built(a) && Built(b) && a.rawDataHex == b.rawDataHex
    ensures Anchored(a) == Anchored(b)
  {
    DecodeUndoesBuild(a);
    DecodeUndoesBuild(b);
  }

  /** Exactly which inputs can be built at all. */
  lemma TrxBuildable(from: Account, to: Account, amount: int, ref: ReferenceBlock, expiration: int, timestamp: int)
    ensures BuildTrxTransfer(from, to, amount, ref, expiration, timestamp).Ok?
       <==> && from != to && 0 < amount <= MAX_INT64
            && 0 < ref.number <= MAX_INT64 && FromHex(ref.id).Ok? && |FromHex(ref.id).value| == 32
            && 0 <= timestamp < expiration <= MAX_SAFE_INTEGER
    ensures BuildTrxTransfer(from, to, amount, ref, expiration, timestamp) == Err(InvalidAmount)
       <==> from != to && !(0 < amount <= MAX_INT64)
  {
  }

  lemma RawDataOk(message: Bytes, ref: ReferenceBlock, expiration: int, timestamp: int, fee: Option<int>)
    ensures RawData(message, ref, expiration, timestamp, fee).Ok?
       <==> && 0 < ref.number <= MAX_INT64 && FromHex(ref.id).Ok? && |FromHex(ref.id).value| == 32
            && 0 <= timestamp < expiration <= MAX_SAFE_INTEGER && (fee.Some? ==> Positive(fee.value))
    ensures RawData(message, ref, expiration, timestamp, fee) == Err(InvalidAmount)
       <==> && 0 < ref.number <= MAX_INT64 && FromHex(ref.id).Ok? && |FromHex(ref.id).value| == 32
            && 0 <= timestamp < expiration <= MAX_SAFE_INTEGER && fee.Some? && !Positive(fee.value)
  {
  }

  lemma Trc20Buildable(from: Account, contract: Account, to: Account, amount: int, fee: int, ref: ReferenceBlock,
                       expiration: int, timestamp: int)
    ensures BuildTrc20Transfer(from, contract, to, amount, fee, ref, expiration, timestamp).Ok?
       <==> && from != to && 0 < amount <= MAX_INT64 && 0 < fee <= MAX_INT64
            && 0 < ref.number <= MAX_INT64 && FromHex(ref.id).Ok? && |FromHex(ref.id).value| == 32
            && 0 <= timestamp < expiration <= MAX_SAFE_INTEGER
    ensures BuildTrc20Transfer(from, contract, to, amount, fee, ref, expiration, timestamp) == Err(InvalidAmount)
       <==> && from != to
            && (0 < amount <= MAX_INT64
            ==> && !(0 < fee <= MAX_INT64)
                && 0 < ref.number <= MAX_INT64 && FromHex(ref.id).Ok? && |FromHex(ref.id).value| == 32
                && 0 <= timestamp < expiration <= MAX_SAFE_INTEGER)
  {
    if Positive(amount) {
      DecodeContractUndoesBuild(Trc20(from, contract, to, amount));
      RawDataOk(ContractMessage(Trc20(from, contract, to, amount)).value, ref, expiration, timestamp, Some(fee));
    }
  }

  // ---- what decoding accepts beyond what is built ---------------------------------------------------------------

  ghost predicate KnownField(number: nat) {
    number in {1, 4, 8, 11, 14, 18}
  }

  lemma SameKnownFields(m: FieldMap, n: FieldMap)
    requires forall number :: KnownField(number) ==> Lookup(m, number) == Lookup(n, number)
    ensures DecodeAnchor(m) == DecodeAnchor(n) && OneContract(m) == OneContract(n)
    ensures IntOf(m, 18) == IntOf(n, 18) && IntOf(m, 8) == IntOf(n, 8) && IntOf(m, 14) == IntOf(n, 14)
  {
    assert KnownField(1) && KnownField(4) && KnownField(8) && KnownField(11) && KnownField(14) && KnownField(18);
  }

  /**
   * The reader refuses unknown contracts, but not unknown fields: raw data with any other field after it decodes to
   * the same transaction, though its bytes, and so its id, differ.
   */
  lemma UnknownFieldsAreIgnored(raw: Bytes, extra: Field)
    requires DecodeRaw(raw).Ok? && Fits(extra) && !KnownField(extra.number)
    ensures DecodeRaw(raw + Encode(extra)) == Ok(DecodeRaw(raw).value.(rawDataHex := ToHex(raw + Encode(extra))))
  {
    hide DecodeAnchor, OneContract, IntOf, ToHex, Encode, Group;
    var longer, fs := raw + Encode(extra), ReadFields(raw).value;
    assert EncodeAll([extra]) == Encode(extra) + EncodeAll([]) == Encode(extra);
    ReadFieldsAfter(raw, longer, 0, [extra]);
    forall number | KnownField(number)
      ensures Lookup(Group(fs + [extra]), number) == Lookup(Group(fs), number)
    {
      LookupGroup(fs, number);
      LookupGroup(fs + [extra], number);
      ValuesOfAppend(fs, [extra], number);
    }
    SameKnownFields(Group(fs + [extra]), Group(fs));
  }
}
