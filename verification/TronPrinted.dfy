/**
 * Which bytes that decodeTronTransaction accepts are the bytes of a transaction built by
 * packages/adapters/src/tron-tx.ts, and which are another layout of the same facts.
 */
module TronPrinted {
  import opened Sequences
  import opened Results
  import opened Hex
  import opened ProtoWire
  import opened TronTx

  // ---- one message --------------------------------------------------------------------------------------------

  /** The number at `i` takes no byte more than it needs: a last byte of zero adds nothing to it. */
  ghost predicate Unpadded(b: Bytes, i: nat)
    requires ReadVarint(b, i).Ok?
  {
    var next := ReadVarint(b, i).value.1;
    next == i + 1 || b[next - 1] != 0
  }

  /** Both numbers of the field at `i`: its key, and its value or its length. */
  ghost predicate FieldUnpadded(b: Bytes, i: nat)
    requires ReadField(b, i).Ok?
  {
    Unpadded(b, i) && Unpadded(b, ReadVarint(b, i).value.1)
  }

  ghost predicate AllUnpadded(b: Bytes, i: nat)
    requires i <= |b| && ReadFields(b, i).Ok?
    decreases |b| - i
  {
    i < |b| ==> FieldUnpadded(b, i) && AllUnpadded(b, ReadField(b, i).value.1)
  }

  lemma UnpaddedIsPrinted(b: Bytes, i: nat)
    requires ReadVarint(b, i).Ok?
    ensures var (v, next) := ReadVarint(b, i).value;
            Unpadded(b, i) <==> b[i..next] == Varint(v)
  {
    ReadIsPrintedUnlessPadded(b, i, 0);
  }

  /** A number that is read where its own print stands ends where the print ends. */
  lemma PrintEnds(b: Bytes, i: nat, rest: Bytes)
    requires ReadVarint(b, i).Ok? && b[i..] == Varint(ReadVarint(b, i).value.0) + rest
    ensures ReadVarint(b, i).value.1 == i + |Varint(ReadVarint(b, i).value.0)| && Unpadded(b, i)
  {
    hide Varint, ReadVarint;
    var (v, next) := ReadVarint(b, i).value;
    assert b == b[..i] + Varint(v) + rest;
    ReadVarintOfVarint(b[..i], v, rest, 0);
    assert b[i..next] == Varint(v);
    UnpaddedIsPrinted(b, i);
  }

  lemma UnpaddedFieldIsPrinted(b: Bytes, i: nat)
    requires ReadField(b, i).Ok? && FieldUnpadded(b, i)
    ensures var (f, next) := ReadField(b, i).value;
            b[i..next] == Encode(f)
  {
    hide Varint, ReadVarint, Unpadded;
    var (key, j) := ReadVarint(b, i).value;
    UnpaddedIsPrinted(b, i);
    UnpaddedIsPrinted(b, j);
    var (f, next) := ReadField(b, i).value;
    var k := ReadVarint(b, j).value.1;
    assert b[i..next] == b[i..j] + b[j..k] + b[k..next];
  }

  lemma PrintedFieldIsUnpadded(b: Bytes, i: nat, rest: Bytes)
    requires ReadField(b, i).Ok? && b[i..] == Encode(ReadField(b, i).value.0) + rest
    ensures FieldUnpadded(b, i) && ReadField(b, i).value.1 == i + |Encode(ReadField(b, i).value.0)|
  {
    hide Varint, ReadVarint, Unpadded;
    var (f, next) := ReadField(b, i).value;
    var (key, j) := ReadVarint(b, i).value;
    var v := ReadVarint(b, j).value.0;
    var tail := (if f.value.IntValue? then [] else f.value.data) + rest;
    assert b[i..] == Varint(key) + (Varint(v) + tail);
    PrintEnds(b, i, Varint(v) + tail);
    assert b[j..] == b[i..][|Varint(key)|..] == Varint(v) + tail;
    PrintEnds(b, j, tail);
  }

  /** Bytes that read are the writer's own bytes exactly when no number in them is padded. */
  lemma {:induction false} UnpaddedIsWritten(b: Bytes, i: nat)
    requires i <= |b| && ReadFields(b, i).Ok?
    ensures AllUnpadded(b, i) <==> b[i..] == EncodeAll(ReadFields(b, i).value)
    decreases |b| - i
  {
    hide Encode, ReadField, FieldUnpadded;
    if i < |b| {
      var (f, next) := ReadField(b, i).value;
      var rest := ReadFields(b, next).value;
      assert ([f] + rest)[1..] == rest;
      UnpaddedIsWritten(b, next);
      if FieldUnpadded(b, i) {
        UnpaddedFieldIsPrinted(b, i);
        assert b[i..] == b[i..next] + b[next..];
      }
      if b[i..] == Encode(f) + EncodeAll(rest) {
        PrintedFieldIsUnpadded(b, i, EncodeAll(rest));
        assert b[next..] == b[i..][|Encode(f)|..] == EncodeAll(rest);
      }
    }
  }

  function NumbersOf(fs: seq<Field>): (numbers: seq<nat>)
    ensures |numbers| == |fs| && forall i :: 0 <= i < |fs| ==> numbers[i] == fs[i].number
  {
    seq(|fs|, i requires 0 <= i < |fs| => fs[i].number)
  }

  /** Exactly the fields of these numbers, in this order, none of their numbers padded. */
  ghost predicate Laid(b: Bytes, numbers: seq<nat>) {
    ReadFields(b).Ok? && NumbersOf(ReadFields(b).value) == numbers && AllUnpadded(b, 0)
  }

  /** The bytes of the `k`-th field. */
  function Part(b: Bytes, k: nat): Bytes {
    var r := ReadFields(b);
    if r.Ok? && k < |r.value| && r.value[k].value.DataValue? then r.value[k].value.data else []
  }

  lemma LaidIsWritten(b: Bytes, numbers: seq<nat>) returns (fs: seq<Field>)
    requires Laid(b, numbers)
    ensures ReadFields(b) == Ok(fs) && b == EncodeAll(fs) && ParseProto(b) == Ok(Group(fs))
    ensures |fs| == |numbers| && forall i :: 0 <= i < |fs| ==> fs[i].number == numbers[i]
  {
    fs := ReadFields(b).value;
    assert |NumbersOf(fs)| == |fs|;
    UnpaddedIsWritten(b, 0);
    assert b[0..] == b;
  }

  lemma WrittenIsLaid(fs: seq<Field>, numbers: seq<nat>)
    requires (forall f :: f in fs ==> Fits(f)) && NumbersOf(fs) == numbers
    ensures ReadFields(EncodeAll(fs)) == Ok(fs) && Laid(EncodeAll(fs), numbers)
  {
    var b := EncodeAll(fs);
    ReadUndoesWrite(fs);
    UnpaddedIsWritten(b, 0);
    assert b[0..] == b;
  }

  /** In a message whose fields are numbered apart, looking a field up finds the one of that number. */
  lemma FieldAt(fs: seq<Field>, i: nat)
    requires i < |fs| && NumberedApart(fs)
    ensures Lookup(Group(fs), fs[i].number) == [fs[i].value]
  {
    LookupGroup(fs, fs[i].number);
    ValuesOfOne(fs, i);
  }

  // ---- the messages of a transfer ---------------------------------------------------------------------------------

  function ParameterNumbers(c: Contract): seq<nat> {
    if c.Trx? then [1, 2, 3] else [1, 2, 4]
  }

  function Url(c: Contract): string {
    if c.Trx? then TRANSFER_URL else TRIGGER_URL
  }

  function Kind(c: Contract): nat {
    if c.Trx? then TRANSFER_CONTRACT else TRIGGER_SMART_CONTRACT
  }

  function RawNumbers(c: Contract): seq<nat> {
    if c.Trx? then [1, 4, 8, 11, 14] else [1, 4, 8, 11, 14, 18]
  }

  function Amount(c: Contract): int {
    if c.Trx? then c.amountSun else c.amountMinor
  }

  /** The contract message, the typed parameter inside it, and the parameter itself, laid out as a builder does. */
  ghost predicate MessageLaid(message: Bytes, c: Contract) {
    var any := Part(message, 1);
    && Laid(message, [1, 2]) && Laid(any, [1, 2]) && Laid(Part(any, 1), ParameterNumbers(c))
    && Part(any, 0) == Ascii(Url(c))
  }

  /** What the builders demand of the values they are given. */
  ghost predicate InRange(tx: UnsignedTx) {
    && tx.contract.from != tx.contract.to && Positive(Amount(tx.contract))
    && 0 <= tx.timestamp < tx.expiration <= MAX_SAFE_INTEGER
    && (tx.contract.Trc20? ==> tx.feeLimitSun.Some? && Positive(tx.feeLimitSun.value))
  }

  /** Accepted bytes with a builder's fields in a builder's order, no padding, no byte order mark, values in range. */
  ghost predicate AsPrinted(raw: Bytes)
    requires DecodeRaw(raw).Ok?
  {
    var tx := DecodeRaw(raw).value;
    Laid(raw, RawNumbers(tx.contract)) && MessageLaid(Part(raw, 3), tx.contract) && InRange(tx)
  }

  // ---- such bytes are built -----------------------------------------------------------------------------------

  lemma TrxParameter(b: Bytes, c: Contract)
    requires Laid(b, [1, 2, 3]) && DecodeTrx(Group(ReadFields(b).value)) == Ok(c)
    ensures c.Trx? && c.amountSun >= 0 && b == EncodeAll(TrxFields(c.from, c.to, c.amountSun))
  {
    hide EncodeAll, Group, ReadFields, AllUnpadded;
    var fs := LaidIsWritten(b, [1, 2, 3]);
    FieldAt(fs, 0);
    FieldAt(fs, 1);
    FieldAt(fs, 2);
    assert fs == TrxFields(c.from, c.to, c.amountSun) by {
      assert fs[0].value.data == Address21(c.from);
      assert fs[1].value.data == Address21(c.to);
    }
  }

  /** Call data that reads as a transfer of an amount in range is the data a builder prints for it. */
  lemma CallDataBack(data: Bytes, to: Account, amount: nat)
    requires DecodeCall(ToHex(data)) == Ok((to, amount)) && Positive(amount)
    ensures Trc20TransferData(to, amount).Ok? && FromHex(Trc20TransferData(to, amount).value) == Ok(data)
  {
    hide ToHex, HexNumber, NumberHex, FromHex, Pairs;
    var d := ToHex(data);
    var account, number := d[32..72], d[72..];
    FromHexDigits(account);
    ToHexPairs(account);
    PaddedBack(number);
    assert d[8..32] == Zeros(24);
    assert PadStart(ToHex(to), 64) == Zeros(24) + account;
    assert d == d[..8] + d[8..32] + account + number;
    assert Trc20TransferData(to, amount).value == d;
    FromHexToHex(data);
  }

  lemma Trc20Call(p: FieldMap, c: Contract)
    requires DecodeTrc20(p) == Ok(c) && Amount(c) >= 0
    ensures c.Trc20? && BytesOf(p, 4).Ok?
    ensures DecodeCall(ToHex(OrEmpty(BytesOf(p, 4).value))) == Ok((c.to, c.amountMinor as nat))
  {
  }

  lemma Trc20Parameter(b: Bytes, c: Contract) returns (data: Bytes)
    requires Laid(b, [1, 2, 4]) && DecodeTrc20(Group(ReadFields(b).value)) == Ok(c) && Positive(Amount(c))
    ensures c.Trc20? && b == EncodeAll(Trc20Fields(c.from, c.contract, data))
    ensures Trc20TransferData(c.to, c.amountMinor).Ok?
            && FromHex(Trc20TransferData(c.to, c.amountMinor).value) == Ok(data)
  {
    hide EncodeAll, Group, ReadFields, AllUnpadded, DecodeCall, ToHex, FromHex, Trc20TransferData;
    var fs := LaidIsWritten(b, [1, 2, 4]);
    FieldAt(fs, 0);
    FieldAt(fs, 1);
    FieldAt(fs, 2);
    data := fs[2].value.data;
    assert fs == Trc20Fields(c.from, c.contract, data) by {
      assert fs[0].value.data == Address21(c.from);
      assert fs[1].value.data == Address21(c.contract);
    }
    Trc20Call(Group(fs), c);
    CallDataBack(data, c.to, c.amountMinor);
  }

  /** What decoding finds in a message laid out as a builder does. */
  lemma MessageParts(message: Bytes, c: Contract)
    requires DecodeContract(message) == Ok(c) && MessageLaid(message, c)
    ensures var parameter := Part(Part(message, 1), 1);
            && DecodeParameter(Kind(c), Ascii(Url(c)), Group(ReadFields(parameter).value)) == Ok(c)
            && message == EncodeAll(ContractFields(Kind(c), Url(c), parameter))
  {
    hide EncodeAll, Group, ReadFields, AllUnpadded, DecodeTrx, DecodeTrc20;
    var fs := LaidIsWritten(message, [1, 2]);
    FieldAt(fs, 0);
    FieldAt(fs, 1);
    var any := Part(message, 1);
    var gs := LaidIsWritten(any, [1, 2]);
    FieldAt(gs, 0);
    FieldAt(gs, 1);
    var parameter := Part(any, 1);
    KindOf(fs[0].value.value, Part(any, 0), Group(ReadFields(parameter).value), c);
    assert gs == AnyFields(Url(c), parameter);
    assert fs == ContractFields(Kind(c), Url(c), parameter);
  }

  lemma KindOf(kind: nat, url: Bytes, p: FieldMap, c: Contract)
    requires DecodeParameter(kind, url, p) == Ok(c)
    ensures kind == Kind(c)
    ensures c.Trx? ==> DecodeTrx(p) == Ok(c)
    ensures c.Trc20? ==> DecodeTrc20(p) == Ok(c)
  {
  }

  lemma MessageIsBuilt(message: Bytes, c: Contract)
    requires DecodeContract(message) == Ok(c) && MessageLaid(message, c) && Positive(Amount(c))
    ensures ContractMessage(c) == Ok(message)
  {
    hide EncodeAll, Group, ReadFields, DecodeContract, DecodeTrx, DecodeTrc20, Trc20TransferData, FromHex;
    MessageParts(message, c);
    var parameter := Part(Part(message, 1), 1);
    var p := Group(ReadFields(parameter).value);
    KindOf(Kind(c), Ascii(Url(c)), p, c);
    if c.Trx? {
      TrxParameter(parameter, c);
    } else {
      var data := Trc20Parameter(parameter, c);
    }
  }

  /** Some block is anchored to by any two bytes and any eight. */
  lemma SomeReference(refBytes: Bytes, refHash: Bytes) returns (ref: ReferenceBlock)
    requires |refBytes| == 2 && |refHash| == 8
    ensures Anchor(ref) == Ok((refBytes, refHash))
  {
    hide ToHex, FromHex;
    var id := seq(8, _ => 0) + refHash + seq(16, _ => 0);
    ref := ReferenceBlock(65536 + refBytes[0] as int * 256 + refBytes[1] as int, ToHex(id));
    FromHexToHex(id);
    assert id[8..16] == refHash;
    assert refBytes == [ref.number / 256 % 256, ref.number % 256];
  }

  lemma RawParts(raw: Bytes, tx: UnsignedTx) returns (refBytes: Bytes, refHash: Bytes)
    requires DecodeRaw(raw) == Ok(tx) && Laid(raw, RawNumbers(tx.contract)) && InRange(tx)
    ensures |refBytes| == 2 && |refHash| == 8 && DecodeContract(Part(raw, 3)) == Ok(tx.contract)
    ensures raw == EncodeAll(RawFields(refBytes, refHash, tx.expiration, Part(raw, 3), tx.timestamp,
                                       if tx.contract.Trx? then None else Some(tx.feeLimitSun.value)))
  {
    hide EncodeAll, Group, ReadFields, AllUnpadded, DecodeContract, ToHex;
    var fs := LaidIsWritten(raw, RawNumbers(tx.contract));
    FieldAt(fs, 0);
    FieldAt(fs, 1);
    FieldAt(fs, 2);
    FieldAt(fs, 3);
    FieldAt(fs, 4);
    if tx.contract.Trc20? { FieldAt(fs, 5); }
    refBytes, refHash := fs[0].value.data, fs[1].value.data;
    assert fs == RawFields(refBytes, refHash, tx.expiration, Part(raw, 3), tx.timestamp,
                           if tx.contract.Trx? then None else Some(tx.feeLimitSun.value));
  }

  lemma PrintedIsBuilt(raw: Bytes) returns (tx: UnsignedTx)
    requires DecodeRaw(raw).Ok? && AsPrinted(raw)
    ensures Built(tx) && tx.rawDataHex == ToHex(raw)
  {
    hide EncodeAll, ReadFields, DecodeRaw, DecodeContract, ToHex, ContractMessage, Laid, MessageLaid, Anchor;
    var read := DecodeRaw(raw).value;
    var c := read.contract;
    var refBytes, refHash := RawParts(raw, read);
    var message := Part(raw, 3);
    MessageIsBuilt(message, c);
    var ref := SomeReference(refBytes, refHash);
    if c.Trx? {
      tx := BuildTrxTransfer(c.from, c.to, c.amountSun, ref, read.expiration, read.timestamp).value;
      assert BuildTrxTransfer(c.from, c.to, c.amountSun, ref, read.expiration, read.timestamp) == Ok(tx);
    } else {
      var fee := read.feeLimitSun.value;
      tx := BuildTrc20Transfer(c.from, c.contract, c.to, c.amountMinor, fee, ref, read.expiration,
                               read.timestamp).value;
      assert BuildTrc20Transfer(c.from, c.contract, c.to, c.amountMinor, fee, ref, read.expiration, read.timestamp)
             == Ok(tx);
    }
  }

  // ---- built bytes are laid out so ------------------------------------------------------------------------------

  lemma TwoLaid(f: Field, g: Field)
    requires Fits(f) && Fits(g)
    ensures ReadFields(EncodeAll([f, g])) == Ok([f, g]) && Laid(EncodeAll([f, g]), [f.number, g.number])
  {
    assert NumbersOf([f, g]) == [f.number, g.number];
    WrittenIsLaid([f, g], [f.number, g.number]);
  }

  lemma ThreeLaid(f: Field, g: Field, h: Field)
    requires Fits(f) && Fits(g) && Fits(h)
    ensures Laid(EncodeAll([f, g, h]), [f.number, g.number, h.number])
  {
    assert NumbersOf([f, g, h]) == [f.number, g.number, h.number];
    WrittenIsLaid([f, g, h], [f.number, g.number, h.number]);
  }

  /** A contract message around a parameter that is laid out well. */
  lemma WrappedIsLaid(c: Contract, parameter: Bytes)
    requires Laid(parameter, ParameterNumbers(c)) && |parameter| < 1000
    ensures MessageLaid(EncodeAll(ContractFields(Kind(c), Url(c), parameter)), c)
  {
    hide EncodeAll, ReadFields, AllUnpadded, Fits, Group;
    AnyReadBack(Url(c), parameter);
    var gs := AnyFields(Url(c), parameter);
    var any := EncodeAll(gs);
    SmallFits(1, gs[0].value);
    SmallFits(2, gs[1].value);
    TwoLaid(gs[0], gs[1]);
    var fs := ContractFields(Kind(c), Url(c), parameter);
    SmallFits(1, fs[0].value);
    SmallFits(2, fs[1].value);
    TwoLaid(fs[0], fs[1]);
    assert Part(EncodeAll(fs), 1) == any && Part(any, 0) == Ascii(Url(c)) && Part(any, 1) == parameter;
  }

  lemma BuiltMessageIsLaid(c: Contract)
    requires Positive(Amount(c))
    ensures ContractMessage(c).Ok? && MessageLaid(ContractMessage(c).value, c)
  {
    hide EncodeAll, ReadFields, AllUnpadded, Fits, Group, MessageLaid, Laid, DecodeCall, ToHex, FromHex;
    match c {
      case Trx(from, to, amount) =>
        var fs := TrxFields(from, to, amount);
        SmallFits(1, fs[0].value);
        SmallFits(2, fs[1].value);
        SmallFits(3, fs[2].value);
        ThreeLaid(fs[0], fs[1], fs[2]);
        TrxReadBack(from, to, amount);
        WrappedIsLaid(c, EncodeAll(fs));
      case Trc20(from, contract, to, amount) =>
        CallBytes(to, amount);
        var data := FromHex(Trc20TransferData(to, amount).value).value;
        var fs := Trc20Fields(from, contract, data);
        SmallFits(1, fs[0].value);
        SmallFits(2, fs[1].value);
        SmallFits(4, fs[2].value);
        ThreeLaid(fs[0], fs[1], fs[2]);
        Trc20FieldsReadBack(from, contract, data);
        WrappedIsLaid(c, EncodeAll(fs));
    }
  }

  lemma BuiltRawIsLaid(c: Contract, message: Bytes, ref: ReferenceBlock, expiration: int, timestamp: int,
                       fee: Option<int>)
    requires |message| < 2000 && RawData(message, ref, expiration, timestamp, fee).Ok? && (c.Trc20? <==> fee.Some?)
    ensures var raw := RawData(message, ref, expiration, timestamp, fee).value;
            Laid(raw, RawNumbers(c)) && Part(raw, 3) == message
  {
    hide EncodeAll, ReadFields, AllUnpadded, Fits, FromHex;
    var (refBytes, refHash) := Anchor(ref).value;
    AnchorNumber(ref);
    var limit := if fee.Some? then Some(fee.value) else None;
    var fs := RawFields(refBytes, refHash, expiration, message, timestamp, limit);
    RawReadable(fs, refBytes, refHash, expiration, message, timestamp, limit);
    assert NumbersOf(fs) == RawNumbers(c);
    WrittenIsLaid(fs, RawNumbers(c));
  }

  lemma BuiltIsPrinted(raw: Bytes, tx: UnsignedTx)
    requires DecodeRaw(raw).Ok? && Built(tx) && tx.rawDataHex == ToHex(raw)
    ensures AsPrinted(raw)
  {
    hide DecodeRaw, DecodeContract, ContractMessage, ToHex, FromHex, Laid, MessageLaid, RawData;
    var same := BuiltBytes(tx);
    PairsToHex(raw);
    PairsToHex(same);
    var c := tx.contract;
    if from, to, amount, ref, expiration, timestamp :|
        BuildTrxTransfer(from, to, amount, ref, expiration, timestamp) == Ok(tx) {
      DecodeContractUndoesBuild(c);
      BuiltMessageIsLaid(c);
      var message := ContractMessage(c).value;
      RawDataOk(message, ref, expiration, timestamp, None);
      BuiltRawIsLaid(c, message, ref, expiration, timestamp, None);
      PairsToHex(RawData(message, ref, expiration, timestamp, None).value);
    } else {
      var from, contract, to, amount, fee, ref, expiration, timestamp :|
        BuildTrc20Transfer(from, contract, to, amount, fee, ref, expiration, timestamp) == Ok(tx);
      DecodeContractUndoesBuild(c);
      BuiltMessageIsLaid(c);
      var message := ContractMessage(c).value;
      RawDataOk(message, ref, expiration, timestamp, Some(fee));
      BuiltRawIsLaid(c, message, ref, expiration, timestamp, Some(fee));
      PairsToHex(RawData(message, ref, expiration, timestamp, Some(fee)).value);
    }
  }

  /**
   * Which accepted bytes were built: those that hold a builder's fields and no others, in a builder's order, with no
   * number padded and no byte order mark before the type's URL, and whose values a builder takes.
   */
  lemma BuiltIffPrinted(raw: Bytes)
    requires DecodeRaw(raw).Ok?
    ensures (exists tx :: Built(tx) && tx.rawDataHex == ToHex(raw)) <==> AsPrinted(raw)
  {
    if AsPrinted(raw) {
      var tx := PrintedIsBuilt(raw);
    }
    if tx :| Built(tx) && tx.rawDataHex == ToHex(raw) {
      BuiltIsPrinted(raw, tx);
    }
  }
}
