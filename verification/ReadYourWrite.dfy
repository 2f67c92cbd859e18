/** A typed value put and got back through every layer: catalog codec, UDS,
    DoIP frames, a stream cut into arbitrary chunks, the ECU's record, and the
    same way back. */
module ReadYourWrite {
  import opened Bytes
  import opened Catalog
  import opened CatalogLaws
  import opened DoipTransport
  import opened Ecu
  import opened LockManager
  import opened Numerals
  import opened Sockets
  import opened UdsDoipAdapter
  import opened Wrappers

  /** Who asks to write, when the lock check looks at the clock. scoped: the
      token may ask for security access. */
  datatype Request = Request(path: string, lockId: string, scoped: bool, now: int)

  datatype PutResult =
    | Put(result: SovdResult)
    | Locked
    | ReadOnly
    | NotScoped
    | Refused(error: CatalogError)

  predicate Unlocked(locks: LockTable, q: Request) {
    CheckLock(locks, q.path, q.lockId, q.now)
  }

  /** No lock of somebody else, an item that may be written, and a token that
      goes as far as the item demands. */
  predicate Admitted(locks: LockTable, q: Request, item: DataItem) {
    && Unlocked(locks, q)
    && item.access != Read
    && (item.requiresSecurityLevel.Some? ==> q.scoped)
  }

  /** The write of a named item: checked, encoded, then handed to the adapter.
      Each refusal has its own exact cause, and none sends anything. */
  method PutValue(c: UdsDoipContext, locks: LockTable, q: Request, fpu: Fpu, item: DataItem, value: Value,
                  dialed: Socket?, ghost e: Ecu)
    returns (r: PutResult)
    requires c.Usable(dialed) && (item.dataType == FloatType ==> IsFloatItem(item))
    modifies c, c.transport, c.transport.sock, dialed
    ensures c.Usable(dialed)
    ensures c.transport.sock == old(c.transport.sock) || c.transport.sock == dialed
    ensures r == Locked <==> !Unlocked(locks, q)
    ensures r == ReadOnly <==> Unlocked(locks, q) && item.access == Read
    ensures r == NotScoped <==>
      Unlocked(locks, q) && item.access != Read && item.requiresSecurityLevel.Some? && !q.scoped
    ensures r.Refused? <==> Admitted(locks, q, item) && Encode(fpu, item, value).Err?
    ensures r.Put? <==> Admitted(locks, q, item) && Encode(fpu, item, value).Ok?
    ensures r.Refused? ==> Encode(fpu, item, value) == Err(r.error)
    ensures !r.Put? ==> c.Untouched(dialed)
    ensures old(c.Reaches(e, dialed)) && r == Put(SovdOk) && |Encode(fpu, item, value).value| + 8 < 0x1_0000_0000 ==>
      && c.InStep(e)
      && c.Now(e).store == old(c.Now(e)).store[item.did := Encode(fpu, item, value).value]
    ensures (old(c.Cooperative(e, dialed)) && c.CanEscalate(item.did) && r.Put?
             && |Encode(fpu, item, value).value| + 8 < 0x1_0000_0000) ==>
      r == Put(SovdOk) && c.ReliableLink(dialed)
  {
    hide Encode, CheckLock, UdsDoipContext.Reaches, UdsDoipContext.InStep, UdsDoipContext.CanEscalate;
    if !Unlocked(locks, q) {
      return Locked;
    }
    if item.access == Read {
      return ReadOnly;
    }
    if item.requiresSecurityLevel.Some? && !q.scoped {
      return NotScoped;
    }
    var bytes := Encode(fpu, item, value);
    if bytes.Err? {
      return Refused(bytes.error);
    }
    var result := c.WriteData(item.did, bytes.value, dialed, e);
    return Put(result);
  }

  /** The ECU has a record for the item that fits an answer and decodes. */
  predicate Readable(fpu: Fpu, item: DataItem, st: EcuState) {
    && item.did in st.store
    && |st.store[item.did]| + 3 <= MAX_UDS_LENGTH
    && Decode(fpu, item, st.store[item.did]).Ok?
  }

  /** The read of a named item: fetched, then decoded. */
  method GetValue(c: UdsDoipContext, fpu: Fpu, item: DataItem, dialed: Socket?, ghost e: Ecu)
    returns (r: Option<Value>)
    requires c.Usable(dialed)
    modifies c.transport, c.transport.sock, dialed
    ensures c.Usable(dialed)
    ensures c.transport.sock == old(c.transport.sock) || c.transport.sock == dialed
    ensures old(c.Reaches(e, dialed)) && r.Some? ==>
      && c.InStep(e) && c.Now(e) == old(c.Now(e))
      && item.did in c.Now(e).store
      && Decode(fpu, item, c.Now(e).store[item.did]) == Ok(r.value)
    ensures (old(c.Reaches(e, dialed)) && old(c.ReliableLink(dialed)) && Willing(e) && Prompt(e)
             && Readable(fpu, item, old(c.Now(e)))) ==> r.Some?
  {
    hide Decode, UdsDoipContext.Reaches, UdsDoipContext.InStep, Willing, DirectRead;
    if Willing(e) && Readable(fpu, item, c.Now(e)) {
      WillingReadSucceeds(e, c.Now(e), item.did);
    }
    var result, bytes := c.ReadData(item.did, dialed, e);
    if result != SovdOk {
      return None;
    }
    var decoded := Decode(fpu, item, bytes);
    return if decoded.Ok? then Some(decoded.value) else None;
  }

  /** The values that are read back as they are expected to be: octet text,
      and labels of items whose raw numbers are distinct octets. */
  predicate Faithful(item: DataItem, value: Value) {
    match item.dataType
    case StringType => value.Text? && IsOctetText(value.text)
    case EnumType => DistinctRaws(item.values) && OctetRaws(item.values)
    case FloatType => IsFloatItem(item)
    case RawType => true
  }

  /** What a written value reads back as: itself, its canonical upper-case
      hex, or the value of the raw number it rounds to, as far as the item's
      octets hold that. */
  function ReadBack(fpu: Fpu, item: DataItem, value: Value): Value
    requires item.dataType == FloatType ==> IsFloatItem(item)
  {
    match (item.dataType, value)
    case (RawType, Text(text)) => Text(UpperCased(StripHexPrefix(text)))
    case (FloatType, Number(v)) =>
      Number(FloatValue(fpu, item, FloatRaw(fpu, item, v) % Pow256(item.encoding.bytes)))
    case _ => value
  }

  /** Decoding an encoded value gives the expected value, type by type. */
  lemma DecodeEncode(fpu: Fpu, item: DataItem, value: Value)
    requires Faithful(item, value) && Encode(fpu, item, value).Ok?
    ensures Decode(fpu, item, Encode(fpu, item, value).value) == Ok(ReadBack(fpu, item, value))
  {
    match item.dataType
    case StringType => StringSurvives(fpu, item, value.text);
    case RawType => RawSurvives(fpu, item, value.text);
    case FloatType => FloatComesBack(fpu, item, value.number);
    case EnumType =>
      RawOfLabelIff(item.values, value.text);
      LabelSurvives(fpu, item, value.text);
  }

  /** A scaled number in an item of up to six octets reads back within six
      tenths of a step of itself, floating point and all. */
  lemma ReadBackIsClose(fpu: Fpu, item: DataItem, v: real)
    requires Accurate(fpu) && IsFloatItem(item) && item.encoding.bytes <= 6 && item.encoding.scale != 0.0
    requires Encode(fpu, item, Number(v)).Ok?
    ensures ReadBack(fpu, item, Number(v)).Number?
    ensures Abs(ReadBack(fpu, item, Number(v)).number - v) <= Abs(item.encoding.scale) * 0.6
  {
    hide Encode, Decode, FloatRaw, FloatValue, Pow256, Accurate, Abs;
    FloatComesBack(fpu, item, v);
    FloatComesBackClose(fpu, item, v);
  }

  /** Read your write: against an ECU that keeps a record per identifier, a
      value put successfully and then got is the expected value, whatever the
      chunks, the pending answers and the sessions escalated on the way. If the
      ECU cooperates and the record fits a frame, everything admitted and
      accepted by the codec succeeds. */
  method PutThenGet(c: UdsDoipContext, locks: LockTable, q: Request, fpu: Fpu, item: DataItem, value: Value,
                    dialed: Socket?, ghost e: Ecu)
    returns (put: PutResult, got: Option<Value>)
    requires c.Usable(dialed) && c.Reaches(e, dialed) && Faithful(item, value)
    modifies c, c.transport, c.transport.sock, dialed
    ensures put.Put? <==> Admitted(locks, q, item) && Encode(fpu, item, value).Ok?
    ensures put == Put(SovdOk) && got.Some? && |Encode(fpu, item, value).value| + 8 < 0x1_0000_0000 ==>
      got == Some(ReadBack(fpu, item, value))
    ensures (old(c.Cooperative(e, dialed)) && c.CanEscalate(item.did) && put.Put?
             && |Encode(fpu, item, value).value| + 3 <= MAX_UDS_LENGTH) ==>
      put == Put(SovdOk) && got == Some(ReadBack(fpu, item, value))
  {
    hide Encode, Decode, UdsDoipContext.InStep, UdsDoipContext.CanEscalate, ReadBack, FloatRaw, Willing, Prompt,
      Admitted, Unlocked;
    got := None;
    if Encode(fpu, item, value).Ok? {
      DecodeEncode(fpu, item, value);
    }
    put := PutValue(c, locks, q, fpu, item, value, dialed, e);
    if put != Put(SovdOk) {
      return;
    }
    got := GetValue(c, fpu, item, dialed, e);
  }

  // --- A network to run on ---

  /** An ECU that refuses nothing and answers at once. */
  function ObligingEcu(address: u16, initial: EcuState): Ecu {
    Ecu(address, initial, (st, req) => None, st => [0x12, 0x34], n => 0, false)
  }

  lemma ObligingEcuIsWilling(address: u16, initial: EcuState)
    ensures Willing(ObligingEcu(address, initial)) && Prompt(ObligingEcu(address, initial))
  {
  }

  /** A tester in front of a willing and prompt ECU, over a network that cuts
      the stream into chunks of the sizes given but loses nothing. */
  method Attach(e: Ecu, testerAddress: u16, catalog: Option<seq<DataItem>>, chunk: nat -> nat)
    returns (c: UdsDoipContext, s: Socket)
    requires Willing(e) && Prompt(e)
    ensures fresh(c) && fresh(c.transport) && fresh(s) && c.catalog == catalog && c.transport.sock == null
    ensures c.Usable(s) && c.Cooperative(e, s) && c.Now(e) == e.initial
    ensures e.initial.session == DEFAULT_SESSION_TYPE ==> c.Informed(e)
  {
    SpeakIsCausal(e);
    s := new Socket((wire: seq<byte>) => Speak(e, wire),
                    (k: nat) => Deliver(chunk(k)),
                    (k: nat, n: nat) => n as int);
    var transport := new DoipTransport(testerAddress);
    c := new UdsDoipContext(transport, e.address, catalog);
    assert s.Reliable();
  }

  /** Read your write with nothing left to assume of the network: whatever the
      chunk sizes, a value that is admitted and that the codec accepts is put
      and got back, if its record fits a frame. */
  method PutThenGetInChunks(e: Ecu, testerAddress: u16, catalog: Option<seq<DataItem>>, chunk: nat -> nat,
                            locks: LockTable, q: Request, fpu: Fpu, item: DataItem, value: Value)
    returns (c: UdsDoipContext, put: PutResult, got: Option<Value>)
    requires Willing(e) && Prompt(e) && Faithful(item, value)
    ensures fresh(c) && c.catalog == catalog
    ensures put.Put? <==> Admitted(locks, q, item) && Encode(fpu, item, value).Ok?
    ensures put.Put? && c.CanEscalate(item.did) && |Encode(fpu, item, value).value| + 3 <= MAX_UDS_LENGTH ==>
      put == Put(SovdOk) && got == Some(ReadBack(fpu, item, value))
  {
    hide Encode, Decode, ReadBack, Willing, Prompt, Admitted, Faithful, UdsDoipContext.CanEscalate,
      UdsDoipContext.Cooperative;
    var s: Socket;
    c, s := Attach(e, testerAddress, catalog, chunk);
    assert c.Reaches(e, s) by { CooperativeReaches(c, e, s); }
    put, got := PutThenGet(c, locks, q, fpu, item, value, s, e);
  }

  lemma CooperativeReaches(c: UdsDoipContext, e: Ecu, s: Socket)
    requires c.Cooperative(e, s)
    ensures c.Reaches(e, s)
  {
  }
}
