/**
  The messages of the common and mining protocols: their fields in wire order, their decoders, and what holds
  of all of them. SetCustomMiningJob is not part of this model.
 */
module Messages {
  import opened Bytes
  import opened Codec

  /** Strings are their bytes; a hash rate is the four bytes of its float. */
  datatype Message =
    | SetupConnection(protocol: u8, minVersion: u16, maxVersion: u16, flags: u32, endpointHost: Bytes,
        endpointPort: u16, deviceVendor: Bytes, deviceHardwareVersion: Bytes, deviceFirmware: Bytes,
        deviceID: Bytes)
    | SetupConnectionSuccess(usedVersion: u16, flags: u32)
    | SetupConnectionError(flags: u32, errorCode: Bytes)
    | ChannelEndpointChanged(channelID: u32)
    | Reconnect(newHost: Bytes, newPort: u16)
    | OpenStandardMiningChannel(requestID: u32, userIdentity: Bytes, nominalHashRate: u32, maxTarget: Bytes32)
    | OpenStandardMiningChannelSuccess(requestID: u32, channelID: u32, target: Bytes32,
        extranoncePrefix: Bytes, groupChannelID: u32)
    | OpenMiningChannelError(requestID: u32, errorCode: Bytes)
    | OpenExtendedMiningChannel(requestID: u32, userIdentity: Bytes, nominalHashRate: u32, maxTarget: Bytes32,
        minExtranonceSize: u16)
    | OpenExtendedMiningChannelSuccess(requestID: u32, channelID: u32, target: Bytes32, extranonceSize: u16,
        extranoncePrefix: Bytes, groupChannelID: u32)
    | NewMiningJob(channelID: u32, jobID: u32, minTime: seq<u32>, version: u32, merkleRoot: Bytes32)
    | UpdateChannel(channelID: u32, nominalHashRate: u32, maxTarget: Bytes32)
    | UpdateChannelError(channelID: u32, errorCode: Bytes)
    | CloseChannel(channelID: u32, reasonCode: Bytes)
    | SetExtranoncePrefix(channelID: u32, extranoncePrefix: Bytes)
    | SubmitSharesStandard(channelID: u32, sequence: u32, jobID: u32, nonce: u32, time: u32, version: u32)
    | SubmitSharesExtended(channelID: u32, sequence: u32, jobID: u32, nonce: u32, time: u32, version: u32,
        extranonce: Bytes)
    | SubmitSharesSuccess(channelID: u32, lastSequenceNumber: u32, newSubmitsAcceptedCount: u32,
        newSharesSum: u64)
    | SubmitSharesError(channelID: u32, sequenceNumber: u32, errorCode: Bytes)
    | NewExtendedMiningJob(channelID: u32, jobID: u32, minTime: seq<u32>, version: u32,
        versionRollingAllowed: bool, merklePath: seq<Bytes32>, coinbasePrefix: Bytes, coinbaseSuffix: Bytes)
    | SetNewPrevHash(channelID: u32, jobID: u32, prevHash: Bytes32, minNTime: u32, bits: u32)
    | SetTarget(channelID: u32, maxTarget: Bytes32)
    | SetCustomMiningJobSuccess(channelID: u32, requestID: u32, jobID: u32)
    | SetCustomMiningJobError(channelID: u32, requestID: u32, errorCode: Bytes)
    | SetGroupChannel(groupChannelID: u32, channelIDs: seq<u32>)

  /** The message types, without their contents. */
  datatype MessageKind = IsSetupConnection | IsSetupConnectionSuccess | IsSetupConnectionError |
    IsChannelEndpointChanged | IsReconnect | IsOpenStandardMiningChannel | IsOpenStandardMiningChannelSuccess |
    IsOpenMiningChannelError | IsOpenExtendedMiningChannel | IsOpenExtendedMiningChannelSuccess |
    IsNewMiningJob | IsUpdateChannel | IsUpdateChannelError | IsCloseChannel | IsSetExtranoncePrefix |
    IsSubmitSharesStandard | IsSubmitSharesExtended | IsSubmitSharesSuccess | IsSubmitSharesError |
    IsNewExtendedMiningJob | IsSetNewPrevHash | IsSetTarget | IsSetCustomMiningJobSuccess |
    IsSetCustomMiningJobError | IsSetGroupChannel

  function MessageKindOf(m: Message): MessageKind
  {
    match m
    case SetupConnection(_, _, _, _, _, _, _, _, _, _) => IsSetupConnection
    case SetupConnectionSuccess(_, _) => IsSetupConnectionSuccess
    case SetupConnectionError(_, _) => IsSetupConnectionError
    case ChannelEndpointChanged(_) => IsChannelEndpointChanged
    case Reconnect(_, _) => IsReconnect
    case OpenStandardMiningChannel(_, _, _, _) => IsOpenStandardMiningChannel
    case OpenStandardMiningChannelSuccess(_, _, _, _, _) => IsOpenStandardMiningChannelSuccess
    case OpenMiningChannelError(_, _) => IsOpenMiningChannelError
    case OpenExtendedMiningChannel(_, _, _, _, _) => IsOpenExtendedMiningChannel
    case OpenExtendedMiningChannelSuccess(_, _, _, _, _, _) => IsOpenExtendedMiningChannelSuccess
    case NewMiningJob(_, _, _, _, _) => IsNewMiningJob
    case UpdateChannel(_, _, _) => IsUpdateChannel
    case UpdateChannelError(_, _) => IsUpdateChannelError
    case CloseChannel(_, _) => IsCloseChannel
    case SetExtranoncePrefix(_, _) => IsSetExtranoncePrefix
    case SubmitSharesStandard(_, _, _, _, _, _) => IsSubmitSharesStandard
    case SubmitSharesExtended(_, _, _, _, _, _, _) => IsSubmitSharesExtended
    case SubmitSharesSuccess(_, _, _, _) => IsSubmitSharesSuccess
    case SubmitSharesError(_, _, _) => IsSubmitSharesError
    case NewExtendedMiningJob(_, _, _, _, _, _, _, _) => IsNewExtendedMiningJob
    case SetNewPrevHash(_, _, _, _, _) => IsSetNewPrevHash
    case SetTarget(_, _) => IsSetTarget
    case SetCustomMiningJobSuccess(_, _, _) => IsSetCustomMiningJobSuccess
    case SetCustomMiningJobError(_, _, _) => IsSetCustomMiningJobError
    case SetGroupChannel(_, _) => IsSetGroupChannel
  }

  /** The message type number a frame header carries. */
  function TypeNumber(k: MessageKind): u8
  {
    match k
    case IsSetupConnection => 0x00
    case IsSetupConnectionSuccess => 0x01
    case IsSetupConnectionError => 0x02
    case IsChannelEndpointChanged => 0x03
    case IsReconnect => 0x04
    case IsOpenStandardMiningChannel => 0x10
    case IsOpenStandardMiningChannelSuccess => 0x11
    case IsOpenMiningChannelError => 0x12
    case IsOpenExtendedMiningChannel => 0x13
    case IsOpenExtendedMiningChannelSuccess => 0x14
    case IsNewMiningJob => 0x15
    case IsUpdateChannel => 0x16
    case IsUpdateChannelError => 0x17
    case IsCloseChannel => 0x18
    case IsSetExtranoncePrefix => 0x19
    case IsSubmitSharesStandard => 0x1A
    case IsSubmitSharesExtended => 0x1B
    case IsSubmitSharesSuccess => 0x1C
    case IsSubmitSharesError => 0x1D
    case IsNewExtendedMiningJob => 0x1F
    case IsSetNewPrevHash => 0x20
    case IsSetTarget => 0x21
    case IsSetCustomMiningJobSuccess => 0x23
    case IsSetCustomMiningJobError => 0x24
    case IsSetGroupChannel => 0x25
  }

  /** The message type a number stands for: how a receiver chooses the decoder. */
  function KindOfNumber(n: u8): (k: Option<MessageKind>)
    ensures k.Some? ==> TypeNumber(k.value) == n
  {
    match n
    case 0x00 => Some(IsSetupConnection)
    case 0x01 => Some(IsSetupConnectionSuccess)
    case 0x02 => Some(IsSetupConnectionError)
    case 0x03 => Some(IsChannelEndpointChanged)
    case 0x04 => Some(IsReconnect)
    case 0x10 => Some(IsOpenStandardMiningChannel)
    case 0x11 => Some(IsOpenStandardMiningChannelSuccess)
    case 0x12 => Some(IsOpenMiningChannelError)
    case 0x13 => Some(IsOpenExtendedMiningChannel)
    case 0x14 => Some(IsOpenExtendedMiningChannelSuccess)
    case 0x15 => Some(IsNewMiningJob)
    case 0x16 => Some(IsUpdateChannel)
    case 0x17 => Some(IsUpdateChannelError)
    case 0x18 => Some(IsCloseChannel)
    case 0x19 => Some(IsSetExtranoncePrefix)
    case 0x1A => Some(IsSubmitSharesStandard)
    case 0x1B => Some(IsSubmitSharesExtended)
    case 0x1C => Some(IsSubmitSharesSuccess)
    case 0x1D => Some(IsSubmitSharesError)
    case 0x1F => Some(IsNewExtendedMiningJob)
    case 0x20 => Some(IsSetNewPrevHash)
    case 0x21 => Some(IsSetTarget)
    case 0x23 => Some(IsSetCustomMiningJobSuccess)
    case 0x24 => Some(IsSetCustomMiningJobError)
    case 0x25 => Some(IsSetGroupChannel)
    case _ => None
  }

  /** No two message types share a number, so the receiver's choice is the sender's type. */
  lemma KindOfTypeNumber(k: MessageKind)
    ensures KindOfNumber(TypeNumber(k)) == Some(k)
  {
  }

  // ----- wire order

  function Number(width: IntWidth, v: nat): Field
  {
    FScalar(Int(width, v))
  }

  function Numbers(ns: seq<u32>): (items: seq<Scalar>)
    ensures |items| == |ns|
  {
    seq(|ns|, i requires 0 <= i < |ns| => Int(4, ns[i]))
  }

  function Hashes(hs: seq<Bytes32>): (items: seq<Scalar>)
    ensures |items| == |hs|
  {
    seq(|hs|, i requires 0 <= i < |hs| => Hash(hs[i]))
  }

  /** What Encode hands to the builder, in order. */
  function Fields(m: Message): seq<Field>
  {
    match m
    case SetupConnection(protocol, minVersion, maxVersion, flags, endpointHost, endpointPort, deviceVendor,
        deviceHardwareVersion, deviceFirmware, deviceID) =>
      [Number(1, protocol), Number(2, minVersion), Number(2, maxVersion), Number(4, flags),
       FBlob(Str255, endpointHost), Number(2, endpointPort), FBlob(Str255, deviceVendor),
       FBlob(Str255, deviceHardwareVersion), FBlob(Str255, deviceFirmware), FBlob(Str255, deviceID)]
    case SetupConnectionSuccess(usedVersion, flags) =>
      [Number(2, usedVersion), Number(4, flags)]
    case SetupConnectionError(flags, errorCode) =>
      [Number(4, flags), FBlob(Str255, errorCode)]
    case ChannelEndpointChanged(channelID) =>
      [Number(4, channelID)]
    case Reconnect(newHost, newPort) =>
      [FBlob(Str255, newHost), Number(2, newPort)]
    case OpenStandardMiningChannel(requestID, userIdentity, nominalHashRate, maxTarget) =>
      [Number(4, requestID), FBlob(Str255, userIdentity), Number(4, nominalHashRate), FScalar(Hash(maxTarget))]
    case OpenStandardMiningChannelSuccess(requestID, channelID, target, extranoncePrefix, groupChannelID) =>
      [Number(4, requestID), Number(4, channelID), FScalar(Hash(target)), FBlob(Bin32, extranoncePrefix),
       Number(4, groupChannelID)]
    case OpenMiningChannelError(requestID, errorCode) =>
      [Number(4, requestID), FBlob(Str255, errorCode)]
    case OpenExtendedMiningChannel(requestID, userIdentity, nominalHashRate, maxTarget, minExtranonceSize) =>
      [Number(4, requestID), FBlob(Str255, userIdentity), Number(4, nominalHashRate), FScalar(Hash(maxTarget)),
       Number(2, minExtranonceSize)]
    case OpenExtendedMiningChannelSuccess(requestID, channelID, target, extranonceSize, extranoncePrefix,
        groupChannelID) =>
      [Number(4, requestID), Number(4, channelID), FScalar(Hash(target)), Number(2, extranonceSize),
       FBlob(Bin32, extranoncePrefix), Number(4, groupChannelID)]
    case NewMiningJob(channelID, jobID, minTime, version, merkleRoot) =>
      [Number(4, channelID), Number(4, jobID), FSeq(UpTo1, EInt(4), Asserted, Numbers(minTime)),
       Number(4, version), FScalar(Hash(merkleRoot))]
    case UpdateChannel(channelID, nominalHashRate, maxTarget) =>
      [Number(4, channelID), Number(4, nominalHashRate), FScalar(Hash(maxTarget))]
    case UpdateChannelError(channelID, errorCode) =>
      [Number(4, channelID), FBlob(Str255, errorCode)]
    case CloseChannel(channelID, reasonCode) =>
      [Number(4, channelID), FBlob(Str255, reasonCode)]
    case SetExtranoncePrefix(channelID, extranoncePrefix) =>
      [Number(4, channelID), FBlob(Bin32, extranoncePrefix)]
    case SubmitSharesStandard(channelID, sequence, jobID, nonce, time, version) =>
      [Number(4, channelID), Number(4, sequence), Number(4, jobID), Number(4, nonce), Number(4, time),
       Number(4, version)]
    case SubmitSharesExtended(channelID, sequence, jobID, nonce, time, version, extranonce) =>
      [Number(4, channelID), Number(4, sequence), Number(4, jobID), Number(4, nonce), Number(4, time),
       Number(4, version), FBlob(Bin32, extranonce)]
    case SubmitSharesSuccess(channelID, lastSequenceNumber, newSubmitsAcceptedCount, newSharesSum) =>
      [Number(4, channelID), Number(4, lastSequenceNumber), Number(4, newSubmitsAcceptedCount),
       Number(8, newSharesSum)]
    case SubmitSharesError(channelID, sequenceNumber, errorCode) =>
      [Number(4, channelID), Number(4, sequenceNumber), FBlob(Str255, errorCode)]
    case NewExtendedMiningJob(channelID, jobID, minTime, version, versionRollingAllowed, merklePath,
        coinbasePrefix, coinbaseSuffix) =>
      [Number(4, channelID), Number(4, jobID), FSeq(UpTo1, EInt(4), Asserted, Numbers(minTime)),
       Number(4, version), FScalar(Bool(versionRollingAllowed)),
       FSeq(UpTo255, EHash, Asserted, Hashes(merklePath)), FBlob(Bin64K, coinbasePrefix),
       FBlob(Bin64K, coinbaseSuffix)]
    case SetNewPrevHash(channelID, jobID, prevHash, minNTime, bits) =>
      [Number(4, channelID), Number(4, jobID), FScalar(Hash(prevHash)), Number(4, minNTime), Number(4, bits)]
    case SetTarget(channelID, maxTarget) =>
      [Number(4, channelID), FScalar(Hash(maxTarget))]
    case SetCustomMiningJobSuccess(channelID, requestID, jobID) =>
      [Number(4, channelID), Number(4, requestID), Number(4, jobID)]
    case SetCustomMiningJobError(channelID, requestID, errorCode) =>
      [Number(4, channelID), Number(4, requestID), FBlob(Str255, errorCode)]
    case SetGroupChannel(groupChannelID, channelIDs) =>
      [Number(4, groupChannelID), FSeq(UpTo64K, EInt(4), Looped, Numbers(channelIDs))]
  }

  const BYTE: Kind := KScalar(EInt(1))
  const SHORT: Kind := KScalar(EInt(2))
  const WORD: Kind := KScalar(EInt(4))
  const LONG: Kind := KScalar(EInt(8))
  const FLAG: Kind := KScalar(EBool)
  const DIGEST: Kind := KScalar(EHash)
  const TEXT: Kind := KBlob(Str255)
  const TIME: Kind := KSeq(UpTo1, EInt(4), Asserted)
  const PATH: Kind := KSeq(UpTo255, EHash, Asserted)
  const IDS: Kind := KSeq(UpTo64K, EInt(4), Looped)

  /** What Decode reads, in order. */
  function Layout(k: MessageKind): seq<Kind>
  {
    match k
    case IsSetupConnection => [BYTE, SHORT, SHORT, WORD, TEXT, SHORT, TEXT, TEXT, TEXT, TEXT]
    case IsSetupConnectionSuccess => [SHORT, WORD]
    case IsSetupConnectionError => [WORD, TEXT]
    case IsChannelEndpointChanged => [WORD]
    case IsReconnect => [TEXT, SHORT]
    case IsOpenStandardMiningChannel => [WORD, TEXT, WORD, DIGEST]
    case IsOpenStandardMiningChannelSuccess => [WORD, WORD, DIGEST, KBlob(Bin32), WORD]
    case IsOpenMiningChannelError => [WORD, TEXT]
    case IsOpenExtendedMiningChannel => [WORD, TEXT, WORD, DIGEST, SHORT]
    case IsOpenExtendedMiningChannelSuccess => [WORD, WORD, DIGEST, SHORT, KBlob(Bin32), WORD]
    case IsNewMiningJob => [WORD, WORD, TIME, WORD, DIGEST]
    case IsUpdateChannel => [WORD, WORD, DIGEST]
    case IsUpdateChannelError => [WORD, TEXT]
    case IsCloseChannel => [WORD, TEXT]
    case IsSetExtranoncePrefix => [WORD, KBlob(Bin32)]
    case IsSubmitSharesStandard => [WORD, WORD, WORD, WORD, WORD, WORD]
    case IsSubmitSharesExtended => [WORD, WORD, WORD, WORD, WORD, WORD, KBlob(Bin32)]
    case IsSubmitSharesSuccess => [WORD, WORD, WORD, LONG]
    case IsSubmitSharesError => [WORD, WORD, TEXT]
    case IsNewExtendedMiningJob => [WORD, WORD, TIME, WORD, FLAG, PATH, KBlob(Bin64K), KBlob(Bin64K)]
    case IsSetNewPrevHash => [WORD, WORD, DIGEST, WORD, WORD]
    case IsSetTarget => [WORD, DIGEST]
    case IsSetCustomMiningJobSuccess => [WORD, WORD, WORD]
    case IsSetCustomMiningJobError => [WORD, WORD, TEXT]
    case IsSetGroupChannel => [WORD, IDS]
  }

  // ----- decoding

  function AsNat(f: Field): nat
  {
    if f.FScalar? && f.s.Int? then f.s.v else 0
  }

  function AsU8(f: Field): u8 { if AsNat(f) < 0x100 then AsNat(f) else 0 }
  function AsU16(f: Field): u16 { if AsNat(f) < 0x1_0000 then AsNat(f) else 0 }
  function AsU32(f: Field): u32 { if AsNat(f) < 0x1_0000_0000 then AsNat(f) else 0 }
  function AsU64(f: Field): u64 { if AsNat(f) < TWO_TO_64 then AsNat(f) else 0 }
  function AsBool(f: Field): bool { f.FScalar? && f.s.Bool? && f.s.flag }
  function AsHash(f: Field): Bytes32 { if f.FScalar? && f.s.Hash? then f.s.bytes else Zeros32() }
  function AsBytes(f: Field): Bytes { if f.FBlob? then f.bytes else [] }

  function AsNumbers(f: Field): seq<u32>
  {
    if f.FSeq? then seq(|f.items|, i requires 0 <= i < |f.items| => AsU32(FScalar(f.items[i]))) else []
  }

  function AsHashes(f: Field): seq<Bytes32>
  {
    if f.FSeq? then seq(|f.items|, i requires 0 <= i < |f.items| => AsHash(FScalar(f.items[i]))) else []
  }

  /** The message whose fields were read in wire order. */
  function Assemble(k: MessageKind, fs: seq<Field>): Message
    requires |fs| == |Layout(k)|
  {
    match k
    case IsSetupConnection =>
      SetupConnection(AsU8(fs[0]), AsU16(fs[1]), AsU16(fs[2]), AsU32(fs[3]), AsBytes(fs[4]), AsU16(fs[5]),
        AsBytes(fs[6]), AsBytes(fs[7]), AsBytes(fs[8]), AsBytes(fs[9]))
    case IsSetupConnectionSuccess =>
      SetupConnectionSuccess(AsU16(fs[0]), AsU32(fs[1]))
    case IsSetupConnectionError =>
      SetupConnectionError(AsU32(fs[0]), AsBytes(fs[1]))
    case IsChannelEndpointChanged =>
      ChannelEndpointChanged(AsU32(fs[0]))
    case IsReconnect =>
      Reconnect(AsBytes(fs[0]), AsU16(fs[1]))
    case IsOpenStandardMiningChannel =>
      OpenStandardMiningChannel(AsU32(fs[0]), AsBytes(fs[1]), AsU32(fs[2]), AsHash(fs[3]))
    case IsOpenStandardMiningChannelSuccess =>
      OpenStandardMiningChannelSuccess(AsU32(fs[0]), AsU32(fs[1]), AsHash(fs[2]), AsBytes(fs[3]), AsU32(fs[4]))
    case IsOpenMiningChannelError =>
      OpenMiningChannelError(AsU32(fs[0]), AsBytes(fs[1]))
    case IsOpenExtendedMiningChannel =>
      OpenExtendedMiningChannel(AsU32(fs[0]), AsBytes(fs[1]), AsU32(fs[2]), AsHash(fs[3]), AsU16(fs[4]))
    case IsOpenExtendedMiningChannelSuccess =>
      OpenExtendedMiningChannelSuccess(AsU32(fs[0]), AsU32(fs[1]), AsHash(fs[2]), AsU16(fs[3]), AsBytes(fs[4]),
        AsU32(fs[5]))
    case IsNewMiningJob =>
      NewMiningJob(AsU32(fs[0]), AsU32(fs[1]), AsNumbers(fs[2]), AsU32(fs[3]), AsHash(fs[4]))
    case IsUpdateChannel =>
      UpdateChannel(AsU32(fs[0]), AsU32(fs[1]), AsHash(fs[2]))
    case IsUpdateChannelError =>
      UpdateChannelError(AsU32(fs[0]), AsBytes(fs[1]))
    case IsCloseChannel =>
      CloseChannel(AsU32(fs[0]), AsBytes(fs[1]))
    case IsSetExtranoncePrefix =>
      SetExtranoncePrefix(AsU32(fs[0]), AsBytes(fs[1]))
    case IsSubmitSharesStandard =>
      SubmitSharesStandard(AsU32(fs[0]), AsU32(fs[1]), AsU32(fs[2]), AsU32(fs[3]), AsU32(fs[4]), AsU32(fs[5]))
    case IsSubmitSharesExtended =>
      SubmitSharesExtended(AsU32(fs[0]), AsU32(fs[1]), AsU32(fs[2]), AsU32(fs[3]), AsU32(fs[4]), AsU32(fs[5]),
        AsBytes(fs[6]))
    case IsSubmitSharesSuccess =>
      SubmitSharesSuccess(AsU32(fs[0]), AsU32(fs[1]), AsU32(fs[2]), AsU64(fs[3]))
    case IsSubmitSharesError =>
      SubmitSharesError(AsU32(fs[0]), AsU32(fs[1]), AsBytes(fs[2]))
    case IsNewExtendedMiningJob =>
      NewExtendedMiningJob(AsU32(fs[0]), AsU32(fs[1]), AsNumbers(fs[2]), AsU32(fs[3]), AsBool(fs[4]),
        AsHashes(fs[5]), AsBytes(fs[6]), AsBytes(fs[7]))
    case IsSetNewPrevHash =>
      SetNewPrevHash(AsU32(fs[0]), AsU32(fs[1]), AsHash(fs[2]), AsU32(fs[3]), AsU32(fs[4]))
    case IsSetTarget =>
      SetTarget(AsU32(fs[0]), AsHash(fs[1]))
    case IsSetCustomMiningJobSuccess =>
      SetCustomMiningJobSuccess(AsU32(fs[0]), AsU32(fs[1]), AsU32(fs[2]))
    case IsSetCustomMiningJobError =>
      SetCustomMiningJobError(AsU32(fs[0]), AsU32(fs[1]), AsBytes(fs[2]))
    case IsSetGroupChannel =>
      SetGroupChannel(AsU32(fs[0]), AsNumbers(fs[1]))
  }

  /** How a decoder leaves: a message, an error value, or a panic. */
  datatype Decoded = Done(m: Message, end: nat) | Error | Panic

  function Decode(k: MessageKind, b: Bytes, absent: bool): Decoded
  {
    var (fs, r) := NewReader(b, absent).GetAll(Layout(k));
    match r.status
    case Fine => Done(Assemble(k, fs), r.pos)
    case Failed => Error
    case Panicked => Panic
  }

  /** What the reads alone leave in the receiver, errors included: from the first error on, zero values. */
  function Received(k: MessageKind, b: Bytes, absent: bool): Message
  {
    Assemble(k, NewReader(b, absent).GetAll(Layout(k)).0)
  }

  /** The bytes of a message, or none when a string, byte string or list exceeds its prefix. */
  function Encode(m: Message): Option<Bytes>
  {
    var b := PutAll(Fields(m));
    if b.failed then None else Some(b.data)
  }

  // ----- the layout and the fields agree

  predicate IsCommon(m: Message)
  {
    m.SetupConnection? || m.SetupConnectionSuccess? || m.SetupConnectionError? || m.ChannelEndpointChanged? || m.Reconnect?
  }

  predicate IsOpening(m: Message)
  {
    || m.OpenStandardMiningChannel? || m.OpenStandardMiningChannelSuccess? || m.OpenMiningChannelError?
    || m.OpenExtendedMiningChannel? || m.OpenExtendedMiningChannelSuccess?
  }

  lemma FieldsFollowLayout(m: Message)
    ensures KindsOf(Fields(m)) == Layout(MessageKindOf(m))
  {
    hide Fields, Layout, KindsOf;
    if IsCommon(m) {
      CommonFollowsLayout(m);
    } else if IsOpening(m) {
      OpeningFollowsLayout(m);
    } else {
      MiningFollowsLayout(m);
    }
  }

  lemma CommonFollowsLayout(m: Message)
    requires IsCommon(m)
    ensures KindsOf(Fields(m)) == Layout(MessageKindOf(m))
  {
  }

  lemma OpeningFollowsLayout(m: Message)
    requires IsOpening(m)
    ensures KindsOf(Fields(m)) == Layout(MessageKindOf(m))
  {
  }

  lemma MiningFollowsLayout(m: Message)
    requires !IsCommon(m) && !IsOpening(m)
    ensures KindsOf(Fields(m)) == Layout(MessageKindOf(m))
  {
  }

  lemma FieldsWellFormed(m: Message)
    ensures AllWellFormed(Fields(m))
  {
    Capacities();
  }

  lemma NumbersRoundTrip(ns: seq<u32>, p: Prefix, style: Style)
    ensures AsNumbers(FSeq(p, EInt(4), style, Numbers(ns))) == ns
  {
  }

  /** Every list of 32-bit numbers read from the wire is the encoding of the numbers in it. */
  lemma NumbersOnto(items: seq<Scalar>, p: Prefix, style: Style)
    requires Homogeneous(EInt(4), items)
    ensures Numbers(AsNumbers(FSeq(p, EInt(4), style, items))) == items
  {
    Capacities();
    var ns := AsNumbers(FSeq(p, EInt(4), style, items));
    assert forall i :: 0 <= i < |items| ==> items[i] == Int(4, ns[i]);
  }

  lemma HashesOnto(items: seq<Scalar>, p: Prefix)
    requires Homogeneous(EHash, items)
    ensures Hashes(AsHashes(FSeq(p, EHash, Asserted, items))) == items
  {
    var hs := AsHashes(FSeq(p, EHash, Asserted, items));
    assert forall i :: 0 <= i < |items| ==> items[i] == Hash(hs[i]);
  }

  lemma HashesRoundTrip(hs: seq<Bytes32>, p: Prefix)
    ensures AsHashes(FSeq(p, EHash, Asserted, Hashes(hs))) == hs
  {
  }

  /** Assembling a message's own fields gives the message. */
  lemma AssembleFields(m: Message)
    ensures |Fields(m)| == |Layout(MessageKindOf(m))|
    ensures Assemble(MessageKindOf(m), Fields(m)) == m
  {
    hide Assemble, Fields, Layout;
    FieldsFollowLayout(m);
    assert |Fields(m)| == |KindsOf(Fields(m))|;
    if HasList(m) {
      AssembleWithList(m);
    } else if IsCommon(m) {
      AssembleCommon(m);
    } else if IsOpening(m) {
      AssembleOpening(m);
    } else {
      AssembleMining(m);
    }
  }

  predicate HasList(m: Message)
  {
    m.NewMiningJob? || m.NewExtendedMiningJob? || m.SetGroupChannel?
  }

  lemma AssembleWithList(m: Message)
    requires HasList(m)
    ensures |Fields(m)| == |Layout(MessageKindOf(m))| && Assemble(MessageKindOf(m), Fields(m)) == m
  {
    match m
    case NewMiningJob(_, _, minTime, _, _) => NumbersRoundTrip(minTime, UpTo1, Asserted);
    case NewExtendedMiningJob(_, _, _, _, _, _, _, _) => AssembleExtendedJob(m);
    case SetGroupChannel(_, channelIDs) => NumbersRoundTrip(channelIDs, UpTo64K, Looped);
  }

  lemma AssembleExtendedJob(m: Message)
    requires m.NewExtendedMiningJob?
    ensures |Fields(m)| == |Layout(MessageKindOf(m))| && Assemble(MessageKindOf(m), Fields(m)) == m
  {
    NumbersRoundTrip(m.minTime, UpTo1, Asserted);
    HashesRoundTrip(m.merklePath, UpTo255);
  }

  lemma AssembleCommon(m: Message)
    requires IsCommon(m)
    ensures |Fields(m)| == |Layout(MessageKindOf(m))| && Assemble(MessageKindOf(m), Fields(m)) == m
  {
  }

  lemma AssembleOpening(m: Message)
    requires IsOpening(m)
    ensures |Fields(m)| == |Layout(MessageKindOf(m))| && Assemble(MessageKindOf(m), Fields(m)) == m
  {
  }

  lemma AssembleMining(m: Message)
    requires !HasList(m) && !IsCommon(m) && !IsOpening(m)
    ensures |Fields(m)| == |Layout(MessageKindOf(m))| && Assemble(MessageKindOf(m), Fields(m)) == m
  {
  }

  // ----- what holds of every message

  /** Decoding an encoded message gives the message back and stops at its last byte, whatever follows. */
  lemma MessageRoundTrip(m: Message, rest: Bytes)
    requires Encode(m).Some?
    ensures Decode(MessageKindOf(m), Encode(m).value + rest, false) == Done(m, |Encode(m).value|)
  {
    hide Fields, Layout, Assemble, MessageKindOf, AllWellFormed, PutAll, Reader.GetAll;
    var w := Encode(m).value;
    FieldsFollowLayout(m);
    FieldsWellFormed(m);
    AssembleFields(m);
    assert (w + rest)[0..|w|] == w;
    FieldsRoundTrip(NewReader(w + rest, false), Fields(m));
  }

  /** No strict prefix of an encoding decodes as a message of that type. */
  lemma MessageTruncation(m: Message, cut: nat, absent: bool)
    requires Encode(m).Some? && cut < |Encode(m).value| && (absent ==> cut == 0)
    ensures !Decode(MessageKindOf(m), Encode(m).value[..cut], absent).Done?
  {
    hide Fields, Layout, Assemble, MessageKindOf, AllWellFormed, PutAll, Reader.GetAll;
    FieldsFollowLayout(m);
    FieldsWellFormed(m);
    TruncationNeverDecodes(Fields(m), cut, absent);
  }

  /** Within one message type encodings are prefix-free, so Encode is injective. */
  lemma EncodingsArePrefixFree(m: Message, n: Message)
    requires MessageKindOf(m) == MessageKindOf(n) && Encode(m).Some? && Encode(n).Some?
    requires Encode(m).value <= Encode(n).value
    ensures m == n
  {
    hide Decode, Encode;
    var v, w := Encode(m).value, Encode(n).value;
    MessageRoundTrip(m, w[|v|..]);
    MessageRoundTrip(n, []);
    assert v + w[|v|..] == w && w + [] == w;
  }

  // ----- the bytes of every message, spelled out

  /** Four bytes each, least significant first. */
  function Words(ns: seq<u32>): Bytes
  {
    Concat(seq(|ns|, i requires 0 <= i < |ns| => ToLE(4, ns[i])))
  }

  /** The bytes on the wire, one piece for every member in wire order. */
  function Pieces(m: Message): seq<Bytes>
  {
    match m
    case SetupConnection(protocol, minVersion, maxVersion, flags, endpointHost, endpointPort, deviceVendor,
        deviceHardwareVersion, deviceFirmware, deviceID) =>
      [ToLE(1, protocol), ToLE(2, minVersion), ToLE(2, maxVersion), ToLE(4, flags),
       ToLE(1, |endpointHost|) + endpointHost, ToLE(2, endpointPort), ToLE(1, |deviceVendor|) + deviceVendor,
       ToLE(1, |deviceHardwareVersion|) + deviceHardwareVersion, ToLE(1, |deviceFirmware|) + deviceFirmware,
       ToLE(1, |deviceID|) + deviceID]
    case SetupConnectionSuccess(usedVersion, flags) =>
      [ToLE(2, usedVersion), ToLE(4, flags)]
    case SetupConnectionError(flags, errorCode) =>
      [ToLE(4, flags), ToLE(1, |errorCode|) + errorCode]
    case ChannelEndpointChanged(channelID) =>
      [ToLE(4, channelID)]
    case Reconnect(newHost, newPort) =>
      [ToLE(1, |newHost|) + newHost, ToLE(2, newPort)]
    case OpenStandardMiningChannel(requestID, userIdentity, nominalHashRate, maxTarget) =>
      [ToLE(4, requestID), ToLE(1, |userIdentity|) + userIdentity, ToLE(4, nominalHashRate), maxTarget]
    case OpenStandardMiningChannelSuccess(requestID, channelID, target, extranoncePrefix, groupChannelID) =>
      [ToLE(4, requestID), ToLE(4, channelID), target, ToLE(1, |extranoncePrefix|) + extranoncePrefix,
       ToLE(4, groupChannelID)]
    case OpenMiningChannelError(requestID, errorCode) =>
      [ToLE(4, requestID), ToLE(1, |errorCode|) + errorCode]
    case OpenExtendedMiningChannel(requestID, userIdentity, nominalHashRate, maxTarget, minExtranonceSize) =>
      [ToLE(4, requestID), ToLE(1, |userIdentity|) + userIdentity, ToLE(4, nominalHashRate), maxTarget,
       ToLE(2, minExtranonceSize)]
    case OpenExtendedMiningChannelSuccess(requestID, channelID, target, extranonceSize, extranoncePrefix,
        groupChannelID) =>
      [ToLE(4, requestID), ToLE(4, channelID), target, ToLE(2, extranonceSize),
       ToLE(1, |extranoncePrefix|) + extranoncePrefix, ToLE(4, groupChannelID)]
    case NewMiningJob(channelID, jobID, minTime, version, merkleRoot) =>
      [ToLE(4, channelID), ToLE(4, jobID), ToLE(1, |minTime|) + Words(minTime), ToLE(4, version), merkleRoot]
    case UpdateChannel(channelID, nominalHashRate, maxTarget) =>
      [ToLE(4, channelID), ToLE(4, nominalHashRate), maxTarget]
    case UpdateChannelError(channelID, errorCode) =>
      [ToLE(4, channelID), ToLE(1, |errorCode|) + errorCode]
    case CloseChannel(channelID, reasonCode) =>
      [ToLE(4, channelID), ToLE(1, |reasonCode|) + reasonCode]
    case SetExtranoncePrefix(channelID, extranoncePrefix) =>
      [ToLE(4, channelID), ToLE(1, |extranoncePrefix|) + extranoncePrefix]
    case SubmitSharesStandard(channelID, sequence, jobID, nonce, time, version) =>
      [ToLE(4, channelID), ToLE(4, sequence), ToLE(4, jobID), ToLE(4, nonce), ToLE(4, time), ToLE(4, version)]
    case SubmitSharesExtended(channelID, sequence, jobID, nonce, time, version, extranonce) =>
      [ToLE(4, channelID), ToLE(4, sequence), ToLE(4, jobID), ToLE(4, nonce), ToLE(4, time), ToLE(4, version),
       ToLE(1, |extranonce|) + extranonce]
    case SubmitSharesSuccess(channelID, lastSequenceNumber, newSubmitsAcceptedCount, newSharesSum) =>
      [ToLE(4, channelID), ToLE(4, lastSequenceNumber), ToLE(4, newSubmitsAcceptedCount), ToLE(8, newSharesSum)]
    case SubmitSharesError(channelID, sequenceNumber, errorCode) =>
      [ToLE(4, channelID), ToLE(4, sequenceNumber), ToLE(1, |errorCode|) + errorCode]
    case NewExtendedMiningJob(channelID, jobID, minTime, version, versionRollingAllowed, merklePath,
        coinbasePrefix, coinbaseSuffix) =>
      [ToLE(4, channelID), ToLE(4, jobID), ToLE(1, |minTime|) + Words(minTime), ToLE(4, version),
       [if versionRollingAllowed then 1 else 0], ToLE(1, |merklePath|) + Concat(merklePath),
       ToLE(2, |coinbasePrefix|) + coinbasePrefix, ToLE(2, |coinbaseSuffix|) + coinbaseSuffix]
    case SetNewPrevHash(channelID, jobID, prevHash, minNTime, bits) =>
      [ToLE(4, channelID), ToLE(4, jobID), prevHash, ToLE(4, minNTime), ToLE(4, bits)]
    case SetTarget(channelID, maxTarget) =>
      [ToLE(4, channelID), maxTarget]
    case SetCustomMiningJobSuccess(channelID, requestID, jobID) =>
      [ToLE(4, channelID), ToLE(4, requestID), ToLE(4, jobID)]
    case SetCustomMiningJobError(channelID, requestID, errorCode) =>
      [ToLE(4, channelID), ToLE(4, requestID), ToLE(1, |errorCode|) + errorCode]
    case SetGroupChannel(groupChannelID, channelIDs) =>
      [ToLE(4, groupChannelID), ToLE(2, |channelIDs|) + Words(channelIDs)]
  }

  /** Whether every string, byte string and list fits the width of its length. */
  predicate WithinLimits(m: Message)
  {
    match m
    case SetupConnection(_, _, _, _, endpointHost, _, deviceVendor, deviceHardwareVersion, deviceFirmware,
        deviceID) =>
      && |endpointHost| <= 255 && |deviceVendor| <= 255 && |deviceHardwareVersion| <= 255
      && |deviceFirmware| <= 255 && |deviceID| <= 255
    case SetupConnectionError(_, errorCode) =>
      |errorCode| <= 255
    case Reconnect(newHost, _) =>
      |newHost| <= 255
    case OpenStandardMiningChannel(_, userIdentity, _, _) =>
      |userIdentity| <= 255
    case OpenStandardMiningChannelSuccess(_, _, _, extranoncePrefix, _) =>
      |extranoncePrefix| <= 32
    case OpenMiningChannelError(_, errorCode) =>
      |errorCode| <= 255
    case OpenExtendedMiningChannel(_, userIdentity, _, _, _) =>
      |userIdentity| <= 255
    case OpenExtendedMiningChannelSuccess(_, _, _, _, extranoncePrefix, _) =>
      |extranoncePrefix| <= 32
    case NewMiningJob(_, _, minTime, _, _) =>
      |minTime| <= 1
    case UpdateChannelError(_, errorCode) =>
      |errorCode| <= 255
    case CloseChannel(_, reasonCode) =>
      |reasonCode| <= 255
    case SetExtranoncePrefix(_, extranoncePrefix) =>
      |extranoncePrefix| <= 32
    case SubmitSharesExtended(_, _, _, _, _, _, extranonce) =>
      |extranonce| <= 32
    case SubmitSharesError(_, _, errorCode) =>
      |errorCode| <= 255
    case NewExtendedMiningJob(_, _, minTime, _, _, merklePath, coinbasePrefix, coinbaseSuffix) =>
      |minTime| <= 1 && |merklePath| <= 255 && |coinbasePrefix| <= 65535 && |coinbaseSuffix| <= 65535
    case SetCustomMiningJobError(_, _, errorCode) =>
      |errorCode| <= 255
    case SetGroupChannel(_, channelIDs) =>
      |channelIDs| <= 65535
    case _ => true
  }

  lemma NumbersLayout(p: Prefix, style: Style, ns: seq<u32>)
    ensures Wire(FSeq(p, EInt(4), style, Numbers(ns))) ==
      if |ns| <= PrefixLimit(p) then Some(ToLE(PrefixWidth(p), |ns|) + Words(ns)) else None
  {
    SequenceLayout(p, EInt(4), style, Numbers(ns), seq(|ns|, i requires 0 <= i < |ns| => ToLE(4, ns[i])));
  }

  lemma HashesLayout(p: Prefix, hs: seq<Bytes32>)
    ensures Wire(FSeq(p, EHash, Asserted, Hashes(hs))) ==
      if |hs| <= PrefixLimit(p) then Some(ToLE(PrefixWidth(p), |hs|) + Concat(hs)) else None
  {
    SequenceLayout(p, EHash, Asserted, Hashes(hs), hs);
  }

  /** Every field that fits is written as its piece, and all fit exactly within the limits. */
  ghost predicate WrittenInPieces(m: Message)
  {
    && |Pieces(m)| == |Fields(m)|
    && (forall i :: 0 <= i < |Fields(m)| && Wire(Fields(m)[i]).Some? ==> Wire(Fields(m)[i]) == Some(Pieces(m)[i]))
    && (WithinLimits(m) <==> AllFit(Fields(m)))
  }

  lemma TenFields(fs: seq<Field>)
    requires |fs| <= 10
    ensures AllFit(fs) <==>
              && (|fs| > 0 ==> Wire(fs[0]).Some?) && (|fs| > 1 ==> Wire(fs[1]).Some?)
              && (|fs| > 2 ==> Wire(fs[2]).Some?) && (|fs| > 3 ==> Wire(fs[3]).Some?)
              && (|fs| > 4 ==> Wire(fs[4]).Some?) && (|fs| > 5 ==> Wire(fs[5]).Some?)
              && (|fs| > 6 ==> Wire(fs[6]).Some?) && (|fs| > 7 ==> Wire(fs[7]).Some?)
              && (|fs| > 8 ==> Wire(fs[8]).Some?) && (|fs| > 9 ==> Wire(fs[9]).Some?)
  {
  }

  lemma CommonInPieces(m: Message)
    requires IsCommon(m)
    ensures WrittenInPieces(m)
  {
    hide AllFit, ToLE;
    TenFields(Fields(m));
  }

  lemma OpeningInPieces(m: Message)
    requires IsOpening(m)
    ensures WrittenInPieces(m)
  {
    hide AllFit, ToLE;
    TenFields(Fields(m));
  }

  lemma MiningInPieces(m: Message)
    requires !HasList(m) && !IsCommon(m) && !IsOpening(m)
    ensures WrittenInPieces(m)
  {
    hide AllFit, ToLE;
    TenFields(Fields(m));
  }

  lemma NewMiningJobInPieces(m: Message)
    requires m.NewMiningJob?
    ensures WrittenInPieces(m)
  {
    hide Words, Numbers, AllFit, ToLE, ItemsWire;
    TenFields(Fields(m));
    NumbersLayout(UpTo1, Asserted, m.minTime);
  }

  lemma NewExtendedMiningJobInPieces(m: Message)
    requires m.NewExtendedMiningJob?
    ensures WrittenInPieces(m)
  {
    hide Words, Numbers, Hashes, AllFit, ToLE, ItemsWire, Concat;
    TenFields(Fields(m));
    NumbersLayout(UpTo1, Asserted, m.minTime);
    HashesLayout(UpTo255, m.merklePath);
  }

  lemma SetGroupChannelInPieces(m: Message)
    requires m.SetGroupChannel?
    ensures WrittenInPieces(m)
  {
    hide Words, Numbers, AllFit, ToLE, ItemsWire;
    TenFields(Fields(m));
    NumbersLayout(UpTo64K, Looped, m.channelIDs);
  }

  lemma InPieces(m: Message)
    ensures WrittenInPieces(m)
  {
    hide WrittenInPieces;
    if m.NewMiningJob? {
      NewMiningJobInPieces(m);
    } else if m.NewExtendedMiningJob? {
      NewExtendedMiningJobInPieces(m);
    } else if m.SetGroupChannel? {
      SetGroupChannelInPieces(m);
    } else if IsCommon(m) {
      CommonInPieces(m);
    } else if IsOpening(m) {
      OpeningInPieces(m);
    } else {
      MiningInPieces(m);
    }
  }

  /** A message encodes exactly within its limits, and then to its pieces one after the other. */
  lemma MessageLayout(m: Message)
    ensures Encode(m) == if WithinLimits(m) then Some(Concat(Pieces(m))) else None
  {
    hide Pieces, Fields, WithinLimits, Wire, PutAll;
    InPieces(m);
    FieldsLayout(Fields(m), Pieces(m));
  }

  /** The common types from 0 on and the mining types from 0x10 on, as they are declared, two places left out. */
  lemma TypeNumbersAsDeclared()
    ensures var common := [IsSetupConnection, IsSetupConnectionSuccess, IsSetupConnectionError,
                           IsChannelEndpointChanged, IsReconnect];
            forall i :: 0 <= i < |common| ==> TypeNumber(common[i]) == i
    ensures var mining := [Some(IsOpenStandardMiningChannel), Some(IsOpenStandardMiningChannelSuccess),
                           Some(IsOpenMiningChannelError), Some(IsOpenExtendedMiningChannel),
                           Some(IsOpenExtendedMiningChannelSuccess), Some(IsNewMiningJob), Some(IsUpdateChannel),
                           Some(IsUpdateChannelError), Some(IsCloseChannel), Some(IsSetExtranoncePrefix),
                           Some(IsSubmitSharesStandard), Some(IsSubmitSharesExtended), Some(IsSubmitSharesSuccess),
                           Some(IsSubmitSharesError), None, Some(IsNewExtendedMiningJob), Some(IsSetNewPrevHash),
                           Some(IsSetTarget), None, Some(IsSetCustomMiningJobSuccess),
                           Some(IsSetCustomMiningJobError), Some(IsSetGroupChannel)];
            forall i :: 0 <= i < |mining| ==> mining[i] == KindOfNumber(0x10 + i)
  {
  }

  // ----- canonical encodings

  /** A well-formed field is determined by its kind and the value taken from it. */
  lemma FieldOfValue(f: Field)
    requires WellFormed(f)
    ensures KindOf(f) == BYTE ==> f == Number(1, AsU8(f))
    ensures KindOf(f) == SHORT ==> f == Number(2, AsU16(f))
    ensures KindOf(f) == WORD ==> f == Number(4, AsU32(f))
    ensures KindOf(f) == LONG ==> f == Number(8, AsU64(f))
    ensures KindOf(f) == FLAG ==> f == FScalar(Bool(AsBool(f)))
    ensures KindOf(f) == DIGEST ==> f == FScalar(Hash(AsHash(f)))
    ensures f.FBlob? ==> f == FBlob(f.blob, AsBytes(f))
    ensures KindOf(f) == TIME ==> f == FSeq(UpTo1, EInt(4), Asserted, Numbers(AsNumbers(f)))
    ensures KindOf(f) == PATH ==> f == FSeq(UpTo255, EHash, Asserted, Hashes(AsHashes(f)))
    ensures KindOf(f) == IDS ==> f == FSeq(UpTo64K, EInt(4), Looped, Numbers(AsNumbers(f)))
  {
    Capacities();
    match f
    case FSeq(p, EInt(4), style, items) => NumbersOnto(items, p, style);
    case FSeq(p, EHash, _, items) => HashesOnto(items, p);
    case _ =>
  }

  /** The other way round: whatever fields were read, the message assembled from them has exactly these fields. */
  lemma FieldsOfAssembled(k: MessageKind, fs: seq<Field>)
    requires KindsOf(fs) == Layout(k) && AllWellFormed(fs)
    ensures |fs| == |Layout(k)| && Fields(Assemble(k, fs)) == fs
  {
    hide Fields, Layout, AsU8, AsU16, AsU32, AsU64, AsBool, AsHash, AsBytes, AsNumbers, AsHashes;
    hide Assemble, KindOf, WellFormed;
    assert |fs| == |KindsOf(fs)|;
    forall i | 0 <= i < |fs|
      ensures WellFormed(fs[i]) && KindOf(fs[i]) == Layout(k)[i]
    {
      assert KindsOf(fs)[i] == KindOf(fs[i]);
    }
    if TypeNumber(k) < 0x10 {
      CommonOfAssembled(k, fs);
    } else if TypeNumber(k) < 0x18 {
      OpeningOfAssembled(k, fs);
    } else if TypeNumber(k) < 0x1D {
      SharesOfAssembled(k, fs);
    } else {
      MiningOfAssembled(k, fs);
    }
  }

  /** Every field is of the kind the layout says and holds the value taken from it. */
  ghost predicate Read(k: MessageKind, fs: seq<Field>)
  {
    && |fs| == |Layout(k)|
    && forall i :: 0 <= i < |fs| ==> WellFormed(fs[i]) && KindOf(fs[i]) == Layout(k)[i]
  }

  lemma CommonOfAssembled(k: MessageKind, fs: seq<Field>)
    requires Read(k, fs) && TypeNumber(k) < 0x10
    ensures Fields(Assemble(k, fs)) == fs
  {
    hide AsU8, AsU16, AsU32, AsU64, AsBool, AsHash, AsBytes, AsNumbers, AsHashes, WellFormed;
    forall i | 0 <= i < |fs| { FieldOfValue(fs[i]); }
  }

  lemma OpeningOfAssembled(k: MessageKind, fs: seq<Field>)
    requires Read(k, fs) && 0x10 <= TypeNumber(k) < 0x18
    ensures Fields(Assemble(k, fs)) == fs
  {
    hide AsU8, AsU16, AsU32, AsU64, AsBool, AsHash, AsBytes, AsNumbers, AsHashes, WellFormed;
    forall i | 0 <= i < |fs| { FieldOfValue(fs[i]); }
  }

  lemma SharesOfAssembled(k: MessageKind, fs: seq<Field>)
    requires Read(k, fs) && 0x18 <= TypeNumber(k) < 0x1D
    ensures Fields(Assemble(k, fs)) == fs
  {
    hide AsU8, AsU16, AsU32, AsU64, AsBool, AsHash, AsBytes, AsNumbers, AsHashes, WellFormed;
    forall i | 0 <= i < |fs| { FieldOfValue(fs[i]); }
  }

  lemma MiningOfAssembled(k: MessageKind, fs: seq<Field>)
    requires Read(k, fs) && TypeNumber(k) >= 0x1D
    ensures Fields(Assemble(k, fs)) == fs
  {
    hide AsU8, AsU16, AsU32, AsU64, AsBool, AsHash, AsBytes, AsNumbers, AsHashes, WellFormed;
    forall i | 0 <= i < |fs| { FieldOfValue(fs[i]); }
  }

  lemma LayoutBounded(k: MessageKind)
    ensures forall i :: 0 <= i < |Layout(k)| ==> Bounded(Layout(k)[i])
  {
  }

  lemma AssembledKind(k: MessageKind, fs: seq<Field>)
    requires |fs| == |Layout(k)|
    ensures MessageKindOf(Assemble(k, fs)) == k
  {
    hide Layout, AsU8, AsU16, AsU32, AsU64, AsBool, AsHash, AsBytes, AsNumbers, AsHashes;
  }

  /**
    Decoding is canonical: whatever bytes decode to a message of some type, the bytes consumed are the encoding of
    that message.
   */
  lemma CanonicalDecoding(k: MessageKind, b: Bytes, absent: bool)
    requires (absent ==> b == []) && Decode(k, b, absent).Done?
    ensures var (m, end) := (Decode(k, b, absent).m, Decode(k, b, absent).end);
            MessageKindOf(m) == k && end <= |b| && Encode(m) == Some(b[..end])
  {
    hide Layout, Assemble, Fields, MessageKindOf, PutAll, Reader.GetAll, AllWellFormed;
    LayoutBounded(k);
    var r := NewReader(b, absent);
    GetAllCanonical(r, Layout(k));
    var fs := r.GetAll(Layout(k)).0;
    FieldsOfAssembled(k, fs);
    AssembledKind(k, fs);
  }

  /** Together with the round trip: bytes decode to a message exactly when they begin with its encoding. */
  lemma DecodesExactly(m: Message, b: Bytes, absent: bool, end: nat)
    requires absent ==> b == []
    ensures Decode(MessageKindOf(m), b, absent) == Done(m, end) <==> end <= |b| && Encode(m) == Some(b[..end])
  {
    hide Decode, Encode;
    if Decode(MessageKindOf(m), b, absent) == Done(m, end) {
      CanonicalDecoding(MessageKindOf(m), b, absent);
    }
    if end <= |b| && Encode(m) == Some(b[..end]) {
      MessageSize(m);
      MessageRoundTrip(m, b[end..]);
      assert b[..end] + b[end..] == b;
    }
  }

  // ----- sizes

  /** The longest wire form a field of that kind can have. */
  function MaxWire(k: Kind): nat
  {
    match k
    case KScalar(e) => ScalarWidth(e)
    case KBlob(b) => BlobWidth(b) + BlobLimit(b)
    case KSeq(p, e, _) => PrefixWidth(p) + PrefixLimit(p) * ScalarWidth(e)
  }

  lemma FieldSize(f: Field)
    requires WellFormed(f) && Wire(f).Some?
    ensures 1 <= |Wire(f).value| <= MaxWire(KindOf(f))
  {
    match f
    case FScalar(s) => ScalarWireLength(s);
    case FBlob(_, _) =>
    case FSeq(p, e, _, items) =>
      ItemsWireLength(e, items);
      Product(|items|, PrefixLimit(p), ScalarWidth(e));
  }

  lemma Product(n: nat, max: nat, width: nat)
    requires n <= max
    ensures n * width <= max * width
  {
  }

  /** At least one byte per field, and at most the given bound per field. */
  lemma {:induction false} FieldsSize(fs: seq<Field>, each: nat)
    requires AllWellFormed(fs) && !PutAll(fs).failed
    requires forall i :: 0 <= i < |fs| ==> MaxWire(KindOf(fs[i])) <= each
    ensures |fs| <= |PutAll(fs).data| <= |fs| * each
  {
    if fs != [] {
      FieldsSize(fs[..|fs| - 1], each);
      FieldSize(fs[|fs| - 1]);
      NextCount(|fs| - 1, each);
    }
  }

  /** The two message types whose encoding can exceed one encrypted record. */
  predicate MayExceedRecord(k: MessageKind)
  {
    k == IsNewExtendedMiningJob || k == IsSetGroupChannel
  }

  lemma LayoutSize(k: MessageKind)
    ensures 1 <= |Layout(k)| <= 10
    ensures forall i :: 0 <= i < |Layout(k)| ==>
              MaxWire(Layout(k)[i]) <= if MayExceedRecord(k) then 0x4_0000 else 0x100
  {
  }

  /**
    Every other message takes at most 2560 bytes, so it fits one record; none is empty, and none, however long
    its lists, exceeds the 24-bit length of a frame.
   */
  lemma MessageSize(m: Message)
    requires Encode(m).Some?
    ensures 1 <= |Encode(m).value| <= MAX_U24
    ensures !MayExceedRecord(MessageKindOf(m)) ==> |Encode(m).value| <= 2560
  {
    var k := MessageKindOf(m);
    FieldsFollowLayout(m);
    FieldsWellFormed(m);
    LayoutSize(k);
    var each := if MayExceedRecord(k) then 0x4_0000 else 0x100;
    assert forall i :: 0 <= i < |Fields(m)| ==> KindOf(Fields(m)[i]) == KindsOf(Fields(m))[i];
    assert |Fields(m)| == |KindsOf(Fields(m))|;
    FieldsSize(Fields(m), each);
  }

  // ----- the two types without a small bound, exactly

  /** The total length of the fields, when all of them fit. */
  function TotalLength(fs: seq<Field>): nat
    requires forall i :: 0 <= i < |fs| ==> Wire(fs[i]).Some?
  {
    if fs == [] then 0 else |Wire(fs[0]).value| + TotalLength(fs[1..])
  }

  predicate AllFit(fs: seq<Field>)
  {
    forall i :: 0 <= i < |fs| ==> Wire(fs[i]).Some?
  }

  lemma {:induction false} TotalLengthSnoc(fs: seq<Field>, f: Field)
    requires AllFit(fs) && Wire(f).Some?
    ensures AllFit(fs + [f]) && TotalLength(fs + [f]) == TotalLength(fs) + |Wire(f).value|
  {
    if fs == [] {
      assert [f][1..] == [];
    } else {
      TotalLengthSnoc(fs[1..], f);
      assert (fs + [f])[1..] == fs[1..] + [f];
    }
  }

  /** A list encodes exactly when each field does, and then to the sum of their lengths. */
  lemma {:induction false} EncodesExactly(fs: seq<Field>)
    ensures !PutAll(fs).failed <==> AllFit(fs)
    ensures AllFit(fs) ==> |PutAll(fs).data| == TotalLength(fs)
  {
    if fs != [] {
      var front, last := fs[..|fs| - 1], fs[|fs| - 1];
      assert fs == front + [last];
      EncodesExactly(front);
      if AllFit(fs) {
        TotalLengthSnoc(front, last);
      }
    }
  }

  lemma ListLength(p: Prefix, e: Elem, style: Style, items: seq<Scalar>)
    requires Homogeneous(e, items) && |items| <= PrefixLimit(p)
    ensures |Wire(FSeq(p, e, style, items)).value| == PrefixWidth(p) + |items| * ScalarWidth(e)
  {
    ItemsWireLength(e, items);
  }

  /** A group message encodes up to 65535 channels, but only 16378 fit the one record that can be delivered. */
  lemma GroupChannelSize(group: u32, ids: seq<u32>)
    ensures var w := Encode(SetGroupChannel(group, ids));
            && (w.Some? <==> |ids| <= 65535)
            && (w.Some? ==> |w.value| == 6 + 4 * |ids| && (|w.value| <= 65519 <==> |ids| <= 16378))
  {
    var f, g := Number(4, group), FSeq(UpTo64K, EInt(4), Looped, Numbers(ids));
    assert Fields(SetGroupChannel(group, ids)) == [f, g];
    hide PutAll, Fields;
    TwoFields(f, g);
    if |ids| <= 65535 {
      Capacities();
      ListLength(UpTo64K, EInt(4), Looped, Numbers(ids));
    }
  }

  lemma TwoFields(f: Field, g: Field)
    ensures !PutAll([f, g]).failed <==> Wire(f).Some? && Wire(g).Some?
    ensures !PutAll([f, g]).failed ==> |PutAll([f, g]).data| == |Wire(f).value| + |Wire(g).value|
  {
    hide Wire;
    assert PutAll([f, g]) == PutAll([f]).Put(g) by { assert [f, g][..1] == [f]; }
    assert PutAll([f]) == EMPTY.Put(f) by { assert [f][..0] == []; }
  }

  predicate JobFits(m: Message)
    requires m.NewExtendedMiningJob?
  {
    && |m.minTime| <= 1 && |m.merklePath| <= 255
    && |m.coinbasePrefix| <= 65535 && |m.coinbaseSuffix| <= 65535
  }

  /** An extended job encodes within its four prefixes; its size decides whether it can be delivered. */
  lemma ExtendedJobSize(m: Message)
    requires m.NewExtendedMiningJob?
    ensures Encode(m).Some? <==> JobFits(m)
    ensures Encode(m).Some? ==> |Encode(m).value| == 19 + 4 * |m.minTime| + 32 * |m.merklePath|
                                                   + |m.coinbasePrefix| + |m.coinbaseSuffix|
  {
    var fs := Fields(m);
    FieldsWellFormed(m);
    EncodesExactly(fs);
    hide Encode, Fields, Wire, PutAll;
    ExtendedJobFits(m);
    if AllFit(fs) {
      ExtendedJobLength(m);
    }
  }

  lemma ExtendedJobFits(m: Message)
    requires m.NewExtendedMiningJob?
    ensures Encode(m).Some? <==> !PutAll(Fields(m)).failed
    ensures Encode(m).Some? ==> Encode(m).value == PutAll(Fields(m)).data
    ensures AllFit(Fields(m)) <==> JobFits(m)
  {
    hide PutAll;
    var fs := Fields(m);
    assert fs[2] == FSeq(UpTo1, EInt(4), Asserted, Numbers(m.minTime));
    assert fs[5] == FSeq(UpTo255, EHash, Asserted, Hashes(m.merklePath));
    assert fs[6] == FBlob(Bin64K, m.coinbasePrefix) && fs[7] == FBlob(Bin64K, m.coinbaseSuffix);
  }

  lemma ExtendedJobLength(m: Message)
    requires m.NewExtendedMiningJob? && AllFit(Fields(m))
    ensures TotalLength(Fields(m)) == 19 + 4 * |m.minTime| + 32 * |m.merklePath| + |m.coinbasePrefix| + |m.coinbaseSuffix|
  {
    hide TotalLength, PutAll, Encode, MessageKindOf;
    var fs := Fields(m);
    FieldsWellFormed(m);
    ExtendedJobFits(m);
    EightLengths(fs);
    ListLength(UpTo1, EInt(4), Asserted, Numbers(m.minTime));
    ListLength(UpTo255, EHash, Asserted, Hashes(m.merklePath));
    assert fs[2] == FSeq(UpTo1, EInt(4), Asserted, Numbers(m.minTime));
    assert fs[5] == FSeq(UpTo255, EHash, Asserted, Hashes(m.merklePath));
  }

  lemma EightLengths(fs: seq<Field>)
    requires |fs| == 8 && AllFit(fs)
    ensures TotalLength(fs) == |Wire(fs[0]).value| + |Wire(fs[1]).value| + |Wire(fs[2]).value| + |Wire(fs[3]).value|
                             + |Wire(fs[4]).value| + |Wire(fs[5]).value| + |Wire(fs[6]).value| + |Wire(fs[7]).value|
  {
    FromIndex(fs, 0);
    FromIndex(fs, 1);
    FromIndex(fs, 2);
    FromIndex(fs, 3);
    FromIndex(fs, 4);
    FromIndex(fs, 5);
    FromIndex(fs, 6);
    FromIndex(fs, 7);
    hide Wire;
    assert fs[0..] == fs && fs[8..] == [];
  }

  lemma FromIndex(fs: seq<Field>, i: nat)
    requires AllFit(fs) && i < |fs|
    ensures TotalLength(fs[i..]) == |Wire(fs[i]).value| + TotalLength(fs[i + 1..])
  {
    assert fs[i..][1..] == fs[i + 1..];
  }
}
