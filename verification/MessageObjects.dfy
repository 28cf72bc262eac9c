/**
  The messages whose encoders and decoders do more than list their fields: an embedded message encoded first,
  an optional value, a list with its own loop, and the longest ones. Each object is proved against module
  Messages.
 */
module MessageObjects {
  import opened Bytes
  import opened Codec
  import opened Binary
  import M = Messages

  /**
    A decoder that left this status, with the receiver holding m, did what the layout prescribes: the decoded
    message, or with an error the fields read up to it and zero values from there on.
   */
  ghost predicate Agrees(k: M.MessageKind, b: Bytes, absent: bool, status: Status, m: M.Message)
  {
    match M.Decode(k, b, absent)
    case Done(decoded, _) => status == Fine && m == decoded
    case Error => status == Failed && m == M.Received(k, b, absent)
    case Panic => status == Panicked
  }

  /** The bytes and the error flag of an encoder are those of the message. */
  ghost predicate Built(m: M.Message, data: Bytes, failed: bool)
  {
    if failed then M.Encode(m).None? else M.Encode(m) == Some(data)
  }

  lemma BuiltFromLog(m: M.Message, log: seq<Field>, b: Builder)
    requires log == M.Fields(m) && b == PutAfter(EMPTY, log)
    ensures Built(m, b.data, b.failed)
  {
    PutAfterPutAll([], M.Fields(m));
    assert [] + M.Fields(m) == M.Fields(m);
  }

  /** A reader that read exactly m's fields from the start decoded m. */
  lemma DecodedBy(r: BinaryReader, m: M.Message, k: M.MessageKind)
    requires r.Valid() && r.log == M.Fields(m) && k == M.MessageKindOf(m)
    ensures Agrees(k, r.data, r.absent, r.status, m)
  {
    M.FieldsFollowLayout(m);
    M.AssembleFields(m);
  }

  /** The decoder's own loop over a counted list of channel identifiers. */
  method ReadIDs(r: BinaryReader) returns (ids: seq<u32>)
    requires r.Valid()
    modifies r
    ensures r.Valid()
    ensures r.log == old(r.log) + [FSeq(UpTo64K, EInt(4), Looped, M.Numbers(ids))]
  {
    hide Reader.GetAll;
    ghost var before := r.Model();
    var l := r.ReadNum(2);
    ghost var counted := r.Model();
    ids := [];
    for i := 0 to l
      invariant |ids| == i && r.Model().data == before.data && r.Model().absent == before.absent
      invariant r.log == old(r.log)
      invariant counted.Items(EInt(4), i) == (M.Numbers(ids), r.Model())
    {
      ghost var mid, front := r.Model(), M.Numbers(ids);
      Capacities();
      var id := r.ReadNum(4);
      ItemsThenScalar(counted, EInt(4), i, front, mid, Int(4, id), r.Model());
      ids := ids + [id];
      assert M.Numbers(ids) == front + [Int(4, id)];
    }
    r.Record(FSeq(UpTo64K, EInt(4), Looped, M.Numbers(ids)), before);
  }

  /** Bytes of an embedded message followed by the remaining fields are the bytes of all the fields. */
  lemma BuiltFromEmbedded(m: M.Message, front: seq<Field>, rest: seq<Field>, b: Builder)
    requires front + rest == M.Fields(m)
    requires b == PutAfter(PutAll(front), rest)
    ensures Built(m, b.data, b.failed)
  {
    PutAfterPutAll(front, rest);
  }

  /** An embedded message that fails to encode fails the whole message. */
  lemma {:induction false} EmbeddedFailure(front: seq<Field>, rest: seq<Field>)
    requires PutAll(front).failed
    ensures PutAll(front + rest).failed
  {
    if rest == [] {
      assert front + rest == front;
    } else {
      EmbeddedFailure(front, rest[..|rest| - 1]);
      assert (front + rest)[..|front + rest| - 1] == front + rest[..|rest| - 1];
    }
  }

  class SetupConnection {
    var protocol: u8
    var minVersion: u16
    var maxVersion: u16
    var flags: u32
    var endpointHost: Bytes
    var endpointPort: u16
    var deviceVendor: Bytes
    var deviceHardwareVersion: Bytes
    var deviceFirmware: Bytes
    var deviceID: Bytes

    ghost function Value(): M.Message
      reads this
    {
      M.SetupConnection(protocol, minVersion, maxVersion, flags, endpointHost, endpointPort,
                        deviceVendor, deviceHardwareVersion, deviceFirmware, deviceID)
    }

    constructor (m: M.Message)
      requires m.SetupConnection?
      ensures Value() == m
    {
      protocol := m.protocol;
      minVersion := m.minVersion;
      maxVersion := m.maxVersion;
      flags := m.flags;
      endpointHost := m.endpointHost;
      endpointPort := m.endpointPort;
      deviceVendor := m.deviceVendor;
      deviceHardwareVersion := m.deviceHardwareVersion;
      deviceFirmware := m.deviceFirmware;
      deviceID := m.deviceID;
    }

    /** Builds the first fields in wire order. */
    method AddFirst(out: BinaryBuilder)
      requires out.Valid()
      modifies out
      ensures out.Valid() && out.base == old(out.base)
      ensures out.log == old(out.log) + [M.Number(1, protocol), M.Number(2, minVersion),
                                         M.Number(2, maxVersion), M.Number(4, flags),
                                         FBlob(Str255, endpointHost)]
    {
      hide PutAfter;
      out.AddU8(protocol);
      out.AddU16(minVersion);
      out.AddU16(maxVersion);
      out.AddU32(flags);
      out.AddBlob(Str255, endpointHost);
    }

    /** Builds the remaining fields in wire order. */
    method AddRest(out: BinaryBuilder)
      requires out.Valid()
      modifies out
      ensures out.Valid() && out.base == old(out.base)
      ensures out.log == old(out.log) + [M.Number(2, endpointPort), FBlob(Str255, deviceVendor),
                                         FBlob(Str255, deviceHardwareVersion), FBlob(Str255, deviceFirmware),
                                         FBlob(Str255, deviceID)]
    {
      hide PutAfter;
      out.AddU16(endpointPort);
      out.AddBlob(Str255, deviceVendor);
      out.AddBlob(Str255, deviceHardwareVersion);
      out.AddBlob(Str255, deviceFirmware);
      out.AddBlob(Str255, deviceID);
    }

    method Encode() returns (built: Bytes, failed: bool)
      ensures Built(Value(), built, failed)
    {
      hide PutAfter;
      var out := new BinaryBuilder();
      AddFirst(out);
      AddRest(out);
      BuiltFromLog(Value(), out.log, out.Model());
      built, failed := out.Bytes();
    }

    /** Reads the first fields in wire order. */
    method ReadFirst(r: BinaryReader)
      requires r.Valid()
      modifies r, `protocol, `minVersion, `maxVersion, `flags, `endpointHost
      ensures r.Valid()
      ensures r.log == old(r.log) + [M.Number(1, protocol), M.Number(2, minVersion), M.Number(2, maxVersion),
                                     M.Number(4, flags), FBlob(Str255, endpointHost)]
    {
      hide Reader.GetAll, BinaryReader.Valid;
      protocol := r.ReadU8();
      minVersion := r.ReadU16();
      maxVersion := r.ReadU16();
      flags := r.ReadU32();
      endpointHost := r.ReadBlob(Str255);
    }

    /** Reads the remaining fields in wire order. */
    method ReadRest(r: BinaryReader)
      requires r.Valid()
      modifies r, `endpointPort, `deviceVendor, `deviceHardwareVersion, `deviceFirmware, `deviceID
      ensures r.Valid()
      ensures r.log == old(r.log) + [M.Number(2, endpointPort), FBlob(Str255, deviceVendor),
                                     FBlob(Str255, deviceHardwareVersion), FBlob(Str255, deviceFirmware),
                                     FBlob(Str255, deviceID)]
    {
      hide Reader.GetAll, BinaryReader.Valid;
      endpointPort := r.ReadU16();
      deviceVendor := r.ReadBlob(Str255);
      deviceHardwareVersion := r.ReadBlob(Str255);
      deviceFirmware := r.ReadBlob(Str255);
      deviceID := r.ReadBlob(Str255);
    }

    method Decode(b: Bytes, absent: bool) returns (status: Status)
      requires absent ==> b == []
      modifies this
      ensures Agrees(M.IsSetupConnection, b, absent, status, Value())
    {
      hide Reader.GetAll, M.Decode, BinaryReader.Valid;
      var r := new BinaryReader(b, absent);
      ReadFirst(r);
      ReadRest(r);
      DecodedBy(r, Value(), M.IsSetupConnection);
      return r.status;
    }
  }

  class OpenStandardMiningChannel {
    var requestID: u32
    var userIdentity: Bytes
    var nominalHashRate: u32
    var maxTarget: Bytes32

    ghost function Value(): M.Message
      reads this
    {
      M.OpenStandardMiningChannel(requestID, userIdentity, nominalHashRate, maxTarget)
    }

    constructor (m: M.Message)
      requires m.OpenStandardMiningChannel?
      ensures Value() == m
    {
      requestID := m.requestID;
      userIdentity := m.userIdentity;
      nominalHashRate := m.nominalHashRate;
      maxTarget := m.maxTarget;
    }

    method Encode() returns (built: Bytes, failed: bool)
      ensures Built(Value(), built, failed)
    {
      hide PutAfter;
      var out := new BinaryBuilder();
      out.AddU32(requestID);
      out.AddBlob(Str255, userIdentity);
      out.AddU32(nominalHashRate);
      out.AddU256(maxTarget);
      BuiltFromLog(Value(), out.log, out.Model());
      built, failed := out.Bytes();
    }

    /** All fields in wire order; the message that embeds this one reads them the same way. */
    method ReadFields(r: BinaryReader)
      requires r.Valid()
      modifies r, this
      ensures r.Valid() && r.log == old(r.log) + M.Fields(Value())
    {
      hide Reader.GetAll, BinaryReader.Valid;
      requestID := r.ReadU32();
      userIdentity := r.ReadBlob(Str255);
      nominalHashRate := r.ReadU32();
      maxTarget := r.ReadU256();
    }

    method Decode(b: Bytes, absent: bool) returns (status: Status)
      requires absent ==> b == []
      modifies this
      ensures Agrees(M.IsOpenStandardMiningChannel, b, absent, status, Value())
    {
      hide Reader.GetAll, M.Decode, BinaryReader.Valid;
      var r := new BinaryReader(b, absent);
      ReadFields(r);
      DecodedBy(r, Value(), M.IsOpenStandardMiningChannel);
      return r.status;
    }
  }

  class OpenExtendedMiningChannel {
    const embedded: OpenStandardMiningChannel
    var minExtranonceSize: u16

    ghost function Value(): M.Message
      reads this, embedded
    {
      var s := embedded.Value();
      M.OpenExtendedMiningChannel(s.requestID, s.userIdentity, s.nominalHashRate, s.maxTarget, minExtranonceSize)
    }

    constructor (embedded: OpenStandardMiningChannel, minExtranonceSize: u16)
      ensures this.embedded == embedded && this.minExtranonceSize == minExtranonceSize
    {
      this.embedded, this.minExtranonceSize := embedded, minExtranonceSize;
    }

    /** Encodes the embedded message on its own, then appends its bytes and the extra field. */
    method Encode() returns (built: Bytes, failed: bool)
      ensures Built(Value(), built, failed)
    {
      ghost var front, rest := M.Fields(embedded.Value()), [M.Number(2, minExtranonceSize)];
      assert front + rest == M.Fields(Value());
      var b, err := embedded.Encode();
      if err {
        EmbeddedFailure(front, rest);
        return [], true;
      }
      var out := new BinaryBuilder();
      out.AddBytes(b);
      assert out.base == PutAll(front);
      out.AddU16(minExtranonceSize);
      BuiltFromEmbedded(Value(), front, rest, out.Model());
      built, failed := out.Bytes();
    }

    /** Reads the embedded fields from the same reader rather than through the embedded decoder. */
    method Decode(b: Bytes, absent: bool) returns (status: Status)
      requires absent ==> b == []
      modifies this, embedded
      ensures Agrees(M.IsOpenExtendedMiningChannel, b, absent, status, Value())
    {
      hide Reader.GetAll, M.Decode, BinaryReader.Valid;
      var r := new BinaryReader(b, absent);
      embedded.ReadFields(r);
      minExtranonceSize := r.ReadU16();
      DecodedBy(r, Value(), M.IsOpenExtendedMiningChannel);
      return r.status;
    }
  }

  class SubmitSharesStandard {
    var channelID: u32
    var sequence: u32
    var jobID: u32
    var nonce: u32
    var time: u32
    var version: u32

    ghost function Value(): M.Message
      reads this
    {
      M.SubmitSharesStandard(channelID, sequence, jobID, nonce, time, version)
    }

    constructor (m: M.Message)
      requires m.SubmitSharesStandard?
      ensures Value() == m
    {
      channelID := m.channelID;
      sequence := m.sequence;
      jobID := m.jobID;
      nonce := m.nonce;
      time := m.time;
      version := m.version;
    }

    /** Builds the first fields in wire order. */
    method AddFirst(out: BinaryBuilder)
      requires out.Valid()
      modifies out
      ensures out.Valid() && out.base == old(out.base)
      ensures out.log == old(out.log) + [M.Number(4, channelID), M.Number(4, sequence), M.Number(4, jobID)]
    {
      hide PutAfter;
      out.AddU32(channelID);
      out.AddU32(sequence);
      out.AddU32(jobID);
    }

    /** Builds the remaining fields in wire order. */
    method AddRest(out: BinaryBuilder)
      requires out.Valid()
      modifies out
      ensures out.Valid() && out.base == old(out.base)
      ensures out.log == old(out.log) + [M.Number(4, nonce), M.Number(4, time), M.Number(4, version)]
    {
      hide PutAfter;
      out.AddU32(nonce);
      out.AddU32(time);
      out.AddU32(version);
    }

    method Encode() returns (built: Bytes, failed: bool)
      ensures Built(Value(), built, failed)
    {
      hide PutAfter;
      var out := new BinaryBuilder();
      AddFirst(out);
      AddRest(out);
      BuiltFromLog(Value(), out.log, out.Model());
      built, failed := out.Bytes();
    }

    /** Reads the first fields in wire order. */
    method ReadFirst(r: BinaryReader)
      requires r.Valid()
      modifies r, `channelID, `sequence, `jobID
      ensures r.Valid()
      ensures r.log == old(r.log) + [M.Number(4, channelID), M.Number(4, sequence), M.Number(4, jobID)]
    {
      hide Reader.GetAll, BinaryReader.Valid;
      channelID := r.ReadU32();
      sequence := r.ReadU32();
      jobID := r.ReadU32();
    }

    /** Reads the remaining fields in wire order. */
    method ReadRest(r: BinaryReader)
      requires r.Valid()
      modifies r, `nonce, `time, `version
      ensures r.Valid()
      ensures r.log == old(r.log) + [M.Number(4, nonce), M.Number(4, time), M.Number(4, version)]
    {
      hide Reader.GetAll, BinaryReader.Valid;
      nonce := r.ReadU32();
      time := r.ReadU32();
      version := r.ReadU32();
    }

    /** All fields in wire order; the message that embeds this one reads them the same way. */
    method ReadFields(r: BinaryReader)
      requires r.Valid()
      modifies r, this
      ensures r.Valid() && r.log == old(r.log) + M.Fields(Value())
    {
      hide Reader.GetAll, BinaryReader.Valid;
      ReadFirst(r);
      ReadRest(r);
    }

    method Decode(b: Bytes, absent: bool) returns (status: Status)
      requires absent ==> b == []
      modifies this
      ensures Agrees(M.IsSubmitSharesStandard, b, absent, status, Value())
    {
      hide Reader.GetAll, M.Decode, BinaryReader.Valid;
      var r := new BinaryReader(b, absent);
      ReadFirst(r);
      ReadRest(r);
      DecodedBy(r, Value(), M.IsSubmitSharesStandard);
      return r.status;
    }
  }

  class SubmitSharesExtended {
    const embedded: SubmitSharesStandard
    var extranonce: Bytes

    ghost function Value(): M.Message
      reads this, embedded
    {
      var s := embedded.Value();
      M.SubmitSharesExtended(s.channelID, s.sequence, s.jobID, s.nonce, s.time, s.version, extranonce)
    }

    constructor (embedded: SubmitSharesStandard, extranonce: Bytes)
      ensures this.embedded == embedded && this.extranonce == extranonce
    {
      this.embedded, this.extranonce := embedded, extranonce;
    }

    /** Encodes the embedded message on its own, then appends its bytes and the extra field. */
    method Encode() returns (built: Bytes, failed: bool)
      ensures Built(Value(), built, failed)
    {
      ghost var front, rest := M.Fields(embedded.Value()), [FBlob(Bin32, extranonce)];
      assert front + rest == M.Fields(Value());
      var b, err := embedded.Encode();
      if err {
        EmbeddedFailure(front, rest);
        return [], true;
      }
      var out := new BinaryBuilder();
      out.AddBytes(b);
      assert out.base == PutAll(front);
      out.AddBlob(Bin32, extranonce);
      BuiltFromEmbedded(Value(), front, rest, out.Model());
      built, failed := out.Bytes();
    }

    /** Reads the embedded fields from the same reader rather than through the embedded decoder. */
    method Decode(b: Bytes, absent: bool) returns (status: Status)
      requires absent ==> b == []
      modifies this, embedded
      ensures Agrees(M.IsSubmitSharesExtended, b, absent, status, Value())
    {
      hide Reader.GetAll, M.Decode, BinaryReader.Valid;
      var r := new BinaryReader(b, absent);
      embedded.ReadFields(r);
      extranonce := r.ReadBlob(Bin32);
      DecodedBy(r, Value(), M.IsSubmitSharesExtended);
      return r.status;
    }
  }

  class NewMiningJob {
    var channelID: u32
    var jobID: u32
    var minTime: seq<u32>
    var version: u32
    var merkleRoot: Bytes32

    ghost function Value(): M.Message
      reads this
    {
      M.NewMiningJob(channelID, jobID, minTime, version, merkleRoot)
    }

    constructor (m: M.Message)
      requires m.NewMiningJob?
      ensures Value() == m
    {
      channelID := m.channelID;
      jobID := m.jobID;
      minTime := m.minTime;
      version := m.version;
      merkleRoot := m.merkleRoot;
    }

    method Encode() returns (built: Bytes, failed: bool)
      ensures Built(Value(), built, failed)
    {
      hide PutAfter;
      var out := new BinaryBuilder();
      out.AddU32(channelID);
      out.AddU32(jobID);
      out.AddSeq(UpTo1, EInt(4), Asserted, M.Numbers(minTime));
      out.AddU32(version);
      out.AddU256(merkleRoot);
      BuiltFromLog(Value(), out.log, out.Model());
      built, failed := out.Bytes();
    }

    method Decode(b: Bytes, absent: bool) returns (status: Status)
      requires absent ==> b == []
      modifies this
      ensures Agrees(M.IsNewMiningJob, b, absent, status, Value())
    {
      hide Reader.GetAll, M.Decode, BinaryReader.Valid;
      var r := new BinaryReader(b, absent);
      channelID := r.ReadU32();
      jobID := r.ReadU32();
      var times := r.ReadAsserted(UpTo1, EInt(4));
      minTime := M.AsNumbers(FSeq(UpTo1, EInt(4), Asserted, times));
      M.NumbersOnto(times, UpTo1, Asserted);
      version := r.ReadU32();
      merkleRoot := r.ReadU256();
      DecodedBy(r, Value(), M.IsNewMiningJob);
      return r.status;
    }
  }

  class NewExtendedMiningJob {
    var channelID: u32
    var jobID: u32
    var minTime: seq<u32>
    var version: u32
    var versionRollingAllowed: bool
    var merklePath: seq<Bytes32>
    var coinbasePrefix: Bytes
    var coinbaseSuffix: Bytes

    ghost function Value(): M.Message
      reads this
    {
      M.NewExtendedMiningJob(channelID, jobID, minTime, version, versionRollingAllowed, merklePath,
                             coinbasePrefix, coinbaseSuffix)
    }

    constructor (m: M.Message)
      requires m.NewExtendedMiningJob?
      ensures Value() == m
    {
      channelID := m.channelID;
      jobID := m.jobID;
      minTime := m.minTime;
      version := m.version;
      versionRollingAllowed := m.versionRollingAllowed;
      merklePath := m.merklePath;
      coinbasePrefix := m.coinbasePrefix;
      coinbaseSuffix := m.coinbaseSuffix;
    }

    /** Builds the first fields in wire order. */
    method AddFirst(out: BinaryBuilder)
      requires out.Valid()
      modifies out
      ensures out.Valid() && out.base == old(out.base)
      ensures out.log == old(out.log) + [M.Number(4, channelID), M.Number(4, jobID),
                                         FSeq(UpTo1, EInt(4), Asserted, M.Numbers(minTime)),
                                         M.Number(4, version)]
    {
      hide PutAfter;
      out.AddU32(channelID);
      out.AddU32(jobID);
      out.AddSeq(UpTo1, EInt(4), Asserted, M.Numbers(minTime));
      out.AddU32(version);
    }

    /** Builds the remaining fields in wire order. */
    method AddRest(out: BinaryBuilder)
      requires out.Valid()
      modifies out
      ensures out.Valid() && out.base == old(out.base)
      ensures out.log == old(out.log) + [FScalar(Bool(versionRollingAllowed)),
                                         FSeq(UpTo255, EHash, Asserted, M.Hashes(merklePath)),
                                         FBlob(Bin64K, coinbasePrefix), FBlob(Bin64K, coinbaseSuffix)]
    {
      hide PutAfter;
      out.AddBool(versionRollingAllowed);
      out.AddSeq(UpTo255, EHash, Asserted, M.Hashes(merklePath));
      out.AddBlob(Bin64K, coinbasePrefix);
      out.AddBlob(Bin64K, coinbaseSuffix);
    }

    method Encode() returns (built: Bytes, failed: bool)
      ensures Built(Value(), built, failed)
    {
      hide PutAfter;
      var out := new BinaryBuilder();
      AddFirst(out);
      AddRest(out);
      BuiltFromLog(Value(), out.log, out.Model());
      built, failed := out.Bytes();
    }

    /** Reads the first fields in wire order. */
    method ReadFirst(r: BinaryReader)
      requires r.Valid()
      modifies r, `channelID, `jobID, `minTime, `version
      ensures r.Valid()
      ensures r.log == old(r.log) + [M.Number(4, channelID), M.Number(4, jobID),
                                     FSeq(UpTo1, EInt(4), Asserted, M.Numbers(minTime)), M.Number(4, version)]
    {
      hide Reader.GetAll, BinaryReader.Valid;
      channelID := r.ReadU32();
      jobID := r.ReadU32();
      var times := r.ReadAsserted(UpTo1, EInt(4));
      minTime := M.AsNumbers(FSeq(UpTo1, EInt(4), Asserted, times));
      M.NumbersOnto(times, UpTo1, Asserted);
      version := r.ReadU32();
    }

    /** Reads the remaining fields in wire order. */
    method ReadRest(r: BinaryReader)
      requires r.Valid()
      modifies r, `versionRollingAllowed, `merklePath, `coinbasePrefix, `coinbaseSuffix
      ensures r.Valid()
      ensures r.log == old(r.log) + [FScalar(Bool(versionRollingAllowed)),
                                     FSeq(UpTo255, EHash, Asserted, M.Hashes(merklePath)),
                                     FBlob(Bin64K, coinbasePrefix), FBlob(Bin64K, coinbaseSuffix)]
    {
      hide Reader.GetAll, BinaryReader.Valid;
      versionRollingAllowed := r.ReadBool();
      var path := r.ReadAsserted(UpTo255, EHash);
      merklePath := M.AsHashes(FSeq(UpTo255, EHash, Asserted, path));
      M.HashesOnto(path, UpTo255);
      coinbasePrefix := r.ReadBlob(Bin64K);
      coinbaseSuffix := r.ReadBlob(Bin64K);
    }

    method Decode(b: Bytes, absent: bool) returns (status: Status)
      requires absent ==> b == []
      modifies this
      ensures Agrees(M.IsNewExtendedMiningJob, b, absent, status, Value())
    {
      hide Reader.GetAll, M.Decode, BinaryReader.Valid;
      var r := new BinaryReader(b, absent);
      ReadFirst(r);
      ReadRest(r);
      DecodedBy(r, Value(), M.IsNewExtendedMiningJob);
      return r.status;
    }
  }

  class SetGroupChannel {
    var groupChannelID: u32
    var channelIDs: seq<u32>

    ghost function Value(): M.Message
      reads this
    {
      M.SetGroupChannel(groupChannelID, channelIDs)
    }

    constructor (m: M.Message)
      requires m.SetGroupChannel?
      ensures Value() == m
    {
      groupChannelID := m.groupChannelID;
      channelIDs := m.channelIDs;
    }

    method Encode() returns (built: Bytes, failed: bool)
      ensures Built(Value(), built, failed)
    {
      hide PutAfter;
      var out := new BinaryBuilder();
      out.AddU32(groupChannelID);
      out.AddSeq(UpTo64K, EInt(4), Looped, M.Numbers(channelIDs));
      BuiltFromLog(Value(), out.log, out.Model());
      built, failed := out.Bytes();
    }

    method Decode(b: Bytes, absent: bool) returns (status: Status)
      requires absent ==> b == []
      modifies this
      ensures Agrees(M.IsSetGroupChannel, b, absent, status, Value())
    {
      hide Reader.GetAll, M.Decode, BinaryReader.Valid;
      var r := new BinaryReader(b, absent);
      groupChannelID := r.ReadU32();
      channelIDs := ReadIDs(r);
      DecodedBy(r, Value(), M.IsSetGroupChannel);
      return r.status;
    }
  }
}
