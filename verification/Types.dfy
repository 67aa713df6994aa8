/** Values shared by the modules of the model. */
module Types {

  datatype Option<+T> = None | Some(value: T)

  /** One octet of a Rust byte vector. */
  type byte = b: int | 0 <= b < 256

  /** A Rust string, as its sequence of octets. */
  type Text = seq<byte>

  /** A version counter (u64 in the source). */
  type Version = nat

  /** A point in time, or a duration, in seconds. */
  type Instant = real

  type Octets4 = s: seq<byte> | |s| == 4 witness [127, 0, 0, 1]
  type Octets16 = s: seq<byte> | |s| == 16 witness [0, 0, 0, 0, 0, 0, 0, 0, 0, 0, 0, 0, 0, 0, 0, 1]

  datatype IpAddr = V4(octets4: Octets4) | V6(octets6: Octets16)

  datatype SocketAddr = SocketAddr(ip: IpAddr, port: nat)

  datatype ChitchatId = ChitchatId(nodeId: Text, generationId: nat, gossipAdvertiseAddr: SocketAddr)

  /** The status a stored entry has: a deletion carries its reference time. */
  datatype DeletionStatus = Set | Deleted(since: Instant) | DeleteAfterTtl(since: Instant)
  {
    predicate ScheduledForDeletion() {
      !Set?
    }

    /** The status as it travels in a delta: the reference time stays behind. */
    function Mutation(): DeletionStatusMutation {
      match this
      case Set => MutSet
      case Deleted(_) => MutDelete
      case DeleteAfterTtl(_) => MutDeleteAfterTtl
    }
  }

  datatype DeletionStatusMutation = MutSet | MutDelete | MutDeleteAfterTtl
  {
    predicate ScheduledForDeletion() {
      !MutSet?
    }

    function IntoStatus(now: Instant): DeletionStatus {
      match this
      case MutSet => Set
      case MutDelete => Deleted(now)
      case MutDeleteAfterTtl => DeleteAfterTtl(now)
    }
  }

  datatype VersionedValue = VersionedValue(value: Text, version: Version, status: DeletionStatus)

  datatype KeyValueMutation =
    KeyValueMutation(key: Text, value: Text, version: Version, status: DeletionStatusMutation)

  datatype NodeDelta = NodeDelta(
    chitchatId: ChitchatId,
    fromVersionExcluded: Version,
    lastGcVersion: Version,
    keyValues: seq<KeyValueMutation>,
    maxVersion: Option<Version>)

  function Max(a: nat, b: nat): nat {
    if a < b then b else a
  }

  function Min(a: nat, b: nat): nat {
    if a < b then a else b
  }
}
