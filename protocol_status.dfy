/**
 * The connection state of a peer protocol and its mapping to the status
 * reported for a player. PlayerConnectionStatus.cs is not part of this model:
 * only the four members the mapping names are modelled.
 */
module ProtocolStatuses {
  import opened Integers

  /**
   * The ProtocolStatus enum: four declared members, numbered 0 to 3 in
   * declaration order; like any C# enum it can also hold a raw value it does
   * not name.
   */
  datatype ProtocolStatus = Syncing | Running | Disconnecting | Disconnected | Undefined(raw: int32)

  datatype PlayerConnectionStatus = Unknown | Syncing | Connected | Disconnected

  /** A ProtocolStatus is well formed when an undefined one holds none of the declared numbers. */
  predicate WellFormed(s: ProtocolStatus)
  {
    s.Undefined? ==> !(0 <= s.raw <= 3)
  }

  /** The enum's underlying number. */
  function Raw(s: ProtocolStatus): (n: int32)
    ensures s.Undefined? ==> n == s.raw
  {
    match s
    case Syncing => 0
    case Running => 1
    case Disconnecting => 2
    case Disconnected => 3
    case Undefined(raw) => raw
  }

  /** The enum value a number casts to. */
  function FromRaw(n: int32): (s: ProtocolStatus)
    ensures WellFormed(s)
  {
    if n == 0 then ProtocolStatus.Syncing
    else if n == 1 then Running
    else if n == 2 then Disconnecting
    else if n == 3 then ProtocolStatus.Disconnected
    else Undefined(n)
  }

  /** The cast is a bijection between numbers and well-formed statuses; the declared members are exactly 0..3, in order. */
  lemma RawRoundTrip(n: int32, s: ProtocolStatus)
    ensures Raw(FromRaw(n)) == n
    ensures WellFormed(s) ==> FromRaw(Raw(s)) == s
    ensures !FromRaw(n).Undefined? <==> 0 <= n <= 3
    ensures Raw(ProtocolStatus.Syncing) < Raw(Running) < Raw(Disconnecting) < Raw(ProtocolStatus.Disconnected)
  {
  }

  /** ToPlayerStatus: a total map; Disconnecting and every undefined value map to Unknown. */
  function ToPlayerStatus(status: ProtocolStatus): (r: PlayerConnectionStatus)
  {
    match status
    case Syncing => PlayerConnectionStatus.Syncing
    case Running => Connected
    case Disconnected => PlayerConnectionStatus.Disconnected
    case _ => Unknown
  }

  /** What maps to each player status: the preimage of every value of the mapping. */
  lemma ToPlayerStatusPreimage(status: ProtocolStatus)
    ensures ToPlayerStatus(status) == PlayerConnectionStatus.Syncing <==> status == ProtocolStatus.Syncing
    ensures ToPlayerStatus(status) == Connected <==> status == Running
    ensures ToPlayerStatus(status) == PlayerConnectionStatus.Disconnected <==> status == ProtocolStatus.Disconnected
    ensures ToPlayerStatus(status) == Unknown <==> (status == Disconnecting || status.Undefined?)
  {
  }

  /** The mapping on raw enum numbers: 0, 1 and 3 map to Syncing, Connected and Disconnected; 2 and every undefined number to Unknown. */
  lemma ToPlayerStatusOnRaw(n: int32)
    ensures ToPlayerStatus(FromRaw(n)) == (
      if n == 0 then PlayerConnectionStatus.Syncing
      else if n == 1 then Connected
      else if n == 3 then PlayerConnectionStatus.Disconnected
      else Unknown)
  {
  }
}
