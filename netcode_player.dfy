/**
 * NetcodePlayer: a player's identity (a unique id and a type), its place in
 * the session's player queue and the equality sessions use to find players.
 * Two players are the same player when their type and queue index agree; the
 * id, the custom id and the endpoint take no part in equality or hashing.
 * PlayerType.cs, ThrowIf.cs and PeerNetworkStats.cs are not part of this
 * model: the player type has the three members the player class names, plus
 * any raw value the enum does not name.
 */
module NetcodePlayers {
  import opened Wrappers
  import opened Integers

  datatype PlayerType = Local | Remote | Spectator | Undefined(raw: int32)

  /** A Guid as its 128-bit value; Guid.Empty is all zeros. */
  type Guid = g: nat | g < 0x1_0000_0000_0000_0000_0000_0000_0000_0000

  const EmptyGuid: Guid := 0

  /** An IP endpoint: the address bytes and the port. */
  datatype EndPoint = IPEndPoint(address: seq<byte>, port: int)

  /** IPAddress.Loopback. */
  const Loopback: seq<byte> := [127, 0, 0, 1]

  class NetcodePlayer {
    var queueIndex: int8
    const Id: Guid
    const Type: PlayerType
    var CustomId: int32
    const EndPoint: Option<EndPoint>

    /** The assignments of the internal constructor, once its checks have passed. */
    constructor Assign(queueIndex: int8, playerType: PlayerType, endPoint: Option<EndPoint>, id: Guid)
      ensures this.queueIndex == queueIndex && Type == playerType && EndPoint == endPoint && Id == id
      ensures CustomId == 0
    {
      this.queueIndex := queueIndex;
      Type := playerType;
      EndPoint := endPoint;
      Id := id;
      CustomId := 0;
    }

    /** Index: the queue index, -1 while the player is in no queue. */
    function Index(): (r: int)
      reads this
      ensures -0x80 <= r < 0x80
    {
      queueIndex
    }

    /** Number: the player number, counted from 1. */
    function Number(): (r: int)
      reads this
      ensures r == Index() + 1
      ensures -0x7F <= r <= 0x80
    {
      queueIndex + 1
    }

    /** SetQueue(sbyte). */
    method SetQueue(value: int8)
      modifies this`queueIndex
      ensures queueIndex == value
    {
      queueIndex := value;
    }

    /** SetQueue(int): the value is cast to sbyte, keeping its low 8 bits. */
    method SetQueueInt(value: int32)
      modifies this`queueIndex
      ensures queueIndex == Wrap(SByte, value)
    {
      Pow256Values();
      WrapInRange(SByte, value);
      SetQueue(Wrap(SByte, value));
    }

    predicate IsSpectator()
    {
      Type.Spectator?
    }

    predicate IsRemote()
    {
      Type.Remote?
    }

    predicate IsLocal()
    {
      Type.Local?
    }

    /** Equals(NetcodePlayer? other): the static equality with this on the left. */
    predicate EqualsPlayer(other: NetcodePlayer?)
      reads this, other
    {
      PlayersEqual(this, other)
    }

    /** GetHashCode: HashCode.Combine of the type and the index; the combining function is a parameter. */
    function GetHashCode(combine: (PlayerType, int) -> int): int
      reads this
    {
      combine(Type, Index())
    }
  }

  /**
   * The internal constructor: an undefined player type raises first, then a
   * supplied id equal to Guid.Empty raises; a missing id takes a new Guid,
   * which is never empty.
   */
  method NewPlayer(queueIndex: int8, playerType: PlayerType, endPoint: Option<EndPoint>, id: Option<Guid>, newGuid: Guid)
    returns (r: Result<NetcodePlayer>)
    requires newGuid != EmptyGuid
    ensures playerType.Undefined? ==> r == Err(InvalidEnum)
    ensures !playerType.Undefined? && id == Some(EmptyGuid) ==> r == Err(Argument)
    ensures r.Ok? <==> !playerType.Undefined? && id != Some(EmptyGuid)
    ensures r.Ok? ==> fresh(r.value)
    ensures r.Ok? ==> (
      r.value.queueIndex == queueIndex && r.value.Type == playerType && r.value.EndPoint == endPoint &&
      r.value.Id == (if id.Some? then id.value else newGuid) && r.value.Id != EmptyGuid &&
      r.value.CustomId == 0)
  {
    if playerType.Undefined? {
      return Err(InvalidEnum);
    }
    if id.Some? && id.value == EmptyGuid {
      return Err(Argument);
    }
    var player := new NetcodePlayer.Assign(queueIndex, playerType, endPoint, if id.Some? then id.value else newGuid);
    r := Ok(player);
  }

  /** The public constructor NetcodePlayer(type, endPoint, id): not in any queue yet. */
  method Create(playerType: PlayerType, endPoint: Option<EndPoint>, id: Option<Guid>, newGuid: Guid)
    returns (r: Result<NetcodePlayer>)
    requires newGuid != EmptyGuid
    ensures r.Ok? <==> !playerType.Undefined? && id != Some(EmptyGuid)
    ensures r.Err? ==> r.error == (if playerType.Undefined? then InvalidEnum else Argument)
    ensures r.Ok? ==> fresh(r.value)
    ensures r.Ok? ==> (
      r.value.Index() == -1 && r.value.Number() == 0 && r.value.Type == playerType &&
      r.value.EndPoint == endPoint && r.value.Id == (if id.Some? then id.value else newGuid))
  {
    r := NewPlayer(-1, playerType, endPoint, id, newGuid);
  }

  /** The public constructor NetcodePlayer(id): a local player with no endpoint. */
  method CreateWithId(id: Option<Guid>, newGuid: Guid) returns (r: Result<NetcodePlayer>)
    requires newGuid != EmptyGuid
    ensures r.Ok? <==> id != Some(EmptyGuid)
    ensures r.Err? ==> r.error == Argument
    ensures r.Ok? ==> fresh(r.value)
    ensures r.Ok? ==> (
      r.value.Index() == -1 && r.value.Number() == 0 && r.value.IsLocal() && r.value.EndPoint == None &&
      r.value.Id == (if id.Some? then id.value else newGuid))
  {
    r := NewPlayer(-1, Local, None, id, newGuid);
  }

  /** CreateLocal(id). */
  method CreateLocal(id: Option<Guid>, newGuid: Guid) returns (r: Result<NetcodePlayer>)
    requires newGuid != EmptyGuid
    ensures r.Ok? <==> id != Some(EmptyGuid)
    ensures r.Ok? ==> fresh(r.value)
    ensures r.Err? ==> r.error == Argument
    ensures r.Ok? ==> (r.value.IsLocal() && r.value.Index() == -1 && r.value.EndPoint == None &&
      r.value.Id == (if id.Some? then id.value else newGuid))
  {
    r := Create(Local, None, id, newGuid);
  }

  /**
   * new IPEndPoint(address, port): the port must lie in 0..65535. The
   * address is taken as well formed.
   */
  function MakeEndPoint(address: seq<byte>, port: int): (r: Result<EndPoint>)
    ensures r.Ok? <==> 0 <= port <= 0xFFFF
    ensures r.Ok? ==> r.value.address == address && r.value.port == port
    ensures r.Err? ==> r.error == ArgumentOutOfRange
  {
    if 0 <= port <= 0xFFFF then Ok(IPEndPoint(address, port)) else Err(ArgumentOutOfRange)
  }

  /** CreateRemote(endPoint, id). */
  method CreateRemote(endPoint: EndPoint, id: Option<Guid>, newGuid: Guid) returns (r: Result<NetcodePlayer>)
    requires newGuid != EmptyGuid
    ensures r.Ok? <==> id != Some(EmptyGuid)
    ensures r.Ok? ==> fresh(r.value)
    ensures r.Err? ==> r.error == Argument
    ensures r.Ok? ==> (r.value.IsRemote() && r.value.Index() == -1 && r.value.EndPoint == Some(endPoint) &&
      r.value.Id == (if id.Some? then id.value else newGuid))
  {
    r := Create(Remote, Some(endPoint), id, newGuid);
  }

  /** CreateRemote(address, port, id), and CreateRemote(port, id) with the loopback address. */
  method CreateRemoteAt(address: seq<byte>, port: int, id: Option<Guid>, newGuid: Guid) returns (r: Result<NetcodePlayer>)
    requires newGuid != EmptyGuid
    ensures !(0 <= port <= 0xFFFF) ==> r == Err(ArgumentOutOfRange)
    ensures r.Ok? <==> 0 <= port <= 0xFFFF && id != Some(EmptyGuid)
    ensures r.Ok? ==> fresh(r.value)
    ensures 0 <= port <= 0xFFFF && id == Some(EmptyGuid) ==> r == Err(Argument)
    ensures r.Ok? ==> (r.value.IsRemote() && r.value.Index() == -1 && r.value.EndPoint == Some(IPEndPoint(address, port)) &&
      r.value.Id == (if id.Some? then id.value else newGuid))
  {
    var endPoint := MakeEndPoint(address, port);
    if endPoint.Err? {
      return Err(endPoint.error);
    }
    r := CreateRemote(endPoint.value, id, newGuid);
  }

  /** CreateSpectator(endPoint, id). */
  method CreateSpectator(endPoint: EndPoint, id: Option<Guid>, newGuid: Guid) returns (r: Result<NetcodePlayer>)
    requires newGuid != EmptyGuid
    ensures r.Ok? <==> id != Some(EmptyGuid)
    ensures r.Ok? ==> fresh(r.value)
    ensures r.Err? ==> r.error == Argument
    ensures r.Ok? ==> (r.value.IsSpectator() && r.value.Index() == -1 && r.value.EndPoint == Some(endPoint) &&
      r.value.Id == (if id.Some? then id.value else newGuid))
  {
    r := Create(Spectator, Some(endPoint), id, newGuid);
  }

  /** CreateSpectator(address, port, id), and CreateSpectator(port, id) with the loopback address. */
  method CreateSpectatorAt(address: seq<byte>, port: int, id: Option<Guid>, newGuid: Guid) returns (r: Result<NetcodePlayer>)
    requires newGuid != EmptyGuid
    ensures !(0 <= port <= 0xFFFF) ==> r == Err(ArgumentOutOfRange)
    ensures r.Ok? <==> 0 <= port <= 0xFFFF && id != Some(EmptyGuid)
    ensures r.Ok? ==> fresh(r.value)
    ensures 0 <= port <= 0xFFFF && id == Some(EmptyGuid) ==> r == Err(Argument)
    ensures r.Ok? ==> (r.value.IsSpectator() && r.value.Index() == -1 && r.value.EndPoint == Some(IPEndPoint(address, port)) &&
      r.value.Id == (if id.Some? then id.value else newGuid))
  {
    var endPoint := MakeEndPoint(address, port);
    if endPoint.Err? {
      return Err(endPoint.error);
    }
    r := CreateSpectator(endPoint.value, id, newGuid);
  }

  /** The static Equals(left, right), which operator == also is: the same object, or two players with the same type and index. */
  predicate PlayersEqual(left: NetcodePlayer?, right: NetcodePlayer?)
    reads left, right
  {
    if left == right then true
    else if left == null || right == null then false
    else left.Type == right.Type && left.queueIndex == right.queueIndex
  }

  /** operator !=. */
  predicate PlayersDiffer(left: NetcodePlayer?, right: NetcodePlayer?)
    reads left, right
  {
    !PlayersEqual(left, right)
  }

  /** Equality in full: null equals only null, and two players are equal exactly when type and index match. */
  lemma PlayersEqualMeaning(left: NetcodePlayer?, right: NetcodePlayer?)
    ensures PlayersEqual(left, right) <==> (
      (left == null && right == null) ||
      (left != null && right != null && left.Type == right.Type && left.Index() == right.Index()))
    ensures PlayersDiffer(left, right) <==> !PlayersEqual(left, right)
  {
  }

  /** Equality is an equivalence, on null as well. */
  lemma PlayersEqualEquivalence(a: NetcodePlayer?, b: NetcodePlayer?, c: NetcodePlayer?)
    ensures PlayersEqual(a, a)
    ensures PlayersEqual(a, b) == PlayersEqual(b, a)
    ensures PlayersEqual(a, b) && PlayersEqual(b, c) ==> PlayersEqual(a, c)
  {
  }

  /** The hash code is consistent with equality, whatever the combining function. */
  lemma HashConsistent(a: NetcodePlayer, b: NetcodePlayer, combine: (PlayerType, int) -> int)
    requires PlayersEqual(a, b)
    ensures a.GetHashCode(combine) == b.GetHashCode(combine)
  {
  }

  /** The id takes no part in equality: two players with different ids but the same type and index are equal. */
  lemma EqualityIgnoresId(a: NetcodePlayer, b: NetcodePlayer)
    requires a.Type == b.Type && a.Index() == b.Index()
    ensures PlayersEqual(a, b) && a.EqualsPlayer(b)
  {
  }

  /** At most one Is* test holds, and none holds exactly for a type outside the named three. */
  lemma TypeTests(p: NetcodePlayer)
    ensures !(p.IsSpectator() && p.IsRemote()) && !(p.IsSpectator() && p.IsLocal()) && !(p.IsRemote() && p.IsLocal())
    ensures !(p.IsSpectator() || p.IsRemote() || p.IsLocal()) <==> p.Type.Undefined?
  {
  }

  /**
   * The cast in SetQueue(int) keeps the value when it fits in an sbyte and
   * otherwise wraps it: 128 becomes -128 and 255 becomes -1.
   */
  lemma SByteCast(v: int)
    ensures -0x80 <= Wrap(SByte, v) < 0x80
    ensures -0x80 <= v < 0x80 ==> Wrap(SByte, v) == v
    ensures Wrap(SByte, 128) == -128 && Wrap(SByte, 255) == -1 && Wrap(SByte, 256) == 0
    ensures (Wrap(SByte, v) - v) % 256 == 0
  {
    Pow256Values();
    WrapInRange(SByte, v);
    WrapCongruent(SByte, v);
    var k :| Wrap(SByte, v) == v + k * SByte.Modulus();
    ModShift(0, k, 256);
  }
}
