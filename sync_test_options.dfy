/**
 * SyncTestOptions: the settings of a sync-test session, built fluently. Each
 * setter assigns one property and returns the same object, so calls chain.
 * The desync handler, the state string parser and the input generator are
 * services the options only hold; their types are parameters here.
 */
module SyncTestOptionSets {
  import opened Wrappers
  import opened Integers

  /** The options' properties as a value. */
  datatype Settings<H, P, G> = Settings(
    checkDistanceFrames: int32,
    throwOnDesync: bool,
    logStateOnDesync: bool,
    desyncHandler: Option<H>,
    stateStringParser: Option<P>,
    inputProvider: Option<G>)
  {
    function WithCheckDistance(frames: int32): Settings<H, P, G>
    {
      this.(checkDistanceFrames := frames)
    }

    function WithLogState(enabled: bool): Settings<H, P, G>
    {
      this.(logStateOnDesync := enabled)
    }

    function WithThrowError(enabled: bool): Settings<H, P, G>
    {
      this.(throwOnDesync := enabled)
    }
  }

  /** Each setter is idempotent, and setters of different properties commute. */
  lemma SettersIdempotentAndCommute<H, P, G>(s: Settings<H, P, G>, n: int32, m: int32, a: bool, b: bool)
    ensures s.WithCheckDistance(n).WithCheckDistance(n) == s.WithCheckDistance(n)
    ensures s.WithLogState(a).WithLogState(a) == s.WithLogState(a)
    ensures s.WithThrowError(a).WithThrowError(a) == s.WithThrowError(a)
    ensures s.WithCheckDistance(n).WithLogState(a) == s.WithLogState(a).WithCheckDistance(n)
    ensures s.WithCheckDistance(n).WithThrowError(a) == s.WithThrowError(a).WithCheckDistance(n)
    ensures s.WithLogState(a).WithThrowError(b) == s.WithThrowError(b).WithLogState(a)
    ensures s.WithCheckDistance(m).WithCheckDistance(n) == s.WithCheckDistance(n)
  {
  }

  /** Each setter changes exactly its own property: the others read back as before. */
  lemma SettersTouchOneProperty<H, P, G>(s: Settings<H, P, G>, n: int32, a: bool)
    ensures s.WithCheckDistance(n).checkDistanceFrames == n &&
      s.WithCheckDistance(n).(checkDistanceFrames := s.checkDistanceFrames) == s
    ensures s.WithLogState(a).logStateOnDesync == a &&
      s.WithLogState(a).(logStateOnDesync := s.logStateOnDesync) == s
    ensures s.WithThrowError(a).throwOnDesync == a &&
      s.WithThrowError(a).(throwOnDesync := s.throwOnDesync) == s
  {
  }

  class SyncTestOptions<H, P, G> {
    var CheckDistanceFrames: int32
    var ThrowOnDesync: bool
    var LogStateOnDesync: bool
    var DesyncHandler: Option<H>
    var StateStringParser: Option<P>
    var InputProvider: Option<G>

    function State(): Settings<H, P, G>
      reads this
    {
      Settings(CheckDistanceFrames, ThrowOnDesync, LogStateOnDesync, DesyncHandler, StateStringParser, InputProvider)
    }

    /** The defaults: one forced rollback frame, throw and log on desync, no services. */
    constructor ()
      ensures State() == Settings(1, true, true, None, None, None)
    {
      CheckDistanceFrames := 1;
      ThrowOnDesync := true;
      LogStateOnDesync := true;
      DesyncHandler := None;
      StateStringParser := None;
      InputProvider := None;
    }

    /** CheckDistance(frames). */
    method CheckDistance(frames: int32) returns (r: SyncTestOptions<H, P, G>)
      modifies this`CheckDistanceFrames
      ensures r == this
      ensures State() == old(State()).WithCheckDistance(frames)
    {
      CheckDistanceFrames := frames;
      r := this;
    }

    /** LogState(enabled = true). */
    method LogState(enabled: bool := true) returns (r: SyncTestOptions<H, P, G>)
      modifies this`LogStateOnDesync
      ensures r == this
      ensures State() == old(State()).WithLogState(enabled)
    {
      LogStateOnDesync := enabled;
      r := this;
    }

    /** ThrowError(enabled = true). */
    method ThrowError(enabled: bool := true) returns (r: SyncTestOptions<H, P, G>)
      modifies this`ThrowOnDesync
      ensures r == this
      ensures State() == old(State()).WithThrowError(enabled)
    {
      ThrowOnDesync := enabled;
      r := this;
    }

    /** UseDesyncHandler<T>(): the new handler is given. */
    method UseDesyncHandler(handler: H) returns (r: SyncTestOptions<H, P, G>)
      modifies this`DesyncHandler
      ensures r == this
      ensures State() == old(State()).(desyncHandler := Some(handler))
    {
      DesyncHandler := Some(handler);
      r := this;
    }

    /** UseStateStringParser<T>(): the new parser is given. */
    method UseStateStringParser(parser: P) returns (r: SyncTestOptions<H, P, G>)
      modifies this`StateStringParser
      ensures r == this
      ensures State() == old(State()).(stateStringParser := Some(parser))
    {
      StateStringParser := Some(parser);
      r := this;
    }

    /** UseInputProvider<T>(): the new generator is given. */
    method UseInputProvider(provider: G) returns (r: SyncTestOptions<H, P, G>)
      modifies this`InputProvider
      ensures r == this
      ensures State() == old(State()).(inputProvider := Some(provider))
    {
      InputProvider := Some(provider);
      r := this;
    }
  }

  /** Chained calls, each on what the previous one returned, all set properties of the one fresh object. */
  method ChainedSetters<H, P, G>(frames: int32) returns (options: SyncTestOptions<H, P, G>)
    ensures fresh(options)
    ensures options.State() == Settings(frames, false, false, None, None, None)
  {
    options := new SyncTestOptions();
    var same := options.CheckDistance(frames);
    same := same.LogState(false);
    same := same.ThrowError(false);
  }
}
