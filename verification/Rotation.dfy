/** Committee key rotation: loading the shares, and the task that follows the committee version on
    chain while requests are served. */
module Rotation {
  import opened Results
  import opened MasterKeys

  // ----- Loading

  datatype CommitteeConfig = Active | Rotating(target: U32)

  /** The shares in the environment: MASTER_SHARE_V{version}, where it is set and well formed. */
  type Environment<!K> = U32 -> Option<K>

  function LoadShare<K>(env: Environment<K>, version: U32): Result<K> {
    match env(version)
    case Some(share) => Ok(share)
    case None => Err(GeneralError("Expected MASTER_SHARE"))
  }

  /** The key state for the version found on chain. */
  function LoadCommittee<K>(env: Environment<K>, config: CommitteeConfig, version: U32): Result<KeyState<K>>
  {
    match config
    case Active =>
      (match env(version)
       case Some(share) => Ok(ActiveShare(share))
       case None =>
         if version == U32_MAX then Err(GeneralError("Invalid committee version: cannot infer next version"))
         else
           var next :- LoadShare(env, version + 1);
           Ok(RotationShares(None, next, version + 1)))
    case Rotating(target) =>
      if target == 0 then Err(GeneralError("Invalid rotation config: target_version cannot be 0"))
      else if version == target then
        var share :- LoadShare(env, target);
        Ok(ActiveShare(share))
      else if version == target - 1 then
        var next :- LoadShare(env, target);
        Ok(RotationShares(env(version), next, target))
      else Err(GeneralError("Rotation mode mismatch"))
  }

  /** Exactly when loading succeeds, and with which shares. The active configuration falls back to a
      rotation to the next version; a configured rotation allows the target and the version before. */
  lemma LoadOutcome<K>(env: Environment<K>, config: CommitteeConfig, version: U32)
    ensures
      var r := LoadCommittee(env, config, version);
      var target := if config.Rotating? then config.target else version;
      && (r.Ok? && r.value.ActiveShare?
          <==> version == target && env(version).Some? && (config.Rotating? ==> version > 0))
      && (r.Ok? && r.value.RotationShares? <==>
           && version < U32_MAX && env(version + 1).Some?
           && if config.Active? then env(version) == None else version + 1 == target)
      && (r.Ok? ==>
           match r.value
           case ActiveShare(share) => env(version) == Some(share)
           case RotationShares(previous, next, to) =>
             previous == env(version) && env(to) == Some(next) && to == version + 1)
  {
  }

  // ----- The version updater as a state machine

  datatype Updater = NotSpawned | Monitoring | Finished | Halted

  datatype State<K> = State(keyState: KeyState<K>, version: U32, updater: Updater)

  /** What the updater sees next: a polled version with the member's public key on chain, where it
      could be fetched, or the end of the channel. */
  datatype Event<P> = Polled(version: U32, onchainKey: Option<P>) | ChannelClosed

  /** The updater is spawned only when the loaded state waits for a rotation. */
  function Start<K>(keyState: KeyState<K>, version: U32): State<K> {
    State(keyState, version, if keyState.RotationShares? && version != keyState.target then Monitoring else NotSpawned)
  }

  /** One turn of the updater. A panic halts it; the version is stored only after the public key of
      the next share was found on chain. */
  function Step<K, P(==)>(publicKey: K -> P, s: State<K>, event: Event<P>): State<K> {
    if s.updater != Monitoring || !s.keyState.RotationShares? then s
    else
      match event
      case ChannelClosed => s.(updater := Halted)
      case Polled(version, onchainKey) =>
        if version == s.keyState.target then
          if onchainKey == Some(publicKey(s.keyState.nextShare))
              then s.(version := s.keyState.target, updater := Finished)
          else s.(updater := Halted)
        else if version < U32_MAX && version + 1 == s.keyState.target then s
        else s.(updater := Halted)
  }

  function Run<K, P(==)>(publicKey: K -> P, s: State<K>, events: seq<Event<P>>): State<K> {
    if |events| == 0 then s else Step(publicKey, Run(publicKey, s, events[..|events| - 1]), events[|events| - 1])
  }

  /** The running server: the version is the shared atomic that the updater stores to. */
  class CommitteeServer<K, P(==)> {
    const publicKey: K -> P
    const keyState: KeyState<K>
    var version: U32
    var updater: Updater

    constructor (publicKey: K -> P, keyState: KeyState<K>, version: U32)
      ensures this.publicKey == publicKey && Snapshot() == Start(keyState, version)
    {
      this.publicKey := publicKey;
      this.keyState := keyState;
      this.version := version;
      this.updater := if keyState.RotationShares? && version != keyState.target then Monitoring else NotSpawned;
    }

    function Snapshot(): State<K>
      reads this
    {
      State(keyState, version, updater)
    }

    method HandleEvent(event: Event<P>)
      modifies this`version, this`updater
      ensures Snapshot() == Step(publicKey, old(Snapshot()), event)
    {
      if updater != Monitoring || !keyState.RotationShares? {
        return;
      }
      match event
      case ChannelClosed =>
        updater := Halted;
      case Polled(polled, onchainKey) =>
        if polled == keyState.target {
          if onchainKey != Some(publicKey(keyState.nextShare)) {
            updater := Halted;
          } else {
            version := keyState.target;
            updater := Finished;
          }
        } else if !(polled < U32_MAX && polled + 1 == keyState.target) {
          updater := Halted;
        }
    }

    /** The loop of the updater over the events it receives. */
    method Monitor(events: seq<Event<P>>)
      modifies this`version, this`updater
      ensures Snapshot() == Run(publicKey, old(Snapshot()), events)
    {
      for i := 0 to |events|
        invariant Snapshot() == Run(publicKey, old(Snapshot()), events[..i])
      {
        assert events[..i + 1][..i] == events[..i];
        HandleEvent(events[i]);
      }
      assert events[..|events|] == events;
    }
  }

  // ----- Every run

  /** The poll completes the rotation: it reports the target, and the next share's key is on chain. */
  ghost predicate Completes<K, P>(publicKey: K -> P, keyState: KeyState<K>, event: Event<P>)
    requires keyState.RotationShares?
  {
    event == Polled(keyState.target, Some(publicKey(keyState.nextShare)))
  }

  /** The poll reports the version before the target. */
  ghost predicate Waits<K, P>(keyState: KeyState<K>, event: Event<P>)
    requires keyState.RotationShares?
  {
    event.Polled? && event.version < U32_MAX && event.version + 1 == keyState.target
  }

  /** The first event that is not a wait completes the rotation, and it is among these. */
  ghost predicate Rotates<K, P>(publicKey: K -> P, keyState: KeyState<K>, events: seq<Event<P>>)
    requires keyState.RotationShares?
  {
    exists i ::
      && 0 <= i < |events|
      && Completes(publicKey, keyState, events[i])
      && forall j :: 0 <= j < i ==> Waits(keyState, events[j])
  }

  lemma NotYetRotated<K, P>(publicKey: K -> P, keyState: KeyState<K>, events: seq<Event<P>>, i: nat)
    requires keyState.RotationShares? && i < |events|
    requires Completes(publicKey, keyState, events[i]) && forall j :: 0 <= j < i ==> Waits(keyState, events[j])
    ensures i < |events| - 1 ==> Rotates(publicKey, keyState, events[..|events| - 1])
  {
    if i < |events| - 1 {
      var before := events[..|events| - 1];
      assert Completes(publicKey, keyState, before[i]) && forall j :: 0 <= j < i ==> Waits(keyState, before[j]);
    }
  }

  /** A state that loading can produce. */
  ghost predicate Loaded<K>(env: Environment<K>, keyState: KeyState<K>, version: U32) {
    exists config :: LoadCommittee(env, config, version) == Ok(keyState)
  }

  /** What a run from a loaded state reaches, in terms of the events alone. */
  lemma {:induction false} RunOutcome<K, P>(env: Environment<K>, publicKey: K -> P, keyState: KeyState<K>, version: U32,
                                            events: seq<Event<P>>)
    requires Loaded(env, keyState, version)
    ensures
      var s := Run(publicKey, Start(keyState, version), events);
      && s.keyState == keyState
      && (keyState.ActiveShare? ==> s.updater == NotSpawned && s.version == version)
      && (keyState.RotationShares? ==>
           && version + 1 == keyState.target
           && (s.updater == Monitoring <==> forall j :: 0 <= j < |events| ==> Waits(keyState, events[j]))
           && (s.updater == Finished <==> Rotates(publicKey, keyState, events))
           && s.updater != NotSpawned
           && s.version == if s.updater == Finished then keyState.target else version)
  {
    if |events| > 0 {
      var n := |events| - 1;
      RunOutcome(env, publicKey, keyState, version, events[..n]);
      if keyState.RotationShares? {
        var before := Run(publicKey, Start(keyState, version), events[..n]);
        if before.updater == Finished {
          var i :| 0 <= i < n && Completes(publicKey, keyState, events[..n][i])
              && forall j :: 0 <= j < i ==> Waits(keyState, events[..n][j]);
          assert Completes(publicKey, keyState, events[i]) && forall j :: 0 <= j < i ==> Waits(keyState, events[j]) by {
            assert forall j :: 0 <= j < i ==> events[j] == events[..n][j];
          }
        }
        if Rotates(publicKey, keyState, events) && before.updater != Finished {
          var i :| 0 <= i < |events| && Completes(publicKey, keyState, events[i])
              && forall j :: 0 <= j < i ==> Waits(keyState, events[j]);
          NotYetRotated(publicKey, keyState, events, i);
        }
        assert (forall j :: 0 <= j < |events| ==> Waits(keyState, events[j])) <==>
               (forall j :: 0 <= j < n ==> Waits(keyState, events[..n][j])) && Waits(keyState, events[n]);
      }
    }
  }

  lemma RotatesStays<K, P>(publicKey: K -> P, keyState: KeyState<K>, events: seq<Event<P>>, m: nat, n: nat)
    requires keyState.RotationShares? && m <= n <= |events|
    requires Rotates(publicKey, keyState, events[..m])
    ensures Rotates(publicKey, keyState, events[..n])
  {
    var i :| 0 <= i < m && Completes(publicKey, keyState, events[..m][i])
        && forall j :: 0 <= j < i ==> Waits(keyState, events[..m][j]);
    assert forall j :: 0 <= j <= i ==> events[..n][j] == events[..m][j];
  }

  /** The version reached after the first n events. */
  ghost function VersionAfter<K, P>(publicKey: K -> P, keyState: KeyState<K>, version: U32, events: seq<Event<P>>,
                                    n: nat): U32
    requires n <= |events|
  {
    Run(publicKey, Start(keyState, version), events[..n]).version
  }

  /** In every run the version changes at most once, from the one before the target to the target,
      and only through a poll that found the next share's public key on chain. */
  lemma VersionChangesOnce<K, P>(env: Environment<K>, publicKey: K -> P, keyState: KeyState<K>, version: U32,
                                 events: seq<Event<P>>, m: nat, n: nat)
    requires Loaded(env, keyState, version)
    requires m <= n <= |events|
    ensures
      var before, after := VersionAfter(publicKey, keyState, version, events, m),
          VersionAfter(publicKey, keyState, version, events, n);
      before != after ==>
        && keyState.RotationShares?
        && before == version == keyState.target - 1
        && after == keyState.target
        && Rotates(publicKey, keyState, events[..n])
  {
    RunOutcome(env, publicKey, keyState, version, events[..m]);
    RunOutcome(env, publicKey, keyState, version, events[..n]);
    if keyState.RotationShares? && Rotates(publicKey, keyState, events[..m]) {
      RotatesStays(publicKey, keyState, events, m, n);
    }
  }

  /** The events of a change of version: polls of the old version, then one of the target that came with the
      public key of the next share. */
  lemma ChangeNeedsValidatedKey<K, P>(env: Environment<K>, publicKey: K -> P, keyState: KeyState<K>, version: U32,
                                      events: seq<Event<P>>) returns (i: nat)
    requires Loaded(env, keyState, version)
    requires Run(publicKey, Start(keyState, version), events).version != version
    ensures keyState.RotationShares? && i < |events|
    ensures events[i] == Polled(version + 1, Some(publicKey(keyState.nextShare))) && version + 1 == keyState.target
    ensures forall j :: 0 <= j < i ==> events[j].Polled? && events[j].version == version
  {
    RunOutcome(env, publicKey, keyState, version, events);
    i :| 0 <= i < |events| && Completes(publicKey, keyState, events[i])
    && forall j :: 0 <= j < i ==> Waits(keyState, events[j]);
  }

  /** In every run, the share of the stored version in the environment is served, to requests for any
      package or server object; when it is not there, which is only possible before a rotation
      completes, the lookup says so. It never finds an invalid rotation state. */
  lemma ServedShareMatchesVersion<I, K, P>(env: Environment<K>, publicKey: K -> P, keyState: KeyState<K>, version: U32,
                                           events: seq<Event<P>>, packageId: I, serverId: I)
    requires Loaded(env, keyState, version)
    ensures
      var s := Run(publicKey, Start(keyState, version), events);
      var keys: MasterKeys<I, K> := Committee(keyState);
      var served := match env(s.version) case Some(share) => Found(share) case None => Missing(RotationWithoutOldShare);
      && CommitteeShare(keys, s.version) == served
      && KeyForPackage(keys, s.version, packageId) == served
      && KeyForServer(keys, s.version, serverId) == served
      && (served.Missing? ==> s.version == version && s.updater != Finished && keyState.RotationShares?)
  {
    RunOutcome(env, publicKey, keyState, version, events);
  }

  /** In every interleaving of version updates with a request, and in every mode, a lookup that
      succeeds when the request is checked still succeeds when the response is created. */
  lemma LookupsStaySuccessful<I, K, P>(env: Environment<K>, publicKey: K -> P, keys: MasterKeys<I, K>, version: U32,
                                       events: seq<Event<P>>, packageId: I, m: nat, n: nat)
    requires keys.Committee? ==> Loaded(env, keys.keyState, version)
    requires m <= n <= |events|
    ensures keys.Committee? ==>
      (KeyForPackage(keys, VersionAfter(publicKey, keys.keyState, version, events, m), packageId).Found? ==>
       KeyForPackage(keys, VersionAfter(publicKey, keys.keyState, version, events, n), packageId).Found?)
    ensures !keys.Committee? ==> forall v, v' :: KeyForPackage(keys, v, packageId) == KeyForPackage(keys, v', packageId)
  {
    if keys.Committee? {
      VersionChangesOnce(env, publicKey, keys.keyState, version, events, m, n);
    }
  }
}
