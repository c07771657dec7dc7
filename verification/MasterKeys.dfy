/** The master keys held by a key server, and how requests look them up. */
module MasterKeys {
  import opened Results

  const U32_MAX: nat := 0xffff_ffff

  type U32 = n: nat | n <= U32_MAX

  /** An active committee member has one share. In rotation, the old share is used while the version
      is one behind the target, and the next share once they are equal. */
  datatype KeyState<K> =
    | ActiveShare(masterShare: K)
    | RotationShares(oldShare: Option<K>, nextShare: K, target: U32)

  datatype MasterKeys<I(==), K> =
    | Open(masterKey: K)
    | Permissioned(packageToKey: map<I, K>, serverToKey: map<I, K>)
    | Committee(keyState: KeyState<K>)

  datatype LookupError =
    | UnsupportedPackageId
    | InvalidServiceId
    | RotationWithoutOldShare
    | InvalidRotationState
    | InvalidServerType

  datatype Lookup<K> = Found(key: K) | Missing(error: LookupError)

  /** The share to use at the current committee version, which is read from the shared atomic. */
  function CommitteeShare<I, K>(keys: MasterKeys<I, K>, version: U32): Lookup<K> {
    match keys
    case Committee(ActiveShare(share)) => Found(share)
    case Committee(RotationShares(previous, next, target)) =>
      if version == target then Found(next)
      else if version < U32_MAX && version + 1 == target then
        (match previous
         case Some(share) => Found(share)
         case None => Missing(RotationWithoutOldShare))
      else Missing(InvalidRotationState)
    case _ => Missing(InvalidServerType)
  }

  function KeyForPackage<I, K>(keys: MasterKeys<I, K>, version: U32, packageId: I): Lookup<K> {
    match keys
    case Open(key) => Found(key)
    case Committee(_) => CommitteeShare(keys, version)
    case Permissioned(packageToKey, _) => if packageId in packageToKey then Found(packageToKey[packageId])
      else Missing(UnsupportedPackageId)
  }

  function KeyForServer<I, K>(keys: MasterKeys<I, K>, version: U32, serverId: I): Lookup<K> {
    match keys
    case Open(key) => Found(key)
    case Committee(_) => CommitteeShare(keys, version)
    case Permissioned(_, serverToKey) => if serverId in serverToKey then Found(serverToKey[serverId])
      else Missing(InvalidServiceId)
  }

  /** In open mode the one key answers every request; there is no committee share outside committee mode. */
  lemma OpenModeServes<I, K>(key: K, version: U32, packageId: I, serverId: I)
    ensures KeyForPackage(Open(key), version, packageId) == KeyForServer(Open(key), version, serverId) == Found(key)
    ensures forall keys: MasterKeys<I, K> :: !keys.Committee? ==>
        CommitteeShare(keys, version) == Missing(InvalidServerType)
  {
  }
}
