// pkg/secretutils/secret_manager.go: linked secrets and config maps, seen
// through a cache that is filtered by the environment label, with the API
// server as the fallback.
module SecretManager {
  import opened Options
  import opened Cluster

  datatype Found = Found(secret: Secret) | NotFound | Unreachable

  // What the cache shows of the stored objects: current contents, but only
  // labelled objects, and possibly not all of them.
  function Cached(secrets: Secrets, cache: set<string>, name: string): Option<Secret> {
    if name in secrets && name in cache && secrets[name].environment then Some(secrets[name]) else None
  }

  function FindObject(secrets: Secrets, name: string, role: Role, input: Input): Found {
    if input.faults(ReadCache(role)).Failed() then Unreachable
    else if Cached(secrets, input.cache, name).Some? then Found(secrets[name])
    else if input.faults(ReadApi(role)).Failed() then Unreachable
    else if name in secrets then Found(secrets[name])
    else NotFound
  }

  datatype Acquired = Acquired(secret: Secret) | Missing | MissingLabel | Unavailable {
    // The errors that only the user can put right.
    predicate NeedsUser() {
      Missing? || MissingLabel?
    }
  }

  // The object as claimed: with the owner among its owner references.
  function Claimed(secret: Secret, owner: Option<Uid>): Secret {
    if owner.None? || owner.value in secret.owners then secret
    else secret.(owners := secret.owners + [owner.value])
  }

  function Acquire(secrets: Secrets, name: string, owner: Option<Uid>, role: Role, input: Input)
    : (r: (Secrets, Acquired))
    ensures r.1.Acquired? ==> name in r.0 && r.0[name] == r.1.secret && r.1.secret.environment
    ensures r.0 == secrets || (name in secrets && secrets[name].environment && owner.Some?
                               && r.0 == secrets[name := Claimed(secrets[name], owner)])
  {
    match FindObject(secrets, name, role, input)
    case NotFound => (secrets, Missing)
    case Unreachable => (secrets, Unavailable)
    case Found(secret) =>
      if !secret.environment then (secrets, MissingLabel)
      else
        var claimed := Claimed(secret, owner);
        if claimed == secret then (secrets, Acquired(secret))
        else
          var fate := input.faults(Claim(role));
          (if fate.Applied() then secrets[name := claimed] else secrets,
           if fate.Failed() then Unavailable else Acquired(claimed))
  }

  /* ---- The code ---- */

  method FindObjectIn(secrets: Secrets, name: string, role: Role, input: Input) returns (found: Found)
    ensures found == FindObject(secrets, name, role, input)
  {
    if input.faults(ReadCache(role)).Failed() {
      return Unreachable;
    }
    var cached := Cached(secrets, input.cache, name);
    if cached.Some? {
      return Found(cached.value);
    }
    if input.faults(ReadApi(role)).Failed() {
      return Unreachable;
    }
    if name !in secrets {
      return NotFound;
    }
    return Found(secrets[name]);
  }

  method ClaimObject(secret: Secret, owner: Option<Uid>) returns (result: Acquired, needsUpdate: bool)
    ensures !secret.environment ==> result == MissingLabel && !needsUpdate
    ensures secret.environment ==> result == Acquired(Claimed(secret, owner))
    ensures needsUpdate <==> secret.environment && Claimed(secret, owner) != secret
  {
    if !secret.environment {
      return MissingLabel, false;
    }
    if owner.None? {
      return Acquired(secret), false;
    }
    var alreadyOwned := false;
    for i := 0 to |secret.owners|
      invariant !alreadyOwned && owner.value !in secret.owners[..i]
    {
      if secret.owners[i] == owner.value {
        alreadyOwned := true;
        break;
      }
    }
    if alreadyOwned {
      return Acquired(secret), false;
    }
    return Acquired(secret.(owners := secret.owners + [owner.value])), true;
  }

  method AcquireSecret(api: Api, name: string, owner: Option<Uid>, role: Role, input: Input) returns (result: Acquired)
    modifies api`secrets
    ensures (api.secrets, result) == Acquire(old(api.secrets), name, owner, role, input)
  {
    var found := FindObjectIn(api.secrets, name, role, input);
    match found
    case NotFound => return Missing;
    case Unreachable => return Unavailable;
    case Found(secret) =>
      var needsUpdate;
      result, needsUpdate := ClaimObject(secret, owner);
      if needsUpdate {
        var fate := input.faults(Claim(role));
        if fate.Applied() {
          api.secrets := api.secrets[name := result.secret];
        }
        if fate.Failed() {
          return Unavailable;
        }
      }
  }

  method ObtainConfigMap(api: Api, name: string, role: Role, input: Input) returns (result: Acquired)
    ensures (api.configMaps, result) == Acquire(api.configMaps, name, None, role, input)
  {
    var found := FindObjectIn(api.configMaps, name, role, input);
    match found
    case NotFound => return Missing;
    case Unreachable => return Unavailable;
    case Found(secret) =>
      var needsUpdate;
      result, needsUpdate := ClaimObject(secret, None);
  }

  /* ---- Properties ---- */

  // The cache is transparent: with working calls, what it happens to show
  // makes no difference to what is found, claimed or reported.
  lemma CacheIsTransparent(
    secrets: Secrets, name: string, owner: Option<Uid>, role: Role, input: Input, cache: set<string>)
    requires forall call :: !input.faults(call).Failed()
    ensures Acquire(secrets, name, owner, role, input) == Acquire(secrets, name, owner, role, input.(cache := cache))
  {
    assert forall call :: input.faults(call).Acked?;
  }

  // Claiming twice is claiming once, and never drops an owner.
  lemma ClaimSettles(secret: Secret, owner: Option<Uid>)
    ensures Claimed(Claimed(secret, owner), owner) == Claimed(secret, owner)
    ensures secret.owners <= Claimed(secret, owner).owners
  {
  }
}
