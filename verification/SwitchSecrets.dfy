// pkg/ironic/networking_deployment.go: the two secrets of the networking
// service, made and deleted by the operator unless the user brings them.
module SwitchSecrets {
  import opened Options
  import opened Cluster
  import opened SecretManager
  import opened Targets

  const PLACEHOLDER := "# This file is managed by the Baremetal Operator\n"

  function SwitchSecretName(ironic: Ironic, role: Role): string
    requires role.SwitchConfig? || role.SwitchCredentials?
  {
    if CustomName(ironic, role) then
      if role.SwitchConfig? then ironic.spec.networking.value.configName
      else ironic.spec.networking.value.credentialsName
    else ironic.name + (if role.SwitchConfig? then "-switch-config" else "-switch-credentials")
  }

  predicate CustomName(ironic: Ironic, role: Role)
    requires role.SwitchConfig? || role.SwitchCredentials?
  {
    && ironic.spec.networking.Some?
    && (if role.SwitchConfig? then ironic.spec.networking.value.configName
        else ironic.spec.networking.value.credentialsName) != ""
  }

  // A secret as the operator creates it: the configuration gets a placeholder,
  // the credentials start empty.
  function NewSwitchSecret(ironic: Ironic, role: Role): Secret {
    Secret(true, true, [ironic.uid], if role.SwitchConfig? then map["switch-configs.conf" := PLACEHOLDER] else map[])
  }

  // The result of one create or delete: the secrets, and whether it failed.
  function EnsureSwitchSecret(secrets: Secrets, ironic: Ironic, role: Role, input: Input): (Secrets, bool)
    requires role.SwitchConfig? || role.SwitchCredentials?
  {
    var name := SwitchSecretName(ironic, role);
    var fate := input.faults(CreateSwitch(role));
    if input.faults(GetSwitch(role)).Failed() then (secrets, true)
    else if Cached(secrets, input.cache, name).Some? || CustomName(ironic, role) then (secrets, false)
    else if name in secrets then (secrets, fate.Failed())  // already exists
    else (if fate.Applied() then secrets[name := NewSwitchSecret(ironic, role)] else secrets, fate.Failed())
  }

  function EnsureSwitchSecretDeleted(secrets: Secrets, ironic: Ironic, role: Role, input: Input): (Secrets, bool)
    requires role.SwitchConfig? || role.SwitchCredentials?
  {
    var name := SwitchSecretName(ironic, role);
    var fate := input.faults(DeleteSwitch(role));
    if input.faults(GetSwitch(role)).Failed() then (secrets, true)
    else
      match Cached(secrets, input.cache, name)
      case None => (secrets, false)
      case Some(secret) =>
        if !secret.managed then (secrets, false)
        else (if fate.Applied() then secrets - {name} else secrets, fate.Failed())
  }

  datatype Switches = Off | Provided(config: Secret, credentials: Secret) | Problem(needsUser: bool)

  function EnsureNetworkingSwitchSecrets(secrets: Secrets, ironic: Ironic, input: Input): (Secrets, Switches) {
    if !ironic.spec.NetworkingEnabled() then
      var config := EnsureSwitchSecretDeleted(secrets, ironic, SwitchConfig, input);
      if config.1 then (config.0, Problem(false))
      else
        var credentials := EnsureSwitchSecretDeleted(config.0, ironic, SwitchCredentials, input);
        (credentials.0, if credentials.1 then Problem(false) else Off)
    else
      var config := EnsureSwitchSecret(secrets, ironic, SwitchConfig, input);
      if config.1 then (config.0, Problem(false))
      else
        var first := Acquire(config.0, SwitchSecretName(ironic, SwitchConfig), None, SwitchConfig, input).1;
        if !first.Acquired? then (config.0, Problem(first.NeedsUser()))
        else
          var credentials := EnsureSwitchSecret(config.0, ironic, SwitchCredentials, input);
          if credentials.1 then (credentials.0, Problem(false))
          else
            var second := Acquire(credentials.0, SwitchSecretName(ironic, SwitchCredentials), None,
                                  SwitchCredentials, input).1;
            if !second.Acquired? then (credentials.0, Problem(second.NeedsUser()))
            else (credentials.0, Provided(first.secret, second.secret))
  }

  /* ---- The code ---- */

  method EnsureSwitchSecretExists(api: Api, ironic: Ironic, role: Role, input: Input) returns (failed: bool)
    requires role.SwitchConfig? || role.SwitchCredentials?
    modifies api`secrets
    ensures (api.secrets, failed) == EnsureSwitchSecret(old(api.secrets), ironic, role, input)
  {
    var name := SwitchSecretName(ironic, role);
    if input.faults(GetSwitch(role)).Failed() {
      return true;
    }
    var existing := Cached(api.secrets, input.cache, name);
    if existing.Some? {
      return false;
    }
    if CustomName(ironic, role) {
      return false;
    }
    var fate := input.faults(CreateSwitch(role));
    if fate.Applied() && name !in api.secrets {
      api.secrets := api.secrets[name := NewSwitchSecret(ironic, role)];
    }
    return fate.Failed();
  }

  method DeleteSwitchSecret(api: Api, ironic: Ironic, role: Role, input: Input) returns (failed: bool)
    requires role.SwitchConfig? || role.SwitchCredentials?
    modifies api`secrets
    ensures (api.secrets, failed) == EnsureSwitchSecretDeleted(old(api.secrets), ironic, role, input)
  {
    var name := SwitchSecretName(ironic, role);
    if input.faults(GetSwitch(role)).Failed() {
      return true;
    }
    var secret := Cached(api.secrets, input.cache, name);
    if secret.None? {
      return false;
    }
    if !secret.value.managed {
      return false;
    }
    var fate := input.faults(DeleteSwitch(role));
    if fate.Applied() {
      api.secrets := api.secrets - {name};
    }
    return fate.Failed();
  }

  method EnsureSwitches(api: Api, ironic: Ironic, input: Input) returns (result: Switches)
    modifies api`secrets
    ensures (api.secrets, result) == EnsureNetworkingSwitchSecrets(old(api.secrets), ironic, input)
  {
    var failed;
    if !ironic.spec.NetworkingEnabled() {
      failed := DeleteSwitchSecret(api, ironic, SwitchConfig, input);
      if failed {
        return Problem(false);
      }
      failed := DeleteSwitchSecret(api, ironic, SwitchCredentials, input);
      return if failed then Problem(false) else Off;
    }
    failed := EnsureSwitchSecretExists(api, ironic, SwitchConfig, input);
    if failed {
      return Problem(false);
    }
    var config := AcquireSecret(api, SwitchSecretName(ironic, SwitchConfig), None, SwitchConfig, input);
    if !config.Acquired? {
      return Problem(config.NeedsUser());
    }
    failed := EnsureSwitchSecretExists(api, ironic, SwitchCredentials, input);
    if failed {
      return Problem(false);
    }
    var credentials := AcquireSecret(api, SwitchSecretName(ironic, SwitchCredentials), None, SwitchCredentials, input);
    if !credentials.Acquired? {
      return Problem(credentials.NeedsUser());
    }
    return Provided(config.secret, credentials.secret);
  }

  /* ---- Properties ---- */

  // A secret without the managed label belongs to the user: it stays as it
  // is. Whatever else is found afterwards was there before, or carries the
  // labels of a secret that the operator created.
  ghost predicate Respects(before: Secrets, after: Secrets) {
    && (forall name | name in before :: !before[name].managed ==> name in after && after[name] == before[name])
    && (forall name | name in after ::
          (name in before && after[name] == before[name]) || (after[name].managed && after[name].environment))
  }

  lemma RespectsTransitive(a: Secrets, b: Secrets, c: Secrets)
    requires Respects(a, b) && Respects(b, c)
    ensures Respects(a, c)
  {
  }

  lemma EnsureRespects(secrets: Secrets, ironic: Ironic, role: Role, input: Input)
    requires role.SwitchConfig? || role.SwitchCredentials?
    ensures Respects(secrets, EnsureSwitchSecret(secrets, ironic, role, input).0)
  {
  }

  lemma DeleteRespects(secrets: Secrets, ironic: Ironic, role: Role, input: Input)
    requires role.SwitchConfig? || role.SwitchCredentials?
    ensures Respects(secrets, EnsureSwitchSecretDeleted(secrets, ironic, role, input).0)
  {
    var after := EnsureSwitchSecretDeleted(secrets, ironic, role, input).0;
    assert after == secrets || after == secrets - {SwitchSecretName(ironic, role)};
  }

  // Enabling or disabling the networking service, in whatever state and with
  // whatever failures, respects the user's secrets.
  lemma SwitchSecretsRespectTheUser(secrets: Secrets, ironic: Ironic, input: Input)
    ensures Respects(secrets, EnsureNetworkingSwitchSecrets(secrets, ironic, input).0)
  {
    var after := EnsureNetworkingSwitchSecrets(secrets, ironic, input).0;
    if ironic.spec.NetworkingEnabled() {
      var config := EnsureSwitchSecret(secrets, ironic, SwitchConfig, input).0;
      var credentials := EnsureSwitchSecret(config, ironic, SwitchCredentials, input).0;
      assert after == config || after == credentials;
      EnsureRespects(secrets, ironic, SwitchConfig, input);
      EnsureRespects(config, ironic, SwitchCredentials, input);
      RespectsTransitive(secrets, config, credentials);
    } else {
      var config := EnsureSwitchSecretDeleted(secrets, ironic, SwitchConfig, input).0;
      var credentials := EnsureSwitchSecretDeleted(config, ironic, SwitchCredentials, input).0;
      assert after == config || after == credentials;
      DeleteRespects(secrets, ironic, SwitchConfig, input);
      DeleteRespects(config, ironic, SwitchCredentials, input);
      RespectsTransitive(secrets, config, credentials);
    }
  }

  // Success with the service enabled returns the two secrets stored under the
  // configured names, both labelled for the environment.
  lemma SwitchSecretsProvided(secrets: Secrets, ironic: Ironic, input: Input)
    requires EnsureNetworkingSwitchSecrets(secrets, ironic, input).1.Provided?
    ensures var (after, result) := EnsureNetworkingSwitchSecrets(secrets, ironic, input);
      && ironic.spec.NetworkingEnabled()
      && result.config.environment && result.credentials.environment
      && ConfigName(ironic) in after && after[ConfigName(ironic)] == result.config
      && CredentialsName(ironic) in after && after[CredentialsName(ironic)] == result.credentials
  {
    var config := EnsureSwitchSecret(secrets, ironic, SwitchConfig, input).0;
    var name := SwitchSecretName(ironic, SwitchConfig);
    assert name in config && config[name].environment;
    var after := EnsureSwitchSecret(config, ironic, SwitchCredentials, input).0;
    var second := SwitchSecretName(ironic, SwitchCredentials);
    assert after == config || after == config[second := NewSwitchSecret(ironic, SwitchCredentials)];
  }

  // What the operator may create: a secret under a name of its own, with a
  // placeholder for the configuration and nothing for the credentials.
  ghost predicate Created(ironic: Ironic, name: string, secret: Secret) {
    var n := ironic.spec.networking;
    || (&& name == ironic.name + "-switch-config" && n.Some? && n.value.configName == ""
        && secret == Secret(true, true, [ironic.uid],
                            map["switch-configs.conf" := "# This file is managed by the Baremetal Operator\n"]))
    || (&& name == ironic.name + "-switch-credentials" && n.Some? && n.value.credentialsName == ""
        && secret == Secret(true, true, [ironic.uid], map[]))
  }

  // With the service enabled, whatever calls fail: nothing is changed or
  // deleted, and nothing is created under a name that the user chose.
  lemma SwitchSecretsCreated(secrets: Secrets, ironic: Ironic, input: Input)
    requires ironic.spec.NetworkingEnabled()
    ensures var after := EnsureNetworkingSwitchSecrets(secrets, ironic, input).0;
      && (forall name | name in secrets :: name in after && after[name] == secrets[name])
      && (forall name | name in after :: name in secrets || Created(ironic, name, after[name]))
  {
    var config := EnsureSwitchSecret(secrets, ironic, SwitchConfig, input).0;
    var credentials := EnsureSwitchSecret(config, ironic, SwitchCredentials, input).0;
    EnsureCreates(secrets, ironic, SwitchConfig, input);
    EnsureCreates(config, ironic, SwitchCredentials, input);
    var after := EnsureNetworkingSwitchSecrets(secrets, ironic, input).0;
    assert after == config || after == credentials;
    hide EnsureSwitchSecret, EnsureNetworkingSwitchSecrets, Created;
  }

  lemma EnsureCreates(secrets: Secrets, ironic: Ironic, role: Role, input: Input)
    requires ironic.spec.NetworkingEnabled() && (role.SwitchConfig? || role.SwitchCredentials?)
    ensures var after := EnsureSwitchSecret(secrets, ironic, role, input).0;
      && (forall name | name in secrets :: name in after && after[name] == secrets[name])
      && (forall name | name in after :: name in secrets || Created(ironic, name, after[name]))
  {
  }

  // A secret that deleting finds: under a configured name, managed, labelled,
  // and in the cache. One that lost its environment label is never found.
  ghost predicate Deletable(secrets: Secrets, ironic: Ironic, input: Input, name: string) {
    && (name == ConfigName(ironic) || name == CredentialsName(ironic))
    && name in secrets && name in input.cache && secrets[name].environment && secrets[name].managed
  }

  // Exactly the deletable secrets are gone, and the others are as before.
  ghost predicate Cleared(before: Secrets, after: Secrets, ironic: Ironic, input: Input) {
    && (forall name :: name in after <==> name in before && !Deletable(before, ironic, input, name))
    && (forall name | name in after :: after[name] == before[name])
  }

  // No secret is new or changed.
  ghost predicate OnlyFewer(before: Secrets, after: Secrets) {
    forall name | name in after :: name in before && after[name] == before[name]
  }

  lemma DeletedTogether(secrets: Secrets, ironic: Ironic, input: Input)
    ensures var config := EnsureSwitchSecretDeleted(secrets, ironic, SwitchConfig, input);
      var credentials := EnsureSwitchSecretDeleted(config.0, ironic, SwitchCredentials, input);
      && OnlyFewer(secrets, config.0) && OnlyFewer(secrets, credentials.0)
      && (!config.1 && !credentials.1 ==> Cleared(secrets, credentials.0, ironic, input))
  {
  }

  // What a pass with the service disabled clears away.
  lemma SwitchSecretsCleared(secrets: Secrets, ironic: Ironic, input: Input)
    requires !ironic.spec.NetworkingEnabled()
    ensures var (after, result) := EnsureNetworkingSwitchSecrets(secrets, ironic, input);
      && OnlyFewer(secrets, after)
      && (result.Off? ==> Cleared(secrets, after, ironic, input))
  {
    hide EnsureSwitchSecretDeleted;
    DeletedTogether(secrets, ironic, input);
  }

  // Any run of the switch-secret code, with edits by the user in between: as
  // long as the user leaves an unmanaged secret alone, so does the operator.
  datatype Turn = UserEdit | Pass(ironic: Ironic, input: Input)

  ghost predicate Turns(states: seq<Secrets>, turns: seq<Turn>) {
    && |states| == |turns| + 1
    && forall i | 0 <= i < |turns| :: turns[i].Pass? ==>
         states[i + 1] == EnsureNetworkingSwitchSecrets(states[i], turns[i].ironic, turns[i].input).0
  }

  lemma {:induction false} UserSecretsSurvive(states: seq<Secrets>, turns: seq<Turn>, name: string, n: nat)
    requires Turns(states, turns) && n <= |turns|
    requires name in states[0] && !states[0][name].managed
    requires forall i | 0 <= i < |turns| && turns[i].UserEdit? && name in states[i] ::
               name in states[i + 1] && states[i + 1][name] == states[i][name]
    ensures name in states[n] && states[n][name] == states[0][name]
  {
    if n > 0 {
      UserSecretsSurvive(states, turns, name, n - 1);
      if turns[n - 1].Pass? {
        SwitchSecretsRespectTheUser(states[n - 1], turns[n - 1].ironic, turns[n - 1].input);
      }
    }
  }
}
