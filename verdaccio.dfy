/** `src/lib/verdaccio.ts`: a registry client from the deployer's
    configuration. The registry URL falls back to a local default; a
    missing or empty username or password is an error, the username being
    checked first. */
module Verdaccio {
  import opened Wrappers
  import opened ConfigRecords
  import opened VerdaccioClients
  import opened DeployerConfiguration

  const DefaultRegistryUrl: string := "http://localhost:4873"
  const UsernameMissing: string := "Registry username is not set, cannot do incremental build."
  const PasswordMissing: string := "Registry password is not set, cannot do incremental build."

  /** The configured URL when set and non-empty, else the default. */
  function RegistryUrl(registryUrl: Option<string>): (u: string)
    ensures Truthy(registryUrl) ==> u == registryUrl.value
    ensures !Truthy(registryUrl) ==> u == DefaultRegistryUrl
    ensures u != ""
  {
    if Truthy(registryUrl) then registryUrl.value else DefaultRegistryUrl
  }

  /** The username and password, or the error for the first one missing. */
  function Login(username: Option<string>, password: Option<string>): (r: Result<(string, string), string>)
    ensures r.Success? <==> Truthy(username) && Truthy(password)
    ensures r.Success? ==> r.value == (username.value, password.value) && r.value.0 != "" && r.value.1 != ""
    ensures !Truthy(username) ==> r == Failure(UsernameMissing)
    ensures Truthy(username) && !Truthy(password) ==> r == Failure(PasswordMissing)
  {
    if !Truthy(username) then Failure(UsernameMissing)
    else if !Truthy(password) then Failure(PasswordMissing)
    else Success((username.value, password.value))
  }

  /** `getVerdaccioFromConfiguration`: a client for the configured
      registry, authenticating with the configured username and password,
      or the error `Login` gives. */
  method GetVerdaccioFromConfiguration(config: PackageDeployerConfiguration) returns (r: Result<VerdaccioClient, string>)
    ensures r.Failure? <==> Login(config.GetRegistryUsername(), config.GetRegistryPassword()).Failure?
    ensures r.Failure? ==> r.error == Login(config.GetRegistryUsername(), config.GetRegistryPassword()).error
    ensures r.Success? ==> r.value.url == RegistryUrl(config.GetRegistryUrl())
    ensures r.Success? ==> r.value.username == config.GetRegistryUsername().value
    ensures r.Success? ==> r.value.password == config.GetRegistryPassword().value
    ensures r.Success? ==> r.value.Valid()
  {
    var url := RegistryUrl(config.GetRegistryUrl());
    var login := Login(config.GetRegistryUsername(), config.GetRegistryPassword());
    if login.Failure? {
      return Failure(login.error);
    }
    var client := new VerdaccioClient(url, login.value.0, login.value.1);
    r := Success(client);
  }
}
