/** The configuration lookups of `backend/integrations/azure/blob_client.py`.
    The process environment is passed in as a map; constructing the SDK
    clients is not modelled, only which kind of client would be built. */
module BlobClient {
  import opened Wrappers
  import opened PyStr

  /** The process environment: variable name to value. */
  type Env = map<string, string>

  const DefaultPdfContainer: string := "pdfs"
  const ContainerVar: string := "AZURE_BLOB_CONTAINER"
  const ConnectionStringVar: string := "AZURE_STORAGE_CONNECTION_STRING"
  const AccountUrlVar: string := "AZURE_STORAGE_ACCOUNT_URL"

  /** `os.getenv(name)`. */
  function GetEnv(env: Env, name: string): Option<string>
  {
    if name in env then Some(env[name]) else None
  }

  /** `get_blob_container_name`: the configured container, or `pdfs` when
      the variable is unset (an empty value is kept as it is). */
  function BlobContainerName(env: Env): (r: string)
    ensures ContainerVar !in env ==> r == "pdfs"
    ensures ContainerVar in env ==> r == env[ContainerVar]
  {
    match GetEnv(env, ContainerVar)
    case Some(name) => name
    case None => DefaultPdfContainer
  }

  /** `get_container_client(client, container_name)`: the container it
      opens is the given name when that is non-empty, else the configured
      one. */
  function ContainerFor(env: Env, containerName: Option<string>): (r: string)
    ensures Truthy(containerName) ==> r == containerName.value
    ensures !Truthy(containerName) ==> r == BlobContainerName(env)
  {
    OrDefault(containerName, BlobContainerName(env))
  }

  /** How a blob service client is reached. */
  datatype ServiceEndpoint = FromConnectionString(connectionString: string) | FromAccountUrl(accountUrl: string)

  /** `create_blob_service_client`: a connection string wins; otherwise an
      account URL; with neither set (or both empty) there is no client. */
  function CreateBlobServiceClient(env: Env): (r: Option<ServiceEndpoint>)
    ensures r.None? <==> !Truthy(GetEnv(env, ConnectionStringVar)) && !Truthy(GetEnv(env, AccountUrlVar))
    ensures r.Some? && r.value.FromConnectionString? ==>
              ConnectionStringVar in env && r.value.connectionString == env[ConnectionStringVar] != []
    ensures r.Some? && r.value.FromAccountUrl? ==>
              !Truthy(GetEnv(env, ConnectionStringVar))
              && AccountUrlVar in env && r.value.accountUrl == env[AccountUrlVar] != []
  {
    var connectionString := GetEnv(env, ConnectionStringVar);
    if Truthy(connectionString) then Some(FromConnectionString(connectionString.value))
    else
      var accountUrl := GetEnv(env, AccountUrlVar);
      if !Truthy(accountUrl) then None
      else Some(FromAccountUrl(accountUrl.value))
  }

  /** `is_blob_configured`: it answers yes exactly when
      `create_blob_service_client` returns a client. */
  predicate IsBlobConfigured(env: Env)
    ensures IsBlobConfigured(env) <==> CreateBlobServiceClient(env).Some?
  {
    Truthy(GetEnv(env, ConnectionStringVar)) || Truthy(GetEnv(env, AccountUrlVar))
  }
}
