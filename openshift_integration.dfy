/** The platform detection, options, caches and listener configuration of
    app/OpenShift.cs (namespace RedHat.OpenShift). */
module OpenShiftIntegration {
  import opened Wrappers
  import opened Exceptions
  import opened CertificateLoader

  const BuildCommitVariable := "OPENSHIFT_BUILD_COMMIT"
  const BuildNameVariable := "OPENSHIFT_BUILD_NAME"
  const BuildSourceVariable := "OPENSHIFT_BUILD_SOURCE"
  const BuildNamespaceVariable := "OPENSHIFT_BUILD_NAMESPACE"
  const BuildReferenceVariable := "OPENSHIFT_BUILD_REFERENCE"

  /** The port Kestrel is bound to in both modes. */
  const ListenPort := 8080

  /** `OpenShiftEnvironment`: process-wide, lazily read build metadata. The five
      static fields `_buildCommit` ... `_buildReference` are the slots of
      `cached`, keyed by the variable each one caches; a missing key is a null
      field. `environment` is the process environment at the time of a call. */
  class OpenShiftEnvironment {
    var cached: map<string, string>
    /** How many times the process environment has been consulted. */
    ghost var environmentReads: nat

    constructor ()
      ensures cached == map[] && environmentReads == 0
    {
      cached := map[];
      environmentReads := 0;
    }

    /** `GetFromEnvironmentVariable(name, ref cached)`: a null slot is filled
        from the environment, an unset variable becoming the empty string; a
        filled slot is returned without consulting the environment. */
    method GetFromEnvironmentVariable(name: string, environment: map<string, string>) returns (value: string)
      modifies this
      ensures name in old(cached) ==>
        value == old(cached)[name] && cached == old(cached) && environmentReads == old(environmentReads)
      ensures name !in old(cached) ==>
        && value == (if name in environment then environment[name] else "")
        && cached == old(cached)[name := value]
        && environmentReads == old(environmentReads) + 1
    {
      if name !in cached {
        var read := if name in environment then environment[name] else "";
        cached := cached[name := read];
        environmentReads := environmentReads + 1;
      }
      value := cached[name];
    }

    method BuildCommit(environment: map<string, string>) returns (value: string)
      modifies this
      ensures BuildCommitVariable in cached && value == cached[BuildCommitVariable]
      ensures BuildCommitVariable in old(cached) ==>
        cached == old(cached) && environmentReads == old(environmentReads)
      ensures BuildCommitVariable !in old(cached) ==>
        && cached == old(cached)[BuildCommitVariable := Lookup(environment, BuildCommitVariable)]
        && environmentReads == old(environmentReads) + 1
    {
      value := GetFromEnvironmentVariable(BuildCommitVariable, environment);
    }

    method BuildName(environment: map<string, string>) returns (value: string)
      modifies this
      ensures BuildNameVariable in cached && value == cached[BuildNameVariable]
      ensures BuildNameVariable in old(cached) ==>
        cached == old(cached) && environmentReads == old(environmentReads)
      ensures BuildNameVariable !in old(cached) ==>
        && cached == old(cached)[BuildNameVariable := Lookup(environment, BuildNameVariable)]
        && environmentReads == old(environmentReads) + 1
    {
      value := GetFromEnvironmentVariable(BuildNameVariable, environment);
    }

    method BuildSource(environment: map<string, string>) returns (value: string)
      modifies this
      ensures BuildSourceVariable in cached && value == cached[BuildSourceVariable]
      ensures BuildSourceVariable in old(cached) ==>
        cached == old(cached) && environmentReads == old(environmentReads)
      ensures BuildSourceVariable !in old(cached) ==>
        && cached == old(cached)[BuildSourceVariable := Lookup(environment, BuildSourceVariable)]
        && environmentReads == old(environmentReads) + 1
    {
      value := GetFromEnvironmentVariable(BuildSourceVariable, environment);
    }

    method BuildNamespace(environment: map<string, string>) returns (value: string)
      modifies this
      ensures BuildNamespaceVariable in cached && value == cached[BuildNamespaceVariable]
      ensures BuildNamespaceVariable in old(cached) ==>
        cached == old(cached) && environmentReads == old(environmentReads)
      ensures BuildNamespaceVariable !in old(cached) ==>
        && cached == old(cached)[BuildNamespaceVariable := Lookup(environment, BuildNamespaceVariable)]
        && environmentReads == old(environmentReads) + 1
    {
      value := GetFromEnvironmentVariable(BuildNamespaceVariable, environment);
    }

    method BuildReference(environment: map<string, string>) returns (value: string)
      modifies this
      ensures BuildReferenceVariable in cached && value == cached[BuildReferenceVariable]
      ensures BuildReferenceVariable in old(cached) ==>
        cached == old(cached) && environmentReads == old(environmentReads)
      ensures BuildReferenceVariable !in old(cached) ==>
        && cached == old(cached)[BuildReferenceVariable := Lookup(environment, BuildReferenceVariable)]
        && environmentReads == old(environmentReads) + 1
    {
      value := GetFromEnvironmentVariable(BuildReferenceVariable, environment);
    }

    /** `PlatformEnvironment.IsOpenShift`: the build name is non-empty. */
    method IsOpenShift(environment: map<string, string>) returns (isOpenShift: bool)
      modifies this
      ensures BuildNameVariable in cached
      ensures isOpenShift <==> cached[BuildNameVariable] != ""
      ensures BuildNameVariable in old(cached) ==>
        cached == old(cached) && environmentReads == old(environmentReads)
      ensures BuildNameVariable !in old(cached) ==>
        && (isOpenShift <==> Lookup(environment, BuildNameVariable) != "")
        && cached == old(cached)[BuildNameVariable := Lookup(environment, BuildNameVariable)]
        && environmentReads == old(environmentReads) + 1
    {
      var name := BuildName(environment);
      isOpenShift := name != "";
    }
  }

  /** `Environment.GetEnvironmentVariable(name) ?? string.Empty`. */
  function Lookup(environment: map<string, string>, name: string): (value: string)
    ensures name !in environment ==> value == ""
    ensures name in environment ==> value == environment[name]
  {
    if name in environment then environment[name] else ""
  }

  /** `OpenShiftIntegrationOptions`: the certificate mount point, possibly unset. */
  datatype IntegrationOptions = IntegrationOptions(certificateMountPoint: Option<string>) {
    /** `!string.IsNullOrEmpty(CertificateMountPoint)`: a null or empty mount
        point means plaintext. */
    predicate UseHttps()
      ensures UseHttps() <==> certificateMountPoint != None && certificateMountPoint != Some("")
    {
      certificateMountPoint.Some? && certificateMountPoint.value != ""
    }
  }

  /** `OpenShiftCertificateLoader`: the lazily loaded service credential. */
  class OpenShiftCertificateLoader {
    const options: IntegrationOptions
    /** `_certificate`; `None` is null. */
    var certificate: Option<Credential>
    /** How many times `LoadCertificateWithKey` has been invoked. */
    ghost var loads: nat

    ghost predicate Valid()
      reads this
    {
      && (certificate.Some? ==> options.UseHttps())
      && (!options.UseHttps() ==> loads == 0)
    }

    constructor (options: IntegrationOptions)
      ensures Valid() && this.options == options && certificate == None && loads == 0
    {
      this.options := options;
      certificate := None;
      loads := 0;
    }

    /** The `ServiceCertificate` getter. `files` is what the two mounted files
        would yield were they read now; they are read only on a cache miss in
        HTTPS mode. A throwing load propagates and leaves the cache empty. */
    method ServiceCertificate(files: MountedFiles) returns (r: Result<Option<Credential>, Exception>)
      requires Valid()
      modifies this
      ensures Valid()
      ensures old(certificate).Some? ==>
        r == Success(old(certificate)) && certificate == old(certificate) && loads == old(loads)
      ensures old(certificate).None? && !options.UseHttps() ==>
        r == Success(None) && certificate == None && loads == old(loads)
      ensures old(certificate).None? && options.UseHttps() ==>
        && loads == old(loads) + 1
        && (LoadCertificateWithKey(files).Success? ==>
              certificate == Some(LoadCertificateWithKey(files).value) && r == Success(certificate))
        && (LoadCertificateWithKey(files).Failure? ==>
              certificate == None && r == Failure(LoadCertificateWithKey(files).error))
      ensures r.Success? && options.UseHttps() ==> r.value.Some?
    {
      if certificate.None? {
        if options.UseHttps() {
          // Path.Combine(mountPoint, "tls.crt") and "tls.key" name the two files of `files`.
          loads := loads + 1;
          var loaded := LoadCertificateWithKey(files);
          if loaded.Failure? {
            return Failure(loaded.error);
          }
          certificate := Some(loaded.value);
        }
      }
      return Success(certificate);
    }
  }

  /** How Kestrel is told to listen: on every interface, on `port`, with TLS
      presenting `tls` when it is present. */
  datatype Listener = ListenAnyIP(port: int, tls: Option<Credential>)

  /** `KestrelOptionsSetup`: both it and the certificate loader are given the
      same options singleton. */
  class KestrelOptionsSetup {
    const options: IntegrationOptions
    const certificateLoader: OpenShiftCertificateLoader

    constructor (options: IntegrationOptions, certificateLoader: OpenShiftCertificateLoader)
      requires certificateLoader.options == options
      ensures this.options == options && this.certificateLoader == certificateLoader
    {
      this.options := options;
      this.certificateLoader := certificateLoader;
    }

    /** `Configure`: port 8080, plaintext without a mount point and TLS with
        the service credential otherwise. Kestrel runs the `configureListen`
        callback during `ListenAnyIP`, so the credential is fetched here and a
        load failure escapes `Configure`. */
    method Configure(files: MountedFiles) returns (r: Result<Listener, Exception>)
      requires certificateLoader.options == options && certificateLoader.Valid()
      modifies certificateLoader
      ensures certificateLoader.Valid()
      ensures r.Success? ==> r.value.port == ListenPort
      ensures !options.UseHttps() ==>
        && r == Success(ListenAnyIP(ListenPort, None))
        && certificateLoader.certificate == old(certificateLoader.certificate)
        && certificateLoader.loads == old(certificateLoader.loads)
      ensures options.UseHttps() ==>
        && (r.Success? <==> certificateLoader.certificate.Some?)
        && (r.Success? ==> r.value.tls == certificateLoader.certificate)
        && (old(certificateLoader.certificate).Some? ==>
              && r == Success(ListenAnyIP(ListenPort, old(certificateLoader.certificate)))
              && certificateLoader.certificate == old(certificateLoader.certificate)
              && certificateLoader.loads == old(certificateLoader.loads))
        && (old(certificateLoader.certificate).None? ==>
              && certificateLoader.loads == old(certificateLoader.loads) + 1
              && (r.Success? <==> LoadCertificateWithKey(files).Success?)
              && (r.Success? ==> certificateLoader.certificate == Some(LoadCertificateWithKey(files).value))
              && (r.Failure? ==> r.error == LoadCertificateWithKey(files).error))
    {
      if options.UseHttps() {
        var certificate := certificateLoader.ServiceCertificate(files);
        if certificate.Failure? {
          return Failure(certificate.error);
        }
        r := Success(ListenAnyIP(ListenPort, certificate.value));
      } else {
        r := Success(ListenAnyIP(ListenPort, None));
      }
    }
  }

  /** The services `UseOpenShiftIntegration` registers. */
  datatype Service = ConfiguredOptions | CertificateLoaderSingleton | KestrelSetupSingleton | CertificateExpirationService

  /** The part of an `IWebHostBuilder` the extension touches: the configured
      URLs (`None` when never set) and the registered services. */
  datatype HostBuilder = HostBuilder(urls: Option<seq<string>>, services: set<Service>)

  const IntegrationServices: set<Service> :=
    {ConfiguredOptions, CertificateLoaderSingleton, KestrelSetupSingleton, CertificateExpirationService}

  /** `UseOpenShiftIntegration`: a null options callback throws; off the
      platform the builder is returned untouched; on it the URLs are cleared
      and the integration services registered. */
  function UseOpenShiftIntegration(builder: HostBuilder, hasConfigureOptions: bool, isOpenShift: bool)
    : (r: Result<HostBuilder, Exception>)
    ensures !hasConfigureOptions ==> r == Failure(ArgumentNullException("configureOptions"))
    ensures hasConfigureOptions && !isOpenShift ==> r == Success(builder)
    ensures hasConfigureOptions && isOpenShift ==>
      r.Success? && r.value.urls == Some([]) && r.value.services == builder.services + IntegrationServices
  {
    if !hasConfigureOptions then Failure(ArgumentNullException("configureOptions"))
    else if isOpenShift then Success(HostBuilder(Some([]), builder.services + IntegrationServices))
    else Success(builder)
  }
}
