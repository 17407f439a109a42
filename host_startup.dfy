/** The wiring `UseOpenShiftIntegration` sets up: one certificate loader
    singleton shared by the Kestrel setup and the expiration service. Kestrel
    is configured first; the hosted service starts after the server. */
module OpenShiftHost {
  import opened Wrappers
  import opened Exceptions
  import opened CertificateLoader
  import opened OpenShiftIntegration
  import opened CertificateExpiration

  /** Start-up with the integration active. `filesAtBind` and `filesAtMonitor`
      are what the mounted files would yield when Kestrel is configured and
      when the monitor starts; `monitor` is `None` when a failed load aborted
      start-up before the monitor ran. */
  method StartIntegration(
    options: IntegrationOptions, filesAtBind: MountedFiles, filesAtMonitor: MountedFiles,
    now: int, jitter: int, cancelled: bool)
    returns (listener: Result<Listener, Exception>, events: seq<Event>, monitor: Option<End>)
    requires 0 <= jitter < JitterBound
    ensures !options.UseHttps() ==>
      listener == Success(ListenAnyIP(ListenPort, None)) && events == [] && monitor == Some(Completed)
    ensures options.UseHttps() && LoadCertificateWithKey(filesAtBind).Failure? ==>
      listener == Failure(LoadCertificateWithKey(filesAtBind).error) && events == [] && monitor == None
    ensures options.UseHttps() && LoadCertificateWithKey(filesAtBind).Success? ==>
      var credential := LoadCertificateWithKey(filesAtBind).value;
      var notAfter := credential.certificate.notAfter;
      && listener == Success(ListenAnyIP(ListenPort, Some(credential)))
      && monitor.Some?
      && (events, monitor.value) == Outcome(Decide(notAfter, now, jitter), notAfter, cancelled)
  {
    var loader := new OpenShiftCertificateLoader(options);
    var setup := new KestrelOptionsSetup(options, loader);
    listener := setup.Configure(filesAtBind);
    if listener.Failure? {
      return listener, [], None;
    }
    ghost var credential := loader.certificate;
    if options.UseHttps() {
      assert credential == Some(LoadCertificateWithKey(filesAtBind).value);
      assert MonitoredCredential(credential, filesAtMonitor) == Success(credential.value);
    }
    var end;
    events, end := ExecuteAsync(loader, filesAtMonitor, now, jitter, cancelled);
    monitor := Some(end);
  }
}
