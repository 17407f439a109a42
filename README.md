# OpenShift certificate integration and market price-gap monitor, in Dafny

This project models the two pieces of logic in the s2i-dotnetcore-ex sample
application that hold more than library glue.

**The OpenShift integration (app/OpenShift.cs).**
- `DotNetUtilities` turns a BouncyCastle RSA private CRT key into the
  platform's `RSAParameters`. `D`, `DP`, `DQ` and `InverseQ` are left-padded
  with zero bytes to the lengths of `Modulus`, `P`, `Q` and `Q`. A field longer
  than its target throws `ArgumentException` and is never truncated.
- `CertificateLoader` picks the private key out of the PEM object of `tls.key`
  and attaches it to the certificate of `tls.crt`.
- `OpenShiftCertificateLoader.ServiceCertificate` loads that credential lazily
  and caches it.
- `OpenShiftEnvironment` reads the `OPENSHIFT_BUILD_*` variables lazily, each
  once, with an unset variable read as `""`.
- `KestrelOptionsSetup.Configure` always binds port 8080: plaintext without a
  certificate mount point, TLS with the service credential otherwise.
- `OpenShiftCertificateExpiration.ExecuteAsync` is meant to stop the
  application shortly before the certificate expires; as written it does so
  only when the wait fits in one `Task.Delay` (see Findings).
- `UseOpenShiftIntegration` registers all of this only when `IsOpenShift` holds.

**The polling loop of app/Program.cs.** For each pair it computes the
percentage gap between the futures mark price and the last price. `gaplist`
counts the polls in a row, after the first, at which the gap has stayed at or
above 1%. An alert goes out once that count exceeds 1, so on the third such
poll and every one after it.

Modules, one per component:
- `Wrappers`: `Option` and `Result`.
- `Exceptions`: the .NET exceptions the code can throw.
- `RsaConversion`: the minimal unsigned big-endian encoding of a `nat`, field
  padding, and `ToRSAParameters`.
- `CertificateLoader`: PEM object selection, reading the key, and combining
  key and certificate.
- `OpenShiftIntegration`: the environment cache class, the options, the
  certificate cache class, the Kestrel setup class, and the DI gate.
- `CertificateExpiration`: the monitor's delay decision, `ExecuteAsync` as
  written, and a corrected re-checking loop.
- `OpenShiftHost`: start-up with one shared certificate loader.
- `MarketPriceGap`: `GetPrice`, `GetPrcentAbs`, the `gaplist` update and the
  polling tick.

How the code's inputs appear in the model:
- The network, the file system and the clock become parameters.
- The environment is a `map<string, string>`.
- What the two mounted files decode to is a `MountedFiles` value.
- The local time at the expiry check (`now`) and the certificate's `NotAfter`
  are whole milliseconds.
- The jitter `new Random().Next(900)` is a parameter in `[0, 900)` seconds.
  The corrected loop takes one such value per pass.
- Cancellation of the token is a boolean flag for the one wait, or an index
  into the waits of the corrected loop.
- Market prices are `real`s. A failed request is `None`. A quote holds the
  mark price and both answers of the two last-price requests `GetPrice` sends.

The model follows the code as written:
- Inside the restart span (`0 < tillExpires <= 15 min`) the code does not
  wait; it stops the application at once (app/OpenShift.cs:109-111, 129-131).
- The braces at app/OpenShift.cs:104-128 are a plain block with no `do`, so
  after a capped wait the code spins in `while (loop);` instead of
  re-checking. The model exposes this as the end state `Spinning`, in which
  `StopApplication` is never called. This is the first row under "Findings".
- The certificate cache has no lock, so the model claims nothing about
  concurrent first access.
- The key-object selection fails only by the cast failure and the null
  dereference; the conversion's `ArgumentException` for an oversized field and
  the read or decode failure of `tls.key` are the other key errors. A key
  of the wrong kind fails with the cast's `InvalidCastException`. An empty PEM
  stream fails with a `NullReferenceException` on the first field access.
- Failures of the certificate load are not caught by `ExecuteAsync`: only
  `TaskCanceledException` is. They escape as `Faulted`.
- The polling tick uses `GetPrice` as written, with its two requests. When it
  returns 0, `GetPrcentAbs` throws `DivideByZeroException`; nothing in `Main`
  catches it, so the tick stops there and the process ends.

## Model

| member | source | states |
|---|---|---|
| `RsaConversion.UnsignedBytesRoundTrip` | app/OpenShift.cs:224-227 | the minimal big-endian encoding of a number denotes that number |
| `RsaConversion.UnsignedBytesMinimal` | app/OpenShift.cs:237 | `ToByteArrayUnsigned` never produces a leading zero byte |
| `RsaConversion.MinimalRoundTrip` | app/OpenShift.cs:237 | every byte sequence without a leading zero is the encoding of the number it denotes, so the encoding is canonical |
| `RsaConversion.MinimalEncodingMatchesValue` | app/OpenShift.cs:224-225 | for a sequence without a leading zero, denoting `n` and being the encoding of `n` are the same thing |
| `RsaConversion.UnsignedBytesFits` | app/OpenShift.cs:239-243 | an encoding fits in `k` bytes exactly when the number is below 256^k |
| `RsaConversion.ZeroPaddingPreservesValue` | app/OpenShift.cs:245-246 | leading zero bytes do not change the big-endian value |
| `RsaConversion.PaddedField` | app/OpenShift.cs:235-248 | the result fails (with `ArgumentException("Specified size too small", "size")`) exactly when the encoding is longer than `size`; it is the encoding unchanged at equal length; otherwise it has length `size`, zeros in the first `size - len` places and the encoding, in order, in the rest |
| `RsaConversion.PaddedFieldPreservesValue` | app/OpenShift.cs:245-247 | a padded field denotes the same number as the unpadded encoding |
| `RsaConversion.ConvertRsaParametersField` | app/OpenShift.cs:235-248 | the array filled by the copy loop is the padded field of the encoding of `n`, and on success it denotes `n` |
| `RsaConversion.ToRsaParameters` | app/OpenShift.cs:221-233 | succeeds iff `D`, `DP`, `DQ`, `InverseQ` fit in the lengths of `Modulus`, `P`, `Q`, `Q`; Modulus, Exponent, P and Q are the plain minimal encodings; D is as long as Modulus, DP as long as P, DQ and InverseQ as long as Q; every failure is the `ArgumentException` |
| `RsaConversion.ToRsaParametersPreservesValues` | app/OpenShift.cs:221-233 | each of the eight fields of a converted key denotes the key number it was made from |
| `RsaConversion.ToRsaParametersFailsIffOversized` | app/OpenShift.cs:228-231 | the conversion fails exactly when a private field is at least 256 to the power of its reference field's byte length |
| `CertificateLoader.SelectPrivateKey` | app/OpenShift.cs:194-199 | a key pair yields its private half, a bare key is used as it is; success exactly for an RSA private CRT key; a null object gives `NullReferenceException`, anything else `InvalidCastException` |
| `CertificateLoader.ReadPrivateKeyAsRsa` | app/OpenShift.cs:190-202 | a read failure propagates, a selection failure propagates, otherwise the result is the conversion of the selected key |
| `CertificateLoader.KeyPairReadsAsPrivateHalf` | app/OpenShift.cs:195-198 | a key pair and its bare private half read identically |
| `CertificateLoader.KeyMatches` | app/OpenShift.cs:187 | the key's modulus and exponent denote the certificate's public numbers; for minimal fields this is byte equality with their encodings |
| `CertificateLoader.LoadCertificateWithKey` | app/OpenShift.cs:184-188 | the certificate is loaded before the key; on success the credential holds the loaded certificate and the converted key, and the key's public part matches the certificate; once both files read, it succeeds iff the key matches, and otherwise fails with the `privateKey` `ArgumentException` |
| `CertificateLoader.MatchingCertificateLoads` | app/OpenShift.cs:184-188 | a certificate carrying the public half of a convertible RSA key loads with that key, into a credential holding the certificate and the converted key |
| `CertificateLoader.CredentialCarriesKey` | app/OpenShift.cs:184-188 | a loaded credential carries the key's modulus and public exponent in its certificate, and a `D` of the modulus' length that denotes the private exponent |
| `OpenShiftIntegration.Lookup` | app/OpenShift.cs:42 | an unset variable reads as `""`, a set one as its value |
| `OpenShiftIntegration.OpenShiftEnvironment.GetFromEnvironmentVariable` | app/OpenShift.cs:38-45 | a cached slot is returned without consulting the environment; an empty slot is filled from the environment with `""` for an unset variable, with exactly one read |
| `OpenShiftIntegration.OpenShiftEnvironment.BuildCommit` | app/OpenShift.cs:32 | memoized read of `OPENSHIFT_BUILD_COMMIT` |
| `OpenShiftIntegration.OpenShiftEnvironment.BuildName` | app/OpenShift.cs:33 | memoized read of `OPENSHIFT_BUILD_NAME` |
| `OpenShiftIntegration.OpenShiftEnvironment.BuildSource` | app/OpenShift.cs:34 | memoized read of `OPENSHIFT_BUILD_SOURCE` |
| `OpenShiftIntegration.OpenShiftEnvironment.BuildNamespace` | app/OpenShift.cs:35 | memoized read of `OPENSHIFT_BUILD_NAMESPACE` |
| `OpenShiftIntegration.OpenShiftEnvironment.BuildReference` | app/OpenShift.cs:36 | memoized read of `OPENSHIFT_BUILD_REFERENCE` |
| `OpenShiftIntegration.OpenShiftEnvironment.IsOpenShift` | app/OpenShift.cs:21 | true iff the (memoized) build name is non-empty; on a hit nothing changes and the environment is not read; on a miss the cache gains only the build-name slot, from one read |
| `OpenShiftIntegration.IntegrationOptions.UseHttps` | app/OpenShift.cs:52 | true iff the mount point is neither null nor empty |
| `OpenShiftIntegration.OpenShiftCertificateLoader.constructor` | app/OpenShift.cs:144-147 | a new loader has an empty cache and has loaded nothing |
| `OpenShiftIntegration.OpenShiftCertificateLoader.ServiceCertificate` | app/OpenShift.cs:149-165 | a cached credential is returned without loading; without a mount point it returns null and never loads; otherwise it loads exactly once, caches a success and leaves the cache empty on a failure, which propagates |
| `OpenShiftIntegration.KestrelOptionsSetup.Configure` | app/OpenShift.cs:66-76 | always port 8080; plaintext and no load without a mount point; with one, TLS presenting the service credential; a filled cache is used with no load; an empty one is loaded once, a success cached and a failure escaping with the cache left empty |
| `OpenShiftIntegration.UseOpenShiftIntegration` | app/OpenShift.cs:264-285 | a null callback throws `ArgumentNullException`; off the platform the builder is unchanged; on it the URLs are cleared and the four integration services registered |
| `CertificateExpiration.Decide` | app/OpenShift.cs:106-126 | no wait iff `tillExpires <= RestartSpan` (this includes `<= 0`); the cap applies iff the delay exceeds `int.MaxValue`; an uncapped delay is positive, at most `int.MaxValue`, equals `tillExpires - RestartSpan + r` and wakes in `[expiresAt - 15 min, expiresAt)` |
| `CertificateExpiration.Outcome` | app/OpenShift.cs:109-134 | no wait means exactly one `StopApplication`; a cancelled wait ends without stopping; a capped wait not cancelled spins; `StopApplication` is issued iff the run completes, and then last |
| `CertificateExpiration.ExecuteAsync` | app/OpenShift.cs:96-136 | without a mount point: no events, no certificate read; otherwise a load failure escapes as `Faulted`, and a loaded credential gives the events and end of `Outcome(Decide(...))`; a filled cache is not reloaded, an empty one is loaded once and holds the credential after a success and nothing after a failure |
| `CertificateExpiration.FarExpiryAlwaysCapped` | app/OpenShift.cs:114-128 | a certificate more than `int.MaxValue` ms beyond both margins is capped whatever the jitter |
| `CertificateExpiration.NinetyDayCertificateIsCapped` | app/OpenShift.cs:114-128 | a certificate 90 days from expiry is capped, so the code as written spins |
| `CertificateExpiration.ExecuteWithRecheck` | app/OpenShift.cs:103-131 | with the `do` restored and a fresh jitter on every pass: every wait is positive and at most `int.MaxValue`; an uncancelled run ends with exactly one `StopApplication`, at once when `tillExpires <= RestartSpan`, else at a time in `[expiresAt - 15 min, expiresAt)` equal to `now` plus the waits; a cancelled run has only waits and no stop; a token firing during one of the waits always ends the run as cancelled, never with a stop |
| `OpenShiftHost.StartIntegration` | app/OpenShift.cs:271-282 | without a mount point: plaintext 8080, no monitor events; a failed load aborts start-up before the monitor runs; otherwise TLS with the loaded credential and the monitor works from that same cached credential, with no second load |
| `MarketPriceGap.Increment` | app/Program.cs:51 | `++` on an `int` adds one, wrapping at `int.MaxValue` |
| `MarketPriceGap.GetPriceAsWritten` | app/Program.cs:83-90 | a failed or zero first request gives 1; otherwise the second answer, or 1 if it fails; it returns 0 only when the second request sees 0 and the first saw something else |
| `MarketPriceGap.GetPriceAsWrittenCanReturnZero` | app/Program.cs:86 | the two-request `GetPrice` returns 0 when the second request sees a zero price |
| `MarketPriceGap.GetPrice` | app/Program.cs:83-90 | the corrected, single-request `GetPrice`: never 0; a failed request or a zero price gives 1; any other price is returned |
| `MarketPriceGap.GetPriceAgreesWhenStable` | app/Program.cs:86 | when both requests see the same answer, the two-request `GetPrice` equals the single-request one |
| `MarketPriceGap.GetPrcentAbs` | app/Program.cs:92-96 | throws `DivideByZeroException` iff `value2` is 0; otherwise non-negative, 0 iff the two values are equal, and multiplied by the absolute value of `value2` it is 100 times the absolute difference of the two values |
| `MarketPriceGap.UpdateGap` | app/Program.cs:43-66 | below 1%: the pair is removed, no alert; at or above, absent: inserted with 0, no alert; at or above, present: count incremented, alert iff the new count exceeds 1 |
| `MarketPriceGap.ConsecutiveGapsAlertFromThirdPoll` | app/Program.cs:43-57 | after `k` consecutive polls at or above 1% from an untracked pair the count is `k - 1`, and poll `i` alerts iff `i >= 2`: the first alert is on the third poll and every later one alerts |
| `MarketPriceGap.BelowThresholdResets` | app/Program.cs:60-66 | one poll below 1% forgets the pair, so the count restarts from 0 |
| `MarketPriceGap.Observe` | app/Program.cs:36-66 | a pair without a mark price is skipped and `gaplist` is unchanged; otherwise it throws `DivideByZeroException` iff the two-request `GetPrice` returned 0, and else the gap of the mark price to that price drives `UpdateGap`, and an alert carries the pair, price and gap |
| `MarketPriceGap.ObserveIsLocal` | app/Program.cs:43-66 | whether observing a pair throws does not depend on `gaplist`; a successful observation changes no other entry, and its own new entry depends only on its old one |
| `MarketPriceGap.PollUpdatesEachPairIndependently` | app/Program.cs:34-67 | with distinct pairs and no exception, each pair's entry after the `foreach` is its own observation of its old entry, and untouched pairs keep theirs |
| `MarketPriceGap.CrashIsFinal` | app/Program.cs:32-42 | after the exception nothing more happens: later iterations leave the state as it was |
| `MarketPriceGap.StableQuotesNeverCrash` | app/Program.cs:83-94 | when both last-price requests of every quote see the same answer, the tick never throws |
| `MarketPriceGap.Tick` | app/Program.cs:34-67 | the in-place loop over the pairs computes the `gaplist`, alerts and exception of `Poll`, stopping at the first exception, and entries of pairs not polled are unchanged |

## Left out

- Reading `tls.crt` and `tls.key`, PEM decoding, `new X509Certificate2` and BouncyCastle's `BigInteger`. These are foreign libraries. Their results are the `MountedFiles` input, and `ToByteArrayUnsigned` is the function `UnsignedBytes`.
- `RSA.Create` is taken to accept the converted parameters unchanged: `ReadPrivateKeyAsRsa` returns the `RsaParameters` themselves. The `CryptographicException` the platform raises for parameters it rejects is not modelled.
- `CopyWithPrivateKey` is reduced to its check that the key's modulus and exponent match the certificate's public key. Its other failures are not modelled: a certificate that already has a private key, and a certificate whose key is not RSA.
- `Path.Combine` of the mount point with `tls.crt` and `tls.key` is not modelled. The two paths are opaque, so the files are given directly.
- `DateTime.Now`, `new Random()`, `Task.Delay` and the `CancellationToken` are parameters. The local-time and UTC conversions of `NotAfter` and the log message texts are not modelled.
- CertificateExpiration.ExecuteAsync: the empty loop `while (loop);` is the end state `Spinning` rather than actual non-termination. Cancellation is observed only at the one wait the block makes.
- CertificateExpiration.ExecuteWithRecheck: the re-read clock is taken to have advanced by exactly the capped wait. It is the corrected monitor; the start-up sequence keeps the code's `ExecuteAsync`.
- OpenShiftHost.StartIntegration: the start-up sequence keeps the code's `ExecuteAsync`, not the corrected loop, since it models the program as it runs.
- The certificate cache and the environment cache have no lock. Concurrent first access and single construction under races are not modelled.
- `UseOpenShiftIntegration` receives the options callback and the `IsOpenShift` answer as inputs. The DI container and `UseUrls` are reduced to a set of registered services and a URL list.
- app/MarketPriceGap/Discord.cs, the Binance client, reading `webhook.txt`, `Regex.Split`, `ulong.Parse`, `Thread.Sleep`, `GC.Collect` and `Console.WriteLine` are not modelled. They are I/O; quotes are inputs and alerts are outputs.
- The outer `while (true)` loop is modelled as one tick (`Tick`). `Streak` models a run of polls of one pair.
- MarketPriceGap.GetPrcentAbs: computed over exact reals. `decimal` rounding and overflow are not modelled.
- The alert's message text is not modelled. It prints the last price on both its "Market price" and "Price" lines.

## Findings

| source | as written | input that shows it | evidently intended | confidence | as-written member | corrected member |
|---|---|---|---|---|---|---|
| app/OpenShift.cs:103-128 | the block after `bool loop;` has no `do`, so it runs once and `while (loop);` is an empty loop | a certificate expiring 90 days from now: the delay exceeds `int.MaxValue` ms, the monitor waits about 24.8 days, sets `loop` and then spins; `StopApplication` is never called | `do { … } while (loop);`, re-computing the remaining time after each capped wait | high, not executed | `CertificateExpiration.NinetyDayCertificateIsCapped` | `CertificateExpiration.ExecuteWithRecheck` |
| app/Program.cs:86 | the last price is requested twice, and only the first answer is tested for zero | first request answers 2, second answers 0: `GetPrice` returns 0, `GetPrcentAbs` throws `DivideByZeroException` and the process ends (`Tick` models this) | one request, with a zero price replaced by 1 | medium, not executed | `MarketPriceGap.GetPriceAsWrittenCanReturnZero` | `MarketPriceGap.GetPrice` |
