/** `CertificateLoader` in app/OpenShift.cs: reads the mounted PEM key,
    converts it to `RSAParameters` and attaches it to the certificate. */
module CertificateLoader {
  import opened Wrappers
  import opened Exceptions
  import opened RsaConversion

  /** A BouncyCastle asymmetric key parameter as the PEM reader produces it. */
  datatype KeyParameter =
    | RsaPrivateCrt(key: RsaPrivateCrtKey)
    /** Any other key: an RSA public key, an EC or DSA key, ... */
    | OtherKey

  /** What `PemReader.ReadObject` returns for the key file. */
  datatype PemObject =
    /** The stream held no PEM object (`ReadObject` returned null). */
    | NoObject
    /** An `AsymmetricCipherKeyPair`. */
    | KeyPair(publicKey: KeyParameter, privateKey: KeyParameter)
    /** A bare key parameter. */
    | Key(parameter: KeyParameter)
    /** Anything else: a certificate, a certificate request, ... */
    | OtherObject

  /** The key-object selection of `ReadPrivateKeyAsRSA`: a key pair yields its
      private half, anything else is used as it is, and the result must be an
      RSA private CRT key. A null object passes the cast and fails on the
      first field access in `ToRSAParameters`. */
  function SelectPrivateKey(obj: PemObject): (r: Result<RsaPrivateCrtKey, Exception>)
    ensures r.Success? <==>
      || (obj.KeyPair? && obj.privateKey.RsaPrivateCrt?)
      || (obj.Key? && obj.parameter.RsaPrivateCrt?)
    ensures obj.KeyPair? && r.Success? ==> r.value == obj.privateKey.key
    ensures obj.Key? && r.Success? ==> r.value == obj.parameter.key
    ensures r.Failure? ==> r.error == (if obj.NoObject? then NullReferenceException else InvalidCastException)
  {
    var candidate := if obj.KeyPair? then Key(obj.privateKey) else obj;
    match candidate
    case NoObject => Failure(NullReferenceException)
    case Key(RsaPrivateCrt(key)) => Success(key)
    case _ => Failure(InvalidCastException)
  }

  /** `ReadPrivateKeyAsRSA`: `keyFile` is what reading and PEM-decoding
      tls.key yields (the object, or the exception the read threw). */
  function ReadPrivateKeyAsRsa(keyFile: Result<PemObject, Exception>): (r: Result<RsaParameters, Exception>)
    ensures keyFile.Failure? ==> r == Failure(keyFile.error)
    ensures keyFile.Success? && SelectPrivateKey(keyFile.value).Failure? ==> r == Failure(SelectPrivateKey(keyFile.value).error)
    ensures keyFile.Success? && SelectPrivateKey(keyFile.value).Success? ==>
      r == ToRsaParameters(SelectPrivateKey(keyFile.value).value)
  {
    var obj :- keyFile;
    var key :- SelectPrivateKey(obj);
    ToRsaParameters(key)
  }

  /** The part of an `X509Certificate2` the model needs: its expiry (`NotAfter`,
      in milliseconds) and the public half of its RSA key. */
  datatype X509Certificate = X509Certificate(notAfter: int, modulus: nat, publicExponent: nat)

  /** A certificate with its private key attached (`CopyWithPrivateKey`). */
  datatype Credential = Credential(certificate: X509Certificate, privateKey: RsaParameters)

  /** What reading the two mounted files yields at the moment of the call:
      the decoded tls.crt and the PEM object of tls.key, or the exception. */
  datatype MountedFiles = MountedFiles(
    certificateFile: Result<X509Certificate, Exception>,
    keyFile: Result<PemObject, Exception>)

  /** `CopyWithPrivateKey` refuses a key whose public part differs from the
      certificate's public key. */
  predicate KeyMatches(certificate: X509Certificate, key: RsaParameters)
    ensures Minimal(key.modulus) && Minimal(key.exponent) ==>
      (KeyMatches(certificate, key) <==>
        key.modulus == UnsignedBytes(certificate.modulus) && key.exponent == UnsignedBytes(certificate.publicExponent))
  {
    MinimalEncodingMatchesValue(key.modulus, certificate.modulus);
    MinimalEncodingMatchesValue(key.exponent, certificate.publicExponent);
    ValueOf(key.modulus) == certificate.modulus && ValueOf(key.exponent) == certificate.publicExponent
  }

  /** `LoadCertificateWithKey`: the certificate is loaded first, then the key,
      then the two are combined. */
  function LoadCertificateWithKey(files: MountedFiles): (r: Result<Credential, Exception>)
    ensures files.certificateFile.Failure? ==> r == Failure(files.certificateFile.error)
    ensures files.certificateFile.Success? && ReadPrivateKeyAsRsa(files.keyFile).Failure? ==>
      r == Failure(ReadPrivateKeyAsRsa(files.keyFile).error)
    ensures r.Success? ==>
      && files.certificateFile == Success(r.value.certificate)
      && ReadPrivateKeyAsRsa(files.keyFile) == Success(r.value.privateKey)
      && KeyMatches(r.value.certificate, r.value.privateKey)
    ensures files.certificateFile.Success? && ReadPrivateKeyAsRsa(files.keyFile).Success? ==>
      && (r.Success? <==> KeyMatches(files.certificateFile.value, ReadPrivateKeyAsRsa(files.keyFile).value))
      && (r.Failure? ==>
            r.error == ArgumentException("The provided key does not match the public key for this certificate.", "privateKey"))
  {
    var certificate :- files.certificateFile;
    var key :- ReadPrivateKeyAsRsa(files.keyFile);
    if KeyMatches(certificate, key) then Success(Credential(certificate, key))
    else Failure(ArgumentException("The provided key does not match the public key for this certificate.", "privateKey"))
  }

  /** A credential built from an RSA key file carries exactly the key's
      numbers, and its public half is the certificate's public key. */
  lemma CredentialCarriesKey(files: MountedFiles, key: RsaPrivateCrtKey)
    requires files.keyFile.Success? && SelectPrivateKey(files.keyFile.value) == Success(key)
    requires LoadCertificateWithKey(files).Success?
    ensures var c := LoadCertificateWithKey(files).value;
      && c.certificate.modulus == key.modulus
      && c.certificate.publicExponent == key.publicExponent
      && ValueOf(c.privateKey.d) == key.exponent
      && |c.privateKey.d| == |c.privateKey.modulus|
  {
    ToRsaParametersPreservesValues(key);
  }

  /** A certificate whose public key is the key's own public half loads with
      that key: every convertible RSA key file yields a credential. */
  lemma MatchingCertificateLoads(notAfter: int, keyObject: PemObject, key: RsaPrivateCrtKey)
    requires SelectPrivateKey(keyObject) == Success(key) && ToRsaParameters(key).Success?
    ensures var files := MountedFiles(Success(X509Certificate(notAfter, key.modulus, key.publicExponent)), Success(keyObject));
      LoadCertificateWithKey(files) == Success(Credential(files.certificateFile.value, ToRsaParameters(key).value))
  {
    ToRsaParametersPreservesValues(key);
  }

  /** A key pair and its bare private half are read identically. */
  lemma KeyPairReadsAsPrivateHalf(publicKey: KeyParameter, privateKey: KeyParameter)
    ensures ReadPrivateKeyAsRsa(Success(KeyPair(publicKey, privateKey))) ==
            ReadPrivateKeyAsRsa(Success(Key(privateKey)))
  {
  }
}
