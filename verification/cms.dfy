/** The collaborators a package signature is built from, seen only through their
    interfaces: the CMS SignedData envelope of section 5 of RFC 5652 (`SignedCms`), the
    signature manifest carried as its content, and the certificate utility that answers
    extended-key-usage questions. None of their internals is modelled; every operation
    they offer is a field of `Runtime`, so each property proved about a signature holds
    for every decoder, encoder, manifest parser and EKU lookup. */
module Cms {
  import opened Wrappers

  newtype byte = x: int | 0 <= x < 256

  type Bytes = seq<byte>

  /** An X.509 certificate, known only by its raw encoding. */
  datatype Certificate = Certificate(rawData: Bytes)

  /** One signer record of the envelope; the signature only ever looks at its
      certificate. */
  datatype SignerInfo = SignerInfo(certificate: Certificate)

  /** The decoded SignedData envelope: its signer records in order, the certificates
      embedded in it, and the encapsulated content. */
  datatype SignedCms = SignedCms(
    signerInfos: seq<SignerInfo>,
    certificates: seq<Certificate>,
    content: Bytes)

  /** The two extended-key-usage identifiers of version 1 of the signing
      specification. They are distinct values; their dotted-decimal spellings are
      not part of this model. */
  datatype KeyUsageOid = AuthorKeyUsage | RepositoryKeyUsage

  /** The content manifest: the hash algorithm and the package hash it names. */
  datatype SignatureManifest = SignatureManifest(hashAlgorithm: string, hashValue: Bytes)

  /** The external operations a signature relies on:
      - `decode`: `SignedCms.Decode`, `None` when it throws on malformed input;
      - `encode`: `SignedCms.Encode`;
      - `loadManifest`: `SignatureManifest.Load`, `None` when it throws;
      - `containsEku`: `SigningUtility.CertificateContainsEku`. */
  datatype Runtime = Runtime(
    decode: Bytes -> Option<SignedCms>,
    encode: SignedCms -> Bytes,
    loadManifest: Bytes -> Option<SignatureManifest>,
    containsEku: (Certificate, KeyUsageOid) -> bool)
}
