# Package signature (NuGet `Signature`) in Dafny

This project models the `Signature` class of NuGet's package signing: the object
that wraps a CMS SignedData envelope (section 5 of RFC 5652, `SignedCms`) carrying
one signer, its certificates and a signature manifest.

The class contains two pieces of its own logic:

- **The load pipeline.** `Load(byte[])` refuses a null array. It then decodes the
  envelope. `Load(SignedCms)` refuses any envelope whose signer count is not exactly
  one, including zero signers. The private constructor then parses the manifest from
  the envelope content and classifies the signer. Any failure means no `Signature`
  exists. `Load(Stream)` drains the stream and loads the bytes.
- **Role classification.** `GetSignatureType` asks the certificate utility about the
  Author extended key usage (EKU) first, then the Repository EKU. If the certificate
  has neither, the role is Unknown.

The collaborators are not modelled; they are parameters. `Cms.Runtime` bundles them
as function values:

- the `SignedCms` decoder and encoder;
- `SignatureManifest.Load`, a partial function returning an `Option`;
- `SigningUtility.CertificateContainsEku`.

Every property below holds for every choice of these. The two EKU identifiers form a
two-valued datatype, so they are distinct by construction.

Files:

- `wrappers.dfy`: `Option` and `Result`. The exceptions of the load path become
  `Failure` values. A null byte array becomes `None`; no other null is represented.
- `cms.dfy`: the abstract envelope (`SignedCms`: signers, certificates, content) and
  the `Runtime` of collaborators.
- `streams.dfy`: `Stream.CopyTo`, both when draining a source stream and when copying
  a memory stream to a sink.
- `signature.dfy`: the `Signature` class. The `SingleSignerCms` subset type carries
  the one-signer invariant.
- `signature_properties.dfy`: lemmas that relate the operations to each other.

Points where the code promises less than one might expect:

- The code makes no round-trip promise. `GetBytes` returns `SignedCms.Encode()` of
  the stored envelope. So `LoadedBytes` and `GetBytesReloads` assume that the codec
  round-trips that envelope.
- `Load(byte[])` rejects only null. An empty array goes on to the decoder.
- The exception message says "more than one signer", but the check is `!= 1`. Zero
  signers are refused the same way, with `SignerCount`.

## Model

| member | source | states |
|---|---|---|
| Signatures.GetSignatureType | src/NuGet.Core/NuGet.Packaging/Signing/Signatures/Signature.cs:111-123 | The role is Author exactly when the certificate has the Author EKU. It is Repository exactly when it lacks Author and has Repository. It is Unknown exactly when it has neither. No answer of the EKU lookup makes classification fail. |
| Signatures.New | src/NuGet.Core/NuGet.Packaging/Signing/Signatures/Signature.cs:49-54 | Construction succeeds exactly when the manifest parses from the envelope content; otherwise it fails with MalformedManifest. The result keeps the envelope unchanged. Its manifest is the parser's result, and its role is the classification of signer 0. |
| Signatures.LoadCms | src/NuGet.Core/NuGet.Packaging/Signing/Signatures/Signature.cs:76-85 | Any signer count other than one, zero included, fails with SignerCount. With one signer the result is the constructor's. A loaded signature holds the given envelope. |
| Signatures.LoadBytes | src/NuGet.Core/NuGet.Packaging/Signing/Signatures/Signature.cs:87-98 | A null array fails with ArgumentNull. Bytes the decoder rejects fail with MalformedEnvelope. A decoded envelope is loaded as by Load(SignedCms). |
| Signatures.LoadStream | src/NuGet.Core/NuGet.Packaging/Signing/Signatures/Signature.cs:100-108 | An I/O fault while draining fails with StreamFault. Otherwise the result is Load(byte[]) of exactly the bytes the stream delivered. |
| Streams.CopyTo | src/NuGet.Core/NuGet.Packaging/Signing/Signatures/Signature.cs:105 | The iterative copy collects exactly what the recursive reference `Drain` describes. That is every chunk up to the first empty read, or a fault if a read faults first. |
| Signatures.Signer | src/NuGet.Core/NuGet.Packaging/Signing/Signatures/Signature.cs:47 | The signer of a signature is the sole element of its envelope's signer list. |
| Signatures.Certificates | src/NuGet.Core/NuGet.Packaging/Signing/Signatures/Signature.cs:42 | The accessor returns the envelope's certificate list with the same length and the same element at every index: nothing is filtered or reordered. LoadedCertificates proves that after a load from bytes this is the decoded envelope's list. |
| Signatures.GetBytes | src/NuGet.Core/NuGet.Packaging/Signing/Signatures/Signature.cs:71-74 | The bytes are the envelope encoder's output for the stored envelope. A decoder that reads that output back recovers the envelope from them. LoadedBytes and GetBytesReloads prove what this means after a load. |
| Signatures.Save | src/NuGet.Core/NuGet.Packaging/Signing/Signatures/Signature.cs:60-66 | The writes the sink receives concatenate to exactly GetBytes. Each write is non-empty and at most one copy buffer long. |
| Streams.CopyFromMemory | src/NuGet.Core/NuGet.Packaging/Signing/Signatures/Signature.cs:62-65 | Copying a memory stream writes its bytes in order, split into buffer-sized writes. Only the last write may be shorter. |
| SignatureProperties.SignerCountCheckedFirst | src/NuGet.Core/NuGet.Packaging/Signing/Signatures/Signature.cs:78-82 | With a signer count other than one, the load fails with SignerCount for every runtime. The manifest parser and the EKU lookup are never consulted. |
| SignatureProperties.LoadCmsSucceeds | src/NuGet.Core/NuGet.Packaging/Signing/Signatures/Signature.cs:47-85 | Load(SignedCms) succeeds if and only if there is one signer and the manifest parses. On success the signer is the envelope's signer 0, and the manifest is the parser's result. |
| SignatureProperties.LoadCmsCharacterized | src/NuGet.Core/NuGet.Packaging/Signing/Signatures/Signature.cs:49-85 | Load(SignedCms) yields sig exactly when sig holds that envelope, the parsed manifest and the signer's role. At load time a signature is therefore determined by the envelope it was loaded from. |
| SignatureProperties.SecondSignerRejected | src/NuGet.Core/NuGet.Packaging/Signing/Signatures/Signature.cs:78-82 | Appending any second signer to an envelope that loads makes the load fail with SignerCount. |
| SignatureProperties.RepositorySignatureLoads | src/NuGet.Core/NuGet.Packaging/Signing/Signatures/Signature.cs:49-54 | Take a single-signer envelope with a parsable manifest whose signer has only the Repository EKU. It loads as a Repository signature with that manifest. |
| SignatureProperties.NullRejectedBeforeDecoding | src/NuGet.Core/NuGet.Packaging/Signing/Signatures/Signature.cs:89-92 | A null array fails with ArgumentNull, and the result is the same for every decoder, so decoding is never attempted. |
| SignatureProperties.LoadBytesOutcome | src/NuGet.Core/NuGet.Packaging/Signing/Signatures/Signature.cs:87-98 | Each stage of Load(byte[]) has an if-and-only-if condition for its outcome, in pipeline order: MalformedEnvelope, then SignerCount, then MalformedManifest, then success. A non-null array never yields ArgumentNull. |
| SignatureProperties.LoadedCertificates | src/NuGet.Core/NuGet.Packaging/Signing/Signatures/Signature.cs:42-47 | After a load from bytes, Certificates is exactly the decoded envelope's certificate list, not filtered or reordered. That envelope's signer list is exactly [Signer]. |
| SignatureProperties.LoadedBytes | src/NuGet.Core/NuGet.Packaging/Signing/Signatures/Signature.cs:71-74 | After a load from bytes, GetBytes is the encoder's output for the decoded envelope. It equals the loaded bytes whenever the codec reproduces them. |
| SignatureProperties.GetBytesReloads | src/NuGet.Core/NuGet.Packaging/Signing/Signatures/Signature.cs:71-98 | Suppose the decoder reads a well-formed signature's encoding back as its envelope. Then Load(GetBytes()) returns that same signature. |
| SignatureProperties.AuthorUsageWins | src/NuGet.Core/NuGet.Packaging/Signing/Signatures/Signature.cs:114-117 | A certificate with the Author EKU is classified Author, whether or not it also has the Repository EKU. |
| SignatureProperties.RoleDependsOnlyOnUsages | src/NuGet.Core/NuGet.Packaging/Signing/Signatures/Signature.cs:111-123 | Two runtimes that give the same answers for the two EKUs of a certificate assign it the same role. |
| SignatureProperties.DrainOfChunks | src/NuGet.Core/NuGet.Packaging/Signing/Signatures/Signature.cs:105 | Draining a stream of non-empty chunks that then ends yields their concatenation. |
| SignatureProperties.SavedStreamReloads | src/NuGet.Core/NuGet.Packaging/Signing/Signatures/Signature.cs:60-108 | The writes Save produces, read back as a stream, drain to exactly GetBytes. A well-formed signature then reloads through Load(Stream) unchanged, under the same codec hypothesis. |

## Left out

- Signatures.New: takes an envelope already known to have one signer. The private constructor's only caller is Load(SignedCms), and that caller has checked the count.
- The CMS encoding and decoding (RFC 5652) are external. The model makes no round-trip claim of its own; see LoadedBytes.
- The parsing inside `SignatureManifest.Load` and its hash-algorithm handling are external. The model keeps it as a partial function.
- The envelope is modelled as an immutable value. In the code, `Load(SignedCms)` keeps the caller's mutable `SignedCms` without copying it, and exposes it as a public property. `SignerInfo` and `Certificates` read that live object, while `Type` and `SignatureManifest` are fixed at construction. A caller that later removes or adds signers on the object can make `SignerInfo` throw or name another signer, and leave `Type` stale. The one-signer invariant, and the claim that a signature is determined by its envelope, hold at load time. The model does not follow later mutations.
- The signer's certificate is always present in the model. In the code, `SignerInfo.Certificate` is null when the envelope does not embed the signer's certificate. Classification then hands null to `CertificateContainsEku`, whose behaviour on null is not part of this model. GetSignatureType's totality holds only for an embedded signer certificate.
- Load(Stream) with a null stream is not modelled. `using` accepts null, and `stream.CopyTo` then throws `NullReferenceException`. A model stream is a sequence of read outcomes and is never null.
- A stream that never reports its end makes Load(Stream) never return. A model stream is a finite sequence of reads, so every model load terminates.
- The EKU lookup is external. So are the OID strings in `SigningSpecifications.V1`, which are not part of this model. Only their distinctness is used.
- Load(SignedCms) with a null envelope is not modelled. It dereferences its argument, so a model envelope is never null.
- The null check in the private constructor (line 51) is unreachable, because its only caller dereferences the envelope first.
- Stream disposal (`using`) and I/O errors while writing to the sink in Save are not modelled. The model's sink accepts every write.
- Streams.CopyTo: a read in the model may deliver any number of bytes. The bound of one copy buffer per read, which the stream honours, is not stated.
- The non-desktop build's `GetBytes`, which throws `NotSupportedException` (line 129), is a platform stub with no logic.
- Signature verification, certificate chain building, trust and timestamps are absent here. Nothing in this class performs them.
