/** A package signature: a SignedData envelope with exactly one signer, the content
    manifest it carries, and the role its signer certificate claims. The class
    hands out signatures only through its `Load` operations, which either build a
    complete signature or fail with the reason; there is no partly built one. The
    envelope is modelled as an immutable value, so the one-signer invariant that
    `Load` establishes is kept here by the type of `signedCms`. */
module Signatures {
  import opened Wrappers
  import opened Cms
  import Streams

  /** The role a signature claims, as read from its signer certificate. */
  datatype SignatureType = Unknown | Author | Repository

  /** Why a load produced no signature, one kind per exception of the load path. */
  datatype LoadError =
    | ArgumentNull       // the byte array is null
    | MalformedEnvelope  // `SignedCms.Decode` rejected the bytes
    | SignerCount        // the envelope does not have exactly one signer
    | MalformedManifest  // `SignatureManifest.Load` rejected the envelope content
    | StreamFault        // reading the source stream raised an I/O error

  /** An envelope with exactly one signer record. */
  type SingleSignerCms = cms: SignedCms | |cms.signerInfos| == 1
    witness SignedCms([SignerInfo(Certificate([]))], [], [])

  /** The state of a signature: the envelope it was loaded from, the role computed
      from its signer, and the manifest parsed from its content. */
  datatype Signature = Signature(
    signedCms: SingleSignerCms,
    signatureType: SignatureType,
    signatureManifest: SignatureManifest)

  /** The role a signer certificate claims. The Author usage is asked about first,
      so a certificate carrying both usages is an author certificate; one carrying
      neither is Unknown, which is not an error. */
  function GetSignatureType(rt: Runtime, signer: SignerInfo): (t: SignatureType)
    ensures t == Author <==> rt.containsEku(signer.certificate, AuthorKeyUsage)
    ensures t == Repository <==>
      !rt.containsEku(signer.certificate, AuthorKeyUsage) && rt.containsEku(signer.certificate, RepositoryKeyUsage)
    ensures t == Unknown <==>
      !rt.containsEku(signer.certificate, AuthorKeyUsage) && !rt.containsEku(signer.certificate, RepositoryKeyUsage)
  {
    var certificate := signer.certificate;
    if rt.containsEku(certificate, AuthorKeyUsage) then Author
    else if rt.containsEku(certificate, RepositoryKeyUsage) then Repository
    else Unknown
  }

  /** The private constructor: parses the manifest from the envelope content, then
      classifies the sole signer. Only a manifest that fails to parse stops it. Its
      only caller, `LoadCms`, has already checked the signer count. */
  function New(rt: Runtime, cms: SingleSignerCms): (r: Result<Signature, LoadError>)
    ensures r.Success? <==> rt.loadManifest(cms.content).Some?
    ensures r.Failure? ==> r.error == MalformedManifest
    ensures r.Success? ==> r.value.signedCms == cms
    ensures r.Success? ==> Some(r.value.signatureManifest) == rt.loadManifest(cms.content)
    ensures r.Success? ==> r.value.signatureType == GetSignatureType(rt, cms.signerInfos[0])
  {
    match rt.loadManifest(cms.content)
    case None => Failure(MalformedManifest)
    case Some(manifest) =>
      Success(Signature(cms, GetSignatureType(rt, cms.signerInfos[0]), manifest))
  }

  /** `Load(SignedCms)`: an envelope with zero signers or with more than one is
      refused before anything else about it is looked at. */
  function LoadCms(rt: Runtime, cms: SignedCms): (r: Result<Signature, LoadError>)
    ensures |cms.signerInfos| != 1 ==> r == Failure(SignerCount)
    ensures |cms.signerInfos| == 1 ==> r == New(rt, cms)
    ensures r.Success? ==> r.value.signedCms == cms
  {
    if |cms.signerInfos| != 1 then Failure(SignerCount) else New(rt, cms)
  }

  /** `Load(byte[])`: a null array (`None`) is refused before the decoder runs; bytes
      the decoder rejects are a malformed envelope; a decoded envelope goes on to
      `LoadCms`. */
  function LoadBytes(rt: Runtime, data: Option<Bytes>): (r: Result<Signature, LoadError>)
    ensures data.None? ==> r == Failure(ArgumentNull)
    ensures data.Some? && rt.decode(data.value).None? ==> r == Failure(MalformedEnvelope)
    ensures data.Some? && rt.decode(data.value).Some? ==> r == LoadCms(rt, rt.decode(data.value).value)
  {
    match data
    case None => Failure(ArgumentNull)
    case Some(bytes) =>
      match rt.decode(bytes)
      case None => Failure(MalformedEnvelope)
      case Some(cms) => LoadCms(rt, cms)
  }

  /** `Load(Stream)`: drains the stream into memory and loads the bytes read; an I/O
      error while draining ends the load. */
  method LoadStream(rt: Runtime, stream: seq<Streams.ReadOutcome>) returns (r: Result<Signature, LoadError>)
    ensures Streams.Drain(stream).None? ==> r == Failure(StreamFault)
    ensures Streams.Drain(stream).Some? ==> r == LoadBytes(rt, Streams.Drain(stream))
  {
    var drained := Streams.CopyTo(stream);
    match drained
    case None =>
      r := Failure(StreamFault);
    case Some(bytes) =>
      r := LoadBytes(rt, Some(bytes));
  }

  /** The signer record of a signature: the one and only signer of its envelope. */
  function Signer(sig: Signature): (s: SignerInfo)
    ensures sig.signedCms.signerInfos == [s]
  {
    sig.signedCms.signerInfos[0]
  }

  /** The certificates embedded in the envelope, offered to chain building: the
      envelope's own list, same length, same order, nothing dropped or added. */
  function Certificates(sig: Signature): (certs: seq<Certificate>)
    ensures |certs| == |sig.signedCms.certificates|
    ensures forall k :: 0 <= k < |certs| ==> certs[k] == sig.signedCms.certificates[k]
  {
    sig.signedCms.certificates
  }

  /** `GetBytes`: the envelope's encoding, produced by the envelope encoder and by
      nothing else; a decoder that reads the encoder's output back recovers the
      envelope from these bytes. */
  function GetBytes(rt: Runtime, sig: Signature): (b: Bytes)
    ensures b == rt.encode(sig.signedCms)
    ensures rt.decode(rt.encode(sig.signedCms)) == Some(sig.signedCms) ==> rt.decode(b) == Some(sig.signedCms)
  {
    rt.encode(sig.signedCms)
  }

  /** `Save(stream)`: copies the envelope's encoding to the sink through a memory
      stream; `writes` are the successive writes the sink receives. */
  method Save(rt: Runtime, sig: Signature) returns (writes: seq<Bytes>)
    ensures Streams.Concat(writes) == GetBytes(rt, sig)
    ensures forall k :: 0 <= k < |writes| ==> 0 < |writes[k]| <= Streams.CopyBufferSize
  {
    writes := Streams.CopyFromMemory(GetBytes(rt, sig));
  }
}
