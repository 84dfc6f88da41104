/** Properties of package signatures that relate several operations, or one
    operation under different collaborators. */
module SignatureProperties {
  import opened Wrappers
  import opened Cms
  import opened Streams
  import opened Signatures

  /** What every loaded signature satisfies relative to its envelope: the manifest is
      the one the manifest parser returns for the envelope content, and the role is
      the one its sole signer's certificate claims. (The single signer is already
      guaranteed by the type of `signedCms`.) */
  ghost predicate WellFormed(rt: Runtime, sig: Signature) {
    && rt.loadManifest(sig.signedCms.content) == Some(sig.signatureManifest)
    && sig.signatureType == GetSignatureType(rt, Signer(sig))
  }

  // ---------------------------------------------------------------------------
  // Load(SignedCms)

  /** The signer count is checked before the manifest parser or the EKU lookup is
      consulted: with zero signers or with several, every runtime gives the same
      failure. */
  lemma SignerCountCheckedFirst(rt: Runtime, rt': Runtime, cms: SignedCms)
    requires |cms.signerInfos| != 1
    ensures LoadCms(rt, cms) == Failure(SignerCount)
    ensures LoadCms(rt, cms) == LoadCms(rt', cms)
  {
  }

  /** Loading succeeds exactly when the envelope has one signer and its content
      parses as a manifest, and a loaded signature keeps that signer at index 0. */
  lemma LoadCmsSucceeds(rt: Runtime, cms: SignedCms)
    ensures LoadCms(rt, cms).Success? <==>
      |cms.signerInfos| == 1 && rt.loadManifest(cms.content).Some?
    ensures LoadCms(rt, cms).Success? ==>
      && Signer(LoadCms(rt, cms).value) == cms.signerInfos[0]
      && Some(LoadCms(rt, cms).value.signatureManifest) == rt.loadManifest(cms.content)
  {
  }

  /** A loaded signature is well formed, and every well-formed signature is exactly
      what loading its own envelope yields: at load time, a signature is determined
      by the envelope it was loaded from. */
  lemma LoadCmsCharacterized(rt: Runtime, cms: SignedCms, sig: Signature)
    ensures LoadCms(rt, cms) == Success(sig) <==> sig.signedCms == cms && WellFormed(rt, sig)
  {
  }

  /** Adding a second signer to an envelope that loads makes it fail, whatever the
      signer is. */
  lemma SecondSignerRejected(rt: Runtime, cms: SignedCms, extra: SignerInfo)
    requires LoadCms(rt, cms).Success?
    ensures LoadCms(rt, cms.(signerInfos := cms.signerInfos + [extra])) == Failure(SignerCount)
  {
  }

  /** A single-signer envelope whose content is a manifest and whose signer carries
      only the Repository usage loads as a repository signature holding that manifest. */
  lemma RepositorySignatureLoads(rt: Runtime, cms: SignedCms, manifest: SignatureManifest)
    requires |cms.signerInfos| == 1
    requires rt.loadManifest(cms.content) == Some(manifest)
    requires !rt.containsEku(cms.signerInfos[0].certificate, AuthorKeyUsage)
    requires rt.containsEku(cms.signerInfos[0].certificate, RepositoryKeyUsage)
    ensures LoadCms(rt, cms) == Success(Signature(cms, Repository, manifest))
  {
  }

  // ---------------------------------------------------------------------------
  // Load(byte[])

  /** A null array is refused before decoding: the result does not depend on the
      decoder, nor on any other collaborator. */
  lemma NullRejectedBeforeDecoding(rt: Runtime, rt': Runtime)
    ensures LoadBytes(rt, None) == Failure(ArgumentNull)
    ensures LoadBytes(rt, None) == LoadBytes(rt', None)
  {
  }

  /** The outcome of loading an array, one case per stage of the pipeline, in the
      order the stages run: decoding, then the signer count, then the manifest. */
  lemma LoadBytesOutcome(rt: Runtime, data: Bytes)
    ensures LoadBytes(rt, Some(data)) == Failure(MalformedEnvelope) <==>
      rt.decode(data).None?
    ensures LoadBytes(rt, Some(data)) == Failure(SignerCount) <==>
      rt.decode(data).Some? && |rt.decode(data).value.signerInfos| != 1
    ensures LoadBytes(rt, Some(data)) == Failure(MalformedManifest) <==>
      && rt.decode(data).Some?
      && |rt.decode(data).value.signerInfos| == 1
      && rt.loadManifest(rt.decode(data).value.content).None?
    ensures LoadBytes(rt, Some(data)).Success? <==>
      && rt.decode(data).Some?
      && |rt.decode(data).value.signerInfos| == 1
      && rt.loadManifest(rt.decode(data).value.content).Some?
    ensures LoadBytes(rt, Some(data)) != Failure(ArgumentNull)
    ensures LoadBytes(rt, Some(data)) != Failure(StreamFault)
  {
  }

  /** A signature loaded from bytes exposes the decoded envelope unchanged: its
      certificates, in their order and without filtering, and its only signer. */
  lemma LoadedCertificates(rt: Runtime, data: Bytes, sig: Signature)
    requires LoadBytes(rt, Some(data)) == Success(sig)
    ensures rt.decode(data).Some?
    ensures Certificates(sig) == rt.decode(data).value.certificates
    ensures rt.decode(data).value.signerInfos == [Signer(sig)]
  {
  }

  /** The bytes of a signature loaded from bytes are the encoder's output for the
      decoded envelope. The last postcondition is a corollary of that one: when the
      codec reproduces the input for this envelope, `GetBytes` gives back the very
      bytes loaded. */
  lemma LoadedBytes(rt: Runtime, data: Bytes, sig: Signature)
    requires LoadBytes(rt, Some(data)) == Success(sig)
    ensures rt.decode(data).Some?
    ensures GetBytes(rt, sig) == rt.encode(rt.decode(data).value)
    ensures rt.encode(rt.decode(data).value) == data ==> GetBytes(rt, sig) == data
  {
  }

  /** Re-loading the bytes of a well-formed signature gives the same signature back,
      provided the decoder reads its envelope's encoding as that envelope. */
  lemma GetBytesReloads(rt: Runtime, sig: Signature)
    requires WellFormed(rt, sig)
    requires rt.decode(rt.encode(sig.signedCms)) == Some(sig.signedCms)
    ensures LoadBytes(rt, Some(GetBytes(rt, sig))) == Success(sig)
  {
  }

  // ---------------------------------------------------------------------------
  // Role classification

  /** A certificate with the Author usage is an author certificate, whether or not
      it also has the Repository usage. A corollary of the first postcondition of
      `GetSignatureType`, stated on its own as the tie-break rule. */
  lemma AuthorUsageWins(rt: Runtime, signer: SignerInfo)
    requires rt.containsEku(signer.certificate, AuthorKeyUsage)
    ensures GetSignatureType(rt, signer) == Author
  {
  }

  /** The role depends on nothing but the two EKU answers for the signer
      certificate: two runtimes that agree on them classify alike. */
  lemma RoleDependsOnlyOnUsages(rt: Runtime, rt': Runtime, signer: SignerInfo)
    requires rt.containsEku(signer.certificate, AuthorKeyUsage) == rt'.containsEku(signer.certificate, AuthorKeyUsage)
    requires rt.containsEku(signer.certificate, RepositoryKeyUsage) == rt'.containsEku(signer.certificate, RepositoryKeyUsage)
    ensures GetSignatureType(rt, signer) == GetSignatureType(rt', signer)
  {
  }

  // ---------------------------------------------------------------------------
  // Streams

  /** The read outcomes of a stream that delivers `chunks` in order and then ends. */
  function AsStream(chunks: seq<Bytes>): (s: seq<ReadOutcome>)
    ensures |s| == |chunks|
    ensures forall k :: 0 <= k < |chunks| ==> s[k] == Chunk(chunks[k])
  {
    if |chunks| == 0 then [] else [Chunk(chunks[0])] + AsStream(chunks[1..])
  }

  lemma {:induction false} ConcatFront(chunks: seq<Bytes>)
    requires |chunks| > 0
    ensures Concat(chunks) == chunks[0] + Concat(chunks[1..])
    decreases |chunks|
  {
    var n := |chunks|;
    if n == 1 {
      assert chunks[..0] == [];
      assert chunks[1..] == [];
    } else {
      ConcatFront(chunks[..n - 1]);
      assert chunks[..n - 1][1..] == chunks[1..][..n - 2];
      assert chunks[..n - 1][0] == chunks[0];
      assert chunks[1..][n - 2] == chunks[n - 1];
    }
  }

  /** Draining a stream of non-empty chunks that ends normally yields their
      concatenation. */
  lemma {:induction false} DrainOfChunks(chunks: seq<Bytes>)
    requires forall k :: 0 <= k < |chunks| ==> |chunks[k]| > 0
    ensures Drain(AsStream(chunks)) == Some(Concat(chunks))
    decreases |chunks|
  {
    if |chunks| > 0 {
      var s := AsStream(chunks);
      assert s[1..] == AsStream(chunks[1..]);
      DrainOfChunks(chunks[1..]);
      ConcatFront(chunks);
    }
  }

  /** What `Save` writes, read back as a stream, loads as `Load(byte[])` of
      `GetBytes`; so a well-formed signature survives a save and a stream load
      whenever the decoder reads its envelope's encoding as that envelope. */
  lemma SavedStreamReloads(rt: Runtime, sig: Signature, writes: seq<Bytes>)
    requires Concat(writes) == GetBytes(rt, sig)
    requires forall k :: 0 <= k < |writes| ==> |writes[k]| > 0
    ensures Drain(AsStream(writes)) == Some(GetBytes(rt, sig))
    ensures WellFormed(rt, sig) && rt.decode(rt.encode(sig.signedCms)) == Some(sig.signedCms) ==>
      LoadBytes(rt, Drain(AsStream(writes))) == Success(sig)
  {
    DrainOfChunks(writes);
    if WellFormed(rt, sig) && rt.decode(rt.encode(sig.signedCms)) == Some(sig.signedCms) {
      GetBytesReloads(rt, sig);
    }
  }
}
