/**
 The identity stamped on a compiled artifact. The digests are functions of the value digested;
 that they are injective, as SHA-256 over canonical JSON is meant to be, is assumed only where a
 lemma says so.
 */
module ArtifactIdentity {
  import opened Results
  import opened DecisionGraph

  /** Everything the identity covers, in the order of the identity document. */
  datatype Identity = Identity(
    compilerVersion: string,
    treeId: nat,
    graphHash: string,
    irFormat: int,
    irHash: string,
    contractHash: Option<string>,
    corpusHash: Option<string>)

  datatype Digests = Digests(
    ofGraph: Graph -> string,
    ofIr: string -> string,
    ofContract: string -> string,
    ofIdentity: Identity -> string)

  datatype Artifact = Artifact(
    id: nat,
    treeId: nat,
    ir: string,
    graphHash: string,
    compilerVersion: string,
    irFormat: int,
    contract: Option<string>,
    contractHash: Option<string>,
    corpusHash: Option<string>,
    irHash: Option<string>,
    artifactHash: Option<string>,
    version: Option<nat>)

  datatype IntegrityError = NotHex | HashWithoutContract | ContractMismatch

  datatype Stamp = Stamp(irHash: string, artifactHash: string)

  predicate IsHex64(s: string) {
    |s| == 64 && forall i :: 0 <= i < |s| ==> '0' <= s[i] <= '9' || 'a' <= s[i] <= 'f'
  }

  predicate HexOrNone(s: Option<string>) {
    s.Some? ==> IsHex64(s.value)
  }

  const HEX_DIGITS := "0123456789abcdef"

  lemma HexDigitsExactly(s: string)
    ensures IsHex64(s) <==> |s| == 64 && forall i :: 0 <= i < |s| ==> s[i] in HEX_DIGITS
  {
    forall c: char ensures c in HEX_DIGITS <==> '0' <= c <= '9' || 'a' <= c <= 'f' {
      assert c in HEX_DIGITS <==> c in {'0', '1', '2', '3', '4', '5', '6', '7', '8', '9', 'a', 'b', 'c', 'd', 'e', 'f'};
    }
  }

  function BuildIdentity(a: Artifact, irHash: string, contractHash: Option<string>): Result<Identity, IntegrityError> {
    if !IsHex64(a.graphHash) || !IsHex64(irHash) || !HexOrNone(contractHash) || !HexOrNone(a.corpusHash) then Err(NotHex)
    else Ok(Identity(a.compilerVersion, a.treeId, a.graphHash, a.irFormat, irHash, contractHash, a.corpusHash))
  }

  function StoredContractHash(d: Digests, a: Artifact): Result<Option<string>, IntegrityError> {
    if a.contract.None? then (if a.contractHash.Some? then Err(HashWithoutContract) else Ok(None))
    else if a.contractHash != Some(d.ofContract(a.contract.value)) then Err(ContractMismatch)
    else Ok(a.contractHash)
  }

  /** The two stamps, from the stored columns only. */
  function ComputeStamp(d: Digests, a: Artifact): Result<Stamp, IntegrityError> {
    var contractHash :- StoredContractHash(d, a);
    var identity :- BuildIdentity(a, d.ofIr(a.ir), contractHash);
    Ok(Stamp(d.ofIr(a.ir), d.ofIdentity(identity)))
  }

  /** What a published artifact consists of: its columns without its key, version and stamps. */
  datatype Content = Content(
    ir: string,
    graphHash: string,
    compilerVersion: string,
    irFormat: int,
    contract: Option<string>,
    contractHash: Option<string>,
    corpusHash: Option<string>)

  function ContentOf(a: Artifact): Content {
    Content(a.ir, a.graphHash, a.compilerVersion, a.irFormat, a.contract, a.contractHash, a.corpusHash)
  }

  predicate Stamped(d: Digests, a: Artifact) {
    && a.version.Some? && a.irHash.Some? && a.artifactHash.Some?
    && ComputeStamp(d, a) == Ok(Stamp(a.irHash.value, a.artifactHash.value))
  }

  predicate Complete(a: Artifact) {
    a.version.Some? && a.irHash.Some? && a.artifactHash.Some?
  }

  ghost predicate Injective<A(!new), B(!new)>(f: A -> B) {
    forall x, y :: f(x) == f(y) ==> x == y
  }

  ghost predicate Faithful(d: Digests) {
    Injective(d.ofGraph) && Injective(d.ofIr) && Injective(d.ofContract) && Injective(d.ofIdentity)
  }

  /** The hashes that enter the identity are digests, and the contract's hash is the contract's. */
  predicate Stampable(d: Digests, c: Content) {
    && IsHex64(c.graphHash) && IsHex64(d.ofIr(c.ir)) && HexOrNone(c.corpusHash)
    && c.contractHash == (if c.contract.Some? then Some(d.ofContract(c.contract.value)) else None) && HexOrNone(c.contractHash)
  }

  /** A row can be stamped exactly when its content can, and the stamp is the digest of everything the identity covers. */
  lemma StampExistsIff(d: Digests, a: Artifact)
    ensures ComputeStamp(d, a).Ok? <==> Stampable(d, ContentOf(a))
    ensures ComputeStamp(d, a).Ok? ==> ComputeStamp(d, a).value == Stamp(d.ofIr(a.ir),
      d.ofIdentity(Identity(a.compilerVersion, a.treeId, a.graphHash, a.irFormat, d.ofIr(a.ir), a.contractHash, a.corpusHash)))
  {
  }

  /** Neither the key, nor the version, nor the stamps themselves enter the stamps. */
  lemma StampIgnoresKey(d: Digests, a: Artifact, b: Artifact)
    requires a.treeId == b.treeId && ContentOf(a) == ContentOf(b)
    ensures ComputeStamp(d, a) == ComputeStamp(d, b)
  {
  }

  /** Two rows of one tree carry the same artifact hash exactly when they hold the same content. */
  lemma SameHashIffSameContent(d: Digests, a: Artifact, b: Artifact)
    requires Faithful(d) && a.treeId == b.treeId
    requires ComputeStamp(d, a).Ok? && ComputeStamp(d, b).Ok?
    ensures ComputeStamp(d, a).value.artifactHash == ComputeStamp(d, b).value.artifactHash <==> ContentOf(a) == ContentOf(b)
  {
    if ComputeStamp(d, a).value.artifactHash == ComputeStamp(d, b).value.artifactHash {
      var ca, cb := StoredContractHash(d, a).value, StoredContractHash(d, b).value;
      var ia, ib := BuildIdentity(a, d.ofIr(a.ir), ca).value, BuildIdentity(b, d.ofIr(b.ir), cb).value;
      assert d.ofIdentity(ia) == d.ofIdentity(ib);
      assert ia == ib;
      assert d.ofIr(a.ir) == d.ofIr(b.ir);
      if a.contract.Some? && b.contract.Some? {
        assert d.ofContract(a.contract.value) == d.ofContract(b.contract.value);
      }
    }
  }

  /** Stamps of different trees never meet, whatever the content. */
  lemma TreesNeverShareHash(d: Digests, a: Artifact, b: Artifact)
    requires Faithful(d) && a.treeId != b.treeId
    requires ComputeStamp(d, a).Ok? && ComputeStamp(d, b).Ok?
    ensures ComputeStamp(d, a).value.artifactHash != ComputeStamp(d, b).value.artifactHash
  {
  }
}
