/**
 * Sealing: four per-artifact SHA-256 digests, an integrity digest over their colon-joined
 * concatenation in a fixed order, and the seal record that keeps the artifacts verbatim.
 * SHA-256 (`hashlib.sha256(s.encode('utf-8')).hexdigest()`) and the sorted-key JSON
 * serialisation are passed in as functions; the fresh UUID and the time are passed in as values.
 */
module SealManager {
  import opened Wrappers

  /** `hashes`: one digest per artifact. */
  datatype Hashes = Hashes(requirement: string, contract: string, code: string, verification: string)

  /** `artifacts`: the four sealed inputs, kept as given. */
  datatype Artifacts<C, V> = Artifacts(requirement: string, contract: C, code: string, verification: V)

  /** The record written to `seal_<id prefix>.json`; `integrity` starts as `None` and is filled in afterwards. */
  datatype SealRecord<C, V> = SealRecord(
    sealId: string,
    timestamp: string,
    oddVersion: string,
    hashes: Hashes,
    artifacts: Artifacts<C, V>,
    integrity: Option<string>)

  /** What `seal` returns: `{seal_id, file_path, integrity}`. */
  datatype SealResult = SealResult(sealId: string, filePath: string, integrity: string)

  const OddVersion := "0.1.0"

  /** The digests of the four artifacts: raw text for requirement and code, serialised JSON for contract and report. */
  function ComputeHashes<C, V>(
    sha256: string -> string, dumpContract: C -> string, dumpVerification: V -> string,
    requirement: string, contract: C, code: string, verification: V): (h: Hashes)
  {
    Hashes(sha256(requirement), sha256(dumpContract(contract)), sha256(code), sha256(dumpVerification(verification)))
  }

  /** The text the integrity digest is taken over: `requirement:contract:code:verification`. */
  function IntegrityContent(h: Hashes): (text: string)
  {
    h.requirement + ":" + h.contract + ":" + h.code + ":" + h.verification
  }

  /** `f"seal_{seal_id[:8]}.json"`; Python's slice takes the whole id when it is shorter than 8. */
  function SealFileName(sealId: string): (name: string)
    ensures var n := if |sealId| < 8 then |sealId| else 8;
      |name| == 10 + n && name[..5] == "seal_" && name[5..5 + n] == sealId[..n] && name[5 + n..] == ".json"
  {
    "seal_" + (if |sealId| < 8 then sealId else sealId[..8]) + ".json"
  }

  /** A record is intact when its digests and integrity can be recomputed from its own artifacts. */
  ghost predicate Intact<C, V>(
    record: SealRecord<C, V>,
    sha256: string -> string, dumpContract: C -> string, dumpVerification: V -> string)
  {
    var a := record.artifacts;
    && record.hashes == ComputeHashes(sha256, dumpContract, dumpVerification, a.requirement, a.contract, a.code, a.verification)
    && record.integrity == Some(sha256(IntegrityContent(record.hashes)))
  }

  /**
   * `seal`: builds the record with no integrity, fills the integrity in place, and returns
   * the id, the path of the record file and the integrity digest.
   */
  method Seal<C, V>(
    outputDir: string,
    sha256: string -> string, dumpContract: C -> string, dumpVerification: V -> string,
    sealId: string, timestamp: string,
    requirement: string, contract: C, code: string, verification: V)
    returns (record: SealRecord<C, V>, result: SealResult)
    ensures record.sealId == sealId && record.timestamp == timestamp && record.oddVersion == OddVersion
    ensures record.artifacts == Artifacts(requirement, contract, code, verification)
    ensures Intact(record, sha256, dumpContract, dumpVerification)
    ensures record.hashes == ComputeHashes(sha256, dumpContract, dumpVerification, requirement, contract, code, verification)
    ensures result.sealId == record.sealId && record.integrity == Some(result.integrity)
    ensures result.filePath == outputDir + "/" + SealFileName(sealId)
  {
    var contractText := dumpContract(contract);
    var verificationText := dumpVerification(verification);
    record := SealRecord(
      sealId, timestamp, OddVersion,
      Hashes(sha256(requirement), sha256(contractText), sha256(code), sha256(verificationText)),
      Artifacts(requirement, contract, code, verification),
      None);
    record := record.(integrity := Some(sha256(IntegrityContent(record.hashes))));
    var sealFile := outputDir + "/" + SealFileName(sealId);
    result := SealResult(sealId, sealFile, record.integrity.value);
  }

  /**
   * Sealing the same four artifacts twice, under two ids and times, gives the same digests and
   * the same integrity; only the envelope differs.
   */
  method Reseal<C, V>(
    outputDir: string,
    sha256: string -> string, dumpContract: C -> string, dumpVerification: V -> string,
    firstId: string, firstTime: string, secondId: string, secondTime: string,
    requirement: string, contract: C, code: string, verification: V)
    returns (first: SealRecord<C, V>, second: SealRecord<C, V>)
    ensures first.hashes == second.hashes && first.integrity == second.integrity
    ensures first.sealId == firstId && second.sealId == secondId
    ensures first.timestamp == firstTime && second.timestamp == secondTime
  {
    var r1, r2;
    first, r1 := Seal(outputDir, sha256, dumpContract, dumpVerification, firstId, firstTime,
                      requirement, contract, code, verification);
    second, r2 := Seal(outputDir, sha256, dumpContract, dumpVerification, secondId, secondTime,
                       requirement, contract, code, verification);
  }

  /** Hex digests of SHA-256 are 64 characters long. */
  ghost predicate FixedWidth(sha256: string -> string)
  {
    forall s :: |sha256(s)| == 64
  }

  /**
   * An idealisation, not a property of SHA-256 that can be proved: the digest tells these two
   * inputs apart. It is assumed for one pair at a time, by the lemmas that say so.
   */
  ghost predicate Distinguishes(sha256: string -> string, s: string, t: string)
  {
    s != t ==> sha256(s) != sha256(t)
  }

  /** With 64-character digests the integrity text determines all four digests. */
  lemma IntegrityContentInjective(h1: Hashes, h2: Hashes)
    requires |h1.requirement| == |h1.contract| == |h1.code| == |h1.verification| == 64
    requires |h2.requirement| == |h2.contract| == |h2.code| == |h2.verification| == 64
    requires IntegrityContent(h1) == IntegrityContent(h2)
    ensures h1 == h2
  {
    var t1, t2 := IntegrityContent(h1), IntegrityContent(h2);
    assert t1[0..64] == h1.requirement && t2[0..64] == h2.requirement;
    assert t1[65..129] == h1.contract && t2[65..129] == h2.contract;
    assert t1[130..194] == h1.code && t2[130..194] == h2.code;
    assert t1[195..259] == h1.verification && t2[195..259] == h2.verification;
  }

  /**
   * Changing only the code leaves the requirement, contract and verification digests as they
   * were. When SHA-256 tells the two codes apart, the code digest moves and, with 64-character
   * digests, so does the text the integrity is taken over; when it also tells those texts apart,
   * the integrity moves.
   */
  lemma CodeChangeMovesCodeDigestOnly<C, V>(
    sha256: string -> string, dumpContract: C -> string, dumpVerification: V -> string,
    requirement: string, contract: C, code: string, code': string, verification: V)
    requires FixedWidth(sha256)
    requires code != code' && Distinguishes(sha256, code, code')
    ensures var h := ComputeHashes(sha256, dumpContract, dumpVerification, requirement, contract, code, verification);
      var h' := ComputeHashes(sha256, dumpContract, dumpVerification, requirement, contract, code', verification);
      && h'.requirement == h.requirement && h'.contract == h.contract && h'.verification == h.verification
      && h'.code != h.code
      && IntegrityContent(h') != IntegrityContent(h)
      && (Distinguishes(sha256, IntegrityContent(h), IntegrityContent(h')) ==>
            sha256(IntegrityContent(h')) != sha256(IntegrityContent(h)))
  {
    var h := ComputeHashes(sha256, dumpContract, dumpVerification, requirement, contract, code, verification);
    var h' := ComputeHashes(sha256, dumpContract, dumpVerification, requirement, contract, code', verification);
    assert h'.code != h.code;
    if IntegrityContent(h) == IntegrityContent(h') {
      IntegrityContentInjective(h, h');
    }
  }

  /**
   * Tamper evidence: swapping the stored code of an intact record for code whose digest differs,
   * while keeping the stored digests and integrity, leaves a record that is no longer intact.
   */
  lemma TamperedCodeIsDetected<C, V>(
    record: SealRecord<C, V>, code': string,
    sha256: string -> string, dumpContract: C -> string, dumpVerification: V -> string)
    requires Intact(record, sha256, dumpContract, dumpVerification)
    requires code' != record.artifacts.code && Distinguishes(sha256, code', record.artifacts.code)
    ensures !Intact(record.(artifacts := record.artifacts.(code := code')), sha256, dumpContract, dumpVerification)
  {
  }
}
