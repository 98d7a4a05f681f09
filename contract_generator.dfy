/**
 * Matching a free-form requirement to an artifact type by keyword counts, and projecting
 * the matched configuration into a contract (or into the error record when nothing matches).
 */
module ContractGenerator {
  import opened Wrappers
  import opened TextOps
  import opened Standards

  /** How many entries of `keywords`, lower-cased, occur in `requirementLower`; duplicate entries count again. */
  function Score(keywords: seq<string>, requirementLower: string): (n: nat)
    ensures n <= |keywords|
    ensures n == 0 <==> forall i :: 0 <= i < |keywords| ==> !Contains(requirementLower, Lower(keywords[i]))
  {
    if keywords == [] then 0
    else
      var last := keywords[|keywords| - 1];
      var front := keywords[..|keywords| - 1];
      assert forall i :: 0 <= i < |front| ==> front[i] == keywords[i];
      Score(front, requirementLower) + (if Contains(requirementLower, Lower(last)) then 1 else 0)
  }

  /** Indices of the keyword entries that occur in the requirement. */
  ghost function FoundIndices(keywords: seq<string>, requirementLower: string): set<int>
  {
    set i | 0 <= i < |keywords| && Contains(requirementLower, Lower(keywords[i]))
  }

  /** The score is the number of keyword positions whose entry occurs: each list entry counts once, duplicates separately. */
  lemma {:induction false} ScoreCountsEntries(keywords: seq<string>, requirementLower: string)
    ensures Score(keywords, requirementLower) == |FoundIndices(keywords, requirementLower)|
  {
    if keywords != [] {
      var n := |keywords| - 1;
      var front := keywords[..n];
      ScoreCountsEntries(front, requirementLower);
      var before := FoundIndices(front, requirementLower);
      assert forall i :: 0 <= i < n ==> front[i] == keywords[i];
      if Contains(requirementLower, Lower(keywords[n])) {
        assert FoundIndices(keywords, requirementLower) == before + {n};
      } else {
        assert FoundIndices(keywords, requirementLower) == before;
      }
    }
  }

  /** The artifacts to scan: `standards.get('artifacts', {})`. */
  function Entries(lib: StandardLibrary): (table: ArtifactTable)
  {
    lib.artifacts.GetOr([])
  }

  /** The score of one artifact configuration; a missing keyword list scores 0. */
  function ArtifactScore(config: ArtifactConfig, requirement: string): (n: nat)
  {
    Score(config.keywords.GetOr([]), Lower(requirement))
  }

  /** `k` is the first index holding the highest score. */
  ghost predicate FirstMaximum(entries: seq<(string, ArtifactConfig)>, requirement: string, k: int)
  {
    && 0 <= k < |entries|
    && (forall j :: 0 <= j < |entries| ==> ArtifactScore(entries[j].1, requirement) <= ArtifactScore(entries[k].1, requirement))
    && (forall j :: 0 <= j < k ==> ArtifactScore(entries[j].1, requirement) < ArtifactScore(entries[k].1, requirement))
  }

  /** `(best_match, best_score)` after the scanning loop has visited `entries`. */
  function Scan(entries: seq<(string, ArtifactConfig)>, requirement: string): (best: (Option<string>, nat))
  {
    if entries == [] then (None, 0)
    else
      var (bestMatch, bestScore) := Scan(entries[..|entries| - 1], requirement);
      var (id, config) := entries[|entries| - 1];
      var score := ArtifactScore(config, requirement);
      if score > bestScore then (Some(id), score) else (bestMatch, bestScore)
  }

  /** `match_artifact_type`: the scan's best match, provided its score is positive. */
  function Match(lib: StandardLibrary, requirement: string): (r: Option<string>)
  {
    var (bestMatch, bestScore) := Scan(Entries(lib), requirement);
    if bestScore > 0 then bestMatch else None
  }

  /** Facts about one step of the scan: it looks at the front and then at the last entry. */
  lemma ScanStep(entries: seq<(string, ArtifactConfig)>, requirement: string)
    requires entries != []
    ensures var n := |entries| - 1;
      var s := Scan(entries[..n], requirement).1;
      var score := ArtifactScore(entries[n].1, requirement);
      Scan(entries, requirement) ==
        if score > s then (Some(entries[n].0), score) else Scan(entries[..n], requirement)
  {
  }

  /** An old first maximum survives a last entry that does not beat it. */
  lemma FirstMaximumKept(entries: seq<(string, ArtifactConfig)>, requirement: string, k: int)
    requires entries != []
    requires FirstMaximum(entries[..|entries| - 1], requirement, k)
    requires ArtifactScore(entries[|entries| - 1].1, requirement) <= ArtifactScore(entries[k].1, requirement)
    ensures FirstMaximum(entries, requirement, k)
  {
    var front := entries[..|entries| - 1];
    forall j | 0 <= j < |entries|
      ensures ArtifactScore(entries[j].1, requirement) <= ArtifactScore(entries[k].1, requirement)
    {
      if j < |front| { assert entries[j] == front[j]; }
    }
    forall j | 0 <= j < k
      ensures ArtifactScore(entries[j].1, requirement) < ArtifactScore(entries[k].1, requirement)
    {
      assert entries[j] == front[j];
    }
  }

  /** A last entry that beats every earlier one is the new first maximum. */
  lemma FirstMaximumNew(entries: seq<(string, ArtifactConfig)>, requirement: string)
    requires entries != []
    requires forall j :: 0 <= j < |entries| - 1 ==>
      ArtifactScore(entries[j].1, requirement) < ArtifactScore(entries[|entries| - 1].1, requirement)
    ensures FirstMaximum(entries, requirement, |entries| - 1)
  {
  }

  /** The scan keeps the highest score seen and the first entry that reached it. */
  lemma {:induction false} ScanKeepsFirstMaximum(entries: seq<(string, ArtifactConfig)>, requirement: string)
    ensures forall j :: 0 <= j < |entries| ==> ArtifactScore(entries[j].1, requirement) <= Scan(entries, requirement).1
    ensures Scan(entries, requirement).1 == 0 ==> Scan(entries, requirement).0 == None
    ensures Scan(entries, requirement).1 > 0 ==>
      exists k :: FirstMaximum(entries, requirement, k)
        && Scan(entries, requirement).0 == Some(entries[k].0)
        && ArtifactScore(entries[k].1, requirement) == Scan(entries, requirement).1
  {
    if entries != [] {
      var n := |entries| - 1;
      var front := entries[..n];
      ScanKeepsFirstMaximum(front, requirement);
      ScanStep(entries, requirement);
      var s := Scan(front, requirement).1;
      var score := ArtifactScore(entries[n].1, requirement);
      forall j | 0 <= j < |entries|
        ensures ArtifactScore(entries[j].1, requirement) <= Scan(entries, requirement).1
      {
        if j < n { assert entries[j] == front[j]; }
      }
      if score > s {
        forall j | 0 <= j < n ensures ArtifactScore(entries[j].1, requirement) < score {
          assert entries[j] == front[j];
        }
        FirstMaximumNew(entries, requirement);
      } else if s > 0 {
        var k :| FirstMaximum(front, requirement, k) && Scan(front, requirement).0 == Some(front[k].0)
                 && ArtifactScore(front[k].1, requirement) == s;
        assert entries[k] == front[k];
        FirstMaximumKept(entries, requirement, k);
      }
    }
  }

  /**
   * What matching returns: nothing exactly when every artifact scores 0 (an empty or missing
   * catalogue included); otherwise the id of the first artifact with the highest score.
   */
  lemma MatchIsFirstMaximum(lib: StandardLibrary, requirement: string)
    ensures Match(lib, requirement).None? <==>
      forall j :: 0 <= j < |Entries(lib)| ==> ArtifactScore(Entries(lib)[j].1, requirement) == 0
    ensures Match(lib, requirement).Some? ==>
      exists k :: FirstMaximum(Entries(lib), requirement, k)
        && ArtifactScore(Entries(lib)[k].1, requirement) > 0
        && Match(lib, requirement) == Some(Entries(lib)[k].0)
  {
    var entries := Entries(lib);
    ScanKeepsFirstMaximum(entries, requirement);
    if Scan(entries, requirement).1 > 0 {
      var k :| FirstMaximum(entries, requirement, k) && Scan(entries, requirement).0 == Some(entries[k].0)
               && ArtifactScore(entries[k].1, requirement) == Scan(entries, requirement).1;
      assert ArtifactScore(entries[k].1, requirement) > 0;
    }
  }

  /** Conversely, the first artifact with the highest, positive score is the one matched. */
  lemma FirstMaximumIsMatched(lib: StandardLibrary, requirement: string, k: int)
    requires FirstMaximum(Entries(lib), requirement, k)
    requires ArtifactScore(Entries(lib)[k].1, requirement) > 0
    ensures Match(lib, requirement) == Some(Entries(lib)[k].0)
  {
    var entries := Entries(lib);
    MatchIsFirstMaximum(lib, requirement);
    assert Match(lib, requirement).Some?;
    var k' :| FirstMaximum(entries, requirement, k') && Match(lib, requirement) == Some(entries[k'].0);
    assert !(k < k') && !(k' < k);
  }

  /** `match_artifact_type`: the scoring loop over the catalogue in iteration order. */
  method MatchArtifactType(lib: StandardLibrary, requirement: string) returns (best: Option<string>)
    ensures best == Match(lib, requirement)
  {
    var requirementLower := Lower(requirement);
    var artifacts := Entries(lib);
    var bestMatch: Option<string> := None;
    var bestScore: nat := 0;
    var i := 0;
    while i < |artifacts|
      invariant 0 <= i <= |artifacts|
      invariant (bestMatch, bestScore) == Scan(artifacts[..i], requirement)
    {
      var (id, config) := artifacts[i];
      var score := Score(config.keywords.GetOr([]), requirementLower);
      assert artifacts[..i + 1][..i] == artifacts[..i];
      if score > bestScore {
        bestScore := score;
        bestMatch := Some(id);
      }
      i := i + 1;
    }
    assert artifacts[..i] == artifacts;
    best := if bestScore > 0 then bestMatch else None;
  }

  /** The `contract` section of a generated contract. */
  datatype Contract = Contract(
    implicitRequirements: seq<ImplicitRequirement>,
    commonKnowledge: Json,
    inputs: seq<Json>,
    outputs: seq<Json>,
    generationHints: seq<string>,
    verificationHints: VerificationHints)

  /** What `generate_contract` returns: the error record, or a contract. */
  datatype ContractResult =
    | Unmatched(message: string, requirementOriginal: string)
    | Matched(
        contractId: string,
        timestamp: string,
        requirementOriginal: string,
        artifactType: string,
        artifactName: string,
        contract: Contract)
  {
    /** The record's `error` flag: only the error record carries it. */
    predicate IsError() { Unmatched? }
  }

  /** The message of the error record is this text followed by the requirement. */
  const NoMatchPrefix := "无法匹配需求到已知产出物类型: "

  /** The sections a contract embeds from a configuration, each defaulting to an empty list or mapping. */
  function Embed(config: ArtifactConfig): (c: Contract)
    ensures config.implicitRequirements.None? ==> c.implicitRequirements == []
    ensures config.implicitRequirements.Some? ==> c.implicitRequirements == config.implicitRequirements.value
    ensures config.commonKnowledge.None? ==> c.commonKnowledge == JObject([])
    ensures config.commonKnowledge.Some? ==> c.commonKnowledge == config.commonKnowledge.value
    ensures config.contractTemplate.None? ==> c.inputs == [] && c.outputs == []
    ensures config.contractTemplate.Some? && config.contractTemplate.value.inputs.None? ==> c.inputs == []
    ensures config.contractTemplate.Some? && config.contractTemplate.value.inputs.Some? ==>
      c.inputs == config.contractTemplate.value.inputs.value
    ensures config.contractTemplate.Some? && config.contractTemplate.value.outputs.None? ==> c.outputs == []
    ensures config.contractTemplate.Some? && config.contractTemplate.value.outputs.Some? ==>
      c.outputs == config.contractTemplate.value.outputs.value
    ensures config.generationHints.None? ==> c.generationHints == []
    ensures config.generationHints.Some? ==> c.generationHints == config.generationHints.value
    ensures config.verificationHints.None? ==> c.verificationHints == NoHints
    ensures config.verificationHints.Some? ==> c.verificationHints == config.verificationHints.value
  {
    var template := config.contractTemplate.GetOr(ContractTemplate(None, None));
    Contract(
      config.implicitRequirements.GetOr([]),
      config.commonKnowledge.GetOr(JObject([])),
      template.inputs.GetOr([]),
      template.outputs.GetOr([]),
      config.generationHints.GetOr([]),
      config.verificationHints.GetOr(NoHints))
  }

  /**
   * `generate_contract`, with the fresh UUID and the current time passed in. The error
   * record comes back exactly when no artifact scores; otherwise the contract describes
   * the first highest-scoring artifact and keeps the requirement as given.
   */
  function GenerateContract(lib: StandardLibrary, requirement: string, contractId: string, timestamp: string): (r: ContractResult)
    ensures r.Unmatched? <==> forall j :: 0 <= j < |Entries(lib)| ==> ArtifactScore(Entries(lib)[j].1, requirement) == 0
    ensures r.Unmatched? ==> r.message == NoMatchPrefix + requirement && r.requirementOriginal == requirement
    ensures r.Matched? ==>
      && r.contractId == contractId && r.timestamp == timestamp && r.requirementOriginal == requirement
      && exists k :: FirstMaximum(Entries(lib), requirement, k)
           && ArtifactScore(Entries(lib)[k].1, requirement) > 0
           && Entries(lib)[k].0 == r.artifactType
           && r.artifactName == Entries(lib)[k].1.name.GetOr(r.artifactType)
           && r.contract == Embed(Entries(lib)[k].1)
  {
    MatchIsFirstMaximum(lib, requirement);
    match Match(lib, requirement)
    case None => Unmatched(NoMatchPrefix + requirement, requirement)
    case Some(artifactType) =>
      var config := Lookup(Entries(lib), artifactType);
      Matched(contractId, timestamp, requirement, artifactType, config.name.GetOr(artifactType), Embed(config))
  }

  /** The catalogue entry of the scenario: `login`, keywords `login` and `登录`. */
  const LoginLibrary := StandardLibrary(Some([("login", ArtifactConfig(None, Some(["login", "登录"]), None, None, None, None, None))]))

  /** A requirement mentioning `登录` matches `login` with score 1; one sharing no keyword matches nothing. */
  lemma LoginScenario()
    ensures ArtifactScore(LoginLibrary.artifacts.value[0].1, "创建用户登录API") == 1
    ensures Match(LoginLibrary, "创建用户登录API") == Some("login")
    ensures Match(LoginLibrary, "生成报表") == None
  {
    var config := LoginLibrary.artifacts.value[0].1;
    assert ArtifactScore(config, "创建用户登录API") == 1 by {
      LoginKeywordFound();
    }
    assert ArtifactScore(config, "生成报表") == 0 by {
      ReportKeywordsAbsent();
    }
    var entries := Entries(LoginLibrary);
    assert entries[..0] == [];
    assert Scan(entries, "创建用户登录API") == (Some("login"), 1);
    assert Scan(entries, "生成报表") == (None, 0);
  }

  /** A two-keyword list scores one for each keyword found. */
  lemma ScoreOfPair(first: string, second: string, requirementLower: string)
    ensures Score([first, second], requirementLower)
      == (if Contains(requirementLower, Lower(first)) then 1 else 0)
       + (if Contains(requirementLower, Lower(second)) then 1 else 0)
  {
    assert [first, second][..1] == [first];
    assert [first][..0] == [];
  }

  lemma LowerLoginRequirement()
    ensures Lower("创建用户登录API") == "创建用户登录api"
  {
    assert "创建用户登录API" == "创建用户登录" + "API";
    LowerAppend("创建用户登录", "API");
    assert Lower("创建用户登录") == "创建用户登录";
    assert Lower("API") == "api";
  }

  lemma LoginKeywordFound()
    ensures Score(["login", "登录"], Lower("创建用户登录API")) == 1
  {
    LowerLoginRequirement();
    assert Lower("登录") == "登录" && Lower("login") == "login";
    ContainsAt("创建用户登录api", "登录", 4);
    AbsentCharacter("创建用户登录api", "login", 0);
    ScoreOfPair("login", "登录", "创建用户登录api");
  }

  lemma ReportKeywordsAbsent()
    ensures Score(["login", "登录"], Lower("生成报表")) == 0
  {
    assert Lower("生成报表") == "生成报表";
    assert Lower("登录") == "登录" && Lower("login") == "login";
    AbsentCharacter("生成报表", "login", 0);
    AbsentCharacter("生成报表", "登录", 0);
    ScoreOfPair("login", "登录", "生成报表");
  }
}
