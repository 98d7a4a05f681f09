/**
 * The standard library of artifact specifications, as the YAML catalogue gives it
 * (`artifacts: {<id>: {name, keywords, implicit_requirements, common_knowledge,
 * contract_template: {inputs, outputs}, generation_hints, verification_hints}}`).
 * Every field the code reads with `.get(key, default)` is an `Option`, so that a
 * missing field is representable and its default is applied where the code applies it.
 */
module Standards {
  import opened Wrappers

  /** Catalogue values the pipeline only copies into contracts (common knowledge, parameter descriptors). */
  datatype Json =
    | JNull
    | JBool(b: bool)
    | JNumber(n: int)
    | JString(s: string)
    | JArray(items: seq<Json>)
    | JObject(members: seq<(string, Json)>)

  /** One entry of `implicit_requirements`. */
  datatype ImplicitRequirement = ImplicitRequirement(id: string, name: string, description: string)

  /** One rule of a `verification_hints` family: `{patterns, reason, severity}`, each possibly missing. */
  datatype Rule = Rule(patterns: Option<seq<string>>, reason: Option<string>, severity: Option<string>)

  /** `verification_hints`: the three rule families, each possibly missing. */
  datatype VerificationHints = VerificationHints(
    mustContainAny: Option<seq<Rule>>,
    mustNotContain: Option<seq<Rule>>,
    shouldContain: Option<seq<Rule>>)

  /** The empty mapping `{}`. */
  const NoHints := VerificationHints(None, None, None)

  datatype ContractTemplate = ContractTemplate(inputs: Option<seq<Json>>, outputs: Option<seq<Json>>)

  /** The configuration of one artifact type. */
  datatype ArtifactConfig = ArtifactConfig(
    name: Option<string>,
    keywords: Option<seq<string>>,
    implicitRequirements: Option<seq<ImplicitRequirement>>,
    commonKnowledge: Option<Json>,
    contractTemplate: Option<ContractTemplate>,
    generationHints: Option<seq<string>>,
    verificationHints: Option<VerificationHints>)

  /** A mapping's keys are distinct. */
  predicate UniqueKeys(entries: seq<(string, ArtifactConfig)>)
  {
    forall i, j :: 0 <= i < j < |entries| ==> entries[i].0 != entries[j].0
  }

  /** The `artifacts` mapping, in declaration (iteration) order. */
  type ArtifactTable = entries: seq<(string, ArtifactConfig)> | UniqueKeys(entries)

  /** The loaded catalogue; `artifacts` may be missing. */
  datatype StandardLibrary = StandardLibrary(artifacts: Option<ArtifactTable>)

  /** `table` has an entry for `id`. */
  predicate HasKey(table: ArtifactTable, id: string)
  {
    exists k :: 0 <= k < |table| && table[k].0 == id
  }

  /** `table[id]`: the configuration stored under `id`. */
  function Lookup(table: ArtifactTable, id: string): (c: ArtifactConfig)
    requires HasKey(table, id)
    ensures forall k :: 0 <= k < |table| && table[k].0 == id ==> c == table[k].1
  {
    if table[0].0 == id then table[0].1
    else
      var rest: ArtifactTable := table[1..];
      assert HasKey(rest, id) by {
        var k :| 0 <= k < |table| && table[k].0 == id;
        assert rest[k - 1].0 == id;
      }
      Lookup(rest, id)
  }
}
