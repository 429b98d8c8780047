/** The program's settings (`config/config.go`) and the check that the
    required ones are present. */
module Config {
  import opened Wrappers

  datatype Config = Config(
    baseUrl: string,
    apiKey: string,
    policyName: string,
    policyOperator: string,
    policyViolationState: string,
    policyProjects: seq<string>,
    policyTags: seq<string>)

  datatype ConfigError = ApiKeyIsRequired | PolicyNameIsRequired

  /** The text of each error (`errors.New`): the two texts tell the errors
      apart. */
  function Message(e: ConfigError): (m: string)
    ensures m == "api-key is required" <==> e == ApiKeyIsRequired
    ensures m == "policy-name is required" <==> e == PolicyNameIsRequired
  {
    match e
    case ApiKeyIsRequired => "api-key is required"
    case PolicyNameIsRequired => "policy-name is required"
  }

  /** `New`: every argument lands unchanged in the field of the same name. */
  function New(baseUrl: string, apiKey: string, policyName: string, policyOperator: string,
               policyViolationState: string, policyProjects: seq<string>, policyTags: seq<string>): (c: Config)
    ensures c.baseUrl == baseUrl && c.apiKey == apiKey && c.policyName == policyName
    ensures c.policyOperator == policyOperator && c.policyViolationState == policyViolationState
    ensures c.policyProjects == policyProjects && c.policyTags == policyTags
  {
    Config(baseUrl, apiKey, policyName, policyOperator, policyViolationState, policyProjects, policyTags)
  }

  /** `Validate`: the API key is checked before the policy name. */
  function Validate(c: Config): (r: Option<ConfigError>)
    ensures r.None? <==> c.apiKey != "" && c.policyName != ""
    ensures c.apiKey == "" ==> r == Some(ApiKeyIsRequired)
    ensures c.apiKey != "" && c.policyName == "" ==> r == Some(PolicyNameIsRequired)
  {
    if c.apiKey == "" then Some(ApiKeyIsRequired)
    else if c.policyName == "" then Some(PolicyNameIsRequired)
    else None
  }

  /** Only the API key and the policy name decide the outcome: the URL, the
      operator, the violation state, the projects and the tags never do. */
  lemma ValidateReadsTwoFields(c: Config, c': Config)
    requires c.apiKey == c'.apiKey && c.policyName == c'.policyName
    ensures Validate(c) == Validate(c')
  {
  }

  /** The cases of config/config_test.go. */
  lemma ValidateTestCases(url: string, key: string, name: string)
    requires url == "https://example.com" && key == "api-key" && name == "policy-name"
    ensures Validate(New(url, key, name, "", "", [], [])).None?
    ensures Validate(New(url, "", name, "", "", [], [])) == Some(ApiKeyIsRequired)
    ensures Validate(New(url, key, "", "", "", [], [])) == Some(PolicyNameIsRequired)
  {
  }
}
