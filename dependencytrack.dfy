/** The adapter over the Dependency-Track client
    (`dependencytrack/dependencytrack.go`): error classification, the policy
    comparison, the lookups by name and version, and policy creation. */
module DependencyTrack {
  import opened Wrappers
  import opened Seqs
  import opened Dtrack

  /** The errors the adapter hands back: its two sentinels, the client's
      errors unchanged, and any other error of the program. */
  datatype Error = PolicyNotFound | ProjectNotFound | Client(cause: ClientError) | Other(message: string)

  /** `IsNotFound`. */
  function IsNotFound(err: Error): (r: bool)
    ensures r <==> (err == PolicyNotFound || err == ProjectNotFound ||
                   (err.Client? && err.cause.ApiError? && err.cause.statusCode == 404))
  {
    match err
    case PolicyNotFound => true
    case ProjectNotFound => true
    case Client(ApiError(code, _)) => code == 404
    case Client(TransportError(_)) => false
    case Other(_) => false
  }

  /** The cases of dependencytrack/dependencytrack_test.go:19-57. */
  lemma IsNotFoundTestCases(message: string)
    ensures IsNotFound(PolicyNotFound) && IsNotFound(ProjectNotFound)
    ensures IsNotFound(Client(ApiError(404, message)))
    ensures !IsNotFound(Client(ApiError(500, message)))
    ensures !IsNotFound(Other(message))
  {
  }

  /** `NeedsUpdatePolicy`: the operator or the violation state differ. */
  function NeedsUpdatePolicy(current: Policy, desired: Policy): bool {
    current.operator != desired.operator || current.violationState != desired.violationState
  }

  /** The answer depends on the operator and the violation state of the two
      policies and on nothing else. */
  lemma NeedsUpdatePolicyReadsTwoFields(current: Policy, current': Policy, desired: Policy, desired': Policy)
    requires current.operator == current'.operator && current.violationState == current'.violationState
    requires desired.operator == desired'.operator && desired.violationState == desired'.violationState
    ensures NeedsUpdatePolicy(current, desired) == NeedsUpdatePolicy(current', desired')
  {
  }

  /** A policy never needs updating to itself, and the comparison does not
      depend on which side is the stored one. */
  lemma NeedsUpdatePolicyIrreflexive(p: Policy, q: Policy)
    ensures !NeedsUpdatePolicy(p, p)
    ensures NeedsUpdatePolicy(p, q) == NeedsUpdatePolicy(q, p)
  {
  }

  /** Names, conditions, projects, tags and UUIDs never call for an update:
      copying the two compared fields over removes the need for one. */
  lemma NeedsUpdateOnlyComparesTwoFields(current: Policy, desired: Policy)
    ensures !NeedsUpdatePolicy(current.(operator := desired.operator, violationState := desired.violationState), desired)
  {
  }

  /** The cases of dependencytrack/dependencytrack_test.go:78-101, with
      `all`/`any` and `fail`/`warn` two distinct operators and states. */
  lemma NeedsUpdatePolicyTestCases(p: Policy, all: string, any: string, fail: string, warn: string)
    requires all != any && fail != warn
    ensures !NeedsUpdatePolicy(p.(operator := all, violationState := fail), p.(operator := all, violationState := fail))
    ensures NeedsUpdatePolicy(p.(operator := all, violationState := fail), p.(operator := any, violationState := fail))
    ensures NeedsUpdatePolicy(p.(operator := all, violationState := fail), p.(operator := all, violationState := warn))
    ensures NeedsUpdatePolicy(p.(operator := all, violationState := fail), p.(operator := any, violationState := warn))
  {
  }

  /** Either difference alone calls for an update, and so do both together. */
  lemma NeedsUpdatePolicyOnAnyDifference(current: Policy, desired: Policy)
    requires current.operator != desired.operator || current.violationState != desired.violationState
    ensures NeedsUpdatePolicy(current, desired)
  {
  }

  /** The first of `policies` named `name`, or `PolicyNotFound`. */
  function PolicyNamed(policies: seq<Policy>, name: string): (r: Result<Policy, Error>)
    ensures r.Success? ==> r.value.name == name
    ensures r.Success? ==>
      (exists i :: 0 <= i < |policies| && r.value == policies[i] && (forall j :: 0 <= j < i ==> policies[j].name != name))
    ensures r.Failure? <==> forall i :: 0 <= i < |policies| ==> policies[i].name != name
    ensures r.Failure? ==> r.error == PolicyNotFound
  {
    match FirstIndex(policies, (p: Policy) => p.name == name)
    case Some(i) => Success(policies[i])
    case None => Failure(PolicyNotFound)
  }

  /** The first of `projects` whose version is `version`, or `ProjectNotFound`. */
  function ProjectVersioned(projects: seq<Project>, version: string): (r: Result<Project, Error>)
    ensures r.Success? ==> r.value.version == version
    ensures r.Success? ==>
      (exists i :: 0 <= i < |projects| && r.value == projects[i] && (forall j :: 0 <= j < i ==> projects[j].version != version))
    ensures r.Failure? <==> forall i :: 0 <= i < |projects| ==> projects[i].version != version
    ensures r.Failure? ==> r.error == ProjectNotFound
  {
    match FirstIndex(projects, (p: Project) => p.version == version)
    case Some(i) => Success(projects[i])
    case None => Failure(ProjectNotFound)
  }

  /** A client error, unchanged. */
  function Passed<T>(e: ClientError): (r: Result<T, Error>)
    ensures r.Failure? && r.error == Client(e)
  {
    Failure(Client(e))
  }

  /** `DependencyTrack`: the adapter around one client. */
  class DependencyTrack {
    const client: Server

    constructor (client: Server)
      ensures this.client == client
    {
      this.client := client;
    }

    /** `GetPolicyForName`: a failed listing is returned as it is, before
        any search. */
    method GetPolicyForName(policyName: string) returns (r: Result<Policy, Error>)
      ensures client.AllPolicies().Failure? ==> r == Passed(client.AllPolicies().error)
      ensures client.AllPolicies().Success? ==> r == PolicyNamed(client.AllPolicies().value, policyName)
    {
      var fetched := client.GetAllPolicies();
      if fetched.Failure? {
        return Passed(fetched.error);
      }
      var policies := fetched.value;
      var i := 0;
      while i < |policies|
        invariant 0 <= i <= |policies|
        invariant forall j :: 0 <= j < i ==> policies[j].name != policyName
      {
        if policies[i].name == policyName {
          return Success(policies[i]);
        }
        i := i + 1;
      }
      return Failure(PolicyNotFound);
    }

    /** `GetProjectsForName`: an empty listing becomes `ProjectNotFound`. */
    method GetProjectsForName(projectName: string, excludeInactive: bool, onlyRoot: bool) returns (r: Result<seq<Project>, Error>)
      ensures var fetched := client.ProjectsFor(projectName, excludeInactive, onlyRoot);
        match fetched
        case Failure(e) => r == Passed(e)
        case Success(pp) => r == if pp == [] then Failure(ProjectNotFound) else Success(pp)
    {
      var fetched := client.GetProjectsForName(projectName, excludeInactive, onlyRoot);
      if fetched.Failure? {
        return Passed(fetched.error);
      }
      if |fetched.value| == 0 {
        return Failure(ProjectNotFound);
      }
      return Success(fetched.value);
    }

    /** `GetProjectForNameVersion`: a failed listing is returned as it is,
        before any search. */
    method GetProjectForNameVersion(projectName: string, projectVersion: string, excludeInactive: bool, onlyRoot: bool)
      returns (r: Result<Project, Error>)
      ensures var fetched := client.ProjectsFor(projectName, excludeInactive, onlyRoot);
        match fetched
        case Failure(e) => r == Passed(e)
        case Success(projects) => r == ProjectVersioned(projects, projectVersion)
    {
      var fetched := client.GetProjectsForName(projectName, excludeInactive, onlyRoot);
      if fetched.Failure? {
        return Passed(fetched.error);
      }
      var projects := fetched.value;
      var i := 0;
      while i < |projects|
        invariant 0 <= i <= |projects|
        invariant forall j :: 0 <= j < i ==> projects[j].version != projectVersion
      {
        if projects[i].version == projectVersion {
          return Success(projects[i]);
        }
        i := i + 1;
      }
      return Failure(ProjectNotFound);
    }

    /** `CreatePolicy`: create, then send the created policy back once with
        the requested operator and violation state, which the server does not
        take from a create request. */
    method CreatePolicy(policy: Policy) returns (r: Result<Policy, Error>)
      requires client.UuidsIssued()
      modifies client
      ensures client.failures == old(client.failures) && client.projects == old(client.projects)
      ensures client.nextUuid == old(client.nextUuid) + (if PolicyCreate in old(client.failures) then 0 else 1)
      ensures client.UuidsIssued()
      ensures PolicyCreate in client.failures ==>
        r == Passed(client.failures[PolicyCreate]) &&
        client.writes == old(client.writes) + [CreateRequest(policy)] &&
        client.policies == old(client.policies)
      ensures PolicyCreate !in client.failures ==>
        var po := old(client.Created(policy)).(violationState := policy.violationState, operator := policy.operator);
        client.writes == old(client.writes) + [CreateRequest(policy), UpdateRequest(po)] &&
        (PolicyUpdate in client.failures ==>
           r == Passed(client.failures[PolicyUpdate]) && client.policies == old(client.policies) + [old(client.Created(policy))]) &&
        (PolicyUpdate !in client.failures ==> r == Success(po) && client.policies == old(client.policies) + [po])
    {
      var created := client.CreatePolicy(policy);
      if created.Failure? {
        return Passed(created.error);
      }
      var po := created.value;
      // The server ignores these two fields on create
      // (DependencyTrack/dependency-track#2365).
      po := po.(violationState := policy.violationState);
      po := po.(operator := policy.operator);
      ghost var stored := client.policies;
      assert PolicyIndex(stored, po.uuid) == Some(|stored| - 1) by {
        NewestIndex(stored, po.uuid);
      }
      var updated := client.UpdatePolicy(po);
      if updated.Failure? {
        return Passed(updated.error);
      }
      return Success(updated.value);
    }
  }

  /** The policy just appended under a fresh UUID is the one found by it. */
  lemma NewestIndex(policies: seq<Policy>, uuid: Uuid)
    requires |policies| > 0 && policies[|policies| - 1].uuid == uuid
    requires forall i :: 0 <= i < |policies| - 1 ==> policies[i].uuid != uuid
    ensures PolicyIndex(policies, uuid) == Some(|policies| - 1)
  {
  }
}
