/** The Dependency-Track server as the adapter sees it through
    `github.com/DependencyTrack/client-go`: the records it exchanges, and a
    stand-in server that holds policies and projects, records every request
    that changes something, and fails the endpoints it is told to fail. */
module Dtrack {
  import opened Wrappers
  import opened Seqs

  type Uuid = nat

  datatype PolicyCondition = PolicyCondition(uuid: Uuid, subject: string, operator: string, value: string)

  datatype Policy = Policy(
    uuid: Uuid,
    name: string,
    operator: string,
    violationState: string,
    policyConditions: seq<PolicyCondition>,
    projects: seq<Uuid>,
    tags: seq<string>)

  datatype Project = Project(uuid: Uuid, name: string, version: string, active: bool, parent: Option<Uuid>)

  /** `*dtrack.APIError` (a reply with an error status) and failures below HTTP. */
  datatype ClientError = ApiError(statusCode: int, message: string) | TransportError(message: string)

  /** The client calls the adapter makes. */
  datatype Endpoint =
    | PolicyGetAll | PolicyCreate | PolicyUpdate
    | PolicyAddTag | PolicyDeleteTag | PolicyAddProject | PolicyDeleteProject
    | ProjectGetProjectsForName
    | ConditionCreate | ConditionDelete

  /** A request that asks the server to change something. */
  datatype Request =
    | CreateRequest(policy: Policy)
    | UpdateRequest(policy: Policy)
    | AddTagRequest(policyUuid: Uuid, tag: string)
    | DeleteTagRequest(policyUuid: Uuid, tag: string)
    | AddProjectRequest(policyUuid: Uuid, projectUuid: Uuid)
    | DeleteProjectRequest(policyUuid: Uuid, projectUuid: Uuid)
    | CreateConditionRequest(policyUuid: Uuid, condition: PolicyCondition)
    | DeleteConditionRequest(conditionUuid: Uuid)

  /** The projects the server lists for `GetProjectsForName`. */
  function ProjectsNamed(projects: seq<Project>, name: string, excludeInactive: bool, onlyRoot: bool): (r: seq<Project>)
    ensures forall i :: 0 <= i < |r| ==> r[i] in projects && r[i].name == name
    ensures forall i :: 0 <= i < |r| ==> (excludeInactive ==> r[i].active) && (onlyRoot ==> r[i].parent.None?)
  {
    Filter(projects, (p: Project) => p.name == name && (!excludeInactive || p.active) && (!onlyRoot || p.parent.None?))
  }

  function WithTag(p: Policy, tag: string): Policy {
    p.(tags := p.tags + [tag])
  }

  function WithoutTag(p: Policy, tag: string): Policy {
    p.(tags := Filter(p.tags, (t: string) => t != tag))
  }

  function WithProject(p: Policy, project: Uuid): Policy {
    p.(projects := p.projects + [project])
  }

  function WithoutProject(p: Policy, project: Uuid): Policy {
    p.(projects := Filter(p.projects, (u: Uuid) => u != project))
  }

  function WithoutCondition(p: Policy, condition: Uuid): Policy {
    p.(policyConditions := Filter(p.policyConditions, (c: PolicyCondition) => c.uuid != condition))
  }

  /** The index of the policy with `uuid`, if there is one. */
  function PolicyIndex(policies: seq<Policy>, uuid: Uuid): (r: Option<nat>)
    ensures r.Some? ==> r.value < |policies| && policies[r.value].uuid == uuid
    ensures r.None? ==> forall i :: 0 <= i < |policies| ==> policies[i].uuid != uuid
  {
    FirstIndex(policies, (p: Policy) => p.uuid == uuid)
  }

  /** The index of the policy that holds the condition `uuid`, if there is one. */
  function ConditionOwner(policies: seq<Policy>, uuid: Uuid): (r: Option<nat>)
    ensures r.Some? ==> r.value < |policies| && exists c :: c in policies[r.value].policyConditions && c.uuid == uuid
  {
    FirstIndex(policies, (p: Policy) => exists c :: c in p.policyConditions && c.uuid == uuid)
  }

  /** A stand-in Dependency-Track server. */
  class Server {
    var policies: seq<Policy>
    var projects: seq<Project>
    /** The endpoints that fail, and how. */
    var failures: map<Endpoint, ClientError>
    /** Every request that asked for a change, in order, whether it succeeded or not. */
    var writes: seq<Request>
    var nextUuid: Uuid
    /** The operator and violation state the server gives a policy it creates,
        whatever the request asked for (DependencyTrack/dependency-track#2365). */
    const createdOperator: string
    const createdViolationState: string

    constructor (policies: seq<Policy>, projects: seq<Project>, failures: map<Endpoint, ClientError>,
                 nextUuid: Uuid, createdOperator: string, createdViolationState: string)
      ensures this.policies == policies && this.projects == projects && this.failures == failures
      ensures this.nextUuid == nextUuid && writes == []
      ensures this.createdOperator == createdOperator && this.createdViolationState == createdViolationState
    {
      this.policies := policies;
      this.projects := projects;
      this.failures := failures;
      this.nextUuid := nextUuid;
      this.createdOperator := createdOperator;
      this.createdViolationState := createdViolationState;
      writes := [];
    }

    /** What `PolicyGetAll`, page after page, answers now. */
    function AllPolicies(): (r: Result<seq<Policy>, ClientError>)
      reads this
      ensures r.Failure? <==> PolicyGetAll in failures
      ensures r.Success? ==> r.value == policies
    {
      if PolicyGetAll in failures then Failure(failures[PolicyGetAll]) else Success(policies)
    }

    /** What `GetProjectsForName` answers now. */
    function ProjectsFor(name: string, excludeInactive: bool, onlyRoot: bool): (r: Result<seq<Project>, ClientError>)
      reads this
      ensures r.Failure? <==> ProjectGetProjectsForName in failures
      ensures r.Success? ==> r.value == ProjectsNamed(projects, name, excludeInactive, onlyRoot)
    {
      if ProjectGetProjectsForName in failures then Failure(failures[ProjectGetProjectsForName])
      else Success(ProjectsNamed(projects, name, excludeInactive, onlyRoot))
    }

    /** Every stored policy has a UUID the server issued before `nextUuid`,
        so the next one it issues is new. */
    predicate UuidsIssued()
      reads this
    {
      forall i :: 0 <= i < |policies| ==> policies[i].uuid < nextUuid
    }

    /** The policy a successful create request for `policy` makes. */
    function Created(policy: Policy): (p: Policy)
      reads this
      ensures p.name == policy.name && p.uuid == nextUuid
      ensures p.operator == createdOperator && p.violationState == createdViolationState
    {
      policy.(uuid := nextUuid, operator := createdOperator, violationState := createdViolationState)
    }

    method GetAllPolicies() returns (r: Result<seq<Policy>, ClientError>)
      ensures r == AllPolicies()
    {
      if PolicyGetAll in failures {
        r := Failure(failures[PolicyGetAll]);
      } else {
        r := Success(policies);
      }
    }

    method GetProjectsForName(name: string, excludeInactive: bool, onlyRoot: bool) returns (r: Result<seq<Project>, ClientError>)
      ensures r == ProjectsFor(name, excludeInactive, onlyRoot)
    {
      if ProjectGetProjectsForName in failures {
        r := Failure(failures[ProjectGetProjectsForName]);
      } else {
        r := Success(ProjectsNamed(projects, name, excludeInactive, onlyRoot));
      }
    }

    method CreatePolicy(policy: Policy) returns (r: Result<Policy, ClientError>)
      modifies this
      ensures writes == old(writes) + [CreateRequest(policy)]
      ensures failures == old(failures) && projects == old(projects)
      ensures PolicyCreate in failures ==>
        r == Failure(failures[PolicyCreate]) && policies == old(policies) && nextUuid == old(nextUuid)
      ensures PolicyCreate !in failures ==>
        r == Success(old(Created(policy))) && policies == old(policies) + [r.value] && nextUuid == old(nextUuid) + 1
      ensures old(UuidsIssued()) ==> UuidsIssued()
    {
      writes := writes + [CreateRequest(policy)];
      if PolicyCreate in failures {
        return Failure(failures[PolicyCreate]);
      }
      var p := Created(policy);
      policies := policies + [p];
      nextUuid := nextUuid + 1;
      r := Success(p);
    }

    /** Replace the stored policy with the same UUID; 404 if there is none. */
    method UpdatePolicy(policy: Policy) returns (r: Result<Policy, ClientError>)
      modifies this
      ensures writes == old(writes) + [UpdateRequest(policy)]
      ensures failures == old(failures) && projects == old(projects) && nextUuid == old(nextUuid)
      ensures PolicyUpdate in failures ==> r == Failure(failures[PolicyUpdate]) && policies == old(policies)
      ensures PolicyUpdate !in failures ==>
        match PolicyIndex(old(policies), policy.uuid)
        case None => r == Failure(ApiError(404, "")) && policies == old(policies)
        case Some(i) => r == Success(policy) && policies == old(policies)[i := policy]
      ensures old(UuidsIssued()) ==> UuidsIssued()
    {
      writes := writes + [UpdateRequest(policy)];
      r := ChangePolicy(PolicyUpdate, policy.uuid, _ => policy);
    }

    method AddTag(policyUuid: Uuid, tag: string) returns (r: Result<Policy, ClientError>)
      modifies this
      ensures writes == old(writes) + [AddTagRequest(policyUuid, tag)]
      ensures failures == old(failures) && projects == old(projects) && nextUuid == old(nextUuid)
      ensures Changed(PolicyAddTag, policyUuid, (p: Policy) => WithTag(p, tag), old(policies), policies, r)
    {
      writes := writes + [AddTagRequest(policyUuid, tag)];
      r := ChangePolicy(PolicyAddTag, policyUuid, (p: Policy) => WithTag(p, tag));
    }

    method DeleteTag(policyUuid: Uuid, tag: string) returns (r: Result<Policy, ClientError>)
      modifies this
      ensures writes == old(writes) + [DeleteTagRequest(policyUuid, tag)]
      ensures failures == old(failures) && projects == old(projects) && nextUuid == old(nextUuid)
      ensures Changed(PolicyDeleteTag, policyUuid, (p: Policy) => WithoutTag(p, tag), old(policies), policies, r)
    {
      writes := writes + [DeleteTagRequest(policyUuid, tag)];
      r := ChangePolicy(PolicyDeleteTag, policyUuid, (p: Policy) => WithoutTag(p, tag));
    }

    method AddProject(policyUuid: Uuid, projectUuid: Uuid) returns (r: Result<Policy, ClientError>)
      modifies this
      ensures writes == old(writes) + [AddProjectRequest(policyUuid, projectUuid)]
      ensures failures == old(failures) && projects == old(projects) && nextUuid == old(nextUuid)
      ensures Changed(PolicyAddProject, policyUuid, (p: Policy) => WithProject(p, projectUuid), old(policies), policies, r)
    {
      writes := writes + [AddProjectRequest(policyUuid, projectUuid)];
      r := ChangePolicy(PolicyAddProject, policyUuid, (p: Policy) => WithProject(p, projectUuid));
    }

    method DeleteProject(policyUuid: Uuid, projectUuid: Uuid) returns (r: Result<Policy, ClientError>)
      modifies this
      ensures writes == old(writes) + [DeleteProjectRequest(policyUuid, projectUuid)]
      ensures failures == old(failures) && projects == old(projects) && nextUuid == old(nextUuid)
      ensures Changed(PolicyDeleteProject, policyUuid, (p: Policy) => WithoutProject(p, projectUuid), old(policies), policies, r)
    {
      writes := writes + [DeleteProjectRequest(policyUuid, projectUuid)];
      r := ChangePolicy(PolicyDeleteProject, policyUuid, (p: Policy) => WithoutProject(p, projectUuid));
    }

    /** Add a condition, under a fresh UUID, to the policy `policyUuid`. */
    method CreatePolicyCondition(policyUuid: Uuid, condition: PolicyCondition) returns (r: Result<PolicyCondition, ClientError>)
      modifies this
      ensures writes == old(writes) + [CreateConditionRequest(policyUuid, condition)]
      ensures failures == old(failures) && projects == old(projects)
      ensures r.Success? ==> r.value == condition.(uuid := old(nextUuid))
      ensures r.Failure? ==> policies == old(policies) && nextUuid == old(nextUuid)
      ensures ConditionCreate in failures ==> r == Failure(failures[ConditionCreate])
      ensures ConditionCreate !in failures ==>
        match PolicyIndex(old(policies), policyUuid)
        case None => r == Failure(ApiError(404, ""))
        case Some(i) =>
          r.Success? && nextUuid == old(nextUuid) + 1 &&
          policies == old(policies)[i := old(policies)[i].(policyConditions := old(policies)[i].policyConditions + [r.value])]
    {
      writes := writes + [CreateConditionRequest(policyUuid, condition)];
      if ConditionCreate in failures {
        return Failure(failures[ConditionCreate]);
      }
      match PolicyIndex(policies, policyUuid)
      case None =>
        r := Failure(ApiError(404, ""));
      case Some(i) =>
        var c := condition.(uuid := nextUuid);
        policies := policies[i := policies[i].(policyConditions := policies[i].policyConditions + [c])];
        nextUuid := nextUuid + 1;
        r := Success(c);
    }

    /** Remove the condition `conditionUuid` from the policy that holds it. */
    method DeletePolicyCondition(conditionUuid: Uuid) returns (err: Option<ClientError>)
      modifies this
      ensures writes == old(writes) + [DeleteConditionRequest(conditionUuid)]
      ensures failures == old(failures) && projects == old(projects) && nextUuid == old(nextUuid)
      ensures ConditionDelete in failures ==> err == Some(failures[ConditionDelete]) && policies == old(policies)
      ensures ConditionDelete !in failures ==>
        match ConditionOwner(old(policies), conditionUuid)
        case None => err == Some(ApiError(404, "")) && policies == old(policies)
        case Some(i) =>
          err == None &&
          policies == old(policies)[i := WithoutCondition(old(policies)[i], conditionUuid)]
    {
      writes := writes + [DeleteConditionRequest(conditionUuid)];
      if ConditionDelete in failures {
        return Some(failures[ConditionDelete]);
      }
      match ConditionOwner(policies, conditionUuid)
      case None =>
        err := Some(ApiError(404, ""));
      case Some(i) =>
        var p := policies[i];
        policies := policies[i := WithoutCondition(p, conditionUuid)];
        err := None;
    }

    /** How a request to `endpoint` that changes the policy `uuid` by `f`
        leaves the policies and what it answers. */
    ghost predicate Changed(endpoint: Endpoint, uuid: Uuid, f: Policy -> Policy,
                            before: seq<Policy>, after: seq<Policy>, r: Result<Policy, ClientError>)
      reads this
    {
      if endpoint in failures then r == Failure(failures[endpoint]) && after == before
      else match PolicyIndex(before, uuid)
        case None => r == Failure(ApiError(404, "")) && after == before
        case Some(i) => r == Success(f(before[i])) && after == before[i := f(before[i])]
    }

    method ChangePolicy(endpoint: Endpoint, uuid: Uuid, f: Policy -> Policy) returns (r: Result<Policy, ClientError>)
      modifies this`policies
      ensures Changed(endpoint, uuid, f, old(policies), policies, r)
    {
      if endpoint in failures {
        return Failure(failures[endpoint]);
      }
      match PolicyIndex(policies, uuid)
      case None =>
        r := Failure(ApiError(404, ""));
      case Some(i) =>
        var p := f(policies[i]);
        policies := policies[i := p];
        r := Success(p);
    }
  }
}
