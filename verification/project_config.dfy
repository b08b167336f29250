/**
 * The project-configuration check of openstack_requirements/project_config.py:
 * a repository must be listed in the CI layout and use the
 * `check-requirements` job template.
 */
module ProjectConfig {
  import opened Wrappers

  const ZuulLayoutFilename: string := "openstack-infra/project-config/zuul/layout.yaml"

  /** One project of the layout: the names of its `template` entries, `None` when it has no `template` key. */
  datatype Project = Project(templates: Option<seq<string>>)

  /** An error: a `(message, True)` pair for a missing repository, a plain message otherwise. */
  datatype Error = Missing(message: string, flag: bool) | NoCheckJob(message: string)

  /** `p.get('template', [])`, as names. */
  function Templates(p: Project): seq<string> {
    if p.templates.Some? then p.templates.value else []
  }

  /**
   * `require_check_requirements_for_repo`: at most one error; one naming the
   * layout file for a repository the layout lacks, one naming the repository
   * when none of its templates is `check-requirements`, none otherwise.
   */
  function RequireCheckRequirements(layout: map<string, Project>, repo: string): (errors: seq<Error>)
    ensures |errors| <= 1
    ensures repo !in layout ==> errors == [Missing("did not find " + repo + " in " + ZuulLayoutFilename, true)]
    ensures repo in layout ==> (errors == [] <==> "check-requirements" in Templates(layout[repo]))
    ensures repo in layout && errors != [] ==>
      errors[0] == NoCheckJob(ZuulLayoutFilename + " no check-requirements job specified for " + repo)
  {
    if repo !in layout then
      [Missing("did not find " + repo + " in " + ZuulLayoutFilename, true)]
    else if "check-requirements" !in Templates(layout[repo]) then
      [NoCheckJob(ZuulLayoutFilename + " no check-requirements job specified for " + repo)]
    else []
  }
}
