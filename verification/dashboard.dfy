/** The project list: the search filter and the choice of what the page
    shows. */
module Dashboard {
  import opened Wrappers
  import opened Seqs
  import opened Search

  /** The fields of a project the list uses. */
  datatype Project = Project(id: string, name: string, description: Option<string>)

  function KeepsProject(query: string): Project -> bool {
    (p: Project) => Matches(p.name, p.description, query)
  }

  /** `filteredProjects`: the matching projects, in list order. */
  function FilterProjects(projects: seq<Project>, query: string): (r: seq<Project>)
    ensures forall p :: p in r <==> p in projects && Matches(p.name, p.description, query)
    ensures Subseq(r, projects)
  {
    FilterIsSubseq(KeepsProject(query), projects);
    Filter(KeepsProject(query), projects)
  }

  /** An empty query keeps the whole list. */
  lemma EmptyQueryKeepsAll(projects: seq<Project>)
    ensures FilterProjects(projects, "") == projects
  {
    forall i | 0 <= i < |projects| ensures KeepsProject("")(projects[i]) {
      EmptyQueryMatches(projects[i].name, projects[i].description);
    }
    FilterKeepsAll(KeepsProject(""), projects);
  }

  /** What the page body shows. */
  datatype View = Skeletons | EmptyState | NoMatch | Grid(cards: seq<Project>)

  /** Loading first, then the empty state for no projects at all, then the
      no-match message, then the grid of matching projects. */
  function DashboardView(loading: bool, projects: seq<Project>, query: string): (v: View)
    ensures v.Skeletons? <==> loading
    ensures v.EmptyState? <==> !loading && projects == []
    ensures v.NoMatch? <==> !loading && projects != [] && FilterProjects(projects, query) == []
    ensures v.Grid? ==> v.cards == FilterProjects(projects, query) && v.cards != []
  {
    if loading then Skeletons
    else if projects == [] then EmptyState
    else if FilterProjects(projects, query) == [] then NoMatch
    else Grid(FilterProjects(projects, query))
  }

  /** The search box is shown once there is a project. */
  predicate SearchShown(projects: seq<Project>) {
    |projects| > 0
  }

  /** The no-match message needs a non-empty query, and so a visible search
      box to type it in. */
  lemma NoMatchNeedsQuery(projects: seq<Project>, query: string)
    requires DashboardView(false, projects, query) == NoMatch
    ensures query != "" && SearchShown(projects)
  {
    if query == "" {
      EmptyQueryKeepsAll(projects);
    }
  }

  /** Every card of the grid is a project that matches the query. */
  lemma GridCardsMatch(loading: bool, projects: seq<Project>, query: string, i: nat)
    requires DashboardView(loading, projects, query).Grid?
    requires i < |DashboardView(loading, projects, query).cards|
    ensures DashboardView(loading, projects, query).cards[i] in projects
    ensures Matches(DashboardView(loading, projects, query).cards[i].name, DashboardView(loading, projects, query).cards[i].description, query)
  {
  }
}
