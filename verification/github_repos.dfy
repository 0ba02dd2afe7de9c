/** The repository list of the GitHub tab: the search filter, the token form,
    and which of its panels is shown. */
module GitHubRepos {
  import opened Wrappers
  import opened Strings
  import opened Seqs
  import opened Search

  /** The fields of a repository the list uses. */
  datatype Repo = Repo(id: int, name: string, description: Option<string>)

  function KeepsRepo(query: string): Repo -> bool {
    (r: Repo) => Matches(r.name, r.description, query)
  }

  /** `filteredRepos`: the matching repositories, in list order. */
  function FilterRepos(repos: seq<Repo>, query: string): (r: seq<Repo>)
    ensures forall x :: x in r <==> x in repos && Matches(x.name, x.description, query)
    ensures Subseq(r, repos)
  {
    FilterIsSubseq(KeepsRepo(query), repos);
    Filter(KeepsRepo(query), repos)
  }

  /** An empty query keeps every repository. */
  lemma EmptyQueryKeepsAll(repos: seq<Repo>)
    ensures FilterRepos(repos, "") == repos
  {
    forall i | 0 <= i < |repos| ensures KeepsRepo("")(repos[i]) {
      EmptyQueryMatches(repos[i].name, repos[i].description);
    }
    FilterKeepsAll(KeepsRepo(""), repos);
  }

  /** The Connect button is disabled while the input is blank. */
  predicate ConnectDisabled(input: string) {
    AllSpace(input)
  }

  /** `handleSubmitToken`: the token handed on, if any, and the input
      afterwards. A blank input hands on nothing and stays; any other is handed
      on trimmed and cleared. */
  function SubmitToken(input: string): (r: (Option<string>, string))
    ensures r.0.None? <==> ConnectDisabled(input)
    ensures r.0.None? ==> r.1 == input
    ensures r.0.Some? ==> r.0.value != [] && !IsJsSpace(r.0.value[0]) && !IsJsSpace(r.0.value[|r.0.value| - 1])
    ensures r.0.Some? ==> r.1 == ""
  {
    var t := Trim(input);
    if t != [] then (Some(t), "") else (None, input)
  }

  /** A token pasted with white space around it is handed on without it. */
  lemma SubmitTrimsToken(pre: string, token: string, post: string)
    requires AllSpace(pre) && AllSpace(post)
    requires token != [] && !IsJsSpace(token[0]) && !IsJsSpace(token[|token| - 1])
    ensures SubmitToken(pre + token + post) == (Some(token), "")
  {
    TrimPadded(pre, token, post);
  }

  /** What the tab shows. */
  datatype View =
    | ConnectForm
    | ErrorCard(message: string)
    | Skeletons
    | EmptyMessage(text: string)
    | List(cards: seq<Repo>)

  /** Without a token, the connect form; else a (non-empty) error; else the
      loading placeholders, the empty message, or the matching repositories. */
  function ReposView(hasToken: bool, error: Option<string>, loading: bool, repos: seq<Repo>, query: string): (v: View)
    ensures v.ConnectForm? <==> !hasToken
    ensures v.ErrorCard? <==> hasToken && error.Some? && error.value != ""
    ensures v.ErrorCard? ==> v.message == error.value
    ensures v.Skeletons? <==> hasToken && (error.None? || error.value == "") && loading
    ensures v.List? ==> v.cards == FilterRepos(repos, query) && v.cards != []
    ensures v.EmptyMessage? ==> FilterRepos(repos, query) == []
  {
    if !hasToken then ConnectForm
    else if error.Some? && error.value != "" then ErrorCard(error.value)
    else if loading then Skeletons
    else if FilterRepos(repos, query) == [] then
      EmptyMessage(if query != "" then "No repositories match your search" else "No repositories found")
    else List(FilterRepos(repos, query))
  }

  /** The empty message blames the search exactly when there is a query; with
      none, the list really is empty. */
  lemma EmptyMessageText(hasToken: bool, error: Option<string>, loading: bool, repos: seq<Repo>, query: string)
    requires ReposView(hasToken, error, loading, repos, query).EmptyMessage?
    ensures ReposView(hasToken, error, loading, repos, query).text == "No repositories match your search" <==> query != ""
    ensures query == "" ==> repos == []
  {
    if query == "" {
      EmptyQueryKeepsAll(repos);
    }
  }
}
