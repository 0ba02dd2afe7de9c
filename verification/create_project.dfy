/** The "Create New Project" dialog: its form, the submit guard, and the
    reset on close. */
module CreateProject {
  import opened Wrappers
  import opened Strings
  import Templates

  /** The templates offered, in order. */
  function Offered(): seq<string> {
    ["nextjs", "vite-vue", "static"]
  }

  /** The dialog's fields. */
  datatype Form = Form(name: string, description: string, template: string)

  /** The fields when the dialog is first shown and after it is closed. */
  function Blank(): (f: Form)
    ensures f.name == "" && f.description == "" && f.template == Offered()[0]
  {
    Form("", "", "nextjs")
  }

  /** What the dialog asks the page to create. */
  datatype Submission = Submission(name: string, description: string, template: string)

  /** `handleSubmit`: a blank name sends nothing; otherwise name and
      description are sent trimmed, with the selected template. */
  function Submit(f: Form): (r: Option<Submission>)
    ensures r.None? <==> AllSpace(f.name)
    ensures r.Some? ==> r.value.name != [] && !IsJsSpace(r.value.name[0]) && !IsJsSpace(r.value.name[|r.value.name| - 1])
    ensures r.Some? ==> r.value.template == f.template
    ensures r.Some? ==> |r.value.description| <= |f.description|
  {
    if Trim(f.name) == [] then None
    else Some(Submission(Trim(f.name), Trim(f.description), f.template))
  }

  /** Surrounding white space in both fields is dropped. */
  lemma SubmitTrims(pre: string, name: string, post: string, description: string, template: string)
    requires AllSpace(pre) && AllSpace(post)
    requires name != [] && !IsJsSpace(name[0]) && !IsJsSpace(name[|name| - 1])
    ensures Submit(Form(pre + name + post, description, template)) == Some(Submission(name, Trim(description), template))
  {
    TrimPadded(pre, name, post);
  }

  /** `handleOpenChange`: closing clears the form, opening keeps it. */
  function OpenChange(f: Form, open: bool): (r: Form)
    ensures !open ==> r == Blank()
    ensures open ==> r == f
  {
    if open then f else Blank()
  }

  /** The Create button is disabled while the name is blank or a request is
      pending. */
  predicate CreateDisabled(f: Form, pending: bool) {
    AllSpace(f.name) || pending
  }

  /** An enabled Create button sends a project; a disabled one only for a
      pending request. */
  lemma EnabledButtonSubmits(f: Form, pending: bool)
    ensures !CreateDisabled(f, pending) ==> Submit(f).Some?
    ensures Submit(f).Some? ==> (CreateDisabled(f, pending) <==> pending)
  {
  }

  /** After the dialog is closed and reopened nothing can be sent until a
      name is typed. */
  lemma ReopenedFormSendsNothing(f: Form)
    ensures Submit(OpenChange(OpenChange(f, false), true)).None?
  {
  }

  /** Every offered template has a table of its own, and the default one is
      the Next.js table. */
  lemma OfferedTemplatesHaveTables()
    ensures Templates.TableFor(Offered()[0]) == Templates.NextJs()
    ensures Templates.TableFor(Offered()[1]) == Templates.ViteVue()
    ensures Templates.TableFor(Offered()[2]) == Templates.Static()
    ensures Templates.TableFor(Blank().template) == Templates.NextJs()
  {
  }
}
