/** The snippet endpoints (src/resources/snippet.py): moderation guards, visibility of
    drafts and published snippets, creation and update with tag resolution. */
module SnippetResources {
  import opened Wrappers
  import opened Slug
  import opened Tags
  import opened Snippets

  datatype Body =
    | Message(text: string)
    | One(snippet: SnippetView)
    | Many(snippets: seq<SnippetView>)

  /** A handler's return value: a body and an HTTP status code. */
  datatype Response = Response(body: Body, status: nat)

  /** The fields of a posted snippet, as the schema loads them. */
  datatype SnippetJson = SnippetJson(
    title: string,
    description: string,
    code: string,
    language: string,
    author: string,
    tags: seq<string>)

  /** The body of a `PUT`; `tags` is None when the key is absent. */
  datatype SnippetUpdateJson = SnippetUpdateJson(
    description: string,
    code: string,
    language: string,
    tags: Option<seq<string>>)

  const TitleTaken := "This title is already taken"
  const DoesNotExist := "Snippet does not exist"
  const Deleted := "Snippet deleted"
  const NotFound := "Snippet not found"
  const AlreadyApproved := "Snippet have been already approved"
  const Published := "Snippet has been published"
  const NotPublishedYet := "Snippet is not published yet"
  const Revoked := "Snippet's approval has been revoked"

  function Views(s: seq<SnippetModel>): (r: seq<SnippetView>)
    reads s
    ensures |r| == |s| && forall i :: 0 <= i < |s| ==> r[i] == s[i].View()
  {
    seq(|s|, i reads s requires 0 <= i < |s| => s[i].View())
  }

  /** `Snippets.get` (src/resources/snippet.py:15-17): the published snippets. */
  function SnippetsGet(t: SnippetTable): (r: Response)
    reads t, t.rows
    ensures r.status == 200 && r.body.Many?
    ensures forall i :: 0 <= i < |r.body.snippets| ==> r.body.snippets[i].published.Some?
    ensures forall i :: 0 <= i < |t.rows| && t.rows[i].published.Some? ==> t.rows[i].View() in r.body.snippets
    ensures forall v :: v in r.body.snippets ==>
      exists i :: 0 <= i < |t.rows| && t.rows[i].published.Some? && v == t.rows[i].View()
  {
    var found := t.FindAll(true);
    assert forall i :: 0 <= i < |found| ==> found[i].published.Some?;
    Response(Many(Views(found)), 200)
  }

  /** `SnippetsNotApproved.get` (src/resources/snippet.py:74-80): the drafts. */
  function SnippetsNotApprovedGet(t: SnippetTable): (r: Response)
    reads t, t.rows
    ensures r.status == 200 && r.body.Many?
    ensures forall i :: 0 <= i < |r.body.snippets| ==> r.body.snippets[i].published.None?
    ensures forall i :: 0 <= i < |t.rows| && t.rows[i].published.None? ==> t.rows[i].View() in r.body.snippets
    ensures forall v :: v in r.body.snippets ==>
      exists i :: 0 <= i < |t.rows| && t.rows[i].published.None? && v == t.rows[i].View()
  {
    var found := t.FindAll(false);
    assert forall i :: 0 <= i < |found| ==> found[i].published.None?;
    Response(Many(Views(found)), 200)
  }

  /** `SnippetDetail.get` (src/resources/snippet.py:38-42): a draft is reported as
      missing, exactly like a slug that resolves to nothing. */
  function SnippetDetailGet(t: SnippetTable, slug: string): (r: Response)
    reads t, t.rows
    ensures r.status == 200 || r == Response(Message(DoesNotExist), 404)
    ensures r.status == 200 <==> t.FindBySlug(slug).Some? && t.FindBySlug(slug).value.published.Some?
    ensures r.status == 200 ==> r.body == One(t.FindBySlug(slug).value.View())
  {
    match t.FindBySlug(slug)
    case None => Response(Message(DoesNotExist), 404)
    case Some(s) =>
      if s.published.None? then Response(Message(DoesNotExist), 404)
      else Response(One(s.View()), 200)
  }

  /** `SnippetNotAppprovedDetail.get` (src/resources/snippet.py:85-90): a published
      snippet is reported as missing. */
  function SnippetNotApprovedDetailGet(t: SnippetTable, slug: string): (r: Response)
    reads t, t.rows
    ensures r.status == 200 || r == Response(Message(DoesNotExist), 404)
    ensures r.status == 200 <==> t.FindBySlug(slug).Some? && t.FindBySlug(slug).value.published.None?
    ensures r.status == 200 ==> r.body == One(t.FindBySlug(slug).value.View())
  {
    match t.FindBySlug(slug)
    case None => Response(Message(DoesNotExist), 404)
    case Some(s) =>
      if s.published.Some? then Response(Message(DoesNotExist), 404)
      else Response(One(s.View()), 200)
  }

  /** A slug that resolves is shown by exactly one of the two detail endpoints, and
      one that does not resolve by neither. */
  lemma DetailVisibility(t: SnippetTable, slug: string)
    ensures t.FindBySlug(slug).Some? ==>
      (SnippetDetailGet(t, slug).status == 200) != (SnippetNotApprovedDetailGet(t, slug).status == 200)
    ensures t.FindBySlug(slug).None? ==>
      SnippetDetailGet(t, slug).status == 404 && SnippetNotApprovedDetailGet(t, slug).status == 404
  {
  }

  /** Resolves `names` one `get_or_create` call at a time and appends each tag to
      `s.tags` (the loops of src/resources/snippet.py:26-30 and :57-60). */
  method AttachTags(tags: TagTable, s: SnippetModel, names: seq<string>)
    requires tags.Valid()
    modifies tags, s`tags
    ensures tags.Valid()
    ensures tags.Store() == ResolveAll(old(tags.Store()), names).0
    ensures s.tags == old(s.tags) + ResolveAll(old(tags.Store()), names).1
  {
    ghost var st0 := tags.Store();
    var added: seq<Tag> := [];
    var i := 0;
    assert names[..i] == [];
    while i < |names|
      invariant 0 <= i <= |names|
      invariant tags.Valid()
      invariant (tags.Store(), added) == ResolveAll(st0, names[..i])
      invariant s.tags == old(s.tags)
    {
      ResolveAllStep(st0, names, i);
      var t := tags.GetOrCreate(names[i]);
      added := added + [t];
      i := i + 1;
    }
    assert names[..i] == names;
    s.tags := s.tags + added;
  }

  /** `Snippets.post` (src/resources/snippet.py:19-32). */
  method SnippetsPost(t: SnippetTable, tags: TagTable, body: SnippetJson, now: Time) returns (r: Response)
    requires t.Valid() && tags.Valid()
    modifies t, tags
    ensures t.Valid() && tags.Valid()
    ensures old(t.FindByTitle(body.title)).Some? ==>
      r == Response(Message(TitleTaken), 400) && t.rows == old(t.rows) && tags.Store() == old(tags.Store())
    ensures old(t.FindByTitle(body.title)).None? ==>
      && r.status == 201
      && |t.rows| == |old(t.rows)| + 1
      && t.rows[..|old(t.rows)|] == old(t.rows)
      && fresh(t.rows[|old(t.rows)|])
      && var (st, resolved) := ResolveAll(old(tags.Store()), body.tags);
         && tags.Store() == st
         && r.body == One(SnippetView(body.title, body.description, body.code, body.language,
                                      body.author, now, None, resolved))
         && t.rows[|old(t.rows)|].View() == r.body.snippet
  {
    if t.FindByTitle(body.title).Some? {
      return Response(Message(TitleTaken), 400);
    }
    var s := new SnippetModel(body.title, body.description, body.code, body.language, body.author, now);
    AttachTags(tags, s, body.tags);
    var ok := t.SaveToDb(s);
    assert ok;
    r := Response(One(s.View()), 201);
  }

  /** `SnippetDetail.put` (src/resources/snippet.py:44-62): overwrites the text
      fields and replaces the tag list wholesale; title and publication date stay. */
  method SnippetDetailPut(t: SnippetTable, tags: TagTable, slug: string, body: SnippetUpdateJson) returns (r: Response)
    requires tags.Valid()
    modifies t.rows, tags
    ensures tags.Valid()
    ensures old(t.FindBySlug(slug)).None? ==>
      r == Response(Message(DoesNotExist), 404) && tags.Store() == old(tags.Store())
    ensures old(t.FindBySlug(slug)).Some? ==>
      var s := old(t.FindBySlug(slug)).value;
      var names := if body.tags.Some? then body.tags.value else [];
      var (st, resolved) := ResolveAll(old(tags.Store()), names);
      && tags.Store() == st
      && s.View() == old(s.View()).(description := body.description, code := body.code,
                                     language := body.language, tags := resolved)
      && r == Response(One(s.View()), 200)
    ensures forall x :: x in t.rows && Some(x) != old(t.FindBySlug(slug)) ==> unchanged(x)
  {
    var found := t.FindBySlug(slug);
    if found.None? {
      return Response(Message(DoesNotExist), 404);
    }
    var s := found.value;
    ghost var before := s.View();
    s.description := body.description;
    s.code := body.code;
    s.language := body.language;
    s.tags := [];
    var names := if body.tags.Some? then body.tags.value else [];
    ghost var cleared := before.(description := body.description, code := body.code,
                                 language := body.language, tags := []);
    assert s.View() == cleared;
    AttachTags(tags, s, names);
    assert s.View() == cleared.(tags := ResolveAll(old(tags.Store()), names).1);
    r := Response(One(s.View()), 200);
  }

  /** `SnippetDetail.delete` (src/resources/snippet.py:64-71). */
  method SnippetDetailDelete(t: SnippetTable, slug: string) returns (r: Response)
    requires t.Valid()
    modifies t
    ensures t.Valid()
    ensures old(t.FindBySlug(slug)).None? ==> r == Response(Message(DoesNotExist), 404) && t.rows == old(t.rows)
    ensures old(t.FindBySlug(slug)).Some? ==>
      var s := old(t.FindBySlug(slug)).value;
      && r == Response(Message(Deleted), 200)
      && s !in t.rows
      && exists k :: 0 <= k < |old(t.rows)| && old(t.rows)[k] == s && t.rows == old(t.rows)[..k] + old(t.rows)[k + 1..]
  {
    var found := t.FindBySlug(slug);
    if found.None? {
      return Response(Message(DoesNotExist), 404);
    }
    t.DeleteFromDb(found.value);
    r := Response(Message(Deleted), 200);
  }

  /** `ApproveSnippet.post` (src/resources/snippet.py:93-104). */
  method ApproveSnippetPost(t: SnippetTable, slug: string, now: Time) returns (r: Response)
    modifies t.rows
    ensures old(t.FindBySlug(slug)).None? ==> r == Response(Message(NotFound), 404)
    ensures old(t.FindBySlug(slug)).Some? ==>
      var s := old(t.FindBySlug(slug)).value;
      if old(s.published).Some? then
        r == Response(Message(AlreadyApproved), 400) && unchanged(s)
      else
        r == Response(Message(Published), 200) && s.View() == old(s.View()).(published := Some(now))
    ensures forall x :: x in t.rows && Some(x) != old(t.FindBySlug(slug)) ==> unchanged(x)
  {
    var found := t.FindBySlug(slug);
    if found.None? {
      return Response(Message(NotFound), 404);
    }
    var s := found.value;
    if s.published.Some? {
      return Response(Message(AlreadyApproved), 400);
    }
    s.Approve(now);
    r := Response(Message(Published), 200);
  }

  /** `RevokeApprovalSnippet.post` (src/resources/snippet.py:107-118). */
  method RevokeApprovalSnippetPost(t: SnippetTable, slug: string) returns (r: Response)
    modifies t.rows
    ensures old(t.FindBySlug(slug)).None? ==> r == Response(Message(NotFound), 404)
    ensures old(t.FindBySlug(slug)).Some? ==>
      var s := old(t.FindBySlug(slug)).value;
      if old(s.published).None? then
        r == Response(Message(NotPublishedYet), 400) && unchanged(s)
      else
        r == Response(Message(Revoked), 200) && s.View() == old(s.View()).(published := None)
    ensures forall x :: x in t.rows && Some(x) != old(t.FindBySlug(slug)) ==> unchanged(x)
  {
    var found := t.FindBySlug(slug);
    if found.None? {
      return Response(Message(NotFound), 404);
    }
    var s := found.value;
    if s.published.None? {
      return Response(Message(NotPublishedYet), 400);
    }
    s.RevokeApproval();
    r := Response(Message(Revoked), 200);
  }

  /** Approving twice: the second call is refused and keeps the first date. */
  method ApproveTwice(t: SnippetTable, slug: string, first: Time, second: Time) returns (r1: Response, r2: Response)
    modifies t.rows
    ensures t.FindBySlug(slug).Some? && old(t.FindBySlug(slug).value.published).None? ==>
      && r1.status == 200
      && r2 == Response(Message(AlreadyApproved), 400)
      && t.FindBySlug(slug).value.published == Some(first)
  {
    r1 := ApproveSnippetPost(t, slug, first);
    r2 := ApproveSnippetPost(t, slug, second);
  }

  /** Approval followed by revocation leaves a found snippet a draft, whatever its
      state was before. */
  method ApproveThenRevoke(t: SnippetTable, slug: string, now: Time) returns (r1: Response, r2: Response)
    modifies t.rows
    ensures t.FindBySlug(slug).Some? ==>
      && r2 == Response(Message(Revoked), 200)
      && t.FindBySlug(slug).value.View() == old(t.FindBySlug(slug).value.View()).(published := None)
  {
    r1 := ApproveSnippetPost(t, slug, now);
    r2 := RevokeApprovalSnippetPost(t, slug);
  }
}
