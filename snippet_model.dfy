/** The snippet entity and its table (src/api/models/snippet.py). A snippet is a
    draft while its publication date is absent and published once it is set. */
module Snippets {
  import opened Wrappers
  import opened Lookup
  import opened Slug
  import opened Tags

  /** An instant of the abstract clock that stands for `datetime.utcnow()`. */
  type Time = nat

  /** What `snippet_schema.dump` reports of a snippet: a snapshot of its columns. */
  datatype SnippetView = SnippetView(
    title: string,
    description: string,
    code: string,
    language: string,
    author: string,
    created: Time,
    published: Option<Time>,
    tags: seq<Tag>)

  /** A `SnippetModel` instance (src/api/models/snippet.py:14-29). Title, author and
      creation date are never reassigned by the code, so they are constants; the
      other columns are updated in place. */
  class SnippetModel {
    const title: string
    var description: string
    var code: string
    var language: string
    const author: string
    const created: Time
    var published: Option<Time>
    var tags: seq<Tag>

    /** A new, not yet stored snippet: a draft without tags. */
    constructor (title: string, description: string, code: string, language: string,
                 author: string, created: Time)
      ensures View() == SnippetView(title, description, code, language, author, created, None, [])
    {
      this.title := title;
      this.description := description;
      this.code := code;
      this.language := language;
      this.author := author;
      this.created := created;
      this.published := None;
      this.tags := [];
    }

    function View(): SnippetView
      reads this
    {
      SnippetView(title, description, code, language, author, created, published, tags)
    }

    /** `approve` (src/api/models/snippet.py:50-52): stamps the publication date;
        nothing else changes. */
    method Approve(now: Time)
      modifies this
      ensures published == Some(now)
      ensures View() == old(View()).(published := Some(now))
    {
      published := Some(now);
    }

    /** `revoke_approval` (src/api/models/snippet.py:54-56): back to draft; nothing
        else changes. */
    method RevokeApproval()
      modifies this
      ensures published == None
      ensures View() == old(View()).(published := None)
    {
      published := None;
    }
  }

  /** The snippets of `s` whose publication state is `published`, in table order. */
  function Filter(s: seq<SnippetModel>, published: bool): (r: seq<SnippetModel>)
    reads s
    ensures forall i :: 0 <= i < |r| ==> r[i] in s && r[i].published.Some? == published
    ensures forall i :: 0 <= i < |s| && s[i].published.Some? == published ==> s[i] in r
    ensures |r| <= |s|
    decreases |s|
  {
    if s == [] then []
    else
      var rest := Filter(s[1..], published);
      if s[0].published.Some? == published then [s[0]] + rest else rest
  }

  /** The published and the draft snippets split the table: each row lands in
      exactly one of the two, as often as it occurs. */
  lemma {:induction false} FilterPartition(s: seq<SnippetModel>)
    ensures multiset(Filter(s, true)) + multiset(Filter(s, false)) == multiset(s)
    decreases |s|
  {
    if s != [] {
      FilterPartition(s[1..]);
      assert s == [s[0]] + s[1..];
    }
  }

  /** Titles are unique across the table (src/api/models/snippet.py:18). */
  predicate TitlesUnique(rows: seq<SnippetModel>)
  {
    forall i, j :: 0 <= i < j < |rows| ==> rows[i].title != rows[j].title
  }

  /** The `blog_snippet` table as the session sees it. */
  class SnippetTable {
    var rows: seq<SnippetModel>

    constructor ()
      ensures rows == []
    {
      rows := [];
    }

    predicate Valid()
      reads this
    {
      TitlesUnique(rows)
    }

    /** `find_all` (src/api/models/snippet.py:35-39): the published snippets, or the
        drafts. */
    function FindAll(published: bool): (r: seq<SnippetModel>)
      reads this, rows
      ensures forall i :: 0 <= i < |r| ==> r[i] in rows && r[i].published.Some? == published
      ensures forall i :: 0 <= i < |rows| && rows[i].published.Some? == published ==> rows[i] in r
    {
      Filter(rows, published)
    }

    /** `find_by_slug` (src/api/models/snippet.py:41-44): the first snippet whose title
        equals the un-slugged slug up to case. */
    function FindBySlug(slug: string): (r: Option<SnippetModel>)
      reads this
      ensures r.Some? ==> r.value in rows && ILike(r.value.title, Unslug(slug))
      ensures r.None? <==> forall i :: 0 <= i < |rows| ==> !ILike(rows[i].title, Unslug(slug))
    {
      var pattern := Unslug(slug);
      match FirstIndex(rows, (s: SnippetModel) => ILike(s.title, pattern))
      case None => None
      case Some(k) => Some(rows[k])
    }

    /** `find_by_title` (src/api/models/snippet.py:46-48): exact, case-sensitive. */
    function FindByTitle(title: string): (r: Option<SnippetModel>)
      reads this
      ensures r.Some? ==> r.value in rows && r.value.title == title
      ensures r.None? <==> forall i :: 0 <= i < |rows| ==> rows[i].title != title
    {
      match FirstIndex(rows, (s: SnippetModel) => s.title == title)
      case None => None
      case Some(k) => Some(rows[k])
    }

    /** `save_to_db` (src/api/models/snippet.py:58-60): a stored snippet is committed
        as it is; a new one is inserted, unless the unique constraint on the title
        refuses it. */
    method SaveToDb(s: SnippetModel) returns (ok: bool)
      requires Valid()
      modifies this
      ensures Valid()
      ensures ok <==> s in old(rows) || old(FindByTitle(s.title)).None?
      ensures rows == if s in old(rows) || !ok then old(rows) else old(rows) + [s]
    {
      if s in rows {
        ok := true;
      } else if FindByTitle(s.title).Some? {
        ok := false;
      } else {
        rows := rows + [s];
        ok := true;
      }
    }

    /** `delete_from_db` (src/api/models/snippet.py:62-64): removes that snippet and
        keeps the others in order. */
    method DeleteFromDb(s: SnippetModel)
      requires Valid() && s in rows
      modifies this
      ensures Valid() && s !in rows
      ensures exists k :: 0 <= k < |old(rows)| && old(rows)[k] == s && rows == old(rows)[..k] + old(rows)[k + 1..]
    {
      var k := FirstIndex(rows, (x: SnippetModel) => x == s).value;
      rows := rows[..k] + rows[k + 1..];
    }
  }

  /** `find_all(True)` and `find_all(False)` partition the table. */
  lemma FindAllPartition(t: SnippetTable)
    ensures multiset(t.FindAll(true)) + multiset(t.FindAll(false)) == multiset(t.rows)
  {
    FilterPartition(t.rows);
  }

  /** In a valid table, looking up a stored title finds exactly that snippet. */
  lemma FindByTitleFindsStored(t: SnippetTable, k: nat)
    requires t.Valid() && k < |t.rows|
    ensures t.FindByTitle(t.rows[k].title) == Some(t.rows[k])
  {
    var r := t.FindByTitle(t.rows[k].title).value;
    var j :| 0 <= j < |t.rows| && t.rows[j] == r;
    assert j == k;
  }

  /** A slug resolves to a snippet whose title contains no `-`. */
  lemma FindBySlugNeverDashed(t: SnippetTable, slug: string)
    ensures t.FindBySlug(slug).Some? ==> '-' !in t.FindBySlug(slug).value.title
  {
    var r := t.FindBySlug(slug);
    if r.Some? && '-' in r.value.title {
      DashedTitleNeverMatches(r.value.title, slug);
    }
  }

  /** Resolution ignores the case of the slug. */
  lemma FindBySlugIgnoresCase(t: SnippetTable, slug: string)
    ensures t.FindBySlug(Fold(slug)) == t.FindBySlug(slug)
  {
    forall i | 0 <= i < |t.rows|
      ensures ILike(t.rows[i].title, Unslug(Fold(slug))) == ILike(t.rows[i].title, Unslug(slug))
    {
      UnslugCaseInsensitive(t.rows[i].title, slug);
    }
    var a, b := t.FindBySlug(Fold(slug)), t.FindBySlug(slug);
    if a.Some? && b.Some? {
      var i :| 0 <= i < |t.rows| && t.rows[i] == a.value && forall j :: 0 <= j < i ==> !ILike(t.rows[j].title, Unslug(Fold(slug)));
      var k :| 0 <= k < |t.rows| && t.rows[k] == b.value && forall j :: 0 <= j < k ==> !ILike(t.rows[j].title, Unslug(slug));
      assert !(i < k) && !(k < i);
    }
  }

  /** The slug of a stored title without `-`, in any case, resolves to that snippet,
      provided no other stored title equals it up to case. */
  lemma FindBySlugOfTitle(t: SnippetTable, k: nat)
    requires k < |t.rows| && '-' !in t.rows[k].title
    requires forall j :: 0 <= j < |t.rows| && j != k ==> !ILike(t.rows[j].title, t.rows[k].title)
    ensures t.FindBySlug(Slugify(t.rows[k].title)) == Some(t.rows[k])
    ensures t.FindBySlug(Fold(Slugify(t.rows[k].title))) == Some(t.rows[k])
  {
    var title := t.rows[k].title;
    SlugRoundTrip(title);
    var r := t.FindBySlug(Slugify(title));
    assert ILike(t.rows[k].title, Unslug(Slugify(title)));
    var j :| 0 <= j < |t.rows| && t.rows[j] == r.value;
    assert j == k;
    FindBySlugIgnoresCase(t, Slugify(title));
  }
}
