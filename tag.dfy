/** The tag table (src/models/tag.py): tags are never changed after creation, so a
    tag is a value; the table is an object whose `get_or_create` may insert a row. */
module Tags {
  import opened Wrappers
  import opened Lookup

  /** A row of `blog_tag`: the primary key and the name (unique, case-sensitive). */
  datatype Tag = Tag(id: nat, name: string)

  /** The contents of the table and the next primary key the database hands out. */
  datatype TagStore = TagStore(rows: seq<Tag>, nextId: nat)

  /** The table's constraints: unique names, unique ids, all ids already handed out. */
  predicate WellFormed(st: TagStore)
  {
    && (forall i, j :: 0 <= i < j < |st.rows| ==> st.rows[i].name != st.rows[j].name)
    && (forall i, j :: 0 <= i < j < |st.rows| ==> st.rows[i].id != st.rows[j].id)
    && (forall i :: 0 <= i < |st.rows| ==> st.rows[i].id < st.nextId)
  }

  /** `TagModel.find_by_id` (src/models/tag.py:11-13). */
  function FindById(rows: seq<Tag>, id: nat): (r: Option<Tag>)
    ensures r.Some? ==> r.value in rows && r.value.id == id
    ensures r.None? <==> forall i :: 0 <= i < |rows| ==> rows[i].id != id
  {
    match FirstIndex(rows, (t: Tag) => t.id == id)
    case None => None
    case Some(k) => Some(rows[k])
  }

  /** `TagModel.find_by_name` (src/models/tag.py:15-17): exact, case-sensitive. */
  function FindByName(rows: seq<Tag>, name: string): (r: Option<Tag>)
    ensures r.Some? ==> r.value in rows && r.value.name == name
    ensures r.None? <==> forall i :: 0 <= i < |rows| ==> rows[i].name != name
  {
    match FirstIndex(rows, (t: Tag) => t.name == name)
    case None => None
    case Some(k) => Some(rows[k])
  }

  /** In a well-formed table, the tag found for a stored name is the row holding it. */
  lemma FindByNameUnique(st: TagStore, k: nat)
    requires WellFormed(st) && k < |st.rows|
    ensures FindByName(st.rows, st.rows[k].name) == Some(st.rows[k])
  {
    var r := FindByName(st.rows, st.rows[k].name);
    var j :| 0 <= j < |st.rows| && st.rows[j] == r.value;
    assert j == k;
  }

  /** What `TagModel.get_or_create` (src/models/tag.py:19-25) does to the table and
      returns: the tag already named `name`, or a new row with the next id. */
  function Resolve(st: TagStore, name: string): (r: (TagStore, Tag))
    ensures r.1.name == name && r.1 in r.0.rows
    ensures FindByName(st.rows, name).Some? ==> r.0 == st
    ensures FindByName(st.rows, name).None? ==>
      r.0.rows == st.rows + [r.1] && r.1.id == st.nextId && r.0.nextId == st.nextId + 1
  {
    match FindByName(st.rows, name)
    case Some(t) => (st, t)
    case None =>
      var t := Tag(st.nextId, name);
      (TagStore(st.rows + [t], st.nextId + 1), t)
  }

  /** `get_or_create` keeps names and ids unique. */
  lemma ResolveKeepsWellFormed(st: TagStore, name: string)
    requires WellFormed(st)
    ensures WellFormed(Resolve(st, name).0)
  {
  }

  /** Resolving the same name twice gives the same tag and changes the table at most
      once: the second call finds what the first one returned or created. */
  lemma ResolveIdempotent(st: TagStore, name: string)
    requires WellFormed(st)
    ensures var (st1, t1) := Resolve(st, name);
            var (st2, t2) := Resolve(st1, name);
            t2 == t1 && st2 == st1 && |st2.rows| <= |st.rows| + 1
  {
    var (st1, t1) := Resolve(st, name);
    var k :| 0 <= k < |st1.rows| && st1.rows[k] == t1;
    FindByNameUnique(st1, k);
  }

  /** The tag list a sequence of `get_or_create` calls builds, in call order, with the
      table they leave behind. */
  function ResolveAll(st: TagStore, names: seq<string>): (r: (TagStore, seq<Tag>))
    decreases |names|
  {
    if names == [] then (st, [])
    else
      var (st1, ts) := ResolveAll(st, names[..|names| - 1]);
      var (st2, t) := Resolve(st1, names[|names| - 1]);
      (st2, ts + [t])
  }

  /** Resolving one more name extends the result of the shorter series by one call. */
  lemma ResolveAllStep(st: TagStore, names: seq<string>, i: nat)
    requires i < |names|
    ensures var (st1, ts) := ResolveAll(st, names[..i]);
            var (st2, t) := Resolve(st1, names[i]);
            ResolveAll(st, names[..i + 1]) == (st2, ts + [t])
  {
    var prefix := names[..i + 1];
    assert prefix[..|prefix| - 1] == names[..i];
  }

  /** One tag per name, in order, each carrying that name. */
  lemma {:induction false} ResolveAllNames(st: TagStore, names: seq<string>)
    ensures var ts := ResolveAll(st, names).1;
            |ts| == |names| && forall i :: 0 <= i < |ts| ==> ts[i].name == names[i]
    decreases |names|
  {
    if names != [] {
      var init := names[..|names| - 1];
      ResolveAllNames(st, init);
      var (st1, ts) := ResolveAll(st, init);
      var (st2, t) := Resolve(st1, names[|names| - 1]);
      assert ResolveAll(st, names).1 == ts + [t];
      forall i | 0 <= i < |ts| ensures ts[i].name == names[i] {
        assert init[i] == names[i];
      }
    }
  }

  /** The old rows stay as they were, in front; at most one row per name is added;
      the table's constraints survive. */
  lemma {:induction false} ResolveAllGrows(st: TagStore, names: seq<string>)
    requires WellFormed(st)
    ensures var st' := ResolveAll(st, names).0;
            st.rows <= st'.rows && |st'.rows| <= |st.rows| + |names| && WellFormed(st')
    decreases |names|
  {
    if names != [] {
      var init := names[..|names| - 1];
      ResolveAllGrows(st, init);
      ResolveKeepsWellFormed(ResolveAll(st, init).0, names[|names| - 1]);
    }
  }

  /** Every resolved tag is a row of the table left behind. */
  lemma {:induction false} ResolveAllStored(st: TagStore, names: seq<string>)
    requires WellFormed(st)
    ensures var (st', ts) := ResolveAll(st, names);
            forall t :: t in ts ==> t in st'.rows
    decreases |names|
  {
    if names != [] {
      var init := names[..|names| - 1];
      ResolveAllStored(st, init);
      ResolveAllGrows(st, init);
      var (st1, ts) := ResolveAll(st, init);
      var (st2, t) := Resolve(st1, names[|names| - 1]);
      assert st1.rows <= st2.rows;
      forall u | u in ts + [t] ensures u in st2.rows {
        if u in ts {
          assert u in st1.rows;
        }
      }
    }
  }

  /** Names that are already all in the table resolve without changing it. */
  lemma {:induction false} ResolveAllKnownNames(st: TagStore, names: seq<string>)
    requires forall i :: 0 <= i < |names| ==> FindByName(st.rows, names[i]).Some?
    ensures ResolveAll(st, names).0 == st
    decreases |names|
  {
    if names != [] {
      ResolveAllKnownNames(st, names[..|names| - 1]);
    }
  }

  /** The table object: `blog_tag` as the session sees it. */
  class TagTable {
    var rows: seq<Tag>
    var nextId: nat

    constructor ()
      ensures rows == [] && nextId == 1
    {
      rows := [];
      nextId := 1;
    }

    function Store(): TagStore
      reads this
    {
      TagStore(rows, nextId)
    }

    predicate Valid()
      reads this
    {
      WellFormed(Store())
    }

    /** `TagModel.get_or_create` (src/models/tag.py:19-25). */
    method GetOrCreate(name: string) returns (t: Tag)
      requires Valid()
      modifies this
      ensures Valid()
      ensures (Store(), t) == Resolve(old(Store()), name)
    {
      ResolveKeepsWellFormed(Store(), name);
      var found := FindByName(rows, name);
      if found.None? {
        t := Tag(nextId, name);
        rows := rows + [t];
        nextId := nextId + 1;
      } else {
        t := found.value;
      }
    }
  }
}
