/**
 * The useful-links page: grouping the links by category, the list of known
 * categories, the link form with its save and delete, and the state they
 * leave behind. The server is represented by its reply to each request.
 */
module LinksPage {
  import opened Wrappers

  /** A row of `useful_links`. */
  datatype UsefulLink = UsefulLink(
    id: string,
    title: string,
    url: string,
    category: string,
    description: string,
    author: Option<string>,
    icon: string)

  // ---------------------------------------------------------------------------
  // Grouping by category
  // ---------------------------------------------------------------------------

  /**
   * The properties every plain JavaScript object inherits from
   * `Object.prototype`. Reading one of them on `{}` gives a function or the
   * prototype object, never an array.
   */
  const ObjectPrototypeNames: set<string> :=
    {"constructor", "__proto__", "hasOwnProperty", "isPrototypeOf", "propertyIsEnumerable",
     "toString", "toLocaleString", "valueOf",
     "__defineGetter__", "__defineSetter__", "__lookupGetter__", "__lookupSetter__"}

  /**
   * The `reduce` into `{}` over `links[..n]`, as written: `!acc[c]` is false
   * for an inherited name, so no array is made and the `push` throws a
   * TypeError (`None`).
   */
  function PlainObjectGroupsUpTo(links: seq<UsefulLink>, n: nat): Option<map<string, seq<UsefulLink>>>
    requires n <= |links|
  {
    if n == 0 then Some(map[])
    else match PlainObjectGroupsUpTo(links, n - 1)
      case None => None
      case Some(acc) =>
        var c := links[n - 1].category;
        if c !in acc && c in ObjectPrototypeNames then None
        else Some(acc[c := (if c in acc then acc[c] else []) + [links[n - 1]]])
  }

  /** Once the `push` has thrown, the rest of the `reduce` never runs. */
  lemma {:induction false} PlainObjectFailureStays(links: seq<UsefulLink>, m: nat, n: nat)
    requires m <= n <= |links| && PlainObjectGroupsUpTo(links, m).None?
    ensures PlainObjectGroupsUpTo(links, n).None?
  {
    if m < n {
      PlainObjectFailureStays(links, m, n - 1);
    }
  }

  /** `linksByCategory`, computed as the source does, with its `reduce` as a loop. */
  method LinksByCategory(links: seq<UsefulLink>) returns (groups: Option<map<string, seq<UsefulLink>>>)
    ensures groups == PlainObjectGroupsUpTo(links, |links|)
  {
    var acc: map<string, seq<UsefulLink>> := map[];
    var i := 0;
    while i < |links|
      invariant 0 <= i <= |links|
      invariant PlainObjectGroupsUpTo(links, i) == Some(acc)
    {
      var c := links[i].category;
      ghost var before := acc;
      if c !in acc {
        if c in ObjectPrototypeNames {
          PlainObjectFailureStays(links, i + 1, |links|);
          return None;
        }
        acc := acc[c := []];
      }
      acc := acc[c := acc[c] + [links[i]]];
      assert acc == before[c := (if c in before then before[c] else []) + [links[i]]];
      i := i + 1;
    }
    return Some(acc);
  }

  /** The grouping the page means: one list per category, built by appending in input order. */
  function GroupsUpTo(links: seq<UsefulLink>, n: nat): map<string, seq<UsefulLink>>
    requires n <= |links|
  {
    if n == 0 then map[]
    else
      var acc := GroupsUpTo(links, n - 1);
      var c := links[n - 1].category;
      acc[c := (if c in acc then acc[c] else []) + [links[n - 1]]]
  }

  function Groups(links: seq<UsefulLink>): map<string, seq<UsefulLink>> {
    GroupsUpTo(links, |links|)
  }

  /**
   * The grouping with an accumulator that inherits nothing (a `Map`, or
   * `Object.create(null)`): the same loop, and no category can make it throw.
   */
  method GroupByCategory(links: seq<UsefulLink>) returns (groups: map<string, seq<UsefulLink>>)
    ensures groups == Groups(links)
  {
    groups := map[];
    var i := 0;
    while i < |links|
      invariant 0 <= i <= |links|
      invariant groups == GroupsUpTo(links, i)
    {
      var c := links[i].category;
      ghost var before := groups;
      if c !in groups {
        groups := groups[c := []];
      }
      groups := groups[c := groups[c] + [links[i]]];
      assert groups == before[c := (if c in before then before[c] else []) + [links[i]]];
      i := i + 1;
    }
  }

  /** Some link among `links[..n]` has a category named like an inherited property. */
  predicate HitsPrototype(links: seq<UsefulLink>, n: nat)
    requires n <= |links|
  {
    exists i :: 0 <= i < n && links[i].category in ObjectPrototypeNames
  }

  /**
   * The source's grouping throws exactly when a category is the name of an
   * inherited property, and otherwise is the intended grouping.
   */
  lemma {:induction false} PlainObjectGroupsSpec(links: seq<UsefulLink>, n: nat)
    requires n <= |links|
    ensures PlainObjectGroupsUpTo(links, n) == if HitsPrototype(links, n) then None else Some(GroupsUpTo(links, n))
  {
    if n > 0 {
      PlainObjectGroupsSpec(links, n - 1);
      var c := links[n - 1].category;
      if !HitsPrototype(links, n - 1) {
        if c in ObjectPrototypeNames {
          CategoriesOfGroups(links, n - 1, c);
          assert HitsPrototype(links, n);
        } else {
          assert !HitsPrototype(links, n);
        }
      } else {
        var i :| 0 <= i < n - 1 && links[i].category in ObjectPrototypeNames;
        assert HitsPrototype(links, n);
      }
    }
  }

  /** A link with the category `"constructor"` makes the page's grouping throw. */
  lemma ConstructorCategoryThrows(link: UsefulLink)
    requires link.category == "constructor"
    ensures PlainObjectGroupsUpTo([link], 1).None?
  {
    assert "constructor" in ObjectPrototypeNames;
  }

  /** The links of `links[..n]` in category `c`, in input order. */
  function InCategory(links: seq<UsefulLink>, c: string, n: nat): (r: seq<UsefulLink>)
    requires n <= |links|
    ensures forall x {:trigger x in r} :: x in r <==> x in links[..n] && x.category == c
  {
    if n == 0 then []
    else
      assert links[..n] == links[..n - 1] + [links[n - 1]];
      InCategory(links, c, n - 1) + (if links[n - 1].category == c then [links[n - 1]] else [])
  }

  /** The filter of the first `n` links only looks at those links. */
  lemma {:induction false} InCategorySamePrefix(x: seq<UsefulLink>, y: seq<UsefulLink>, c: string, n: nat)
    requires n <= |x| && n <= |y|
    requires forall i :: 0 <= i < n ==> x[i] == y[i]
    ensures InCategory(x, c, n) == InCategory(y, c, n)
  {
    if n > 0 {
      InCategorySamePrefix(x, y, c, n - 1);
      assert x[n - 1] == y[n - 1];
    }
  }

  lemma InCategoryLast(links: seq<UsefulLink>, c: string, n: nat)
    requires 0 < n <= |links|
    ensures InCategory(links, c, n)
            == InCategory(links, c, n - 1) + if links[n - 1].category == c then [links[n - 1]] else []
  {
  }

  lemma AppendAssoc(x: seq<UsefulLink>, y: seq<UsefulLink>, z: seq<UsefulLink>)
    ensures x + y + z == x + (y + z)
  {
  }

  /** The filter over `ab`, whose links are those of `a` followed by those of `b`, up to `|a| + m`. */
  lemma {:induction false} InCategoryJoin(ab: seq<UsefulLink>, a: seq<UsefulLink>, b: seq<UsefulLink>, c: string, m: nat)
    requires m <= |b| && |ab| == |a| + |b|
    requires forall i :: 0 <= i < |a| ==> ab[i] == a[i]
    requires forall j :: 0 <= j < |b| ==> ab[|a| + j] == b[j]
    ensures InCategory(ab, c, |a| + m) == InCategory(a, c, |a|) + InCategory(b, c, m)
  {
    if m == 0 {
      InCategorySamePrefix(ab, a, c, |a|);
    } else {
      InCategoryJoin(ab, a, b, c, m - 1);
      assert ab[|a| + (m - 1)] == b[m - 1];
      InCategoryLast(ab, c, |a| + m);
      InCategoryLast(b, c, m);
      AppendAssoc(InCategory(a, c, |a|), InCategory(b, c, m - 1),
                  if b[m - 1].category == c then [b[m - 1]] else []);
    }
  }

  /**
   * The category filter keeps its links in their order and with their
   * repetitions: the links of `a + b` in category `c` are those of `a`
   * followed by those of `b`.
   */
  lemma InCategoryAppend(a: seq<UsefulLink>, b: seq<UsefulLink>, c: string)
    ensures InCategory(a + b, c, |a + b|) == InCategory(a, c, |a|) + InCategory(b, c, |b|)
  {
    InCategoryJoin(a + b, a, b, c, |b|);
  }

  /** A single link stays exactly when it is in category `c`. */
  lemma InCategorySingle(x: UsefulLink, c: string)
    ensures InCategory([x], c, 1) == if x.category == c then [x] else []
  {
  }

  /** The groups have exactly the categories of the links as keys. */
  lemma {:induction false} CategoriesOfGroups(links: seq<UsefulLink>, n: nat, c: string)
    requires n <= |links|
    ensures c in GroupsUpTo(links, n) <==> exists i :: 0 <= i < n && links[i].category == c
  {
    if n > 0 {
      CategoriesOfGroups(links, n - 1, c);
      if links[n - 1].category == c {
        assert links[n - 1].category == c;
      }
    }
  }

  /**
   * Each group holds, in input order, exactly the links of its own category,
   * so every link is in the group of its category and in no other.
   */
  lemma {:induction false} GroupsAreCategoryFilters(links: seq<UsefulLink>, n: nat, c: string)
    requires n <= |links|
    ensures c in GroupsUpTo(links, n) ==> GroupsUpTo(links, n)[c] == InCategory(links, c, n)
    ensures c !in GroupsUpTo(links, n) ==> InCategory(links, c, n) == []
  {
    if n > 0 {
      GroupsAreCategoryFilters(links, n - 1, c);
    }
  }

  // ---------------------------------------------------------------------------
  // existingCategories
  // ---------------------------------------------------------------------------

  /** `Array.from(new Set(...))` over the categories of `links[..n]`: first appearances, in order. */
  function CategoriesUpTo(links: seq<UsefulLink>, n: nat): (r: seq<string>)
    requires n <= |links|
    ensures forall c :: c in r <==> exists i :: 0 <= i < n && links[i].category == c
    ensures forall a, b :: 0 <= a < b < |r| ==> r[a] != r[b]
  {
    if n == 0 then []
    else
      var earlier := CategoriesUpTo(links, n - 1);
      var c := links[n - 1].category;
      assert links[n - 1].category == c;
      if c in earlier then earlier else earlier + [c]
  }

  function ExistingCategories(links: seq<UsefulLink>): seq<string> {
    CategoriesUpTo(links, |links|)
  }

  /** The known categories are exactly the keys of the grouping. */
  lemma CategoriesAreGroupKeys(links: seq<UsefulLink>, c: string)
    ensures c in ExistingCategories(links) <==> c in Groups(links)
  {
    CategoriesOfGroups(links, |links|, c);
  }

  // ---------------------------------------------------------------------------
  // The link form
  // ---------------------------------------------------------------------------

  /** The `newLink` form. */
  datatype LinkForm = LinkForm(title: string, url: string, category: string, description: string, author: string, icon: string)

  /** The page's state: the links shown, the form and the id being edited. */
  datatype LinksState = LinksState(links: seq<UsefulLink>, form: LinkForm, editingId: Option<string>)

  const EmptyForm := LinkForm("", "", "", "", "", "link")

  /** handleCancelEdit: an empty form and nothing being edited. */
  function CancelEdit(state: LinksState): (r: LinksState)
    ensures r.links == state.links && r.form == EmptyForm && r.editingId.None?
  {
    state.(form := EmptyForm, editingId := None)
  }

  /** handleEditLink: the form shows the link, a null author as `''`. */
  function EditLink(state: LinksState, link: UsefulLink): (r: LinksState)
    ensures r.links == state.links && r.editingId == Some(link.id)
    ensures r.form.title == link.title && r.form.url == link.url && r.form.category == link.category
    ensures r.form.description == link.description && r.form.icon == link.icon
    ensures r.form.author == if link.author.Some? then link.author.value else ""
  {
    var author := if link.author.Some? then link.author.value else "";
    state.(form := LinkForm(link.title, link.url, link.category, link.description, author, link.icon),
           editingId := Some(link.id))
  }

  /** The row fields sent to the server. */
  datatype LinkPayload = LinkPayload(title: string, url: string, category: string, description: string, author: Option<string>, icon: string)

  /** The payload copies the form, an empty author becoming null. */
  function Payload(form: LinkForm): (p: LinkPayload)
    ensures p.title == form.title && p.url == form.url && p.category == form.category
    ensures p.description == form.description && p.icon == form.icon
    ensures p.author.None? <==> form.author == ""
    ensures p.author.Some? ==> p.author.value == form.author
  {
    LinkPayload(form.title, form.url, form.category, form.description,
                if form.author == "" then None else Some(form.author), form.icon)
  }

  /** Editing a link and saving it unchanged sends the link's own fields. */
  lemma EditThenPayload(state: LinksState, link: UsefulLink)
    requires link.author != Some("")
    ensures Payload(EditLink(state, link).form)
            == LinkPayload(link.title, link.url, link.category, link.description, link.author, link.icon)
  {
  }

  /** The save button does something only with a title, a url and a category. */
  predicate CanSave(form: LinkForm) {
    form.title != "" && form.url != "" && form.category != ""
  }

  /** Whether the form edits an existing link: `editingId` is neither null nor `''`. */
  predicate IsEditing(state: LinksState) {
    state.editingId.Some? && state.editingId.value != ""
  }

  /** The server's answer to the update or insert: an error, or the row it returns (possibly none). */
  datatype Reply = Failed | Returned(row: Option<UsefulLink>)

  /** `links.map(l => l.id === editingId ? data : l)`. */
  function ReplaceById(links: seq<UsefulLink>, id: string, row: UsefulLink): (r: seq<UsefulLink>)
    ensures |r| == |links|
    ensures forall i :: 0 <= i < |links| ==> r[i] == if links[i].id == id then row else links[i]
  {
    seq(|links|, i requires 0 <= i < |links| => if links[i].id == id then row else links[i])
  }

  /** With unique ids, replacing by the id of link `k` writes only position `k`. */
  lemma ReplaceOneLink(links: seq<UsefulLink>, k: nat, row: UsefulLink)
    requires k < |links|
    requires forall i, j :: 0 <= i < j < |links| ==> links[i].id != links[j].id
    ensures ReplaceById(links, links[k].id, row) == links[k := row]
  {
  }

  /**
   * handleSaveLink: refused unless title, url and category are set; on an
   * error the state is kept (the page alerts); otherwise the returned row
   * replaces the edited link, or is appended when creating, and the form is
   * reset.
   */
  function SaveLink(state: LinksState, reply: Reply): LinksState {
    if !CanSave(state.form) || reply.Failed? then state
    else
      var links :=
        if reply.row.None? then state.links
        else if IsEditing(state) then ReplaceById(state.links, state.editingId.value, reply.row.value)
        else state.links + [reply.row.value];
      CancelEdit(state.(links := links))
  }

  /** The save contract: refusal, the update and the create case, and the reset form. */
  lemma SaveLinkSpec(state: LinksState, reply: Reply)
    ensures var r := SaveLink(state, reply);
            (!CanSave(state.form) || reply.Failed? ==> r == state)
            && (CanSave(state.form) && reply.Returned? ==>
                  r.form == EmptyForm && r.editingId.None?
                  && (reply.row.None? ==> r.links == state.links)
                  && (reply.row.Some? && IsEditing(state) ==>
                        |r.links| == |state.links|
                        && forall i :: 0 <= i < |state.links| ==>
                             r.links[i] == if state.links[i].id == state.editingId.value then reply.row.value else state.links[i])
                  && (reply.row.Some? && !IsEditing(state) ==>
                        |r.links| == |state.links| + 1 && r.links[..|state.links|] == state.links
                        && r.links[|state.links|] == reply.row.value))
  {
  }

  /** `links.filter(l => l.id !== id)`. */
  function RemoveById(links: seq<UsefulLink>, id: string): (r: seq<UsefulLink>)
    ensures |r| <= |links|
    ensures forall x :: x in r <==> x in links && x.id != id
  {
    if links == [] then []
    else (if links[0].id == id then [] else [links[0]]) + RemoveById(links[1..], id)
  }

  /** Removing keeps the other links in their order: those of `a + b` are those of `a`, then those of `b`. */
  lemma {:induction false} RemoveByIdAppend(a: seq<UsefulLink>, b: seq<UsefulLink>, id: string)
    ensures RemoveById(a + b, id) == RemoveById(a, id) + RemoveById(b, id)
  {
    if a == [] {
      assert a + b == b;
    } else {
      assert (a + b)[0] == a[0] && (a + b)[1..] == a[1..] + b;
      RemoveByIdAppend(a[1..], b, id);
      if a[0].id == id {
        assert RemoveById(a, id) == [] + RemoveById(a[1..], id) == RemoveById(a[1..], id);
        assert RemoveById(a + b, id) == [] + RemoveById(a[1..] + b, id) == RemoveById(a[1..] + b, id);
      } else {
        assert [a[0]] + RemoveById(a[1..], id) + RemoveById(b, id) == [a[0]] + (RemoveById(a[1..], id) + RemoveById(b, id));
      }
    }
  }

  /** A single link stays exactly when it has another id. */
  lemma RemoveByIdSingle(x: UsefulLink, id: string)
    ensures RemoveById([x], id) == if x.id == id then [] else [x]
  {
    assert [x][1..] == [];
  }

  /** Filtering keeps the order of the remaining links: it is the identity when no link has the id. */
  lemma {:induction false} RemoveAbsentId(links: seq<UsefulLink>, id: string)
    requires forall i :: 0 <= i < |links| ==> links[i].id != id
    ensures RemoveById(links, id) == links
  {
    if links != [] {
      RemoveAbsentId(links[1..], id);
      assert links == [links[0]] + links[1..];
    }
  }

  /** Deleting twice is deleting once. */
  lemma RemoveByIdIdempotent(links: seq<UsefulLink>, id: string)
    ensures RemoveById(RemoveById(links, id), id) == RemoveById(links, id)
  {
    var r := RemoveById(links, id);
    assert forall i :: 0 <= i < |r| ==> r[i] in r;
    RemoveAbsentId(r, id);
  }

  /**
   * handleDeleteLink once the server has deleted the row: every link with
   * that id goes, and the form is reset when that link was being edited.
   * Without a deletion (cancelled or failed) nothing changes.
   */
  function DeleteLink(state: LinksState, id: string, deleted: bool): (r: LinksState)
    ensures !deleted ==> r == state
    ensures deleted ==> r.links == RemoveById(state.links, id)
    ensures deleted && state.editingId == Some(id) ==> r.form == EmptyForm && r.editingId.None?
    ensures deleted && state.editingId != Some(id) ==> r.form == state.form && r.editingId == state.editingId
  {
    if !deleted then state
    else
      var s := state.(links := RemoveById(state.links, id));
      if state.editingId == Some(id) then CancelEdit(s) else s
  }
}
