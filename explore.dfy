/**
 * The model catalogue page: search over the models, grouping into
 * categories, the per-day limit label, and starting a new conversation.
 */
module Explore {
  import opened Wrappers
  import opened Text
  import opened Records
  import opened Storage

  /** A selectable model, reduced to the fields this page reads. */
  datatype ChatModel = ChatModel(id: string, title: string, about: string, limit: int, botType: Option<string>)

  /** The model's lower-cased title or description includes the lower-cased query. */
  predicate Matches(m: ChatModel, query: string) {
    Contains(Lower(m.title), Lower(query)) || Contains(Lower(m.about), Lower(query))
  }

  /** `filteredModels`: the models that match the search, in catalogue order. */
  function FilterModels(models: seq<ChatModel>, query: string): (r: seq<ChatModel>)
    ensures |r| <= |models|
    ensures forall m :: m in r <==> m in models && Matches(m, query)
  {
    if models == [] then []
    else
      var rest := FilterModels(models[1..], query);
      assert forall m :: m in models <==> m == models[0] || m in models[1..];
      if Matches(models[0], query) then [models[0]] + rest else rest
  }

  /** Filtering keeps the catalogue order: the filter of a concatenation concatenates. */
  lemma {:induction false} FilterAppend(a: seq<ChatModel>, b: seq<ChatModel>, query: string)
    ensures FilterModels(a + b, query) == FilterModels(a, query) + FilterModels(b, query)
  {
    if a == [] {
      assert a + b == b;
    } else {
      assert (a + b)[1..] == a[1..] + b;
      FilterAppend(a[1..], b, query);
    }
  }

  /** An empty search keeps every model, in order. */
  lemma {:induction false} FilterEmptyQuery(models: seq<ChatModel>)
    ensures FilterModels(models, "") == models
  {
    if models != [] {
      assert Lower("") == "";
      ContainsEmpty(Lower(models[0].title));
      FilterEmptyQuery(models[1..]);
      assert models == [models[0]] + models[1..];
    }
  }

  /**
   * A model's category: its `botType`, or `chat` when that is missing or
   * empty; `girlfriend` and `boyfriend` are both `companion`.
   */
  function Category(m: ChatModel): (c: string)
    ensures c != "" && c != "girlfriend" && c != "boyfriend"
    ensures (m.botType.None? || m.botType == Some("")) ==> c == "chat"
    ensures m.botType in {Some("girlfriend"), Some("boyfriend")} ==> c == "companion"
    ensures m.botType.Some? && m.botType.value !in {"", "girlfriend", "boyfriend"} ==> c == m.botType.value
  {
    var c := if m.botType.None? || m.botType == Some("") then "chat" else m.botType.value;
    if c == "girlfriend" || c == "boyfriend" then "companion" else c
  }

  /** One entry of `groupedModels`, in key order. */
  datatype Group = Group(category: string, models: seq<ChatModel>)

  /** Some group has category `c`. */
  predicate HasGroup(groups: seq<Group>, c: string) {
    exists j :: 0 <= j < |groups| && groups[j].category == c
  }

  /** The index of the first group with category `c`, or `|groups|` when there is none. */
  function FindGroup(groups: seq<Group>, c: string): (j: nat)
    ensures j <= |groups|
    ensures j < |groups| ==> groups[j].category == c
    ensures forall k :: 0 <= k < j ==> groups[k].category != c
    ensures j == |groups| <==> !HasGroup(groups, c)
  {
    FindGroupFrom(groups, c, 0)
  }

  /** The index of the first group at or after `i` with category `c`, or `|groups|`. */
  function FindGroupFrom(groups: seq<Group>, c: string, i: nat): (j: nat)
    requires i <= |groups|
    ensures i <= j <= |groups|
    ensures j < |groups| ==> groups[j].category == c
    ensures forall k :: i <= k < j ==> groups[k].category != c
    decreases |groups| - i
  {
    if i == |groups| then i
    else if groups[i].category == c then i
    else FindGroupFrom(groups, c, i + 1)
  }

  /** The models of one category, in the given order. */
  function OfCategory(models: seq<ChatModel>, c: string): seq<ChatModel> {
    if models == [] then []
    else
      var rest := OfCategory(models[..|models| - 1], c);
      var m := models[|models| - 1];
      if Category(m) == c then rest + [m] else rest
  }

  /** `OfCategory` keeps exactly the models of category `c`. */
  lemma {:induction false} OfCategoryMembers(models: seq<ChatModel>, c: string)
    ensures forall m :: m in OfCategory(models, c) <==> m in models && Category(m) == c
  {
    if models != [] {
      var pre := models[..|models| - 1];
      OfCategoryMembers(pre, c);
      assert models == pre + [models[|models| - 1]];
    }
  }

  /** `if (!acc[c]) acc[c] = []; acc[c].push(m)` on an object whose keys keep insertion order. */
  function Push(groups: seq<Group>, m: ChatModel): seq<Group> {
    var c := Category(m);
    var j := FindGroup(groups, c);
    if j < |groups| then groups[j := Group(c, groups[j].models + [m])]
    else groups + [Group(c, [m])]
  }

  /** The `reduce` over the models. */
  function Bucketed(models: seq<ChatModel>): seq<Group> {
    if models == [] then []
    else Push(Bucketed(models[..|models| - 1]), models[|models| - 1])
  }

  /** No two groups share a category. */
  predicate DistinctCategories(groups: seq<Group>) {
    forall j, k :: 0 <= j < k < |groups| ==> groups[j].category != groups[k].category
  }

  /** Each group holds exactly the models of its category, in their order. */
  predicate GroupsHold(models: seq<ChatModel>, groups: seq<Group>) {
    forall j :: 0 <= j < |groups| ==> groups[j].models == OfCategory(models, groups[j].category)
  }

  /** The groups are exactly the categories the models have. */
  ghost predicate CoversCategories(models: seq<ChatModel>, groups: seq<Group>) {
    forall c :: HasGroup(groups, c) <==> exists m :: m in models && Category(m) == c
  }

  /**
   * The grouping is a partition of the models: categories are distinct,
   * each group holds exactly the models of its category in their order, and
   * the groups are exactly the categories the models have.
   */
  lemma {:induction false} BucketedPartitions(models: seq<ChatModel>)
    ensures DistinctCategories(Bucketed(models))
    ensures forall j :: 0 <= j < |Bucketed(models)| ==>
      Bucketed(models)[j].models == OfCategory(models, Bucketed(models)[j].category)
    ensures forall c :: HasGroup(Bucketed(models), c) <==> exists m :: m in models && Category(m) == c
  {
    if models != [] {
      var pre := models[..|models| - 1];
      var m := models[|models| - 1];
      assert models == pre + [m];
      BucketedPartitions(pre);
      var g := Bucketed(pre);
      assert GroupsHold(pre, g) && CoversCategories(pre, g);
      PushPartitions(pre, m, g);
      assert GroupsHold(models, Bucketed(models));
      assert CoversCategories(models, Bucketed(models));
    }
  }

  /** One `push` keeps the grouping a partition of the models seen so far. */
  lemma PushPartitions(pre: seq<ChatModel>, m: ChatModel, g: seq<Group>)
    requires DistinctCategories(g) && GroupsHold(pre, g) && CoversCategories(pre, g)
    ensures DistinctCategories(Push(g, m))
    ensures GroupsHold(pre + [m], Push(g, m))
    ensures CoversCategories(pre + [m], Push(g, m))
  {
    var c := Category(m);
    var j := FindGroup(g, c);
    if j < |g| {
      PushExistingHolds(pre, m, g, j);
      PushExistingCovers(pre, m, g, j);
    } else {
      PushNewHolds(pre, m, g);
      PushNewCovers(pre, m, g);
    }
  }

  /** Appending a model adds it to its own category and to no other. */
  lemma OfCategorySnoc(pre: seq<ChatModel>, m: ChatModel, d: string)
    ensures OfCategory(pre + [m], d) == if Category(m) == d then OfCategory(pre, d) + [m] else OfCategory(pre, d)
  {
    assert (pre + [m])[..|pre + [m]| - 1] == pre;
  }

  /** A group of another category is not touched by the push and stays exact. */
  lemma OtherGroupStays(pre: seq<ChatModel>, m: ChatModel, grp: Group)
    requires grp.models == OfCategory(pre, grp.category) && Category(m) != grp.category
    ensures grp.models == OfCategory(pre + [m], grp.category)
  {
    OfCategorySnoc(pre, m, grp.category);
  }

  lemma PushExistingHolds(pre: seq<ChatModel>, m: ChatModel, g: seq<Group>, j: nat)
    requires DistinctCategories(g) && GroupsHold(pre, g)
    requires j == FindGroup(g, Category(m)) && j < |g|
    ensures DistinctCategories(Push(g, m))
    ensures GroupsHold(pre + [m], Push(g, m))
  {
    var c := Category(m);
    var h := g[j := Group(c, g[j].models + [m])];
    assert Push(g, m) == h;
    assert forall k :: 0 <= k < |h| ==> h[k].category == g[k].category;
    forall k | 0 <= k < |h| ensures h[k].models == OfCategory(pre + [m], h[k].category) {
      if k == j {
        OfCategorySnoc(pre, m, c);
      } else {
        OtherGroupStays(pre, m, g[k]);
      }
    }
  }

  lemma PushExistingCovers(pre: seq<ChatModel>, m: ChatModel, g: seq<Group>, j: nat)
    requires CoversCategories(pre, g)
    requires j == FindGroup(g, Category(m)) && j < |g|
    ensures CoversCategories(pre + [m], Push(g, m))
  {
    var h := Push(g, m);
    assert forall x :: x in pre + [m] <==> x == m || x in pre;
    forall d ensures HasGroup(h, d) <==> exists x :: x in pre + [m] && Category(x) == d {
      if HasGroup(g, d) {
        var k :| 0 <= k < |g| && g[k].category == d;
        assert h[k].category == d;
      }
      if HasGroup(h, d) {
        var k :| 0 <= k < |h| && h[k].category == d;
        assert g[k].category == d;
      }
    }
  }

  lemma PushNewHolds(pre: seq<ChatModel>, m: ChatModel, g: seq<Group>)
    requires DistinctCategories(g) && GroupsHold(pre, g) && CoversCategories(pre, g)
    requires FindGroup(g, Category(m)) == |g|
    ensures DistinctCategories(Push(g, m))
    ensures GroupsHold(pre + [m], Push(g, m))
  {
    var c := Category(m);
    var h := g + [Group(c, [m])];
    assert Push(g, m) == h;
    assert forall k :: 0 <= k < |g| ==> h[k] == g[k];
    forall k | 0 <= k < |h| ensures h[k].models == OfCategory(pre + [m], h[k].category) {
      if k == |g| {
        assert !HasGroup(g, c);
        OfCategoryAbsent(pre, c);
        OfCategorySnoc(pre, m, c);
      } else {
        OtherGroupStays(pre, m, g[k]);
      }
    }
  }

  lemma PushNewCovers(pre: seq<ChatModel>, m: ChatModel, g: seq<Group>)
    requires CoversCategories(pre, g)
    requires FindGroup(g, Category(m)) == |g|
    ensures CoversCategories(pre + [m], Push(g, m))
  {
    var c := Category(m);
    var h := Push(g, m);
    assert h == g + [Group(c, [m])];
    assert forall x :: x in pre + [m] <==> x == m || x in pre;
    forall d ensures HasGroup(h, d) <==> exists x :: x in pre + [m] && Category(x) == d {
      if HasGroup(g, d) {
        var k :| 0 <= k < |g| && g[k].category == d;
        assert h[k].category == d;
      }
      if HasGroup(h, d) {
        var k :| 0 <= k < |h| && h[k].category == d;
        if k < |g| {
          assert g[k].category == d;
        }
      }
      assert h[|g|].category == c;
    }
  }

  /** A category no model has is empty. */
  lemma {:induction false} OfCategoryAbsent(models: seq<ChatModel>, c: string)
    requires forall m :: m in models ==> Category(m) != c
    ensures OfCategory(models, c) == []
  {
    if models != [] {
      var pre := models[..|models| - 1];
      assert forall x :: x in pre ==> x in models;
      OfCategoryAbsent(pre, c);
    }
  }

  /** Group `j` holds model `m`. */
  predicate InGroup(groups: seq<Group>, m: ChatModel, j: int) {
    0 <= j < |groups| && m in groups[j].models
  }

  /** Every model of the list lands in exactly one group. */
  lemma ExactlyOneGroup(models: seq<ChatModel>, m: ChatModel)
    requires m in models
    ensures exists j ::
      InGroup(Bucketed(models), m, j) && forall k :: InGroup(Bucketed(models), m, k) ==> k == j
  {
    BucketedPartitions(models);
    var g := Bucketed(models);
    OfCategoryMembers(models, Category(m));
    assert HasGroup(g, Category(m));
    var j :| 0 <= j < |g| && g[j].category == Category(m);
    assert InGroup(g, m, j);
    forall k | InGroup(g, m, k) ensures k == j {
      OfCategoryMembers(models, g[k].category);
    }
  }

  /** `groupedModels`, built by pushing into an accumulator model by model. */
  method GroupByCategory(models: seq<ChatModel>) returns (groups: seq<Group>)
    ensures groups == Bucketed(models)
  {
    groups := [];
    for i := 0 to |models|
      invariant groups == Bucketed(models[..i])
    {
      assert models[..i + 1][..i] == models[..i];
      var m := models[i];
      var c := Category(m);
      var j := FindGroup(groups, c);
      if j < |groups| {
        groups := groups[j := Group(c, groups[j].models + [m])];
      } else {
        groups := groups + [Group(c, [m])];
      }
    }
    assert models[..|models|] == models;
  }

  /** The label under a model: unlimited for a pro user or a limit of -1, else the daily count. */
  datatype LimitLabel = Unlimited | PerDay(count: int)

  function Label(isProUser: bool, limit: int): (l: LimitLabel)
    ensures l == Unlimited <==> isProUser || limit == -1
    ensures l.PerDay? ==> l.count == limit
  {
    if isProUser then Unlimited
    else if limit == -1 then Unlimited
    else PerDay(limit)
  }

  /** `user?.type === 'pro'`. */
  predicate IsProUser(userType: Option<string>) {
    userType == Some("pro")
  }

  /** The placeholder title of a new conversation. */
  const NewChatTitle: string := "گفتگوی جدید"

  /** The record `createNewChat` adds for `model`, with the fresh id and the current time. */
  function NewChat(model: ChatModel, freshId: string, now: int): (r: ChatRecord)
    ensures r.id == freshId && r.title == NewChatTitle && r.messages == []
    ensures r.model == model.id && r.modelTitle == model.title && r.about == model.about
    ensures r.date == now
  {
    ChatRecord(freshId, NewChatTitle, model.id, model.title, model.about, now, [])
  }

  /**
   * `createNewChat`: read the stored list (none stored reads as empty),
   * append the new conversation, store the list, and go to its route.
   * The fresh id (`uuidv4()`) and the time are parameters.
   */
  method CreateNewChat(storage: LocalStorage, model: ChatModel, freshId: string, now: int)
    returns (route: string)
    modifies storage
    ensures StoredChats(storage.items) == StoredChats(old(storage.items)) + [NewChat(model, freshId, now)]
    ensures storage.items == old(storage.items)[HistoryKey := StoredChats(storage.items)]
    ensures route == ChatPath(freshId)
  {
    var existing := StoredChats(storage.items);
    var created := NewChat(model, freshId, now);
    storage.WriteHistory(existing + [created]);
    route := ChatPath(created.id);
  }
}
