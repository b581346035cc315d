/** The duplicate-category cleanup script: it groups all categories by exact
    name, counts the surplus, and in every group of two or more keeps the
    member with the smallest id and deletes the rest, with one commit at the
    end. */
module CleanupCategories {
  import opened Values
  import opened Models
  import opened Database
  import opened CategoryNames
  import Categories

  /** Some row with a smaller id has the same name as row `k`. */
  predicate IsDup(m: map<nat, Category>, k: nat)
    requires k in m
  {
    exists j :: j in m && m[j].name == m[k].name && j < k
  }

  /** The rows the cleanup deletes. */
  function DupIds(m: map<nat, Category>): set<nat> {
    set k | k in m && IsDup(m, k)
  }

  /** The rows of name `n` the cleanup deletes. */
  function DupNamed(m: map<nat, Category>, n: string): set<nat> {
    set k | k in m && m[k].name == n && IsDup(m, k)
  }

  // ---- sorting a group by id ----

  /** The ids of every entry after the first. */
  function TailOf(r: seq<Category>): set<nat> {
    set t | 1 <= t < |r| :: r[t].id
  }

  /** What the deletion loop does for the group `g` of name `n` deletes
      exactly the rows of that name the cleanup deletes. */
  predicate GroupDeletes(m: map<nat, Category>, g: seq<Category>, n: string) {
    if |g| > 1 then TailOf(SortById(g)) == DupNamed(m, n) else DupNamed(m, n) == {}
  }

  predicate IdSorted(s: seq<Category>) {
    forall i, j :: 0 <= i < j < |s| ==> s[i].id < s[j].id
  }

  function InsertById(s: seq<Category>, c: Category): (r: seq<Category>)
    ensures forall x :: x in r <==> x == c || x in s
    ensures |r| == |s| + 1
  {
    if s == [] then [c]
    else if c.id <= s[0].id then [c] + s
    else
      assert s == [s[0]] + s[1..];
      [s[0]] + InsertById(s[1..], c)
  }

  lemma ConsIdSorted(h: Category, rest: seq<Category>)
    requires IdSorted(rest) && forall x :: x in rest ==> h.id < x.id
    ensures IdSorted([h] + rest)
  {
    var r := [h] + rest;
    forall i, j | 0 <= i < j < |r| ensures r[i].id < r[j].id {
      assert r[j] == rest[j - 1];
      if i > 0 {
        assert r[i] == rest[i - 1];
      } else {
        assert rest[j - 1] in rest;
      }
    }
  }

  lemma {:induction false} InsertKeepsSorted(s: seq<Category>, c: Category)
    requires IdSorted(s) && forall x :: x in s ==> x.id != c.id
    ensures IdSorted(InsertById(s, c))
    decreases |s|
  {
    if s == [] {
    } else if c.id <= s[0].id {
      forall x | x in s ensures c.id < x.id {
        var j :| 0 <= j < |s| && s[j] == x;
        if j > 0 {
          assert s[0].id < s[j].id;
        }
      }
      ConsIdSorted(c, s);
    } else {
      var h, tail := s[0], s[1..];
      assert IdSorted(tail) by {
        forall i, j | 0 <= i < j < |tail| ensures tail[i].id < tail[j].id {
          assert tail[i] == s[i + 1] && tail[j] == s[j + 1];
        }
      }
      assert forall x :: x in tail ==> x in s;
      InsertKeepsSorted(tail, c);
      var rest := InsertById(tail, c);
      forall x | x in rest ensures h.id < x.id {
        if x != c {
          var j :| 0 <= j < |tail| && tail[j] == x;
          assert s[j + 1] == x;
        }
      }
      ConsIdSorted(h, rest);
    }
  }

  /** `categories.sort(key=lambda x: x.id)` on one group. */
  function SortById(g: seq<Category>): (r: seq<Category>)
    ensures forall x :: x in r <==> x in g
    ensures |r| == |g|
  {
    if g == [] then []
    else
      assert g == g[..|g| - 1] + [g[|g| - 1]];
      InsertById(SortById(g[..|g| - 1]), g[|g| - 1])
  }

  lemma {:induction false} SortSorted(g: seq<Category>)
    requires IdsDistinct(g)
    ensures IdSorted(SortById(g))
    decreases |g|
  {
    if g != [] {
      var p, x := g[..|g| - 1], g[|g| - 1];
      assert IdsDistinct(p);
      SortSorted(p);
      forall y | y in SortById(p) ensures y.id != x.id {
        var i :| 0 <= i < |p| && p[i] == y;
        assert g[i] == y;
      }
      InsertKeepsSorted(SortById(p), x);
    }
  }

  lemma ListedKeys(s: seq<Category>, m: map<nat, Category>)
    requires Lists(s, m)
    ensures forall k :: k in m ==> m[k].id == k && m[k] in s
  {
    forall k | k in m ensures m[k].id == k && m[k] in s {
      var i :| 0 <= i < |s| && s[i].id == k;
    }
  }

  /** The head of a sorted group has the smallest id of the group. */
  lemma GroupFacts(s: seq<Category>, m: map<nat, Category>, n: string)
    requires Lists(s, m)
    ensures forall k :: k in m ==> m[k].id == k
    ensures IdSorted(SortById(Named(s, n)))
    ensures forall c :: c in SortById(Named(s, n)) <==> c in s && c.name == n
    ensures forall c :: c in s ==> c.id in m && m[c.id] == c
  {
    NamedIdsDistinct(s, n);
    NamedMembers(s, n);
    SortSorted(Named(s, n));
    forall k | k in m ensures m[k].id == k {
      var i :| 0 <= i < |s| && s[i].id == k;
    }
    forall c | c in s ensures c.id in m && m[c.id] == c {
      var i :| 0 <= i < |s| && s[i] == c;
    }
  }

  lemma GroupDoomedSub(s: seq<Category>, m: map<nat, Category>, n: string, r: seq<Category>)
    requires Lists(s, m) && r == SortById(Named(s, n))
    ensures forall t :: 1 <= t < |r| ==> r[t].id in DupNamed(m, n)
  {
    GroupFacts(s, m, n);
    forall t | 1 <= t < |r| ensures r[t].id in DupNamed(m, n) {
      assert r[t] in r && r[0] in r;
      assert m[r[0].id].name == n && r[0].id < r[t].id;
    }
  }

  /** In a list sorted by id, an entry with a larger id than another entry
      is not the head. */
  lemma PastHead(r: seq<Category>, a: Category, b: Category)
    requires IdSorted(r) && a in r && b in r && a.id < b.id
    ensures exists t :: 1 <= t < |r| && r[t].id == b.id
  {
    var t :| 0 <= t < |r| && r[t] == b;
    var t' :| 0 <= t' < |r| && r[t'] == a;
    assert t' < t;
  }

  lemma GroupDoomedSup(s: seq<Category>, m: map<nat, Category>, n: string, r: seq<Category>)
    requires Lists(s, m) && r == SortById(Named(s, n))
    ensures forall k :: k in DupNamed(m, n) ==> exists t :: 1 <= t < |r| && r[t].id == k
  {
    GroupFacts(s, m, n);
    ListedKeys(s, m);
    forall k | k in DupNamed(m, n) ensures exists t :: 1 <= t < |r| && r[t].id == k {
      var j :| j in m && m[j].name == m[k].name && j < k;
      assert m[k].id == k && m[j].id == j;
      assert m[k] in r && m[j] in r;
      PastHead(r, m[j], m[k]);
    }
  }

  /** After sorting a group, everything but its head is exactly the rows
      of that name that a smaller id shares their name with. */
  lemma GroupDoomed(s: seq<Category>, m: map<nat, Category>, n: string)
    requires Lists(s, m)
    ensures var r := SortById(Named(s, n));
      TailOf(r) == DupNamed(m, n)
  {
    var r := SortById(Named(s, n));
    GroupDoomedSub(s, m, n, r);
    GroupDoomedSup(s, m, n, r);
  }

  /** The ids the inner loop deletes for the group `g` of name `n`: none
      for a group of one. */
  lemma GroupTail(s: seq<Category>, m: map<nat, Category>, n: string, g: seq<Category>)
    requires Lists(s, m) && g == Named(s, n)
    ensures GroupDeletes(m, g, n)
  {
    GroupDoomed(s, m, n);
    var r := SortById(g);
    if |g| <= 1 {
      assert TailOf(r) == {};
    }
  }

  // ---- the script ----

  /** The surplus of the groups of names `ns`: size minus one for each group
      of two or more, the `duplicate_count` loop. */
  function Excess(groups: map<string, seq<Category>>, ns: seq<string>): nat
    requires forall n :: n in ns ==> n in groups
  {
    if ns == [] then 0
    else
      var g := groups[ns[|ns| - 1]];
      Excess(groups, ns[..|ns| - 1]) + (if |g| > 1 then |g| - 1 else 0)
  }

  lemma ExcessSnoc(groups: map<string, seq<Category>>, ns: seq<string>, n: string)
    requires forall x :: x in ns ==> x in groups
    requires n in groups
    ensures Excess(groups, ns + [n]) == Excess(groups, ns) + (if |groups[n]| > 1 then |groups[n]| - 1 else 0)
  {
    assert (ns + [n])[..|ns|] == ns;
  }

  /** The surplus is the listing's length less its number of names. */
  lemma {:induction false} ExcessSizes(groups: map<string, seq<Category>>, s: seq<Category>, ns: seq<string>)
    requires forall n :: n in ns ==> n in groups && groups[n] == Named(s, n) && NameOccurs(s, n)
    ensures Excess(groups, ns) + |ns| == Sizes(s, ns)
    decreases |ns|
  {
    if ns != [] {
      var init := ns[..|ns| - 1];
      assert forall n :: n in init ==> n in ns;
      ExcessSizes(groups, s, init);
      NamedNonEmpty(s, ns[|ns| - 1]);
    }
  }

  /** One step of the grouping loop: the entry joins its name's group, or
      opens a new group and adds its name at the end. */
  lemma GroupStep(all: seq<Category>, i: nat, groups: map<string, seq<Category>>, names: seq<string>)
    requires i < |all|
    requires names == NamesInOrder(all[..i])
    requires forall n :: n in groups <==> n in names
    requires forall n :: n in groups ==> groups[n] == Named(all[..i], n)
    ensures var c := all[i];
      var g := if c.name in groups then groups[c.name := groups[c.name] + [c]] else groups[c.name := [c]];
      var ns := if c.name in groups then names else names + [c.name];
      && ns == NamesInOrder(all[..i + 1])
      && (forall n :: n in g <==> n in ns)
      && (forall n :: n in g ==> g[n] == Named(all[..i + 1], n))
  {
    var p, c := all[..i], all[i];
    assert all[..i + 1] == p + [c];
    NamesSnoc(p, c);
    NamedNonEmpty(p, c.name);
    forall n ensures Named(p + [c], n) == if c.name == n then Named(p, n) + [c] else Named(p, n) {
      NamedSnoc(p, c, n);
    }
  }

  /** Groups all categories by name (the first loop). */
  method GroupByName(all: seq<Category>) returns (groups: map<string, seq<Category>>, names: seq<string>)
    ensures names == NamesInOrder(all)
    ensures forall n :: n in groups <==> n in names
    ensures forall n :: n in groups ==> groups[n] == Named(all, n)
  {
    groups, names := map[], [];
    var i := 0;
    while i < |all|
      invariant 0 <= i <= |all|
      invariant names == NamesInOrder(all[..i])
      invariant forall n :: n in groups <==> n in names
      invariant forall n :: n in groups ==> groups[n] == Named(all[..i], n)
    {
      var c := all[i];
      GroupStep(all, i, groups, names);
      if c.name in groups {
        groups := groups[c.name := groups[c.name] + [c]];
      } else {
        names := names + [c.name];
        groups := groups[c.name := [c]];
      }
      i := i + 1;
    }
    assert all[..i] == all;
  }

  /** The `duplicate_count` loop over the groups. */
  method CountDuplicates(groups: map<string, seq<Category>>, names: seq<string>) returns (duplicates: nat)
    requires forall n :: n in names ==> n in groups
    ensures duplicates == Excess(groups, names)
  {
    duplicates := 0;
    var j := 0;
    while j < |names|
      invariant 0 <= j <= |names|
      invariant duplicates == Excess(groups, names[..j])
    {
      assert names[..j + 1] == names[..j] + [names[j]];
      ExcessSnoc(groups, names[..j], names[j]);
      var g := groups[names[j]];
      if |g| > 1 {
        duplicates := duplicates + |g| - 1;
      }
      j := j + 1;
    }
    assert names[..j] == names;
  }

  /** The rows whose name is among `ns` that the cleanup deletes. */
  function DoomedAmong(m: map<nat, Category>, ns: seq<string>): set<nat> {
    set k | k in m && m[k].name in ns && IsDup(m, k)
  }

  lemma DoomedSnoc(m: map<nat, Category>, ns: seq<string>, n: string)
    ensures DoomedAmong(m, ns + [n]) == DoomedAmong(m, ns) + DupNamed(m, n)
  {
  }

  lemma DoomedAll(m: map<nat, Category>, ns: seq<string>)
    requires forall k :: k in m ==> m[k].name in ns
    ensures DoomedAmong(m, ns) == DupIds(m)
  {
  }

  /** The inner loop over `categories[1:]` of one sorted group: the ids it
      deletes and how many. */
  method TailIds(sorted: seq<Category>) returns (ids: set<nat>, count: nat)
    requires |sorted| > 0
    ensures ids == TailOf(sorted)
    ensures count == |sorted| - 1
  {
    ids, count := {}, 0;
    var t := 1;
    while t < |sorted|
      invariant 1 <= t <= |sorted|
      invariant ids == set u | 1 <= u < t :: sorted[u].id
      invariant count == t - 1
    {
      ids := ids + {sorted[t].id};
      count := count + 1;
      t := t + 1;
    }
  }

  /** The deletion loop: in each group of two or more, sorted by id, every
      member after the first is marked for deletion and counted. */
  method MarkDuplicates(m: map<nat, Category>, groups: map<string, seq<Category>>, names: seq<string>)
    returns (deleted: nat, doomed: set<nat>)
    requires forall k :: k in m ==> m[k].name in names
    requires forall n :: n in names ==> n in groups && GroupDeletes(m, groups[n], n)
    ensures deleted == Excess(groups, names)
    ensures doomed == DupIds(m)
  {
    deleted := 0;
    doomed := {};
    var j := 0;
    while j < |names|
      invariant 0 <= j <= |names|
      invariant deleted == Excess(groups, names[..j])
      invariant doomed == DoomedAmong(m, names[..j])
    {
      var n := names[j];
      assert names[..j + 1] == names[..j] + [n];
      DoomedSnoc(m, names[..j], n);
      ExcessSnoc(groups, names[..j], n);
      var g := groups[n];
      if |g| > 1 {
        var sorted := SortById(g);
        var ids, count := TailIds(sorted);
        doomed := doomed + ids;
        deleted := deleted + count;
      }
      j := j + 1;
    }
    assert names[..j] == names;
    DoomedAll(m, names);
  }

  /** What the grouping loop hands on to the two counting loops: every row's
      name has a group, and the groups' surplus is the number of rows less
      the number of names. */
  lemma GroupingFacts(all: seq<Category>, m: map<nat, Category>, groups: map<string, seq<Category>>, names: seq<string>)
    requires Lists(all, m)
    requires names == NamesInOrder(all)
    requires forall n :: n in groups <==> n in names
    requires forall n :: n in groups ==> groups[n] == Named(all, n)
    ensures forall k :: k in m ==> m[k].name in names
    ensures forall n :: n in names ==> n in groups && groups[n] == Named(all, n)
    ensures forall n :: n in names ==> GroupDeletes(m, groups[n], n)
    ensures Excess(groups, names) == |all| - |names|
  {
    forall k | k in m ensures m[k].name in names {
      var i :| 0 <= i < |all| && all[i].id == k;
      assert NameOccurs(all, m[k].name);
    }
    forall n | n in names ensures GroupDeletes(m, groups[n], n) {
      GroupTail(all, m, n, groups[n]);
    }
    ExcessSizes(groups, all, names);
    Partition(all);
  }

  /** The three loops over the listing `all` of the table `m`: the counts
      the script reports and the ids it deletes. */
  method PlanCleanup(all: seq<Category>, m: map<nat, Category>) returns (duplicates: nat, deleted: nat, doomed: set<nat>)
    requires Lists(all, m)
    ensures doomed == DupIds(m)
    ensures duplicates == deleted == |all| - |NamesInOrder(all)|
  {
    var groups, names := GroupByName(all);
    GroupingFacts(all, m, groups, names);
    duplicates := CountDuplicates(groups, names);
    deleted, doomed := MarkDuplicates(m, groups, names);
  }

  // ---- what deleting the duplicates does to the rows that refer to them ----

  /** A nullable category reference after the categories `gone` are deleted:
      the default cascade of a relationship sets the foreign key of a
      dependent row to NULL when it named a deleted row. */
  function Orphaned(ref: Option<nat>, gone: set<nat>): (r: Option<nat>)
    ensures r.Some? <==> ref.Some? && ref.value !in gone
    ensures r.Some? ==> r == ref
  {
    if ref.Some? && ref.value in gone then None else ref
  }

  /** The category table after the rows `gone` are deleted: the survivors,
      each with its parent reference cleared when the parent was deleted
      (the `subcategories` backref). */
  function Detached(m: map<nat, Category>, gone: set<nat>): (r: map<nat, Category>)
    ensures r.Keys == m.Keys - gone
    ensures forall k :: k in r ==> r[k] == m[k].(parentId := Orphaned(m[k].parentId, gone))
  {
    map k | k in m && k !in gone :: m[k].(parentId := Orphaned(m[k].parentId, gone))
  }

  /** The book table after the categories `gone` are deleted: every book,
      with its category cleared when it was deleted (the `books` backref). */
  function Refiled(books: map<nat, Book>, gone: set<nat>): (r: map<nat, Book>)
    ensures r.Keys == books.Keys
    ensures forall k :: k in r ==> r[k] == books[k].(categoryId := Orphaned(books[k].categoryId, gone))
  {
    map k | k in books :: books[k].(categoryId := Orphaned(books[k].categoryId, gone))
  }

  /** Every parent reference names a category of the table. */
  predicate ParentsExist(m: map<nat, Category>) {
    forall k :: k in m && m[k].parentId.Some? ==> m[k].parentId.value in m
  }

  /** Every book's category names a category of the table. */
  predicate BookCategoriesExist(books: map<nat, Book>, m: map<nat, Category>) {
    forall b :: b in books && books[b].categoryId.Some? ==> books[b].categoryId.value in m
  }

  /** Deleting categories leaves no reference to them behind: references
      that named an existing category still do. */
  lemma DetachKeepsReferences(m: map<nat, Category>, books: map<nat, Book>, gone: set<nat>)
    requires ParentsExist(m) && BookCategoriesExist(books, m)
    ensures ParentsExist(Detached(m, gone))
    ensures BookCategoriesExist(Refiled(books, gone), Detached(m, gone))
  {
    var after, refiled := Detached(m, gone), Refiled(books, gone);
    forall k | k in after && after[k].parentId.Some? ensures after[k].parentId.value in after {
      assert m[k].parentId.value !in gone;
    }
    forall b | b in refiled && refiled[b].categoryId.Some? ensures refiled[b].categoryId.value in after {
      assert books[b].categoryId.value !in gone;
    }
  }

  lemma BooksKeyedRefile(books: map<nat, Book>, next: nat, gone: set<nat>)
    requires BooksKeyed(books, next)
    ensures BooksKeyed(Refiled(books, gone), next)
  {
  }

  lemma CategoriesKeyedDetach(m: map<nat, Category>, next: nat, gone: set<nat>)
    requires CategoriesKeyed(m, next)
    ensures CategoriesKeyed(Detached(m, gone), next)
  {
  }

  /** Runs the cleanup over `all`, the table as the query lists it. Returns
      `duplicate_count` and `deleted_count`; the deletions are committed
      together at the end, and the flush clears the parent of every
      subcategory and the category of every book that named a deleted row. */
  method CleanupCategories(db: Db, all: seq<Category>) returns (duplicates: nat, deleted: nat)
    requires db.Valid() && Lists(all, db.categories)
    modifies db`categories, db`books
    ensures db.Valid()
    ensures db.categories == Detached(old(db.categories), DupIds(old(db.categories)))
    ensures db.books == Refiled(old(db.books), DupIds(old(db.categories)))
    ensures duplicates == deleted == |all| - |NamesInOrder(all)|
  {
    var doomed;
    duplicates, deleted, doomed := PlanCleanup(all, db.categories);
    CategoriesKeyedDetach(db.categories, db.nextCategoryId, doomed);
    BooksKeyedRefile(db.books, db.nextBookId, doomed);
    db.categories, db.books := Detached(db.categories, doomed), Refiled(db.books, doomed);
  }

  /** Afterwards no two categories share a name ... */
  lemma CleanupLeavesNamesDistinct(m: map<nat, Category>)
    ensures Categories.NamesDistinct(Detached(m, DupIds(m)))
  {
    var after := Detached(m, DupIds(m));
    forall j, k | j in after && k in after && j != k ensures after[j].name != after[k].name {
      assert after[j].name == m[j].name && after[k].name == m[k].name;
    }
  }

  /** The smallest id among the rows named like row `k`. */
  lemma {:induction false} SmallestNamed(m: map<nat, Category>, k: nat) returns (j: nat)
    requires k in m
    ensures j in m && m[j].name == m[k].name && !IsDup(m, j)
    decreases k
  {
    if IsDup(m, k) {
      var i :| i in m && m[i].name == m[k].name && i < k;
      j := SmallestNamed(m, i);
    } else {
      j := k;
    }
  }

  /** ... and every name that was there before is still there. */
  lemma CleanupKeepsEveryName(m: map<nat, Category>)
    ensures forall k :: k in m ==> exists j :: j in Detached(m, DupIds(m)) && Detached(m, DupIds(m))[j].name == m[k].name
  {
    var after := Detached(m, DupIds(m));
    forall k | k in m ensures exists j :: j in after && after[j].name == m[k].name {
      var j := SmallestNamed(m, k);
      assert j in after && after[j].name == m[j].name;
    }
  }
}
