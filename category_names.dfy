/** Categories listed in query order and grouped by exact name: the shared
    vocabulary of the two category maintenance scripts. */
module CategoryNames {
  import opened Models

  /** No two entries of `s` share an id (the query lists each row once). */
  predicate IdsDistinct(s: seq<Category>) {
    forall i, j :: 0 <= i < j < |s| ==> s[i].id != s[j].id
  }

  /** `s` lists the table `m`: every entry is the row under its id, and
      every row is listed exactly once. */
  predicate Lists(s: seq<Category>, m: map<nat, Category>) {
    && IdsDistinct(s)
    && (forall i :: 0 <= i < |s| ==> s[i].id in m && m[s[i].id] == s[i])
    && (forall k :: k in m ==> exists i :: 0 <= i < |s| && s[i].id == k)
  }

  predicate NameOccurs(s: seq<Category>, n: string) {
    exists i :: 0 <= i < |s| && s[i].name == n
  }

  /** The distinct names of `s`, in order of first appearance. */
  function NamesInOrder(s: seq<Category>): (r: seq<string>)
    ensures forall n :: n in r <==> NameOccurs(s, n)
    ensures forall i, j :: 0 <= i < j < |r| ==> r[i] != r[j]
    ensures |r| <= |s|
  {
    if s == [] then []
    else
      var p, x := s[..|s| - 1], s[|s| - 1];
      var r := NamesInOrder(p);
      assert forall n :: NameOccurs(s, n) <==> NameOccurs(p, n) || x.name == n by {
        forall n ensures NameOccurs(s, n) <==> NameOccurs(p, n) || x.name == n {
          if NameOccurs(p, n) {
            var i :| 0 <= i < |p| && p[i].name == n;
            assert s[i] == p[i];
          }
          if NameOccurs(s, n) && x.name != n {
            var i :| 0 <= i < |s| && s[i].name == n;
            assert i < |p| && p[i] == s[i];
          }
        }
      }
      if x.name in r then r else r + [x.name]
  }

  /** Name `m` appears in `s` before name `n` first does. */
  predicate AppearsBefore(s: seq<Category>, m: string, n: string) {
    exists a :: 0 <= a < |s| && s[a].name == m && !NameOccurs(s[..a], n)
  }

  /** Of two names of `NamesInOrder(s)`, the earlier one appears in `s`
      before the later one first does. */
  lemma {:induction false} NamesFirstAppearance(s: seq<Category>)
    ensures forall i, j :: 0 <= i < j < |NamesInOrder(s)| ==>
      AppearsBefore(s, NamesInOrder(s)[i], NamesInOrder(s)[j])
    decreases |s|
  {
    if s != [] {
      var p, x := s[..|s| - 1], s[|s| - 1];
      NamesFirstAppearance(p);
      var rp, r := NamesInOrder(p), NamesInOrder(s);
      assert forall i, j :: 0 <= i < j < |rp| ==> AppearsBefore(p, rp[i], rp[j]);
      assert r == if x.name in rp then rp else rp + [x.name];
      forall i, j | 0 <= i < j < |r| ensures AppearsBefore(s, r[i], r[j]) {
        if j < |rp| {
          assert r[i] == rp[i] && r[j] == rp[j];
          assert AppearsBefore(p, rp[i], rp[j]);
          var a :| 0 <= a < |p| && p[a].name == rp[i] && !NameOccurs(p[..a], rp[j]);
          assert s[..a] == p[..a] && s[a] == p[a];
        } else {
          assert r == rp + [x.name] && !NameOccurs(p, x.name) && r[i] == rp[i];
          assert NameOccurs(p, rp[i]);
          var a :| 0 <= a < |p| && p[a].name == rp[i];
          assert s[a] == p[a] && s[..a] == p[..a];
        }
      }
    }
  }

  /** The entries of `s` named `n`, in order. */
  function Named(s: seq<Category>, n: string): (r: seq<Category>)
    ensures |r| <= |s|
  {
    if s == [] then []
    else
      var p, x := s[..|s| - 1], s[|s| - 1];
      var q := Named(p, n);
      if x.name == n then q + [x] else q
  }

  /** The group of `n` holds exactly the entries named `n`. */
  lemma {:induction false} NamedMembers(s: seq<Category>, n: string)
    ensures forall c :: c in Named(s, n) <==> c in s && c.name == n
    decreases |s|
  {
    if s != [] {
      var p, x := s[..|s| - 1], s[|s| - 1];
      assert s == p + [x];
      NamedMembers(p, n);
    }
  }

  /** One more entry at the end of the listing: its name becomes the last
      one if it is new. */
  lemma NamesSnoc(s: seq<Category>, x: Category)
    ensures NamesInOrder(s + [x]) == if NameOccurs(s, x.name) then NamesInOrder(s) else NamesInOrder(s) + [x.name]
  {
    assert (s + [x])[..|s|] == s;
  }

  /** One more entry at the end of the listing joins the group of its own
      name and no other. */
  lemma NamedSnoc(s: seq<Category>, x: Category, n: string)
    ensures Named(s + [x], n) == if x.name == n then Named(s, n) + [x] else Named(s, n)
  {
    assert (s + [x])[..|s|] == s;
  }

  /** A group is non-empty exactly when its name occurs. */
  lemma NamedNonEmpty(s: seq<Category>, n: string)
    ensures |Named(s, n)| > 0 <==> NameOccurs(s, n)
  {
    NamedMembers(s, n);
    var r := Named(s, n);
    if |r| > 0 {
      assert r[0] in r;
      var i :| 0 <= i < |s| && s[i] == r[0];
    }
    if NameOccurs(s, n) {
      var i :| 0 <= i < |s| && s[i].name == n;
      assert s[i] in r;
    }
  }

  /** A group of a listing without repeated ids has none either. */
  lemma {:induction false} NamedIdsDistinct(s: seq<Category>, n: string)
    requires IdsDistinct(s)
    ensures IdsDistinct(Named(s, n))
    decreases |s|
  {
    if s != [] {
      var p, x := s[..|s| - 1], s[|s| - 1];
      assert s == p + [x];
      assert IdsDistinct(p);
      NamedIdsDistinct(p, n);
      NamedMembers(p, n);
      var q := Named(p, n);
      forall c | c in q ensures c.id != x.id {
        var i :| 0 <= i < |p| && p[i] == c;
        assert s[i] == c;
      }
    }
  }

  /** The total size of the groups of the names `ns`. */
  function Sizes(s: seq<Category>, ns: seq<string>): nat {
    if ns == [] then 0 else Sizes(s, ns[..|ns| - 1]) + |Named(s, ns[|ns| - 1])|
  }

  /** One more entry named `m` grows the size of `m`'s group by one and
      leaves every other group's size alone. */
  lemma {:induction false} SizesShift(p: seq<Category>, s: seq<Category>, ns: seq<string>, m: string)
    requires forall i, j :: 0 <= i < j < |ns| ==> ns[i] != ns[j]
    requires forall n :: n in ns && n != m ==> |Named(s, n)| == |Named(p, n)|
    requires |Named(s, m)| == |Named(p, m)| + 1
    ensures Sizes(s, ns) == Sizes(p, ns) + (if m in ns then 1 else 0)
    decreases |ns|
  {
    if ns != [] {
      var init, last := ns[..|ns| - 1], ns[|ns| - 1];
      assert ns == init + [last];
      SizesShift(p, s, init, m);
      assert m in ns <==> m in init || m == last;
    }
  }

  /** The groups partition the listing: their sizes add up to its length. */
  lemma {:induction false} Partition(s: seq<Category>)
    ensures Sizes(s, NamesInOrder(s)) == |s|
    decreases |s|
  {
    if s != [] {
      var p, x := s[..|s| - 1], s[|s| - 1];
      assert s == p + [x];
      Partition(p);
      var ns := NamesInOrder(p);
      forall n | n != x.name ensures |Named(s, n)| == |Named(p, n)| {
      }
      SizesShift(p, s, ns, x.name);
      if x.name !in ns {
        NamedNonEmpty(p, x.name);
        assert |Named(p, x.name)| == 0;
        assert NamesInOrder(s) == ns + [x.name];
        assert (ns + [x.name])[..|ns|] == ns;
      }
    }
  }
}
