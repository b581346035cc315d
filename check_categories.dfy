/** The category check script: it counts how often each name occurs, reports
    the names that occur more than once, and proposes to keep the first
    category of each name in query order and delete the others. It changes
    nothing. */
module CheckCategories {
  import opened Values
  import opened Models
  import opened CategoryNames

  // ---- the keep/delete proposal ----

  /** The categories the proposal keeps: each one whose name has not
      appeared earlier in the listing. */
  function Firsts(s: seq<Category>): (r: seq<Category>)
    ensures |r| <= |s|
  {
    if s == [] then []
    else
      var p, x := s[..|s| - 1], s[|s| - 1];
      if NameOccurs(p, x.name) then Firsts(p) else Firsts(p) + [x]
  }

  /** The categories the proposal deletes: each one whose name has
      appeared earlier in the listing. */
  function Repeats(s: seq<Category>): (r: seq<Category>)
    ensures |r| <= |s|
  {
    if s == [] then []
    else
      var p, x := s[..|s| - 1], s[|s| - 1];
      if NameOccurs(p, x.name) then Repeats(p) + [x] else Repeats(p)
  }

  /** The loop over the listing with the `seen_names` set. */
  method KeepFirst(all: seq<Category>) returns (keep: seq<Category>, delete: seq<Category>)
    ensures keep == Firsts(all) && delete == Repeats(all)
  {
    keep, delete := [], [];
    var seen: set<string> := {};
    var i := 0;
    while i < |all|
      invariant 0 <= i <= |all|
      invariant keep == Firsts(all[..i]) && delete == Repeats(all[..i])
      invariant forall n :: n in seen <==> NameOccurs(all[..i], n)
    {
      var c := all[i];
      assert all[..i + 1][..i] == all[..i] && all[..i + 1][i] == c;
      assert forall n :: NameOccurs(all[..i + 1], n) <==> NameOccurs(all[..i], n) || n == c.name by {
        forall n ensures NameOccurs(all[..i + 1], n) <==> NameOccurs(all[..i], n) || n == c.name {
          if NameOccurs(all[..i + 1], n) && n != c.name {
            var j :| 0 <= j < i + 1 && all[..i + 1][j].name == n;
            assert all[..i][j] == all[..i + 1][j];
          }
          if NameOccurs(all[..i], n) {
            var j :| 0 <= j < i && all[..i][j].name == n;
            assert all[..i + 1][j] == all[..i][j];
          }
        }
      }
      if c.name !in seen {
        keep := keep + [c];
        seen := seen + {c.name};
      } else {
        delete := delete + [c];
      }
      i := i + 1;
    }
    assert all[..i] == all;
  }

  /** Keep and delete together hold every category of the listing exactly
      once. */
  lemma {:induction false} ProposalPartitions(s: seq<Category>)
    ensures multiset(Firsts(s)) + multiset(Repeats(s)) == multiset(s)
    decreases |s|
  {
    if s != [] {
      var p, x := s[..|s| - 1], s[|s| - 1];
      assert s == p + [x];
      ProposalPartitions(p);
    }
  }

  /** The kept categories carry the distinct names in order of first
      appearance, one each: so their names are pairwise distinct and there
      are as many of them as there are names. */
  lemma {:induction false} KeptNames(s: seq<Category>)
    ensures |Firsts(s)| == |NamesInOrder(s)|
    ensures forall i :: 0 <= i < |Firsts(s)| ==> Firsts(s)[i].name == NamesInOrder(s)[i]
    decreases |s|
  {
    if s != [] {
      var p, x := s[..|s| - 1], s[|s| - 1];
      KeptNames(p);
      assert x.name in NamesInOrder(p) <==> NameOccurs(p, x.name);
    }
  }

  lemma KeptNamesDistinct(s: seq<Category>)
    ensures forall i, j :: 0 <= i < j < |Firsts(s)| ==> Firsts(s)[i].name != Firsts(s)[j].name
  {
    KeptNames(s);
  }

  /** A category is kept exactly when no category before it has its name:
      the first in query order, whatever its id. */
  lemma {:induction false} KeptIsFirst(s: seq<Category>, i: nat)
    requires IdsDistinct(s) && i < |s|
    ensures s[i] in Firsts(s) <==> !NameOccurs(s[..i], s[i].name)
    decreases |s|
  {
    var p, x := s[..|s| - 1], s[|s| - 1];
    FirstsFrom(p);
    if i == |s| - 1 {
      assert s[..i] == p;
      assert x !in p;
    } else {
      assert IdsDistinct(p);
      KeptIsFirst(p, i);
      assert s[..i] == p[..i] && p[i] == s[i];
      assert s[i] != x by {
        assert s[i].id != s[|s| - 1].id;
      }
    }
  }

  /** Every kept category comes from the listing. */
  lemma {:induction false} FirstsFrom(s: seq<Category>)
    ensures forall c :: c in Firsts(s) ==> c in s
    decreases |s|
  {
    if s != [] {
      var p, x := s[..|s| - 1], s[|s| - 1];
      FirstsFrom(p);
      assert forall c :: c in p ==> c in s;
    }
  }

  /** Keeping the first in query order is not keeping the smallest id: the
      cleanup script would keep the other one of these two. */
  lemma FirstIsNotSmallest()
    ensures var s := [Category(2, "A", None, None), Category(1, "A", None, None)];
      Firsts(s) == [s[0]] && Repeats(s) == [s[1]] && s[1].id < s[0].id
  {
    var s := [Category(2, "A", None, None), Category(1, "A", None, None)];
    assert s[..1] == [s[0]] && s[..1][..0] == [];
    assert NameOccurs(s[..1], "A");
  }

  // ---- the duplicate report ----

  /** How often name `n` occurs in the listing. */
  function Occurrences(s: seq<Category>, n: string): nat {
    if s == [] then 0
    else Occurrences(s[..|s| - 1], n) + (if s[|s| - 1].name == n then 1 else 0)
  }

  /** A name is counted exactly when it occurs. */
  lemma {:induction false} CountedIffOccurs(s: seq<Category>, n: string)
    ensures Occurrences(s, n) > 0 <==> NameOccurs(s, n)
    decreases |s|
  {
    if s != [] {
      var p, x := s[..|s| - 1], s[|s| - 1];
      CountedIffOccurs(p, n);
      if NameOccurs(p, n) {
        var i :| 0 <= i < |p| && p[i].name == n;
        assert s[i] == p[i];
      }
      if NameOccurs(s, n) && x.name != n {
        var i :| 0 <= i < |s| && s[i].name == n;
        assert p[i] == s[i];
      }
    }
  }

  /** The count of a name is the size of its group. */
  lemma {:induction false} CountIsGroupSize(s: seq<Category>, n: string)
    ensures Occurrences(s, n) == |Named(s, n)|
    decreases |s|
  {
    if s != [] {
      var p, x := s[..|s| - 1], s[|s| - 1];
      assert s == p + [x];
      CountIsGroupSize(p, n);
    }
  }

  /** The report and the proposal agree: some deleted category has name
      `n` exactly when `n` occurs more than once. */
  lemma {:induction false} RepeatedIffCounted(s: seq<Category>, n: string)
    ensures (exists c :: c in Repeats(s) && c.name == n) <==> Occurrences(s, n) > 1
    decreases |s|
  {
    if s != [] {
      var p, x := s[..|s| - 1], s[|s| - 1];
      assert s == p + [x];
      RepeatedIffCounted(p, n);
      CountedIffOccurs(p, n);
      if x.name == n && NameOccurs(p, n) {
        assert x in Repeats(s);
      }
      if (exists c :: c in Repeats(p) && c.name == n) {
        var c :| c in Repeats(p) && c.name == n;
        assert c in Repeats(s);
      }
    }
  }

  /** One more entry at the end: the counter of its name goes up by one,
      starting from zero for a new name. */
  lemma Tally(p: seq<Category>, c: Category, counts: map<string, nat>)
    requires forall n :: n in counts ==> counts[n] == Occurrences(p, n)
    requires c.name !in counts ==> Occurrences(p, c.name) == 0
    ensures var t := counts[c.name := if c.name in counts then counts[c.name] + 1 else 1];
      forall n :: n in t ==> t[n] == Occurrences(p + [c], n)
  {
    assert (p + [c])[..|p|] == p;
  }

  /** The `Counter` over the names: each name that occurs, mapped to how
      often it does, and the names in the order the counter lists them. */
  method NameCounts(all: seq<Category>) returns (counts: map<string, nat>, order: seq<string>)
    ensures order == NamesInOrder(all)
    ensures forall n :: n in counts <==> n in order
    ensures forall n :: n in counts ==> counts[n] == Occurrences(all, n)
  {
    counts, order := map[], [];
    var i := 0;
    while i < |all|
      invariant 0 <= i <= |all|
      invariant order == NamesInOrder(all[..i])
      invariant forall n :: n in counts <==> n in order
      invariant forall n :: n in counts ==> counts[n] == Occurrences(all[..i], n)
    {
      var c := all[i];
      assert all[..i + 1] == all[..i] + [c];
      NamesSnoc(all[..i], c);
      CountedIffOccurs(all[..i], c.name);
      Tally(all[..i], c, counts);
      if c.name in counts {
        counts := counts[c.name := counts[c.name] + 1];
      } else {
        order := order + [c.name];
        counts := counts[c.name := 1];
      }
      i := i + 1;
    }
    assert all[..i] == all;
  }

  /** The names the report lists: those counted more than once, each once,
      in the counter's order. */
  method DuplicatedNames(all: seq<Category>) returns (dups: seq<string>, counts: map<string, nat>)
    ensures forall n :: n in counts <==> NameOccurs(all, n)
    ensures forall n :: n in counts ==> counts[n] == Occurrences(all, n)
    ensures forall n :: n in dups <==> Occurrences(all, n) > 1
    ensures forall i, j :: 0 <= i < j < |dups| ==> dups[i] != dups[j]
  {
    var order;
    counts, order := NameCounts(all);
    dups := [];
    var j := 0;
    while j < |order|
      invariant 0 <= j <= |order|
      invariant forall n :: n in dups <==> n in order[..j] && counts[n] > 1
      invariant forall a, b :: 0 <= a < b < |dups| ==> dups[a] != dups[b]
    {
      var n := order[j];
      assert order[..j + 1] == order[..j] + [n];
      if counts[n] > 1 {
        assert n !in order[..j];
        dups := dups + [n];
      }
      j := j + 1;
    }
    assert order[..j] == order;
    forall n ensures n in dups <==> Occurrences(all, n) > 1 {
      CountedIffOccurs(all, n);
    }
  }
}
