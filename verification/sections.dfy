/**
 The expand/collapse state of the project cards.

 Each project id maps to the list of its section names ("features",
 "challenges", "learnings") that are currently expanded. Toggling a section
 removes every copy of it from the project's list when it is there, and
 appends it otherwise; a project with no entry has nothing expanded.
 */
module Sections {

  type Expanded = map<int, seq<string>>

  /** `xs` with every copy of `s` removed, the rest in order. */
  function Without(xs: seq<string>, s: string): (ys: seq<string>)
    ensures forall t :: t in ys <==> t in xs && t != s
    ensures |ys| <= |xs|
  {
    if |xs| == 0 then []
    else (if xs[0] == s then [] else [xs[0]]) + Without(xs[1..], s)
  }

  /** The project's list, or the empty list when the project has no entry. */
  function Lookup(m: Expanded, id: int): seq<string>
  {
    if id in m then m[id] else []
  }

  /** Whether section `s` of project `id` is shown expanded; a project with no entry has none. */
  function IsExpanded(m: Expanded, id: int, s: string): (r: bool)
    ensures r <==> s in Lookup(m, id)
    ensures id !in m ==> !r
  {
    id in m && s in m[id]
  }

  /**
   The toggle of section `s` of project `id`. It flips that section,
   expanded afterwards exactly when it was not before, and leaves every
   other section of that project and every other project's entry as it was.
   A project with no entry gets one holding just that section.
   */
  function Toggle(m: Expanded, id: int, s: string): (m': Expanded)
    ensures m'.Keys == m.Keys + {id}
    ensures forall k :: k in m && k != id ==> m'[k] == m[k]
    ensures IsExpanded(m', id, s) <==> !IsExpanded(m, id, s)
    ensures forall t :: t != s ==> (IsExpanded(m', id, t) <==> IsExpanded(m, id, t))
    ensures id !in m ==> m'[id] == [s]
  {
    m[id := if IsExpanded(m, id, s) then Without(m[id], s) else Lookup(m, id) + [s]]
  }

  predicate NoDup(xs: seq<string>)
  {
    forall i, j :: 0 <= i < j < |xs| ==> xs[i] != xs[j]
  }

  /** Toggling the same section twice restores which sections are expanded, everywhere. */
  lemma ToggleTwiceRestoresMembership(m: Expanded, id: int, s: string, k: int, t: string)
    ensures IsExpanded(Toggle(Toggle(m, id, s), id, s), k, t) <==> IsExpanded(m, k, t)
  {
  }

  /**
   ... but not the list's order: collapsing the first of two expanded
   sections and expanding it again moves it to the end.
   */
  lemma ToggleTwiceMayReorder()
    ensures var m := map[1 := ["features", "challenges"]];
      Toggle(Toggle(m, 1, "features"), 1, "features")[1] == ["challenges", "features"]
      && Toggle(Toggle(m, 1, "features"), 1, "features") != m
  {
  }

  /** Removing every copy of an entry keeps a duplicate-free list duplicate-free. */
  lemma {:induction false} WithoutKeepsNoDup(xs: seq<string>, s: string)
    requires NoDup(xs)
    ensures NoDup(Without(xs, s))
  {
    if |xs| > 0 {
      assert NoDup(xs[1..]) by {
        forall i, j | 0 <= i < j < |xs[1..]|
          ensures xs[1..][i] != xs[1..][j]
        {
          assert xs[1..][i] == xs[i + 1] && xs[1..][j] == xs[j + 1];
        }
      }
      WithoutKeepsNoDup(xs[1..], s);
      var rest := Without(xs[1..], s);
      if xs[0] != s {
        assert xs[0] !in xs[1..] by {
          forall j | 0 <= j < |xs[1..]|
            ensures xs[1..][j] != xs[0]
          {
            assert xs[1..][j] == xs[j + 1];
          }
        }
        assert xs[0] !in rest;
        ConsKeepsNoDup(xs[0], rest);
      }
    }
  }

  /** Putting an absent entry in front keeps a list duplicate-free. */
  lemma ConsKeepsNoDup(x: string, ys: seq<string>)
    requires NoDup(ys) && x !in ys
    ensures NoDup([x] + ys)
  {
    forall i, j | 0 <= i < j < |[x] + ys|
      ensures ([x] + ys)[i] != ([x] + ys)[j]
    {
      if i == 0 {
        assert ([x] + ys)[j] == ys[j - 1];
      } else {
        assert ([x] + ys)[i] == ys[i - 1] && ([x] + ys)[j] == ys[j - 1];
      }
    }
  }

  /** Appending an absent entry keeps a list duplicate-free. */
  lemma SnocKeepsNoDup(xs: seq<string>, x: string)
    requires NoDup(xs) && x !in xs
    ensures NoDup(xs + [x])
  {
    forall i, j | 0 <= i < j < |xs + [x]|
      ensures (xs + [x])[i] != (xs + [x])[j]
    {
      assert (xs + [x])[i] == xs[i];
      if j < |xs| {
        assert (xs + [x])[j] == xs[j];
      }
    }
  }

  /**
   A project's list without duplicates stays without duplicates: removal
   drops every copy, and a section is appended only when it is absent.
   */
  lemma ToggleKeepsNoDup(m: Expanded, id: int, s: string)
    requires NoDup(Lookup(m, id))
    ensures NoDup(Toggle(m, id, s)[id])
  {
    if IsExpanded(m, id, s) {
      WithoutKeepsNoDup(m[id], s);
    } else {
      SnocKeepsNoDup(Lookup(m, id), s);
    }
  }

  /** Removing an entry that is not there changes nothing. */
  lemma {:induction false} WithoutAbsent(xs: seq<string>, s: string)
    requires s !in xs
    ensures Without(xs, s) == xs
  {
    if |xs| > 0 {
      assert xs[0] != s;
      WithoutAbsent(xs[1..], s);
      assert [xs[0]] + xs[1..] == xs;
    }
  }
}
