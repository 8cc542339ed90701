/**
 The SiteTree table as the extension reads it through the ORM: a sequence of
 page rows in the order `SiteTree::get()` returns them, the two queries the
 extension issues against it, and the parent relation those rows describe.
 */
module SiteTree {
  import opened Wrappers

  /** One SiteTree row. `parentId == 0` means the page sits at the top level. */
  datatype Page = Page(id: nat, parentId: nat, urlSegment: string, menuTitle: string, title: string)

  type Table = seq<Page>

  /** `SiteTree::get()->filter("ID", id)->first()`: the first row with that ID, or null. */
  function Find(t: Table, id: nat): (r: Option<Page>)
    ensures r.Some? ==> r.value in t && r.value.id == id
    ensures r.None? ==> forall p :: p in t ==> p.id != id
  {
    if t == [] then None
    else if t[0].id == id then Some(t[0])
    else Find(t[1..], id)
  }

  /** `SiteTree::get()->filter("ParentID", id)`: the rows whose parent is `id`, in table order. */
  function Children(t: Table, id: nat): (cs: seq<Page>)
    ensures |cs| <= |t|
    ensures forall p :: multiset(cs)[p] == if p.parentId == id then multiset(t)[p] else 0
    ensures forall p :: p in cs <==> p in t && p.parentId == id
  {
    if t == [] then []
    else
      assert t == [t[0]] + t[1..];
      (if t[0].parentId == id then [t[0]] else []) + Children(t[1..], id)
  }

  /** No value occurs twice. */
  ghost predicate Distinct(s: seq<Page>) {
    forall x :: multiset(s)[x] <= 1
  }

  /** Database IDs start at 1, so 0 is free to mean "no parent". */
  ghost predicate PositiveIds(t: Table) {
    forall p :: p in t ==> p.id > 0
  }

  /** ID is the table's primary key. */
  ghost predicate UniqueIds(t: Table) {
    forall i, j :: 0 <= i < |t| && 0 <= j < |t| && t[i].id == t[j].id ==> i == j
  }

  /**
   Number of steps the walk up the ParentID links makes from `p` before it
   stops, when it stops within `fuel` steps. The walk stops at a page whose
   ParentID is 0, and after a step to a ParentID that no row has.
   */
  ghost function Hops(t: Table, p: Page, fuel: nat): (r: Option<nat>)
    ensures r.Some? ==> r.value <= fuel
    decreases fuel
  {
    if p.parentId == 0 then Some(0)
    else if fuel == 0 then None
    else if Find(t, p.parentId).None? then Some(1)
    else
      var h := Hops(t, Find(t, p.parentId).value, fuel - 1);
      if h.None? then None else Some(h.value + 1)
  }

  /** No parent cycle: from every row the walk up stops within |t| steps. */
  ghost predicate Acyclic(t: Table) {
    forall p :: p in t ==> Hops(t, p, |t|).Some?
  }

  /** The walk up from `p` (a row or not) stops. */
  ghost predicate Grounded(t: Table, p: Page) {
    Hops(t, p, |t| + 1).Some?
  }

  /** The integrity the database gives the SiteTree table. */
  ghost predicate WellFormed(t: Table)
    ensures WellFormed(t) ==> forall p :: Grounded(t, p)
  {
    AcyclicGrounded(t);
    PositiveIds(t) && UniqueIds(t) && Acyclic(t)
  }

  lemma AcyclicGrounded(t: Table)
    ensures Acyclic(t) ==> forall p :: Grounded(t, p)
  {
    if Acyclic(t) {
      forall p ensures Grounded(t, p) {
        if p.parentId != 0 && Find(t, p.parentId).Some? {
          assert Hops(t, Find(t, p.parentId).value, |t|).Some?;
        }
      }
    }
  }

  /** The steps from `p` to the end of its walk up. */
  ghost function Depth(t: Table, p: Page): nat
    requires Grounded(t, p)
  {
    Hops(t, p, |t| + 1).value
  }

  lemma {:induction false} HopsMono(t: Table, p: Page, n: nat, m: nat)
    requires n <= m && Hops(t, p, n).Some?
    ensures Hops(t, p, m) == Hops(t, p, n)
    decreases n
  {
    if p.parentId != 0 && Find(t, p.parentId).Some? {
      HopsMono(t, Find(t, p.parentId).value, n - 1, m - 1);
    }
  }

  /** One step up the parent chain lowers the depth by one. */
  lemma DepthOfParent(t: Table, p: Page, q: Page)
    requires Grounded(t, p) && p.parentId != 0 && Find(t, p.parentId) == Some(q)
    ensures Grounded(t, q) && Depth(t, p) == Depth(t, q) + 1
  {
    HopsMono(t, q, |t|, |t| + 1);
  }

  /** Pages with the same parent are equally deep. */
  lemma SiblingDepth(t: Table, p: Page, q: Page)
    requires Grounded(t, p) && p.parentId == q.parentId
    ensures Grounded(t, q) && Depth(t, p) == Depth(t, q)
  {
  }

  /**
   `id` lies on the ParentID chain of `p`: walking up from `p` meets a page
   whose ParentID is `id` (which may be 0, a row's ID, or an ID no row has).
   */
  ghost predicate Below(t: Table, p: Page, id: nat)
    requires Grounded(t, p)
    decreases Depth(t, p)
  {
    p.parentId == id ||
    (p.parentId != 0 && Find(t, p.parentId).Some? &&
      var q := Find(t, p.parentId).value;
      DepthOfParent(t, p, q);
      Below(t, q, id))
  }

  /** With unique IDs, looking a row up by its ID finds that row. */
  lemma FindRow(t: Table, p: Page)
    requires UniqueIds(t) && p in t
    ensures Find(t, p.id) == Some(p)
  {
    var r := Find(t, p.id).value;
    var i :| 0 <= i < |t| && t[i] == p;
    var j :| 0 <= j < |t| && t[j] == r;
  }

  /** With unique IDs no row occurs twice. */
  lemma {:induction false} UniqueIdsDistinct(t: Table)
    requires UniqueIds(t)
    ensures Distinct(t)
  {
    if t != [] {
      var rest := t[1..];
      assert UniqueIds(rest) by {
        forall i, j | 0 <= i < |rest| && 0 <= j < |rest| && rest[i].id == rest[j].id
          ensures i == j
        {
          assert t[i + 1].id == t[j + 1].id;
        }
      }
      UniqueIdsDistinct(rest);
      assert t[0] !in rest by {
        forall k | 0 <= k < |rest|
          ensures rest[k].id != t[0].id
        {
          assert rest[k] == t[k + 1];
        }
      }
      assert t == [t[0]] + rest;
    }
  }

  /** The children of a page are distinct rows. */
  lemma ChildrenDistinct(t: Table, id: nat)
    requires UniqueIds(t)
    ensures Distinct(Children(t, id))
  {
    UniqueIdsDistinct(t);
  }

  /** A page lies strictly deeper than every row on its parent chain. */
  lemma {:induction false} BelowDeeper(t: Table, e: Page, c: Page)
    requires WellFormed(t) && c in t && Below(t, e, c.id)
    ensures Depth(t, e) > Depth(t, c)
    decreases Depth(t, e)
  {
    FindRow(t, c);
    var q := Find(t, e.parentId).value;
    DepthOfParent(t, e, q);
    if e.parentId != c.id {
      BelowDeeper(t, q, c);
    }
  }

  /** No row is on its own parent chain. */
  lemma NotBelowItself(t: Table, c: Page)
    requires WellFormed(t) && c in t
    ensures !Below(t, c, c.id)
  {
    if Below(t, c, c.id) {
      BelowDeeper(t, c, c);
      assert false;
    }
  }

  /** The chain of `a` runs through the row `b`, and so through everything on `b`'s chain. */
  lemma {:induction false} BelowTrans(t: Table, a: Page, b: Page, x: nat)
    requires WellFormed(t) && b in t && Below(t, a, b.id) && Below(t, b, x)
    ensures Below(t, a, x)
    decreases Depth(t, a)
  {
    FindRow(t, b);
    var q := Find(t, a.parentId).value;
    DepthOfParent(t, a, q);
    if a.parentId != b.id {
      BelowTrans(t, q, b, x);
    }
  }

  /** `e` is the row `c` or lies in the subtree under it. */
  ghost predicate Covers(t: Table, c: Page, e: Page)
    requires WellFormed(t)
  {
    e == c || Below(t, e, c.id)
  }

  /** A child of `id` covers only pages below `id`. */
  lemma CoversBelow(t: Table, c: Page, e: Page, id: nat)
    requires WellFormed(t) && c in t && c.parentId == id && Covers(t, c, e)
    ensures Below(t, e, id)
  {
    if e != c {
      BelowTrans(t, e, c, id);
    }
  }

  /** Two children of the same page never share a subtree. */
  lemma {:induction false} CoversUnique(t: Table, c1: Page, c2: Page, e: Page)
    requires WellFormed(t) && c1 in t && c2 in t && c1.parentId == c2.parentId
    requires Covers(t, c1, e) && Covers(t, c2, e)
    ensures c1 == c2
    decreases Depth(t, e)
  {
    SiblingDepth(t, c1, c2);
    FindRow(t, c1);
    FindRow(t, c2);
    if e == c1 && e != c2 {
      BelowDeeper(t, c1, c2);
      assert false;
    } else if e == c2 && e != c1 {
      BelowDeeper(t, c2, c1);
      assert false;
    } else if e != c1 && e != c2 {
      var q := Find(t, e.parentId).value;
      DepthOfParent(t, e, q);
      if e.parentId == c1.id && e.parentId != c2.id {
        BelowDeeper(t, c1, c2);
        assert false;
      } else if e.parentId == c2.id && e.parentId != c1.id {
        BelowDeeper(t, c2, c1);
        assert false;
      } else if e.parentId != c1.id && e.parentId != c2.id {
        CoversUnique(t, c1, c2, q);
      }
    }
  }

  /** Every row below `id` lies in the subtree of exactly one child of `id`. */
  lemma {:induction false} ChildOnPath(t: Table, e: Page, id: nat)
    requires WellFormed(t) && e in t && Below(t, e, id)
    ensures exists c :: c in t && c.parentId == id && Covers(t, c, e)
    decreases Depth(t, e)
  {
    if e.parentId != id {
      var q := Find(t, e.parentId).value;
      DepthOfParent(t, e, q);
      ChildOnPath(t, q, id);
      var c :| c in t && c.parentId == id && Covers(t, c, q);
      assert Covers(t, c, e);
    } else {
      assert Covers(t, e, e);
    }
  }

  /**
   The rows of `cyc` form a ParentID cycle: each one's parent is the next,
   and the last one's parent is the first.
   */
  ghost predicate ParentCycle(t: Table, cyc: seq<Page>) {
    && |cyc| > 0
    && (forall i :: 0 <= i < |cyc| ==> cyc[i].parentId != 0)
    && (forall i :: 0 <= i < |cyc| - 1 ==> Find(t, cyc[i].parentId) == Some(cyc[i + 1]))
    && Find(t, cyc[|cyc| - 1].parentId) == Some(cyc[0])
  }

  /**
   A ParentID chain that comes back to where it started never ends: the walk
   up from any page on the cycle does not stop, whatever the number of steps.
   */
  lemma {:induction false} CycleNeverStops(t: Table, cyc: seq<Page>, n: nat)
    requires ParentCycle(t, cyc)
    ensures forall i :: 0 <= i < |cyc| ==> Hops(t, cyc[i], n).None?
  {
    if n > 0 {
      CycleNeverStops(t, cyc, n - 1);
      forall i | 0 <= i < |cyc|
        ensures Hops(t, cyc[i], n).None?
      {
        var next := if i + 1 < |cyc| then cyc[i + 1] else cyc[0];
        assert Find(t, cyc[i].parentId) == Some(next);
      }
    }
  }

  /** A table with a parent cycle is not well formed: the walk up would never stop. */
  lemma CycleNotWellFormed(t: Table, cyc: seq<Page>)
    requires ParentCycle(t, cyc)
    ensures !WellFormed(t)
  {
    CycleNeverStops(t, cyc, |t|);
    assert Hops(t, cyc[0], |t|).None?;
  }

  /** No page on a parent cycle is grounded: climbing from it never ends. */
  lemma CycleNeverGrounded(t: Table, cyc: seq<Page>)
    requires ParentCycle(t, cyc)
    ensures forall i :: 0 <= i < |cyc| ==> !Grounded(t, cyc[i])
  {
    CycleNeverStops(t, cyc, |t| + 1);
  }
}
