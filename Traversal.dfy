/**
 What the extension's two tree walks compute, as functions of the SiteTree
 table: the top-level page reached by climbing the ParentID links, and the
 rows the recursive child walk visits, in the order it appends them.
 */
module Traversal {
  import opened Wrappers
  import opened SiteTree

  /**
   Where the climb from `p` ends: the first page on its chain whose ParentID
   is 0, or null when the chain reaches a ParentID that no row has.
   */
  ghost function TopOf(t: Table, p: Page): (r: Option<Page>)
    requires Grounded(t, p)
    ensures r.Some? ==> r.value.parentId == 0
    ensures p.parentId == 0 ==> r == Some(p)
    ensures r.Some? && r.value != p ==> r.value in t && Below(t, p, r.value.id)
    decreases Depth(t, p)
  {
    if p.parentId == 0 then Some(p)
    else if Find(t, p.parentId).None? then None
    else
      var q := Find(t, p.parentId).value;
      DepthOfParent(t, p, q);
      TopOf(t, q)
  }

  /**
   The climb from `p` returns a page exactly when every nonzero ParentID on
   its chain names a row; it returns null exactly when one of them names none.
   */
  lemma {:induction false} TopOfFound(t: Table, p: Page)
    requires Grounded(t, p)
    ensures TopOf(t, p).Some? <==> forall x :: x != 0 && Below(t, p, x) ==> Find(t, x).Some?
    decreases Depth(t, p)
  {
    if p.parentId == 0 {
      assert forall x :: x != 0 ==> !Below(t, p, x);
    } else if Find(t, p.parentId).None? {
      var x := p.parentId;
      assert x != 0 && Below(t, p, x) && Find(t, x).None?;
      assert TopOf(t, p).None?;
    } else {
      var q := Find(t, p.parentId).value;
      DepthOfParent(t, p, q);
      TopOfFound(t, q);
      assert forall x :: Below(t, p, x) <==> x == p.parentId || Below(t, q, x);
    }
  }

  /** A measure that falls from a page to each of its children. */
  ghost function Rank(t: Table, id: nat): nat
    requires WellFormed(t)
  {
    if Find(t, id).None? then |t| + 2 else |t| + 1 - Depth(t, Find(t, id).value)
  }

  lemma RankDecreases(t: Table, id: nat, c: Page)
    requires WellFormed(t) && c in t && c.parentId == id
    ensures Rank(t, c.id) < Rank(t, id)
  {
    FindRow(t, c);
    if Find(t, id).Some? {
      DepthOfParent(t, c, Find(t, id).value);
    }
  }

  /**
   The rows the child walk appends for the children `cs` of `parent`, in
   order: for each child, first everything under it (only when it is itself a
   parent), then the child.
   */
  ghost function Forest(t: Table, parent: nat, cs: seq<Page>): (r: seq<Page>)
    requires WellFormed(t)
    requires forall c :: c in cs ==> c in t && c.parentId == parent
    ensures forall e :: e in r ==> e in t
    decreases Rank(t, parent), |cs|
  {
    if cs == [] then []
    else
      var c := cs[0];
      RankDecreases(t, parent, c);
      var kids := Children(t, c.id);
      (if kids != [] then Forest(t, c.id, kids) else []) + [c] + Forest(t, parent, cs[1..])
  }

  /** Everything the child walk started at `id` appends. */
  ghost function Descendants(t: Table, id: nat): (r: seq<Page>)
    requires WellFormed(t)
    ensures forall e :: e in r ==> e in t
  {
    Forest(t, id, Children(t, id))
  }

  /** What the walk appends for one child `c` before `c` itself. */
  ghost function Sub(t: Table, c: Page): seq<Page>
    requires WellFormed(t)
  {
    if Children(t, c.id) != [] then Descendants(t, c.id) else []
  }

  lemma ForestUnfold(t: Table, parent: nat, cs: seq<Page>)
    requires WellFormed(t) && cs != []
    requires forall c :: c in cs ==> c in t && c.parentId == parent
    ensures Forest(t, parent, cs) == Sub(t, cs[0]) + [cs[0]] + Forest(t, parent, cs[1..])
  {
  }

  lemma DistinctTail(cs: seq<Page>)
    requires Distinct(cs) && cs != []
    ensures Distinct(cs[1..]) && cs[0] !in cs[1..]
  {
    var c, rest := cs[0], cs[1..];
    assert cs == [c] + rest;
    forall x ensures multiset(rest)[x] <= 1 {
      assert multiset(cs)[x] == multiset([c])[x] + multiset(rest)[x];
    }
    assert multiset(cs)[c] == multiset([c])[c] + multiset(rest)[c];
  }

  lemma ConcatTail(a: seq<Page>, b: seq<Page>)
    requires a != []
    ensures (a + b)[0] == a[0] && (a + b)[1..] == a[1..] + b
  {
  }

  lemma SeqAssoc<T>(x: seq<T>, y: seq<T>, z: seq<T>)
    ensures x + y + z == x + (y + z)
  {
  }

  /** The walk over a list of children is the walk over its parts, one after the other. */
  lemma {:induction false} ForestAppend(t: Table, parent: nat, a: seq<Page>, b: seq<Page>)
    requires WellFormed(t)
    requires forall c :: c in a ==> c in t && c.parentId == parent
    requires forall c :: c in b ==> c in t && c.parentId == parent
    ensures Forest(t, parent, a + b) == Forest(t, parent, a) + Forest(t, parent, b)
    decreases |a|
  {
    if a == [] {
      assert a + b == b;
    } else {
      ConcatTail(a, b);
      ForestUnfold(t, parent, a + b);
      ForestUnfold(t, parent, a);
      ForestAppend(t, parent, a[1..], b);
      SeqAssoc(Sub(t, a[0]) + [a[0]], Forest(t, parent, a[1..]), Forest(t, parent, b));
    }
  }

  /** Walking one more child appends that child's block: what lies under it, then the child. */
  lemma ForestSnoc(t: Table, parent: nat, cs: seq<Page>, c: Page)
    requires WellFormed(t) && c in t && c.parentId == parent
    requires forall d :: d in cs ==> d in t && d.parentId == parent
    ensures Forest(t, parent, cs + [c]) == Forest(t, parent, cs) + Sub(t, c) + [c]
  {
    ForestAppend(t, parent, cs, [c]);
    ForestUnfold(t, parent, [c]);
    assert [c][1..] == [];
    var block := Sub(t, c) + [c];
    assert Forest(t, parent, [c]) == block + [];
    assert block + [] == block;
    SeqAssoc(Forest(t, parent, cs), Sub(t, c), [c]);
  }

  /**
   The walk over distinct children of `parent` lists a page once when one of
   the children covers it, and never otherwise.
   */
  lemma {:induction false} ForestCount(t: Table, parent: nat, cs: seq<Page>, e: Page)
    requires WellFormed(t)
    requires forall c :: c in cs ==> c in t && c.parentId == parent
    requires Distinct(cs)
    ensures multiset(Forest(t, parent, cs))[e] ==
      if e in t && exists c :: c in cs && Covers(t, c, e) then 1 else 0
    decreases Rank(t, parent), |cs|
  {
    if cs != [] {
      var c, rest := cs[0], cs[1..];
      DistinctTail(cs);
      RankDecreases(t, parent, c);
      ForestUnfold(t, parent, cs);
      SubCount(t, c, e);
      ForestCount(t, parent, rest, e);
      CountConcat(Sub(t, c), c, Forest(t, parent, rest), e);
      if e == c {
        NotBelowItself(t, c);
      }
      CoversSplit(t, cs, e);
      if e in t && Covers(t, c, e) && exists d :: d in rest && Covers(t, d, e) {
        var d :| d in rest && Covers(t, d, e);
        CoversUnique(t, c, d, e);
        assert false;
      }
    }
  }

  lemma CountConcat(a: seq<Page>, c: Page, b: seq<Page>, e: Page)
    ensures multiset(a + [c] + b)[e] == multiset(a)[e] + (if c == e then 1 else 0) + multiset(b)[e]
  {
  }

  lemma CoversSplit(t: Table, cs: seq<Page>, e: Page)
    requires WellFormed(t) && cs != []
    ensures (exists d :: d in cs && Covers(t, d, e)) <==>
      (Covers(t, cs[0], e) || exists d :: d in cs[1..] && Covers(t, d, e))
  {
    assert cs == [cs[0]] + cs[1..];
  }

  /** What the walk appends before `c` lists each page below `c` once. */
  lemma {:induction false} SubCount(t: Table, c: Page, e: Page)
    requires WellFormed(t) && c in t
    ensures multiset(Sub(t, c))[e] == if e in t && Below(t, e, c.id) then 1 else 0
    decreases Rank(t, c.id), |t| + 1
  {
    var kids := Children(t, c.id);
    if e in t && Below(t, e, c.id) {
      ChildOnPath(t, e, c.id);
    }
    if kids != [] {
      ChildrenDistinct(t, c.id);
      ForestCount(t, c.id, kids, e);
      if e in t && exists d :: d in kids && Covers(t, d, e) {
        var d :| d in kids && Covers(t, d, e);
        CoversBelow(t, d, e, c.id);
      }
    }
  }

  /**
   On a well-formed table the child walk from `id` lists every row below `id`
   exactly once, nothing else, and in particular not the row `id` itself.
   */
  lemma DescendantsExactlyOnce(t: Table, id: nat)
    requires WellFormed(t)
    ensures forall e :: multiset(Descendants(t, id))[e] == if e in t && Below(t, e, id) then 1 else 0
    ensures forall r :: r in t && r.id == id ==> r !in Descendants(t, id)
  {
    forall e
      ensures multiset(Descendants(t, id))[e] == if e in t && Below(t, e, id) then 1 else 0
    {
      ChildrenDistinct(t, id);
      ForestCount(t, id, Children(t, id), e);
      if e in t && Below(t, e, id) {
        ChildOnPath(t, e, id);
      }
      if e in t && exists c :: c in Children(t, id) && Covers(t, c, e) {
        var c :| c in Children(t, id) && Covers(t, c, e);
        CoversBelow(t, c, e, id);
      }
    }
    forall r | r in t && r.id == id
      ensures r !in Descendants(t, id)
    {
      NotBelowItself(t, r);
    }
  }

  /** Every page of `s` comes after all the pages below it. */
  ghost predicate PostOrdered(t: Table, s: seq<Page>)
    requires WellFormed(t)
  {
    forall i, j :: 0 <= i < |s| && 0 <= j < |s| && Below(t, s[j], s[i].id) ==> j < i
  }

  lemma PostOrderedConcat(t: Table, a: seq<Page>, b: seq<Page>)
    requires WellFormed(t) && PostOrdered(t, a) && PostOrdered(t, b)
    requires forall x, y :: x in a && y in b ==> !Below(t, y, x.id)
    ensures PostOrdered(t, a + b)
  {
    var s := a + b;
    forall i, j | 0 <= i < |s| && 0 <= j < |s|
      ensures Below(t, s[j], s[i].id) ==> j < i
    {
      if i < |a| && j < |a| {
        assert s[i] == a[i] && s[j] == a[j];
      } else if i >= |a| && j >= |a| {
        assert s[i] == b[i - |a|] && s[j] == b[j - |a|];
      } else if i < |a| {
        assert s[i] == a[i] && s[j] == b[j - |a|];
        assert s[i] in a && s[j] in b;
      }
    }
  }

  /** Everything the walk from `id` lists is a row below `id`. */
  lemma DescendantsBelow(t: Table, id: nat)
    requires WellFormed(t)
    ensures forall x :: x in Descendants(t, id) ==> x in t && Below(t, x, id)
  {
    DescendantsExactlyOnce(t, id);
  }

  /** A child comes after everything the walk lists under it. */
  lemma BlockPostOrdered(t: Table, c: Page)
    requires WellFormed(t) && c in t && PostOrdered(t, Sub(t, c))
    ensures PostOrdered(t, Sub(t, c) + [c])
  {
    DescendantsBelow(t, c.id);
    NotBelowItself(t, c);
    forall x, y | x in Sub(t, c) && y in [c]
      ensures !Below(t, y, x.id)
    {
      if Below(t, c, x.id) {
        BelowDeeper(t, c, x);
        BelowDeeper(t, x, c);
        assert false;
      }
    }
    PostOrderedConcat(t, Sub(t, c), [c]);
  }

  /** Nothing a later sibling's block lists lies below anything in an earlier one. */
  lemma BlockBeforeRest(t: Table, parent: nat, c: Page, rest: seq<Page>)
    requires WellFormed(t) && c in t && c.parentId == parent
    requires forall d :: d in rest ==> d in t && d.parentId == parent
    requires Distinct(rest) && c !in rest
    ensures forall x, y :: x in Sub(t, c) + [c] && y in Forest(t, parent, rest) ==> !Below(t, y, x.id)
  {
    DescendantsBelow(t, c.id);
    forall x, y | x in Sub(t, c) + [c] && y in Forest(t, parent, rest)
      ensures !Below(t, y, x.id)
    {
      ForestMembers(t, parent, rest, y);
      var d :| d in rest && Covers(t, d, y);
      if Below(t, y, x.id) {
        if x != c {
          BelowTrans(t, y, x, c.id);
        }
        CoversUnique(t, c, d, y);
        assert false;
      }
    }
  }

  /** Pages the walk over `cs` lists are exactly the pages the children cover. */
  lemma ForestMembers(t: Table, parent: nat, cs: seq<Page>, e: Page)
    requires WellFormed(t)
    requires forall c :: c in cs ==> c in t && c.parentId == parent
    requires Distinct(cs)
    ensures e in Forest(t, parent, cs) <==> e in t && exists c :: c in cs && Covers(t, c, e)
  {
    ForestCount(t, parent, cs, e);
  }

  lemma {:induction false} ForestPostOrdered(t: Table, parent: nat, cs: seq<Page>)
    requires WellFormed(t)
    requires forall c :: c in cs ==> c in t && c.parentId == parent
    requires Distinct(cs)
    ensures PostOrdered(t, Forest(t, parent, cs))
    decreases Rank(t, parent), |cs|
  {
    if cs != [] {
      var c, rest := cs[0], cs[1..];
      DistinctTail(cs);
      RankDecreases(t, parent, c);
      ForestUnfold(t, parent, cs);
      if Children(t, c.id) != [] {
        ChildrenDistinct(t, c.id);
        ForestPostOrdered(t, c.id, Children(t, c.id));
      }
      BlockPostOrdered(t, c);
      ForestPostOrdered(t, parent, rest);
      BlockBeforeRest(t, parent, c, rest);
      PostOrderedConcat(t, Sub(t, c) + [c], Forest(t, parent, rest));
    }
  }

  /** The child walk appends every page after all the pages below it. */
  lemma DescendantsPostOrdered(t: Table, id: nat)
    requires WellFormed(t)
    ensures PostOrdered(t, Descendants(t, id))
  {
    ChildrenDistinct(t, id);
    ForestPostOrdered(t, id, Children(t, id));
  }
}
