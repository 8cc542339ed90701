/**
 The CloudFlare cache-purge extension of a SilverStripe page: what it asks
 the CDN to purge after a page is published or unpublished, and the two
 walks over the SiteTree table it uses to gather the URLs.

 The CDN calls are modelled as the sequence of purge requests a hook issues;
 whether CloudFlare credentials are configured is the parameter `creds`;
 `Link()` is the parameter `link`, from a page ID to that page's URL.
 */
module CloudFlareExt {
  import opened Wrappers
  import opened SiteTree
  import opened Traversal

  /** One call the extension makes to the CDN (the reason strings are not modelled). */
  datatype Action = PurgeAll | PurgeSingle(url: string) | PurgeMany(urls: seq<string>)

  /** A page ID argument that defaults to the owner's ID when it is null. */
  function ResolveId(ownerId: nat, id: Option<nat>): (r: nat)
    ensures id.None? ==> r == ownerId
    ensures id.Some? ==> r == id.value
  {
    if id.None? then ownerId else id.value
  }

  /** `getChildren`: the rows whose ParentID is the given ID (the owner's ID when null). */
  function GetChildren(t: Table, ownerId: nat, parentId: Option<nat>): (cs: seq<Page>)
    ensures forall p :: p in cs <==> p in t && p.parentId == ResolveId(ownerId, parentId)
    ensures forall p :: multiset(cs)[p] == if p.parentId == ResolveId(ownerId, parentId) then multiset(t)[p] else 0
  {
    Children(t, ResolveId(ownerId, parentId))
  }

  /** `isParent`: some row has the given ID (the owner's ID when null) as its parent. */
  function IsParent(t: Table, ownerId: nat, id: Option<nat>): (b: bool)
    ensures b <==> GetChildren(t, ownerId, id) != []
    ensures b <==> exists c :: c in t && c.parentId == ResolveId(ownerId, id)
  {
    var cs := GetChildren(t, ownerId, id);
    assert cs != [] ==> cs[0] in cs;
    |cs| != 0
  }

  /**
   `getTopLevelParent`: climbs the ParentID links from the owner until a page
   whose ParentID is 0, or null once a ParentID names no row. The climb ends
   only when the owner's chain has no cycle.
   */
  method GetTopLevelParent(t: Table, owner: Page) returns (top: Option<Page>)
    requires Grounded(t, owner)
    ensures top == TopOf(t, owner)
    ensures top.Some? ==> top.value.parentId == 0
    ensures owner.parentId == 0 ==> top == Some(owner)
    ensures top.Some? && top.value != owner ==> top.value in t && Below(t, owner, top.value.id)
    ensures top.Some? <==> forall x :: x != 0 && Below(t, owner, x) ==> Find(t, x).Some?
  {
    var obj := Some(owner);
    while obj.Some? && obj.value.parentId != 0
      invariant obj.Some? ==> Grounded(t, obj.value) && TopOf(t, obj.value) == TopOf(t, owner)
      invariant obj.None? ==> TopOf(t, owner) == None
      decreases if obj.Some? then Depth(t, obj.value) + 1 else 0
    {
      var next := Find(t, obj.value.parentId);
      if next.Some? {
        DepthOfParent(t, obj.value, next.value);
      }
      obj := next;
    }
    top := obj;
    TopOfFound(t, owner);
  }

  /** PHP's `ltrim($s, "/")`: `s` without its leading slashes. */
  function TrimLeadingSlashes(s: string): (r: string)
    ensures |r| <= |s|
    ensures forall i :: 0 <= i < |s| - |r| ==> s[i] == '/'
    ensures r == [] || r[0] != '/'
  {
    if s != [] && s[0] == '/' then TrimLeadingSlashes(s[1..]) else s
  }

  /** What is left after trimming is the end of the URL: only leading characters go. */
  lemma TrimSuffix(s: string)
    ensures TrimLeadingSlashes(s) == s[|s| - |TrimLeadingSlashes(s)|..]
  {
  }

  /** Trimming twice trims no more than trimming once. */
  lemma TrimIdempotent(s: string)
    ensures TrimLeadingSlashes(TrimLeadingSlashes(s)) == TrimLeadingSlashes(s)
  {
  }

  /** A URL is left as it is exactly when it does not start with a slash. */
  lemma TrimKeeps(s: string)
    ensures TrimLeadingSlashes(s) == s <==> s == [] || s[0] != '/'
  {
  }

  /** The URLs the child walk appends for the rows `ps`: each row's link, leading slashes trimmed. */
  function Urls(link: nat -> string, ps: seq<Page>): (r: seq<string>)
    ensures |r| == |ps|
    ensures forall i :: 0 <= i < |ps| ==> r[i] == TrimLeadingSlashes(link(ps[i].id))
  {
    if ps == [] then [] else [TrimLeadingSlashes(link(ps[0].id))] + Urls(link, ps[1..])
  }

  lemma UrlsAppend(link: nat -> string, a: seq<Page>, b: seq<Page>)
    ensures Urls(link, a + b) == Urls(link, a) + Urls(link, b)
  {
    assert |Urls(link, a + b)| == |Urls(link, a) + Urls(link, b)|;
    forall i | 0 <= i < |a + b|
      ensures Urls(link, a + b)[i] == (Urls(link, a) + Urls(link, b))[i]
    {
      if i >= |a| {
        assert (a + b)[i] == b[i - |a|];
      }
    }
  }

  lemma PrefixSnoc(s: seq<Page>, i: nat)
    requires i < |s|
    ensures s[..i + 1] == s[..i] + [s[i]]
  {
  }

  /** Before the walk's loop the output holds what it held on entry. */
  lemma WalkStart(t: Table, link: nat -> string, id: nat, children: seq<Page>, output: seq<string>)
    requires WellFormed(t) && children == Children(t, id)
    ensures output == output + Urls(link, Forest(t, id, children[..0]))
  {
    assert children[..0] == [];
  }

  /** After the walk's loop the output holds the URLs of all rows under `id`, after what it held on entry. */
  lemma WalkDone(t: Table, link: nat -> string, id: nat, children: seq<Page>, output: seq<string>, out: seq<string>)
    requires WellFormed(t) && children == Children(t, id)
    requires out == output + Urls(link, Forest(t, id, children[..|children|]))
    ensures out == output + Urls(link, Descendants(t, id))
    ensures |out| >= |output| && out[..|output|] == output
  {
    assert children[..|children|] == children;
  }

  /**
   One round of the walk's loop: after the URLs of what lies under the
   `i`-th child (none when it has no children) and that child's own URL, the
   list holds the URLs of the first `i + 1` blocks.
   */
  lemma WalkStep(t: Table, link: nat -> string, id: nat, children: seq<Page>, i: nat,
                 output: seq<string>, before: seq<string>, mid: seq<string>)
    requires WellFormed(t) && i < |children|
    requires forall c :: c in children ==> c in t && c.parentId == id
    requires before == output + Urls(link, Forest(t, id, children[..i]))
    requires Children(t, children[i].id) != [] ==> mid == before + Urls(link, Descendants(t, children[i].id))
    requires Children(t, children[i].id) == [] ==> mid == before
    ensures mid + [TrimLeadingSlashes(link(children[i].id))] == output + Urls(link, Forest(t, id, children[..i + 1]))
  {
    var child := children[i];
    assert child in children;
    var done := Forest(t, id, children[..i]);
    var under := Sub(t, child);
    if Children(t, child.id) == [] {
      assert Urls(link, under) == [];
      assert mid == before + Urls(link, under);
    }
    UrlsStep(link, output, done, under, child);
    ForestSnoc(t, id, children[..i], child);
    PrefixSnoc(children, i);
  }

  /** The URL list grows by a child's block as the walk's row list does. */
  lemma UrlsStep(link: nat -> string, output: seq<string>, done: seq<Page>, under: seq<Page>, c: Page)
    ensures output + Urls(link, done) + Urls(link, under) + [TrimLeadingSlashes(link(c.id))] ==
      output + Urls(link, done + under + [c])
  {
    var x := TrimLeadingSlashes(link(c.id));
    UrlsAppend(link, done, under);
    UrlsAppend(link, done + under, [c]);
    assert Urls(link, [c]) == [x];
    SeqAssoc(output, Urls(link, done), Urls(link, under));
    SeqAssoc(output, Urls(link, done) + Urls(link, under), [x]);
  }

  /**
   `getChildrenRecursive`: appends to `output` (by reference in PHP) the
   trimmed link of every page under the given ID (the owner's ID when null),
   each child's subtree before the child. The walk ends because the table
   has no parent cycle.
   */
  method GetChildrenRecursive(t: Table, link: nat -> string, ownerId: nat, parentId: Option<nat>, output: seq<string>)
    returns (out: seq<string>)
    requires WellFormed(t)
    ensures out == output + Urls(link, Descendants(t, ResolveId(ownerId, parentId)))
    ensures |out| >= |output| && out[..|output|] == output
    decreases Rank(t, ResolveId(ownerId, parentId))
  {
    var id := ResolveId(ownerId, parentId);
    var children := GetChildren(t, ownerId, parentId);
    out := output;
    var i := 0;
    WalkStart(t, link, id, children, output);
    while i < |children|
      invariant 0 <= i <= |children|
      invariant forall c :: c in children ==> c in t && c.parentId == id
      invariant out == output + Urls(link, Forest(t, id, children[..i]))
    {
      var child := children[i];
      assert child in children;
      ghost var before := out;
      if IsParent(t, ownerId, Some(child.id)) {
        RankDecreases(t, id, child);
        out := GetChildrenRecursive(t, link, ownerId, Some(child.id), out);
      }
      WalkStep(t, link, id, children, i, output, before, out);
      out := out + [TrimLeadingSlashes(link(child.id))];
      i := i + 1;
    }
    WalkDone(t, link, id, children, output, out);
  }

  /** The page-level fields whose change makes the hook purge the whole zone. */
  function CriticalChanged(owner: Page, original: Page): (b: bool)
    ensures b ==> owner != original
    ensures owner.(id := original.id, parentId := original.parentId) == original ==> !b
    ensures !b ==> (owner.urlSegment == original.urlSegment && owner.menuTitle == original.menuTitle &&
                    owner.title == original.title)
  {
    owner.urlSegment != original.urlSegment ||
    owner.menuTitle != original.menuTitle ||
    owner.title != original.title
  }

  /**
   The URL segment the hook compares the owner's with. A null top-level
   parent has a null segment, which PHP's loose `!=` treats as "".
   */
  function TopSegment(top: Option<Page>): string
  {
    if top.Some? then top.value.urlSegment else ""
  }

  /** The ID the descendant walk starts from: the top-level parent's, or the owner's when it is null. */
  function WalkRoot(owner: Page, top: Option<Page>): nat
  {
    ResolveId(owner.id, if top.Some? then Some(top.value.id) else None)
  }

  /** The rows whose links follow the owner's in the publish hook's URL list. */
  ghost function PublishPages(t: Table, owner: Page): seq<Page>
    requires WellFormed(t)
  {
    var top := TopOf(t, owner);
    if owner.urlSegment != TopSegment(top) then Descendants(t, WalkRoot(owner, top)) else []
  }

  /** The URLs the publish hook purges: the owner's link as it is, then the trimmed links of `PublishPages`. */
  ghost function PublishUrls(t: Table, link: nat -> string, owner: Page): seq<string>
    requires WellFormed(t)
  {
    [link(owner.id)] + Urls(link, PublishPages(t, owner))
  }

  /** One purge for a non-empty URL list: a single URL alone, several together. */
  function PurgeOf(urls: seq<string>): (a: Action)
    requires urls != []
    ensures a != PurgeAll
    ensures a.PurgeSingle? <==> |urls| == 1
    ensures a.PurgeSingle? ==> a.url == urls[0]
    ensures a.PurgeMany? ==> a.urls == urls
  {
    if |urls| == 1 then PurgeSingle(urls[0]) else PurgeMany(urls)
  }

  /**
   What `onAfterPublish` asks of the CDN: nothing without credentials or when
   the original version has no URL segment; otherwise a purge of everything
   when a critical field changed, always followed by the purge of the URLs.
   */
  ghost function PublishPlan(creds: bool, t: Table, link: nat -> string, owner: Page, original: Page): (r: seq<Action>)
    requires creds && |original.urlSegment| > 0 ==> WellFormed(t)
    ensures creds && |original.urlSegment| > 0 ==> |r| >= 1 && r[|r| - 1] == PurgeOf(PublishUrls(t, link, owner))
  {
    if creds && |original.urlSegment| > 0 then PlanFor(creds, owner, original, PublishUrls(t, link, owner)) else []
  }

  /**
   The purges the publish hook issues once its URL list is `urls`: none at
   all exactly when credentials are missing or the original version has an
   empty URL segment (a page published for the first time).
   */
  function PlanFor(creds: bool, owner: Page, original: Page, urls: seq<string>): (r: seq<Action>)
    requires urls != []
    ensures r == [] <==> !creds || |original.urlSegment| == 0
    ensures |r| <= 2
    ensures |r| == 2 ==> r[0] == PurgeAll
    ensures r != [] ==> r[|r| - 1] == PurgeOf(urls)
  {
    if creds && |original.urlSegment| > 0 then
      (if CriticalChanged(owner, original) then [PurgeAll] else []) + [PurgeOf(urls)]
    else []
  }

  /** `onAfterPublish`: builds the URL list in place and issues the purges in order. */
  method OnAfterPublish(creds: bool, t: Table, link: nat -> string, owner: Page, original: Page)
    returns (actions: seq<Action>)
    requires creds && |original.urlSegment| > 0 ==> WellFormed(t)
    ensures actions == PublishPlan(creds, t, link, owner, original)
    ensures !(creds && |original.urlSegment| > 0) ==> actions == []
  {
    actions := [];
    if creds && |original.urlSegment| > 0 {
      var urls := [link(owner.id)];
      var top := GetTopLevelParent(t, owner);
      if CriticalChanged(owner, original) {
        actions := actions + [PurgeAll];
      }
      urls := AddDescendantUrls(t, link, owner, top, urls);
      ghost var purgeAll := actions;
      if |urls| == 1 {
        actions := actions + [PurgeSingle(urls[0])];
      }
      if |urls| > 1 {
        actions := actions + [PurgeMany(urls)];
      }
      PublishActions(creds, t, link, owner, original, urls, purgeAll, actions);
    } else {
      PublishGuard(creds, t, link, owner, original);
    }
  }

  /** The calls `onAfterPublish` makes past its guard, in the order it makes them, are `PublishPlan`. */
  lemma PublishActions(creds: bool, t: Table, link: nat -> string, owner: Page, original: Page,
                       urls: seq<string>, purgeAll: seq<Action>, actions: seq<Action>)
    requires WellFormed(t) && creds && |original.urlSegment| > 0
    requires urls == PublishUrls(t, link, owner)
    requires purgeAll == if CriticalChanged(owner, original) then [] + [PurgeAll] else []
    requires |urls| == 1 ==> actions == purgeAll + [PurgeSingle(urls[0])]
    requires |urls| > 1 ==> actions == purgeAll + [PurgeMany(urls)]
    ensures actions == PublishPlan(creds, t, link, owner, original)
  {
    assert [] + [PurgeAll] == [PurgeAll];
    PlanOfUrls(creds, t, link, owner, original, urls);
  }

  /**
   The middle of `onAfterPublish`: unless the owner shares its top-level
   parent's URL segment, the walk from the top-level parent (from the owner
   when there is none) appends its URLs to the owner's link.
   */
  method AddDescendantUrls(t: Table, link: nat -> string, owner: Page, top: Option<Page>, urls: seq<string>)
    returns (out: seq<string>)
    requires WellFormed(t) && top == TopOf(t, owner) && urls == [link(owner.id)]
    ensures out == PublishUrls(t, link, owner)
    ensures |out| >= 1
  {
    out := urls;
    if owner.urlSegment != TopSegment(top) {
      out := GetChildrenRecursive(t, link, owner.id, if top.Some? then Some(top.value.id) else None, out);
    } else {
      assert Urls(link, PublishPages(t, owner)) == [];
    }
  }

  lemma PlanOfUrls(creds: bool, t: Table, link: nat -> string, owner: Page, original: Page, urls: seq<string>)
    requires WellFormed(t) && urls == PublishUrls(t, link, owner)
    ensures PublishPlan(creds, t, link, owner, original) == PlanFor(creds, owner, original, urls)
  {
  }

  /** `onAfterUnpublish`: one purge of everything when credentials are configured, nothing otherwise. */
  function OnAfterUnpublish(creds: bool): (actions: seq<Action>)
    ensures |actions| <= 1
    ensures actions != [] <==> creds
    ensures forall a :: a in actions ==> a == PurgeAll
  {
    if creds then [PurgeAll] else []
  }

  /**
   The hook issues no purge at all exactly when credentials are missing or
   the original version has an empty URL segment.
   */
  lemma PublishGuard(creds: bool, t: Table, link: nat -> string, owner: Page, original: Page)
    requires creds && |original.urlSegment| > 0 ==> WellFormed(t)
    ensures PublishPlan(creds, t, link, owner, original) == [] <==> !creds || |original.urlSegment| == 0
  {
  }

  /**
   Past the guard, the hook purges everything exactly when a critical field
   changed, and then makes exactly one URL purge: a single purge when the
   list holds only the owner's link, a bulk purge otherwise.
   */
  lemma PublishPurges(creds: bool, t: Table, link: nat -> string, owner: Page, original: Page)
    requires WellFormed(t) && creds && |original.urlSegment| > 0
    ensures var r := PublishPlan(creds, t, link, owner, original);
      var urls := PublishUrls(t, link, owner);
      && |urls| >= 1 && urls[0] == link(owner.id)
      && |r| == (if CriticalChanged(owner, original) then 2 else 1)
      && (PurgeAll in r <==> CriticalChanged(owner, original))
      && (CriticalChanged(owner, original) ==> r[0] == PurgeAll)
      && r[|r| - 1] == (if |urls| == 1 then PurgeSingle(urls[0]) else PurgeMany(urls))
  {
  }

  /**
   The URL list past the owner's link holds each row below the walk's start
   exactly once, and nothing else, every page after the pages below it; the
   walk starts at the top-level parent, or at the owner when the climb ended
   on a missing parent.
   */
  lemma PublishPagesExactlyOnce(t: Table, owner: Page)
    requires WellFormed(t)
    ensures var top := TopOf(t, owner);
      var differs := owner.urlSegment != TopSegment(top);
      forall e :: multiset(PublishPages(t, owner))[e] ==
        if differs && e in t && Below(t, e, WalkRoot(owner, top)) then 1 else 0
    ensures PostOrdered(t, PublishPages(t, owner))
  {
    var top := TopOf(t, owner);
    DescendantsExactlyOnce(t, WalkRoot(owner, top));
    DescendantsPostOrdered(t, WalkRoot(owner, top));
    assert PostOrdered(t, []);
  }

  /**
   When the climb ends on a ParentID that names no row, `$top` is null: its
   URL segment compares as "", so the walk runs exactly when the owner's
   segment is non-empty, and a null `$top->ID` makes it start from the owner.
   */
  lemma NullTopWalksFromOwner(t: Table, owner: Page)
    requires WellFormed(t) && TopOf(t, owner).None?
    ensures PublishPages(t, owner) == if |owner.urlSegment| > 0 then Descendants(t, owner.id) else []
  {
  }

  /**
   When the owner shares the URL segment of its top-level parent (for example
   when it is a top-level page itself) the hook purges the owner's link alone.
   */
  lemma SameSegmentPurgesOwnerOnly(creds: bool, t: Table, link: nat -> string, owner: Page, original: Page)
    requires WellFormed(t) && creds && |original.urlSegment| > 0
    requires owner.urlSegment == TopSegment(TopOf(t, owner))
    ensures var r := PublishPlan(creds, t, link, owner, original);
      r[|r| - 1] == PurgeSingle(link(owner.id))
  {
  }

  /** A top-level page is its own top-level parent, so its publish purges its link alone. */
  lemma TopLevelPurgesOwnerOnly(creds: bool, t: Table, link: nat -> string, owner: Page, original: Page)
    requires WellFormed(t) && creds && |original.urlSegment| > 0 && owner.parentId == 0
    ensures PublishPlan(creds, t, link, owner, original) ==
      (if CriticalChanged(owner, original) then [PurgeAll] else []) + [PurgeSingle(link(owner.id))]
  {
    SameSegmentPurgesOwnerOnly(creds, t, link, owner, original);
  }

  /**
   A page stored below a top-level parent with a different URL segment is
   listed twice: first its link as it is, later the same link with its
   leading slashes trimmed, because the walk from the top-level parent meets
   the owner too.
   */
  lemma OwnerListedTwice(t: Table, link: nat -> string, owner: Page, r: Page)
    requires WellFormed(t) && owner in t
    requires TopOf(t, owner) == Some(r) && r.urlSegment != owner.urlSegment
    ensures var urls := PublishUrls(t, link, owner);
      urls[0] == link(owner.id) && TrimLeadingSlashes(link(owner.id)) in urls[1..]
  {
    var pages := PublishPages(t, owner);
    assert owner in pages by {
      DescendantsExactlyOnce(t, r.id);
    }
    UrlsMember(link, pages, owner);
    TailOfCons(link(owner.id), Urls(link, pages));
  }

  /** A listed row's trimmed link is among the listed URLs. */
  lemma UrlsMember(link: nat -> string, ps: seq<Page>, p: Page)
    requires p in ps
    ensures TrimLeadingSlashes(link(p.id)) in Urls(link, ps)
  {
    var k :| 0 <= k < |ps| && ps[k] == p;
    assert Urls(link, ps)[k] == TrimLeadingSlashes(link(p.id));
  }

  lemma TailOfCons(x: string, s: seq<string>)
    ensures ([x] + s)[0] == x && ([x] + s)[1..] == s
  {
  }
}
