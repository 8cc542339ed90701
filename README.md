# CloudFlare cache purging for SilverStripe pages — a Dafny model

The `CloudFlareExt` extension hangs off every SilverStripe `SiteTree` page.
When a page is published it decides which CloudFlare cache entries to purge:
the page's own URL, the URLs of the pages under its top-level parent, and,
when the page's URL segment, navigation label or title changed, the whole
zone. When a page is unpublished it purges the whole zone. This project
models that decision procedure and the two walks over the page table it
relies on, and proves what they compute.

Files:

- `Wrappers.dfy`: `Option`, the model of PHP's `null`.
- `SiteTree.dfy`: the page table as a sequence of rows (`Page`: ID,
  ParentID, URLSegment, MenuTitle, Title) in the order the ORM returns them;
  the two ORM queries the extension uses (`Find` is
  `filter("ID", id)->first()`, `Children` is `filter("ParentID", id)`); the
  integrity the database gives the table (`WellFormed`: IDs are positive and
  unique, and following ParentID links from any row stops); and the facts
  about the parent relation (`Below`, `Covers`) the proofs need. A ParentID
  that names no row ends the climb there.
- `Traversal.dfy`: `TopOf`, where the climb up the ParentID links ends, and
  `Descendants`, the rows the recursive child walk visits in the order it
  appends them, with the proofs that the walk lists every row under the start
  exactly once and every row after the rows under it.
- `CloudFlareExt.dfy`: the extension's six operations. `getTopLevelParent`
  and `getChildrenRecursive` are methods with the source's `while` and
  `foreach` loops, proved against `TopOf` and `Descendants`; `onAfterPublish`
  builds its URL list in place and is proved against `PublishPlan`;
  `getChildren`, `isParent` and `onAfterUnpublish` are functions.

Hooks return the sequence of CDN calls they make (`PurgeAll`,
`PurgeSingle(url)`, `PurgeMany(urls)`). Whether CloudFlare credentials are
configured is the parameter `creds`. `Link()` is the parameter `link`, an
arbitrary function from page ID to URL.

What the code does, stated as the model states it:

- A purge of everything does not end `onAfterPublish`: one URL purge always
  follows it.
- The descendants purged are those of the page's top-level parent, not of
  the page itself. Only their links are stripped of leading slashes; the
  page's own link at the head of the list is not. A page below a top-level
  parent with another URL segment therefore appears in the list twice
  (`OwnerListedTwice`).
- Whether the page is new is judged by an empty URL segment on the original
  version, and unpublishing purges only when credentials are configured.
- The climb ends only when the owner's ParentID chain runs into no cycle, and
  the descent only when it starts outside one. `GetTopLevelParent` asks for a
  chain that stops (`CycleNeverGrounded` shows that a page on a cycle has
  none); `GetChildrenRecursive` asks for more, a table with no cycle anywhere
  (see "Left out").
- When the climb reaches a ParentID that no row has, `getTopLevelParent`
  returns null. The hook then compares the page's URL segment with the empty
  string (PHP's loose `!=` against null) and the walk starts from the page's
  own ID, because `getChildrenRecursive(null, ...)` falls back to the owner.

## Model

| member | source | states |
|---|---|---|
| SiteTree.Find | code/extensions/CloudFlareExt.php:98 | the row returned has the requested ID and is in the table; null only when no row has that ID |
| SiteTree.Children | code/extensions/CloudFlareExt.php:86 | the rows with the given ParentID, each as often as in the table, and no other rows |
| SiteTree.ChildrenDistinct | code/extensions/CloudFlareExt.php:86 | with ID as primary key the children query lists no row twice |
| SiteTree.WellFormed | code/extensions/CloudFlareExt.php:97-99 | on a table with unique positive IDs and no parent cycle, the climb from any page stops |
| SiteTree.CycleNeverStops | code/extensions/CloudFlareExt.php:97-99 | from a page on a ParentID cycle the climb never stops, whatever the number of steps |
| SiteTree.CycleNeverGrounded | code/extensions/CloudFlareExt.php:97-99 | no page on a ParentID cycle meets the precondition of the climb |
| SiteTree.CycleNotWellFormed | code/extensions/CloudFlareExt.php:115-119 | a table with a ParentID cycle is not well formed, so the recursive walk is never asked to run on one |
| Traversal.TopOf | code/extensions/CloudFlareExt.php:94-102 | the climb ends on a page whose ParentID is 0, on the page itself when it is top level, otherwise on a row on the page's ParentID chain |
| Traversal.TopOfFound | code/extensions/CloudFlareExt.php:97-99 | the climb returns a page exactly when every nonzero ParentID on the chain names a row, and null exactly when one names none |
| Traversal.Forest | code/extensions/CloudFlareExt.php:115-123 | walking a list of children lists only table rows: for each child, what lies under it (only when it has children) and then the child |
| Traversal.Descendants | code/extensions/CloudFlareExt.php:110-124 | the walk from an ID lists only table rows; `DescendantsExactlyOnce` says which |
| Traversal.ForestSnoc | code/extensions/CloudFlareExt.php:117-123 | each round of the foreach appends the child's subtree and then the child |
| Traversal.ForestCount | code/extensions/CloudFlareExt.php:117-122 | walking distinct siblings lists a page once when one sibling's subtree holds it, never otherwise |
| Traversal.DescendantsExactlyOnce | code/extensions/CloudFlareExt.php:110-124 | the walk from an ID lists every row below that ID exactly once, nothing else, and not the start row |
| Traversal.DescendantsBelow | code/extensions/CloudFlareExt.php:110-124 | everything the walk lists is a row below its start |
| Traversal.DescendantsPostOrdered | code/extensions/CloudFlareExt.php:117-122 | every listed page comes after all the pages below it |
| CloudFlareExt.GetChildren | code/extensions/CloudFlareExt.php:82-87 | the rows whose ParentID is the argument, or the owner's ID when the argument is null, with the table's multiplicities |
| CloudFlareExt.IsParent | code/extensions/CloudFlareExt.php:70-73 | true exactly when some row has the given ID (the owner's when null) as its ParentID |
| CloudFlareExt.GetTopLevelParent | code/extensions/CloudFlareExt.php:94-102 | the loop returns `TopOf`: a page with ParentID 0 reached up the chain, the owner itself when it is top level; it returns a page exactly when every ParentID on the chain names a row |
| CloudFlareExt.TrimLeadingSlashes | code/extensions/CloudFlareExt.php:122 | `ltrim($s, "/")` removes only slashes, and the rest does not start with one |
| CloudFlareExt.TrimSuffix | code/extensions/CloudFlareExt.php:122 | what is left is the end of the original string |
| CloudFlareExt.TrimKeeps | code/extensions/CloudFlareExt.php:122 | a link is left unchanged exactly when it does not start with a slash |
| CloudFlareExt.TrimIdempotent | code/extensions/CloudFlareExt.php:122 | trimming a trimmed link changes nothing |
| CloudFlareExt.Urls | code/extensions/CloudFlareExt.php:122 | one URL per listed row, in order: that row's link without leading slashes |
| CloudFlareExt.UrlsAppend | code/extensions/CloudFlareExt.php:117-123 | the URLs of two row lists one after the other are the URLs of the joined list |
| CloudFlareExt.WalkStep | code/extensions/CloudFlareExt.php:117-123 | after the recursive call (made only for a child with children) and the append, the output holds the URLs of one more child's block |
| CloudFlareExt.GetChildrenRecursive | code/extensions/CloudFlareExt.php:110-124 | the output only grows at its end, by the trimmed links of `Descendants` of the given ID (the owner's when null), in walk order |
| CloudFlareExt.CriticalChanged | code/extensions/CloudFlareExt.php:23-27 | true only for a real change, false when only the page's ID or parent differ, and false only when URL segment, menu title and title all agree |
| CloudFlareExt.NullTopWalksFromOwner | code/extensions/CloudFlareExt.php:32-33 | with a null top-level parent (compared through `TopSegment`, whose null segment is "", and walked from `WalkRoot`, which falls back to the owner) the walk runs exactly when the owner's segment is non-empty, and then from the owner's own ID |
| CloudFlareExt.PurgeOf | code/extensions/CloudFlareExt.php:36-43 | of the two `if`s exactly one fires: a single purge of the only URL for a one-entry list, a bulk purge of the whole list otherwise, never a full purge |
| CloudFlareExt.PlanFor | code/extensions/CloudFlareExt.php:18-43 | no call at all exactly when credentials are missing or the original URL segment is empty; otherwise at most two calls, a full purge first when there are two, and the URL purge last |
| CloudFlareExt.PublishPlan | code/extensions/CloudFlareExt.php:18-43 | past the guard the last call is the purge of `PublishUrls`; the table needs to be well formed only past the guard |
| CloudFlareExt.AddDescendantUrls | code/extensions/CloudFlareExt.php:32-34 | starting from the owner's link, the list becomes `PublishUrls`: the walk from the top-level parent is added only when the URL segments differ |
| CloudFlareExt.OnAfterPublish | code/extensions/CloudFlareExt.php:14-48 | the calls issued are `PublishPlan`: the guard, then a purge of everything on a critical change, then one purge of the URL list; on any table, nothing when the guard fails |
| CloudFlareExt.PublishGuard | code/extensions/CloudFlareExt.php:16-18 | on any table, publishing purges nothing exactly when credentials are missing or the original URL segment is empty |
| CloudFlareExt.PublishPurges | code/extensions/CloudFlareExt.php:20-43 | past the guard, a purge of everything happens exactly on a change of URL segment, menu title or title and is followed by exactly one URL purge; the list starts with the owner's link, single purge for one URL, bulk purge otherwise |
| CloudFlareExt.PublishPagesExactlyOnce | code/extensions/CloudFlareExt.php:32-33 | the rows purged after the owner's link are each row below the walk's start exactly once, children before parents, and none when the segments match |
| CloudFlareExt.SameSegmentPurgesOwnerOnly | code/extensions/CloudFlareExt.php:32-38 | when the owner's URL segment equals its top-level parent's, the URL purge is a single purge of the owner's link |
| CloudFlareExt.TopLevelPurgesOwnerOnly | code/extensions/CloudFlareExt.php:32-38 | publishing a top-level page purges its own link alone, after a full purge only on a critical change |
| CloudFlareExt.OwnerListedTwice | code/extensions/CloudFlareExt.php:20-33 | a page below a top-level parent with another URL segment is listed first with its link as is and again later with the link trimmed |
| CloudFlareExt.OnAfterUnpublish | code/extensions/CloudFlareExt.php:53-58 | at most one call, a purge of everything, made exactly when credentials are configured |

## Left out

- The CloudFlare API calls behind `purgeAll`, `purgeSingle` and `purgeMany` are network I/O; the model records which call is made and with which URLs, and drops the human-readable reason strings.
- `CloudFlare::hasCFCredentials()` reads configuration; it is the parameter `creds`.
- The ORM (`SiteTree::get()`, `filter`, `first`, `count`, `DataObject::get_by_id`) is replaced by the table and the two queries over it. Live versus draft stages are not distinguished.
- `Link()` is computed by the framework from the page hierarchy; it is an arbitrary function from ID to URL here.
- `parent::onAfterPublish` and `parent::onBeforeUnpublish` (the unpublish hook calls the parent's before-unpublish hook) are framework hooks with no visible behaviour.
- `DataObject::get_by_id("SiteTree", $this->owner->ID)` returning null (an owner with no row) would make `->Link()` fail in PHP; the model takes the owner's link from `link` regardless.
- PHP's loose `!=` compares two numeric strings as numbers (`"01" != "1"` is false); URL segments, menu titles and titles are compared as exact strings.
- The `is_array($output)` reset in `getChildrenRecursive`: the output is always a sequence in the model.
- OnAfterPublish: past the guard it requires the whole table to be well formed, for the same reason as GetChildrenRecursive; when the guard fails it reads no table and requires nothing.
- GetChildrenRecursive: requires the whole table to be well formed (unique positive IDs, no parent cycle anywhere), which is more than the walk needs (no cycle under the start), because the termination measure is defined over the whole table.
- GetTopLevelParent: requires that the climb from the owner stops, because on a ParentID cycle the PHP loop never ends; that non-terminating run is represented only by `CycleNeverStops`.
