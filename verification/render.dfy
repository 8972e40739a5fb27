/** The recursive menu renderer `render_tree`: nested `<ul>`/`<li>` markup
    for an annotated forest, with collapsed child lists marked hidden. */
module Render {
  import opened Text
  import opened MenuItem

  const UlOpen := "<ul>"
  const UlHidden := "<ul style=\"display: none;\">"
  const UlClose := "</ul>"
  const LiClose := "</li>"
  /** The class attribute of an item whose first class word is "active". */
  const ActiveMark := "class=\"active"

  /** ` class="c"`, or nothing when the class string is empty. */
  function ClassAttr(css: string): (attr: string)
    ensures css == "" ==> attr == ""
    ensures css != "" ==> StartsWith(attr, " class=\"") && EndsWith(attr, "\"")
  {
    if css == "" then "" else " class=\"" + css + "\""
  }

  /** The link to the item's url, labelled with its title. */
  function Anchor(n: Node): string {
    "<a href=\"" + n.url + "\">" + n.title + "</a>"
  }

  /** The opening of an item: `<li…>` and its link. */
  function LiOpen(n: Node): string {
    "<li" + ClassAttr(CssClasses(n)) + ">" + Anchor(n)
  }

  /** Marks a rendered child list as collapsed by rewriting its first `<ul>`:
      on markup that begins with `<ul>` only that leading tag changes, later
      `<ul>`s included in what is kept; markup without `<ul>` is unchanged. */
  function Hide(html: string): (r: string)
    ensures StartsWith(html, UlOpen) ==> r == UlHidden + html[|UlOpen|..]
    ensures !Contains(html, UlOpen) ==> r == html
  {
    ReplaceFirst(html, UlOpen, UlHidden)
  }

  /** `render_tree(items, parent_is_active)`. */
  function RenderTree(items: seq<Node>, parentIsActive: bool): (html: string)
    ensures html == "" <==> |items| == 0
    decreases items, 2
  {
    if |items| == 0 then ""
    else UlOpen + RenderItems(items, parentIsActive) + UlClose
  }

  /** The `<li>` segments of `items`, one per item, in input order. */
  function RenderItems(items: seq<Node>, parentIsActive: bool): (segments: string)
    ensures segments == "" <==> |items| == 0
    decreases items, 1
  {
    if |items| == 0 then ""
    else RenderItem(items[0], parentIsActive) + RenderItems(items[1..], parentIsActive)
  }

  /** One loop iteration of `render_tree`: the item's `<li>`, its child block
      when it has children, and `</li>`. */
  function RenderItem(n: Node, parentIsActive: bool): (seg: string)
    ensures StartsWith(seg, "<li") && EndsWith(seg, LiClose)
    decreases n, 1
  {
    LiOpen(n) + ChildBlock(n, parentIsActive) + LiClose
  }

  /** The child markup of an item: nothing without children; otherwise the
      children rendered with this item's `isActive` as their parent flag,
      hidden unless `ShowChildren` holds. */
  function ChildBlock(n: Node, parentIsActive: bool): (block: string)
    ensures block == "" <==> !n.hasChildren || |n.children| == 0
    decreases n, 0
  {
    if !n.hasChildren then ""
    else
      var childHtml := RenderTree(n.children, n.isActive);
      if ShowChildren(n, parentIsActive) then childHtml else Hide(childHtml)
  }

  /** The item segments of a concatenation are the concatenation of the
      segments: items are emitted in input order, each exactly once. */
  lemma {:induction false} RenderItemsAppend(a: seq<Node>, b: seq<Node>, parentIsActive: bool)
    ensures RenderItems(a + b, parentIsActive) == RenderItems(a, parentIsActive) + RenderItems(b, parentIsActive)
    decreases |a|
  {
    if |a| == 0 {
      assert a + b == b;
    } else {
      assert (a + b)[0] == a[0] && (a + b)[1..] == a[1..] + b;
      RenderItemsAppend(a[1..], b, parentIsActive);
    }
  }

  /** Appending an item appends its segment. */
  lemma RenderItemsSnoc(items: seq<Node>, n: Node, parentIsActive: bool)
    ensures RenderItems(items + [n], parentIsActive)
         == RenderItems(items, parentIsActive) + RenderItem(n, parentIsActive)
  {
    assert [n][1..] == [];
    assert RenderItems([n], parentIsActive) == RenderItem(n, parentIsActive) + RenderItems([], parentIsActive);
    RenderItemsAppend(items, [n], parentIsActive);
  }

  /** A non-empty list renders as `<ul>`, then one segment per item in
      input order, then `</ul>`; the empty list renders as nothing. */
  lemma RenderTreeSegments(items: seq<Node>, n: Node, parentIsActive: bool)
    ensures RenderTree([], parentIsActive) == ""
    ensures RenderTree(items + [n], parentIsActive)
         == UlOpen + RenderItems(items, parentIsActive) + RenderItem(n, parentIsActive) + UlClose
  {
    var done := RenderItems(items, parentIsActive);
    var seg := RenderItem(n, parentIsActive);
    RenderItemsSnoc(items, n, parentIsActive);
    assert RenderTree(items + [n], parentIsActive) == UlOpen + (done + seg) + UlClose;
    ConcatAssoc(UlOpen, done, seg);
  }

  /** The `<li` tag carries a class attribute exactly when the item is active
      or has children, i.e. exactly when its class string is non-empty; the
      attribute then holds that string verbatim. */
  lemma LiOpenClassAttribute(n: Node)
    ensures StartsWith(LiOpen(n), "<li class=\"") <==> n.isActive || n.hasChildren
    ensures CssClasses(n) != "" ==> LiOpen(n) == "<li class=\"" + CssClasses(n) + "\">" + Anchor(n)
    ensures CssClasses(n) == "" ==> LiOpen(n) == "<li>" + Anchor(n)
  {
    if CssClasses(n) == "" {
      OpeningTagBare(Anchor(n));
    } else {
      OpeningTagWithClass(CssClasses(n), Anchor(n));
    }
  }

  /** An active item's class attribute begins with the word "active". */
  lemma ActiveClassFirst(n: Node)
    requires n.isActive
    ensures StartsWith(LiOpen(n), "<li class=\"active")
  {
    LiOpenClassAttribute(n);
    assert CssTokens(n)[0] == "active";
    assert CssClasses(n)[..6] == "active";
  }

  /** The rendered list for a page on which one of its items is active
      contains `class="active`, wherever that item sits in the list. */
  lemma ActiveRootMarksMenu(items: seq<Node>, k: nat, parentIsActive: bool)
    requires k < |items| && items[k].isActive
    ensures Contains(RenderTree(items, parentIsActive), ActiveMark)
  {
    var before := RenderItems(items[..k], parentIsActive);
    var seg := RenderItem(items[k], parentIsActive);
    var after := RenderItems(items[k + 1..], parentIsActive);
    var body := RenderItems(items, parentIsActive);
    SegmentsAround(items, k, parentIsActive);
    ActiveSegmentMarked(items[k], parentIsActive);
    OccursInfix(before, seg, after, ActiveMark, 4);
    assert OccursAt(body, ActiveMark, |before| + 4);
    OccursInfix(UlOpen, body, UlClose, ActiveMark, |before| + 4);
    assert OccursAt(RenderTree(items, parentIsActive), ActiveMark, |UlOpen| + |before| + 4);
  }

  /** Item `k`'s segment sits between the segments of the items before it
      and those after it. */
  lemma SegmentsAround(items: seq<Node>, k: nat, parentIsActive: bool)
    requires k < |items|
    ensures RenderItems(items, parentIsActive)
         == RenderItems(items[..k], parentIsActive) + RenderItem(items[k], parentIsActive)
            + RenderItems(items[k + 1..], parentIsActive)
  {
    var rest := items[k..];
    assert items == items[..k] + rest;
    RenderItemsAppend(items[..k], rest, parentIsActive);
    assert rest[0] == items[k] && rest[1..] == items[k + 1..];
    ConcatAssoc(RenderItems(items[..k], parentIsActive), RenderItem(items[k], parentIsActive),
                RenderItems(items[k + 1..], parentIsActive));
  }

  /** An active item's segment has the mark right after `<li `. */
  lemma ActiveSegmentMarked(n: Node, parentIsActive: bool)
    requires n.isActive
    ensures OccursAt(RenderItem(n, parentIsActive), ActiveMark, 4)
  {
    var lo := LiOpen(n);
    ActiveClassFirst(n);
    assert lo[4..4 + |ActiveMark|] == "<li class=\"active"[4..];
    PrefixOccurrence(lo, ChildBlock(n, parentIsActive) + LiClose, ActiveMark, 4);
    ConcatAssoc(lo, ChildBlock(n, parentIsActive), LiClose);
  }

  /** The `<li` opening for a non-empty class string, followed by `rest`. */
  lemma OpeningTagWithClass(css: string, rest: string)
    requires css != ""
    ensures "<li" + ClassAttr(css) + ">" + rest == "<li class=\"" + css + "\">" + rest
    ensures StartsWith("<li" + ClassAttr(css) + ">" + rest, "<li class=\"")
  {
  }

  /** The `<li` opening for an empty class string, followed by `rest`. */
  lemma OpeningTagBare(rest: string)
    ensures "<li" + ClassAttr("") + ">" + rest == "<li>" + rest
    ensures !StartsWith("<li" + ClassAttr("") + ">" + rest, "<li class=\"")
  {
    var s := "<li" + ClassAttr("") + ">" + rest;
    assert s == "<li>" + rest;
    assert s[3] == '>';
  }

  /** A hidden child list is the same markup with only its outermost
      container marked `display: none`: every segment inside, nested lists
      included, is unchanged. */
  lemma HideRenderedTree(items: seq<Node>, parentIsActive: bool)
    requires |items| > 0
    ensures Hide(RenderTree(items, parentIsActive))
         == UlHidden + RenderItems(items, parentIsActive) + UlClose
  {
    var body := RenderItems(items, parentIsActive);
    assert RenderTree(items, parentIsActive) == UlOpen + body + UlClose;
    HideWrappedList(body);
  }

  /** Hiding a list written out as `<ul>`, body, `</ul>`. */
  lemma HideWrappedList(body: string)
    ensures Hide(UlOpen + body + UlClose) == UlHidden + body + UlClose
  {
  }

  /** An item without children, or whose child list is empty, renders as its
      link alone: no child block and no empty `<ul></ul>`. */
  lemma RenderItemWithoutChildren(n: Node, parentIsActive: bool)
    requires !n.hasChildren || |n.children| == 0
    ensures RenderItem(n, parentIsActive) == LiOpen(n) + LiClose
  {
    assert ChildBlock(n, parentIsActive) == "";
  }

  /** For an item with children, the child list is inserted verbatim, rendered
      with this item's `isActive` as the parent flag, exactly when the item is
      on the active path or its parent is active. */
  lemma ChildrenVisibleIff(n: Node, parentIsActive: bool)
    requires n.hasChildren && |n.children| > 0
    ensures RenderItem(n, parentIsActive) == LiOpen(n) + RenderTree(n.children, n.isActive) + LiClose
            <==> n.isInPath || parentIsActive
  {
  }

  /** For an item with children that is collapsed, the child block is the
      children's segments inside `<ul style="display: none;">…</ul>`. */
  lemma ChildrenHidden(n: Node, parentIsActive: bool)
    requires n.hasChildren && |n.children| > 0
    requires !n.isInPath && !parentIsActive
    ensures RenderItem(n, parentIsActive)
         == LiOpen(n) + UlHidden + RenderItems(n.children, n.isActive) + UlClose + LiClose
  {
    var childHtml := RenderTree(n.children, n.isActive);
    var segments := RenderItems(n.children, n.isActive);
    var block := ChildBlock(n, parentIsActive);
    assert block == Hide(childHtml);
    HideRenderedTree(n.children, n.isActive);
    assert block == UlHidden + segments + UlClose;
    assert RenderItem(n, parentIsActive) == LiOpen(n) + block + LiClose;
    ConcatRegroup(LiOpen(n), UlHidden, segments, UlClose, LiClose);
  }

  /** The parent flag matters only through the shown/hidden decision: lists
      whose items all get the same decision under two parent flags render
      identically. */
  lemma {:induction false} SameDecisionSameMarkup(items: seq<Node>, p1: bool, p2: bool)
    requires forall k :: 0 <= k < |items| ==> (ShowChildren(items[k], p1) <==> ShowChildren(items[k], p2))
    ensures RenderItems(items, p1) == RenderItems(items, p2)
    ensures RenderTree(items, p1) == RenderTree(items, p2)
    decreases |items|
  {
    if |items| > 0 {
      SameDecisionSameMarkup(items[1..], p1, p2);
      assert ChildBlock(items[0], p1) == ChildBlock(items[0], p2);
    }
  }

  /** A non-empty rendering opens with `<ul>` and closes with `</ul>`: this
      is why rewriting the first `<ul>` of a child list always hits its
      outermost container. */
  lemma RenderTreeShape(items: seq<Node>, parentIsActive: bool)
    requires |items| > 0
    ensures StartsWith(RenderTree(items, parentIsActive), UlOpen)
    ensures EndsWith(RenderTree(items, parentIsActive), UlClose)
  {
  }

  /** At the top level the parent flag is false, so a root item's children
      are shown exactly when the root is on the active path. */
  lemma RootChildrenVisibleIff(n: Node)
    requires n.hasChildren && |n.children| > 0
    ensures RenderItem(n, false) == LiOpen(n) + RenderTree(n.children, n.isActive) + LiClose
            <==> n.isInPath
  {
    ChildrenVisibleIff(n, false);
  }
}
