/** The `draw_menu` template tag: its early exits, and `render_tree` written
    as the accumulating loop the tag runs. */
module MenuTags {
  import opened Wrappers
  import opened Text
  import opened MenuItem
  import opened Render

  /** The part of the current HTTP request the tag reads. */
  datatype Request = Request(path: string)

  /** What the menu lookup returns for a menu that exists: its annotated
      top-level items in display order. */
  datatype MenuTree = MenuTree(rootItems: seq<Node>)

  /** `render_tree(items, parent_is_active)` as the tag writes it: one
      string accumulated over the items, each contributing its `<li>` and
      link, its child list when it has children (hidden by rewriting the
      first `<ul>` unless the children are shown), and `</li>`; the children
      are rendered by a recursive call with the item's own active flag. The
      loop builds exactly the markup of the recursive definition
      `Render.RenderTree`. */
  method RenderTreeLoop(items: seq<Node>, parentIsActive: bool) returns (html: string)
    ensures html == RenderTree(items, parentIsActive)
    decreases items
  {
    if |items| == 0 {
      return "";
    }
    html := UlOpen;
    var i := 0;
    while i < |items|
      invariant 0 <= i <= |items|
      invariant html == UlOpen + RenderItems(items[..i], parentIsActive)
    {
      var item := items[i];
      ghost var before := html;
      var cssClass := CssClasses(item);
      var cssAttr := if cssClass != "" then " class=\"" + cssClass + "\"" else "";
      var showChildren := ShowChildren(item, parentIsActive);
      var opening := "<li" + cssAttr + "><a href=\"" + item.url + "\">" + item.title + "</a>";
      html := html + opening;
      var childHtml := "";
      var childPart := "";
      if item.hasChildren {
        childHtml := RenderTreeLoop(item.children, item.isActive);
        if !showChildren {
          childPart := ReplaceFirst(childHtml, UlOpen, UlHidden);
        } else {
          childPart := childHtml;
        }
        html := html + childPart;
      } else {
        assert html + childPart == html;
      }
      html := html + LiClose;
      ItemStep(items, i, parentIsActive, before, opening, childHtml, childPart, html);
      i := i + 1;
    }
    assert items[..i] == items;
    html := html + UlClose;
  }

  /** One pass of the loop body: appending the item's opening, its child
      markup and `</li>` to the markup of the first `i` items gives the markup
      of the first `i + 1`. */
  lemma ItemStep(items: seq<Node>, i: nat, parentIsActive: bool, before: string,
                 opening: string, childHtml: string, childPart: string, html: string)
    requires i < |items|
    requires before == UlOpen + RenderItems(items[..i], parentIsActive)
    requires opening == "<li" + (if CssClasses(items[i]) != "" then " class=\"" + CssClasses(items[i]) + "\"" else "")
                        + "><a href=\"" + items[i].url + "\">" + items[i].title + "</a>"
    requires items[i].hasChildren ==> childHtml == RenderTree(items[i].children, items[i].isActive)
    requires childPart == if !items[i].hasChildren then ""
                          else if !ShowChildren(items[i], parentIsActive) then ReplaceFirst(childHtml, UlOpen, UlHidden)
                          else childHtml
    requires html == before + opening + childPart + LiClose
    ensures html == UlOpen + RenderItems(items[..i + 1], parentIsActive)
  {
    ItemSegmentParts(items[i], parentIsActive, opening, childHtml, childPart);
    AppendThree(before, opening, childPart, LiClose);
    AccumulateSegment(items, i, parentIsActive);
  }

  /** The pieces the loop body formats for one item make up its segment. */
  lemma ItemSegmentParts(item: Node, parentIsActive: bool, opening: string, childHtml: string, childPart: string)
    requires opening == "<li" + (if CssClasses(item) != "" then " class=\"" + CssClasses(item) + "\"" else "")
                        + "><a href=\"" + item.url + "\">" + item.title + "</a>"
    requires item.hasChildren ==> childHtml == RenderTree(item.children, item.isActive)
    requires childPart == if !item.hasChildren then ""
                          else if !ShowChildren(item, parentIsActive) then ReplaceFirst(childHtml, UlOpen, UlHidden)
                          else childHtml
    ensures opening + childPart + LiClose == RenderItem(item, parentIsActive)
  {
    OpeningIsLiOpen(CssClasses(item), item.url, item.title);
    assert childPart == ChildBlock(item, parentIsActive);
  }

  /** Appending the segment of item `i` to the markup built for the first
      `i` items gives the markup for the first `i + 1`. */
  lemma AccumulateSegment(items: seq<Node>, i: nat, parentIsActive: bool)
    requires i < |items|
    ensures UlOpen + RenderItems(items[..i], parentIsActive) + RenderItem(items[i], parentIsActive)
         == UlOpen + RenderItems(items[..i + 1], parentIsActive)
  {
    var prefix := items[..i];
    var item := items[i];
    assert items[..i + 1] == prefix + [item];
    RenderItemsSnoc(prefix, item, parentIsActive);
    ConcatAssoc(UlOpen, RenderItems(prefix, parentIsActive), RenderItem(item, parentIsActive));
  }

  /** The opening the tag formats for an item is `Render.LiOpen`. */
  lemma OpeningIsLiOpen(css: string, url: string, title: string)
    ensures "<li" + (if css != "" then " class=\"" + css + "\"" else "")
            + "><a href=\"" + url + "\">" + title + "</a>"
         == "<li" + ClassAttr(css) + ">" + ("<a href=\"" + url + "\">" + title + "</a>")
  {
  }

  /** `draw_menu(context, menu_name)`. `request` is the context's request, if
      any; `lookup` stands for the menu manager's `get_menu_tree`, which
      yields nothing for an unknown menu. */
  method DrawMenu(request: Option<Request>, menuName: string,
                  lookup: (string, string) -> Option<MenuTree>) returns (html: string)
    ensures request.None? ==> html == ""
    ensures request.Some? && lookup(menuName, request.value.path).None? ==> html == ""
    ensures request.Some? && lookup(menuName, request.value.path).Some? ==>
              html == RenderTree(lookup(menuName, request.value.path).value.rootItems, false)
    ensures html != "" <==>
              request.Some? && lookup(menuName, request.value.path).Some?
              && |lookup(menuName, request.value.path).value.rootItems| > 0
  {
    if request.None? {
      return "";
    }
    var menuData := lookup(menuName, request.value.path);
    if menuData.None? {
      return "";
    }
    html := RenderTreeLoop(menuData.value.rootItems, false);
  }
}
