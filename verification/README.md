# Tree menu renderer — Dafny model

This project models the `draw_menu` template tag of a Django tree-menu app.
The tag takes the current request and a menu name. It asks the menu manager
for the menu's annotated tree and renders it as nested HTML lists. The
renderer is the nested function `render_tree`. It emits one `<ul>` per
non-empty list of items and one `<li>` with a link per item. An item's
children are rendered recursively, with the item's own "active" flag passed
down as the children's `parent_is_active`. A child list that should start
out collapsed stays in the document. Only its first `<ul>` is rewritten to
`<ul style="display: none;">`, so client-side script can expand it later.

The model takes the annotated forest as input. Each `MenuItem.Node` carries a
title, an already-resolved URL, the flags `isActive`, `isInPath` and
`hasChildren`, and its children in display order. The two per-item helpers
the tag calls are `get_css_classes` and `should_show_children`. No source
file of the app defines them. The item tests constrain them, and the model
fills in the rest:

- `MenuItem.ShowChildren` holds when the item is on the active path or its
  parent is active, and not otherwise. The tests check all three cases.
- `MenuItem.CssTokens` yields "active", "has-children" and "expanded" under
  the flags the tests name. The tests only check that each word is present
  when its flags are set. That each word appears only then, and that no
  other word appears, is this model's choice. The tag test asserting
  `class="active` in the rendered menu pins "active" as the first word of an
  active item. `MenuItem.CssClasses` joins the words with single spaces.

Modules:

- `Wrappers`: `Option`, standing in for Python's `None`.
- `Text`: prefixes, suffixes and occurrences in strings, and
  `ReplaceFirst`, which is Python's `str.replace(old, new, 1)`.
- `MenuItem`: the annotated node and the per-item class and visibility
  decisions.
- `Render`: `render_tree` as a recursive definition, with the lemmas about
  its output.
- `MenuTags`: `draw_menu` and its early exits. Also `render_tree` written as
  the string-accumulating loop of the tag; it is proved to build exactly the
  markup of the recursive definition.

The menu lookup `Menu.objects.get_menu_tree(menu_name, request.path)` is the
`lookup` parameter of `MenuTags.DrawMenu`. The request in the template
context is an `Option<Request>`.

## Model

| member | source | states |
|---|---|---|
| MenuTags.DrawMenu | apps/menus/templatetags/menu_tags.py:9-46 | with no request, or when the lookup finds no menu, the tag yields ""; otherwise it renders the root items with parent flag false; the output is non-empty exactly when there is a request, a menu and at least one root item |
| MenuTags.RenderTreeLoop | apps/menus/templatetags/menu_tags.py:19-44 | the tag's accumulating loop: each pass appends the item's `<li…>` and link, then for an item with children the recursively rendered child list (its first `<ul>` rewritten when collapsed), then `</li>`; the whole builds exactly the markup of the recursive definition `Render.RenderTree` |
| Render.RenderTree | apps/menus/templatetags/menu_tags.py:19-23 | the rendering is empty exactly when the item list is empty, so an empty list never produces `<ul></ul>` |
| Render.RenderTreeShape | apps/menus/templatetags/menu_tags.py:23-43 | a non-empty list renders as a string that starts with `<ul>` and ends with `</ul>` |
| Render.RenderItems | apps/menus/templatetags/menu_tags.py:24-42 | the concatenated item segments are empty exactly when the item list is empty |
| Render.RenderItem | apps/menus/templatetags/menu_tags.py:29-42 | each item segment starts with `<li` and ends with `</li>` |
| Render.ChildBlock | apps/menus/templatetags/menu_tags.py:33-40 | an item contributes child markup exactly when it has children and its child list is non-empty |
| Render.RenderItemsAppend | apps/menus/templatetags/menu_tags.py:24-42 | the segments of a concatenated item list are the two lists' segments concatenated: items appear once each, in input order |
| Render.RenderTreeSegments | apps/menus/templatetags/menu_tags.py:20-44 | `[]` renders as ""; a list with one more item at the end renders as `<ul>`, the earlier segments, that item's segment, `</ul>` |
| Render.ClassAttr | apps/menus/templatetags/menu_tags.py:26 | an empty class string gives no attribute; a non-empty one gives an attribute starting with ` class="` and ending with `"` |
| Render.LiOpenClassAttribute | apps/menus/templatetags/menu_tags.py:25-31 | the `<li` carries ` class="…"` holding the class string verbatim when that string is non-empty, and is a bare `<li>` followed by the link otherwise; with `MenuItem.CssClasses` as modelled, the attribute is present exactly when the item is active or has children |
| Render.ActiveClassFirst | apps/menus/tests.py:174-181 | the opening tag of an active item starts with `<li class="active` |
| Render.ActiveRootMarksMenu | apps/menus/tests.py:174-181 | a rendered list with an active item anywhere in it contains `class="active`; with the roots and parent flag false this is the output of `MenuTags.DrawMenu` |
| Render.RenderItemWithoutChildren | apps/menus/templatetags/menu_tags.py:33-42 | an item without children, or with an empty child list, renders as its link alone, with no child block |
| Render.ChildrenVisibleIff | apps/menus/templatetags/menu_tags.py:27-40 | for an item with children, the child list is inserted verbatim, rendered with the item's `isActive` as the parent flag, exactly when the item is on the active path or its parent is active |
| Render.ChildrenHidden | apps/menus/templatetags/menu_tags.py:33-38 | a collapsed item's child block is the children's own segments inside `<ul style="display: none;">…</ul>` |
| Render.Hide | apps/menus/templatetags/menu_tags.py:35-37 | on a string that begins with `<ul>`, the first-occurrence rewrite changes only that leading tag and keeps the rest, later `<ul>`s included; a string without `<ul>` is unchanged |
| Render.HideRenderedTree | apps/menus/templatetags/menu_tags.py:34-37 | hiding a rendered non-empty child list marks only its outermost container; every nested list inside is unchanged |
| Render.SameDecisionSameMarkup | apps/menus/templatetags/menu_tags.py:27 | the parent flag affects the output only through the shown/hidden decision: two parent flags giving every item the same decision give the same markup |
| Render.RootChildrenVisibleIff | apps/menus/templatetags/menu_tags.py:33-46 | at the top level (parent flag false) a root item's children are shown exactly when the root is on the active path |
| Text.ReplaceFirst | apps/menus/templatetags/menu_tags.py:36-37 | `str.replace(old, new, 1)`: a string without `old` is unchanged; otherwise the leftmost occurrence, and only it, is replaced |
| Text.ReplaceFirstAtStart | apps/menus/templatetags/menu_tags.py:36-37 | when the string starts with `old`, the result is `new` followed by the rest of the string untouched |
| Text.FindFirst | apps/menus/templatetags/menu_tags.py:36-37 | finds the leftmost occurrence of the pattern, and finds none exactly when the pattern does not occur |
| MenuItem.ShowChildren | apps/menus/tests.py:113-125 | the children are shown when the item is on the active path, shown when its parent is active, and hidden when neither holds |
| MenuItem.CssTokens | apps/menus/tests.py:127-143 | the class list holds "active" exactly when the item is active, "has-children" exactly when it has children, "expanded" exactly when it has children and is on the active path, and nothing else |
| MenuItem.CssClasses | apps/menus/templatetags/menu_tags.py:25-26 | the class string is empty exactly when the item is neither active nor has children |
| MenuItem.ClassListOfCssClasses | apps/menus/templatetags/menu_tags.py:25-26 | reading the class attribute back as space-separated words gives exactly the item's class tokens |
| MenuItem.CssClassesMentionsFlags | apps/menus/tests.py:127-143 | the class string contains "active" for an active item, "has-children" for an item with children, and "expanded" for an item with children on the active path |

## Left out

- Tree assembly and active-path computation (`get_menu_tree`). No source file of the app implements it: `MenuItemManager.get_tree` in apps/menus/managers.py is an empty stub, and apps/menus/models.py defines no `Menu` class. The model takes the annotated forest as given, and `DrawMenu` takes the lookup as a parameter.
- The stored `Menu`/`MenuItem` records are not modelled: `MenuItem` in apps/menus/models.py has none of the fields the renderer reads. Each node instead carries the annotation flags and children the renderer uses.
- URL resolution (`get_url`, `get_absolute_url`). `get_absolute_url` wraps Django's `reverse`, a foreign call. The tests call a `get_url` with a `"#"` fallback that no source file defines. The URL is an opaque string field of the node.
- `get_css_classes` and `should_show_children` are not defined in any source file of the app. They are modelled as `MenuItem.CssTokens`/`MenuItem.CssClasses` and `MenuItem.ShowChildren`, guided by the tests' assertions (see the next line for what the tests leave open). The tag test at apps/menus/tests.py:174-181 asserts `class="active` in the rendered menu, which pins "active" as the first class word of an active item (`Render.ActiveClassFirst`). The order of the remaining words and the single-space separator are a modelling choice: the tests only check that each of those words is contained in the string.
- MenuItem.CssTokens: the tests (apps/menus/tests.py:127-143) only assert that each word is present when its flags are set. The converse directions, the "nothing else" clause, and the resulting empty class string for an item that is neither active nor has children are this model's choice; neither the tests nor menu_tags.py pin them. `MenuItem.CssClasses`, `MenuItem.ClassListOfCssClasses` and the class-attribute half of `Render.LiOpenClassAttribute` rest on that choice.
- MenuItem.CssClassesMentionsFlags: states only the substring checks the tests make, not their converses. `MenuItem.CssTokens` and `MenuItem.ClassListOfCssClasses` give the exact word list.
- Sibling ordering by the `order` field, and the choice of which entries become roots, belong to the lookup. The model receives each list of children already in display order.
- HTML escaping of titles and URLs, and `mark_safe`: both are template-engine plumbing. Titles and URLs are inserted verbatim, as in the tag's f-strings.
- Database query counts (the query-count tests): they concern round trips to the database, not the rendered output.
- The admin configuration, the settings files and the client-side expand/collapse script: declarative configuration and DOM event handling.
