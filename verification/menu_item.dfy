/** One annotated menu item as the renderer receives it, and the two
    per-item decisions the renderer asks of it: which CSS classes it carries
    and whether its children start out visible. */
module MenuItem {
  import opened Text

  /** A menu entry after annotation: the display `title`, the already
      resolved link target `url`, the flags computed for the current request,
      and the child entries in display order. */
  datatype Node = Node(
    title: string,
    url: string,
    isActive: bool,
    isInPath: bool,
    hasChildren: bool,
    children: seq<Node>)

  /** Whether the item's child list is shown expanded: it is on the active
      path, or its parent is the active item. */
  function ShowChildren(n: Node, parentIsActive: bool): (show: bool)
    ensures n.isInPath ==> show
    ensures parentIsActive ==> show
    ensures !n.isInPath && !parentIsActive ==> !show
  {
    n.isInPath || parentIsActive
  }

  /** The item's CSS classes as a list, in a fixed order: "active" for the
      active item, "has-children" for an item with children, and "expanded"
      for an item with children on the active path. */
  function CssTokens(n: Node): (ts: seq<string>)
    ensures "active" in ts <==> n.isActive
    ensures "has-children" in ts <==> n.hasChildren
    ensures "expanded" in ts <==> n.hasChildren && n.isInPath
    ensures forall t :: t in ts ==> t == "active" || t == "has-children" || t == "expanded"
  {
    (if n.isActive then ["active"] else [])
    + (if n.hasChildren then ["has-children"] else [])
    + (if n.hasChildren && n.isInPath then ["expanded"] else [])
  }

  /** A word that can stand in a space-separated class attribute. */
  predicate IsClassName(w: string) {
    |w| > 0 && ' ' !in w
  }

  /** `" ".join(ws)`. */
  function JoinWords(ws: seq<string>): string {
    if |ws| == 0 then ""
    else if |ws| == 1 then ws[0]
    else ws[0] + " " + JoinWords(ws[1..])
  }

  /** `s.split(" ")`: the pieces between single spaces, empty pieces included. */
  function SplitSpaces(s: string): (ws: seq<string>)
    ensures |ws| >= 1
  {
    if |s| == 0 then [""]
    else
      var rest := SplitSpaces(s[1..]);
      if s[0] == ' ' then [""] + rest
      else [[s[0]] + rest[0]] + rest[1..]
  }

  function DropEmpty(ws: seq<string>): (r: seq<string>)
    ensures forall w :: w in r ==> w != ""
  {
    if |ws| == 0 then []
    else if ws[0] == "" then DropEmpty(ws[1..])
    else [ws[0]] + DropEmpty(ws[1..])
  }

  /** How a browser reads a class attribute value: the non-empty words
      between spaces. */
  function ClassList(attr: string): seq<string> {
    DropEmpty(SplitSpaces(attr))
  }

  /** `item.get_css_classes()`: the class tokens joined by single spaces. */
  function CssClasses(n: Node): (css: string)
    ensures css == "" <==> !n.isActive && !n.hasChildren
  {
    JoinWords(CssTokens(n))
  }

  lemma {:induction false} SplitSingleWord(w: string)
    requires ' ' !in w
    ensures SplitSpaces(w) == [w]
    decreases |w|
  {
    if |w| > 0 {
      SplitSingleWord(w[1..]);
      assert [w[0]] + w[1..] == w;
    }
  }

  lemma {:induction false} SplitLeadingWord(w: string, rest: string)
    requires ' ' !in w
    ensures SplitSpaces(w + " " + rest) == [w] + SplitSpaces(rest)
    decreases |w|
  {
    var s := w + " " + rest;
    if |w| == 0 {
      assert s[0] == ' ' && s[1..] == rest;
    } else {
      assert s[0] == w[0] && s[1..] == w[1..] + " " + rest;
      SplitLeadingWord(w[1..], rest);
      assert [w[0]] + w[1..] == w;
    }
  }

  /** Splitting a joined list of class names gives the list back. */
  lemma {:induction false} SplitJoin(ws: seq<string>)
    requires |ws| > 0
    requires forall k :: 0 <= k < |ws| ==> IsClassName(ws[k])
    ensures SplitSpaces(JoinWords(ws)) == ws
    decreases |ws|
  {
    if |ws| == 1 {
      SplitSingleWord(ws[0]);
    } else {
      SplitLeadingWord(ws[0], JoinWords(ws[1..]));
      SplitJoin(ws[1..]);
      assert [ws[0]] + ws[1..] == ws;
    }
  }

  lemma {:induction false} DropEmptyKeepsWords(ws: seq<string>)
    requires forall k :: 0 <= k < |ws| ==> ws[k] != ""
    ensures DropEmpty(ws) == ws
    decreases |ws|
  {
    if |ws| > 0 {
      DropEmptyKeepsWords(ws[1..]);
      assert [ws[0]] + ws[1..] == ws;
    }
  }

  /** The class attribute the renderer writes denotes exactly the item's
      class tokens: a browser reading `CssClasses(n)` recovers `CssTokens(n)`. */
  lemma ClassListOfCssClasses(n: Node)
    ensures ClassList(CssClasses(n)) == CssTokens(n)
  {
    var ts := CssTokens(n);
    forall k | 0 <= k < |ts| ensures IsClassName(ts[k]) {
      assert ts[k] in ts;
    }
    if |ts| == 0 {
      assert ClassList(CssClasses(n)) == DropEmpty([""]);
    } else {
      SplitJoin(ts);
      DropEmptyKeepsWords(ts);
    }
  }

  /** Every word of a joined list occurs in the joined string. */
  lemma {:induction false} JoinContainsWord(ws: seq<string>, k: nat)
    requires k < |ws|
    ensures Contains(JoinWords(ws), ws[k])
    decreases |ws|
  {
    var s := JoinWords(ws);
    if |ws| == 1 {
      assert OccursAt(s, ws[k], 0);
    } else if k == 0 {
      assert OccursAt(s, ws[0], 0);
    } else {
      JoinContainsWord(ws[1..], k - 1);
      var i: nat :| OccursAt(JoinWords(ws[1..]), ws[k], i);
      var off := |ws[0]| + 1;
      assert s[off..] == JoinWords(ws[1..]);
      assert s[off + i..off + i + |ws[k]|] == JoinWords(ws[1..])[i..i + |ws[k]|];
      assert OccursAt(s, ws[k], off + i);
    }
  }

  /** The substring checks the item tests make on `get_css_classes()`. */
  lemma CssClassesMentionsFlags(n: Node)
    ensures n.isActive ==> Contains(CssClasses(n), "active")
    ensures n.hasChildren ==> Contains(CssClasses(n), "has-children")
    ensures n.hasChildren && n.isInPath ==> Contains(CssClasses(n), "expanded")
  {
    var ts := CssTokens(n);
    forall t | t in ts ensures Contains(CssClasses(n), t) {
      var k :| 0 <= k < |ts| && ts[k] == t;
      JoinContainsWord(ts, k);
    }
  }
}
