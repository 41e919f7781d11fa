/** The text collector behind "copy prescription": it walks the rendered
    prescription (a tree of element, form-field and text nodes) and produces
    the plain-text transcript that is written to the clipboard.

    Every level of the walk upper-cases its own output when asked to and then
    runs one `replaceAll("  ", " ")` pass over it, so both steps are applied
    again at every enclosing level. */
module Collector {
  import opened Text

  /** The three kinds of form field whose current value is collected. */
  datatype FieldKind = Input | TextArea | Select

  /** A snapshot of a rendered DOM node. Element names are the upper-case
      HTML tag names (`DIV`, `OL`, `LI`, `H2`, `BUTTON`, ...). A form field
      keeps its children (a text area's text, a select's options), which the
      collector never looks at. `Other` stands for every node that is neither
      an element nor text (comments, for one). */
  datatype Node =
    | Element(name: string, children: seq<Node>)
    | Field(kind: FieldKind, value: string, fieldChildren: seq<Node>)
    | Text(data: string)
    | Other

  /** Where a node sits: the root of the walk is `Detached` (its parent is not
      part of the snapshot); any other node knows its parent's name and its
      1-based position among the parent's element children. */
  datatype Place = Detached | Child(parentName: string, ordinal: nat)

  predicate IsElementNode(n: Node) {
    n.Element? || n.Field?
  }

  /** The number of element nodes (elements and form fields, not text or
      other nodes) in `kids`. */
  function ElementCount(kids: seq<Node>): (k: nat)
    ensures k <= |kids|
  {
    if |kids| == 0 then 0
    else ElementCount(kids[..|kids| - 1]) + (if IsElementNode(kids[|kids| - 1]) then 1 else 0)
  }

  /** The place of the `i`-th child of an element named `parentName`. */
  function ChildPlace(parentName: string, kids: seq<Node>, i: nat): Place
    requires i <= |kids|
  {
    Child(parentName, ElementCount(kids[..i]) + 1)
  }

  /** The number a list item in an ordered list is given, `"k. "`. */
  function OrdinalPrefix(name: string, at: Place): string {
    if name == "LI" && at.Child? && at.parentName == "OL" then NatToString(at.ordinal) + ". " else ""
  }

  /** The line breaks an element adds after its children. */
  function Trailer(name: string): string {
    (if name != "DIV" && name != "OL" then "\n" else "")
      + (if name == "H2" then "\n" else "")
  }

  function CaseMap(s: string, upper: bool): string {
    if upper then ToUpper(s) else s
  }

  /** The transcript of one node at a given place. */
  function Collect(n: Node, upper: bool, at: Place): string
    decreases n, 1, 0
  {
    var raw :=
      match n
      case Field(_, v, _) => v + "\n"
      case Element(name, kids) =>
        if name == "BUTTON" then ""
        else OrdinalPrefix(name, at) + CollectChildren(n, upper, 0) + Trailer(name)
      case Text(t) => if |t| > 0 then t + " " else ""
      case Other => "";
    Collapse(CaseMap(raw, upper))
  }

  /** The transcripts of the children of element `n` from the `i`-th on,
      concatenated in document order. */
  function CollectChildren(n: Node, upper: bool, i: nat): string
    requires n.Element? && i <= |n.children|
    decreases n, 0, |n.children| - i
  {
    if i == |n.children| then ""
    else
      Collect(n.children[i], upper, ChildPlace(n.name, n.children, i))
        + CollectChildren(n, upper, i + 1)
  }

  /** `collectText(root, isUppercase)` on the root of the rendered
      prescription. */
  function CollectText(root: Node, upper: bool): string {
    Collect(root, upper, Detached)
  }

  /** The text "copy prescription" puts on the clipboard: the transcript with
      the white space at both ends removed. */
  function CopyText(root: Node, upper: bool): (r: string)
    ensures exists lo: nat :: TrimmedAt(CollectText(root, upper), r, lo)
    ensures |r| > 0 ==> !IsJsSpace(r[0]) && !IsJsSpace(r[|r| - 1])
  {
    Trim(CollectText(root, upper))
  }

  // ---------------------------------------------------------------------
  // Properties of the walk
  // ---------------------------------------------------------------------

  /** The transcripts of the children, one per child, each computed at the
      child's own place. */
  function ChildTranscripts(n: Node, upper: bool): (ts: seq<string>)
    requires n.Element?
    ensures |ts| == |n.children|
  {
    seq(|n.children|, i requires 0 <= i < |n.children| =>
      Collect(n.children[i], upper, ChildPlace(n.name, n.children, i)))
  }

  function Concat(ts: seq<string>): string {
    if |ts| == 0 then "" else ts[0] + Concat(ts[1..])
  }

  /** The children are visited in document order and their transcripts are
      concatenated, each child being numbered by its position among the
      element children. */
  lemma {:induction false} ChildrenInDocumentOrder(n: Node, upper: bool, i: nat)
    requires n.Element? && i <= |n.children|
    ensures CollectChildren(n, upper, i) == Concat(ChildTranscripts(n, upper)[i..])
    decreases |n.children| - i
  {
    if i < |n.children| {
      ChildrenInDocumentOrder(n, upper, i + 1);
      assert ChildTranscripts(n, upper)[i..][1..] == ChildTranscripts(n, upper)[i + 1..];
    }
  }

  /** A form field contributes exactly its value and a line break, whatever
      its children and its place; with no double space in that line and no
      upper-casing, the contribution is the value itself. */
  lemma FieldEmitsValue(k: FieldKind, v: string, kids: seq<Node>, upper: bool, at: Place)
    ensures Collect(Field(k, v, kids), upper, at) == Collect(Field(k, v, []), upper, Detached)
    ensures !Contains(v + "\n", "  ") ==> Collect(Field(k, v, kids), false, at) == v + "\n"
  {
    CollapseFixedIff(v + "\n");
  }

  /** A button and everything inside it contribute nothing. */
  lemma ButtonIsSkipped(kids: seq<Node>, upper: bool, at: Place)
    ensures Collect(Element("BUTTON", kids), upper, at) == ""
  {
  }

  /** A non-empty text node contributes its text and one space (exactly that
      when no double space arises); an empty text node and any node that is
      neither element nor text contribute nothing. */
  lemma TextNodes(t: string, upper: bool, at: Place)
    ensures |t| == 0 ==> Collect(Text(t), upper, at) == ""
    ensures Collect(Other, upper, at) == ""
    ensures |t| > 0 && !Contains(t + " ", "  ") ==> Collect(Text(t), false, at) == t + " "
  {
    CollapseFixedIff(t + " ");
  }

  /** An element with no children: a `DIV` or `OL` yields nothing, any other
      element (other than a button) a single line break, an `H2` two. A list
      item inside an ordered list is left out here: it also carries its
      number (`NumberedListItem`). */
  lemma ChildlessElements(name: string, upper: bool, at: Place)
    requires !(name == "LI" && at.Child? && at.parentName == "OL")
    ensures name == "DIV" || name == "OL" || name == "BUTTON" ==> Collect(Element(name, []), upper, at) == ""
    ensures name == "H2" ==> Collect(Element(name, []), upper, at) == "\n\n"
    ensures name != "DIV" && name != "OL" && name != "BUTTON" && name != "H2" ==>
      Collect(Element(name, []), upper, at) == "\n"
  {
    if name != "BUTTON" {
      ChildlessTranscript(name, upper, at);
      TrailerCases(name);
      LineBreaksKept(upper);
    }
  }

  lemma ChildlessTranscript(name: string, upper: bool, at: Place)
    requires !(name == "LI" && at.Child? && at.parentName == "OL") && name != "BUTTON"
    ensures Collect(Element(name, []), upper, at) == Collapse(CaseMap(Trailer(name), upper))
  {
    var n := Element(name, []);
    assert CollectChildren(n, upper, 0) == "";
    assert OrdinalPrefix(name, at) == "";
    assert OrdinalPrefix(name, at) + CollectChildren(n, upper, 0) + Trailer(name) == Trailer(name);
  }

  lemma TrailerCases(name: string)
    ensures name == "DIV" || name == "OL" ==> Trailer(name) == ""
    ensures name == "H2" ==> Trailer(name) == "\n\n"
    ensures name != "DIV" && name != "OL" && name != "H2" ==> Trailer(name) == "\n"
  {
  }

  /** Line breaks are left alone by the case mapping and the clean-up. */
  lemma LineBreaksKept(upper: bool)
    ensures Collapse(CaseMap("", upper)) == ""
    ensures Collapse(CaseMap("\n", upper)) == "\n"
    ensures Collapse(CaseMap("\n\n", upper)) == "\n\n"
  {
    assert CaseMap("\n", upper) == "\n";
    assert CaseMap("\n\n", upper) == "\n\n";
    CollapseCons('\n', "");
    CollapseCons('\n', "\n");
    assert ['\n'] + "" == "\n";
    assert ['\n'] + "\n" == "\n\n";
  }

  /** The line breaks an element adds survive the case mapping and the
      clean-up step: every element other than a button, a `DIV` or an `OL`
      ends its transcript with a line break, and an `H2` with two. */
  lemma TrailingLineBreaks(name: string, kids: seq<Node>, upper: bool, at: Place)
    requires name != "BUTTON" && name != "DIV" && name != "OL"
    ensures var r := Collect(Element(name, kids), upper, at);
      |r| >= 1 && r[|r| - 1] == '\n'
    ensures var r := Collect(Element(name, kids), upper, at);
      name == "H2" ==> |r| >= 2 && r[|r| - 2..] == "\n\n"
  {
    var n := Element(name, kids);
    var body := OrdinalPrefix(name, at) + CollectChildren(n, upper, 0);
    assert Collect(n, upper, at) == Collapse(CaseMap(body + Trailer(name), upper));
    TrailerSurvives(body, name, upper);
  }

  lemma TrailerSurvives(body: string, name: string, upper: bool)
    requires name != "DIV" && name != "OL"
    ensures var r := Collapse(CaseMap(body + Trailer(name), upper));
      |r| >= 1 && r[|r| - 1] == '\n' && (name == "H2" ==> |r| >= 2 && r[|r| - 2..] == "\n\n")
  {
    var b := CaseMap(body, upper);
    if name == "H2" {
      assert Trailer(name) == "\n\n";
      assert CaseMap(body + "\n\n", upper) == (b + "\n") + ['\n'] by {
        if upper { ToUpperConcat(body, "\n\n"); }
      }
      CollapseSnoc(b + "\n", '\n');
      CollapseSnoc(b, '\n');
    } else {
      assert Trailer(name) == "\n";
      assert CaseMap(body + "\n", upper) == b + ['\n'] by {
        if upper { ToUpperConcat(body, "\n"); }
      }
      CollapseSnoc(b, '\n');
    }
  }

  /** When every child of a list is an element (as the rendered list items
      are), the `i`-th child is numbered `i + 1`; text and other nodes between
      elements do not take a number. */
  lemma {:induction false} ElementChildrenNumbered(kids: seq<Node>, i: nat)
    requires i <= |kids|
    requires forall j :: 0 <= j < |kids| ==> IsElementNode(kids[j])
    ensures ElementCount(kids[..i]) == i
  {
    if i > 0 {
      ElementChildrenNumbered(kids, i - 1);
      assert kids[..i][..i - 1] == kids[..i - 1];
    }
  }

  /** Text and other non-element nodes never take a number. */
  lemma {:induction false} NonElementsNotNumbered(kids: seq<Node>)
    requires forall j :: 0 <= j < |kids| ==> !IsElementNode(kids[j])
    ensures ElementCount(kids) == 0
    decreases |kids|
  {
    if |kids| > 0 {
      NonElementsNotNumbered(kids[..|kids| - 1]);
    }
  }

  /** A list item inside an ordered list starts with its number: the `k`-th
      element child of an `OL` starts with `"k. "`. */
  lemma NumberedListItem(kids: seq<Node>, upper: bool, k: nat)
    ensures var r := Collect(Element("LI", kids), upper, Child("OL", k));
      var p := NatToString(k) + ". ";
      |p| <= |r| && r[..|p|] == p
  {
    var n := Element("LI", kids);
    var p := NatToString(k) + ". ";
    var rest := CollectChildren(n, upper, 0) + Trailer("LI");
    assert OrdinalPrefix("LI", Child("OL", k)) == p;
    assert p + CollectChildren(n, upper, 0) + Trailer("LI") == p + rest;
    PrefixHasNoDoubleSpace(NatToString(k));
    if upper {
      ToUpperConcat(p, rest);
      assert ToUpper(p) == p;
    }
    CollapseKeepsPrefix(p, CaseMap(rest, upper));
  }

  lemma PrefixHasNoDoubleSpace(digits: string)
    requires forall i :: 0 <= i < |digits| ==> '0' <= digits[i] <= '9'
    ensures !Contains(digits + ". ", "  ")
  {
    var p := digits + ". ";
    forall i: nat | i <= |p| ensures !OccursAt(p, "  ", i) {
      if i + 2 <= |p| {
        if i < |digits| {
          assert p[i] == digits[i];
        } else {
          assert p[i] == '.';
        }
        assert p[i..i + 2][0] == p[i] != ' ';
      }
    }
  }

  /** Upper-casing at every level gives the same transcript as upper-casing
      the lower-level transcript once at the end: the flag only changes the
      case of letters. In particular an upper-cased transcript has no
      lower-case letter. */
  lemma {:induction false} UppercaseOnceSuffices(n: Node, at: Place)
    ensures Collect(n, true, at) == ToUpper(Collect(n, false, at))
    ensures NoLower(Collect(n, true, at))
    decreases n, 1, 0
  {
    var rawL, rawU: string;
    match n {
      case Field(_, v, _) =>
        rawL, rawU := v + "\n", v + "\n";
      case Element(name, kids) =>
        if name == "BUTTON" {
          rawL, rawU := "", "";
        } else {
          var pre, post := OrdinalPrefix(name, at), Trailer(name);
          UppercaseChildren(n, 0);
          rawL := pre + CollectChildren(n, false, 0) + post;
          rawU := pre + CollectChildren(n, true, 0) + post;
          ToUpperConcat(pre, CollectChildren(n, true, 0));
          ToUpperConcat(pre + CollectChildren(n, true, 0), post);
          ToUpperConcat(pre, CollectChildren(n, false, 0));
          ToUpperConcat(pre + CollectChildren(n, false, 0), post);
          ToUpperIdempotent(CollectChildren(n, false, 0));
          assert ToUpper(rawU) == ToUpper(rawL);
        }
      case Text(t) =>
        rawL, rawU := (if |t| > 0 then t + " " else ""), (if |t| > 0 then t + " " else "");
      case Other =>
        rawL, rawU := "", "";
    }
    assert Collect(n, true, at) == Collapse(ToUpper(rawU));
    assert Collect(n, false, at) == Collapse(rawL);
    UpperCollapseCommute(rawL);
    ToUpperIdempotent(Collapse(rawL));
  }

  lemma {:induction false} UppercaseChildren(n: Node, i: nat)
    requires n.Element? && i <= |n.children|
    ensures CollectChildren(n, true, i) == ToUpper(CollectChildren(n, false, i))
    decreases n, 0, |n.children| - i
  {
    if i < |n.children| {
      var c := n.children[i];
      var at := ChildPlace(n.name, n.children, i);
      UppercaseOnceSuffices(c, at);
      UppercaseChildren(n, i + 1);
      ToUpperConcat(Collect(c, false, at), CollectChildren(n, false, i + 1));
    }
  }

  /** The clean-up pass runs at every level, not once at the end: a text
      node ending in two spaces keeps two of its three trailing spaces on its
      own, but wrapping it in a `DIV` runs the pass again and leaves one. */
  lemma CollapseRunsPerLevel(c: char)
    requires c != ' '
    ensures Collect(Text([c, ' ', ' ']), false, Detached) == [c, ' ', ' ']
    ensures Collect(Element("DIV", [Text([c, ' ', ' '])]), false, Detached) == [c, ' ']
  {
    var t := Text([c, ' ', ' ']);
    TrailingSpacesText(c, Detached);
    var d := Element("DIV", [t]);
    var at := ChildPlace("DIV", [t], 0);
    TrailingSpacesText(c, at);
    assert CollectChildren(d, false, 1) == "";
    assert CollectChildren(d, false, 0) == Collect(t, false, at) + CollectChildren(d, false, 1);
    assert CollectChildren(d, false, 0) == [c, ' ', ' '];
    assert OrdinalPrefix("DIV", Detached) == "" && Trailer("DIV") == "";
    assert OrdinalPrefix("DIV", Detached) + CollectChildren(d, false, 0) + Trailer("DIV") == [c, ' ', ' '];
    assert Collect(d, false, Detached) == Collapse([c, ' ', ' ']);
    assert [c, ' ', ' '] == [c] + "  ";
    CollapseCons(c, "  ");
    CollapseTwoSpaces();
  }

  lemma TrailingSpacesText(c: char, at: Place)
    requires c != ' '
    ensures Collect(Text([c, ' ', ' ']), false, at) == [c, ' ', ' ']
  {
    var s := [c, ' ', ' ', ' '];
    assert [c, ' ', ' '] + " " == s;
    assert Collect(Text([c, ' ', ' ']), false, at) == Collapse(s);
    assert s == [c] + "   ";
    CollapseCons(c, "   ");
    CollapseThreeSpaces();
  }
}
