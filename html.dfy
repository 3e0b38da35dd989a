/**
 * The parsed document, reduced to what the converters ask of BeautifulSoup:
 * find_all and find over the descendants of a node in document order, an
 * attribute lookup with a default, and the concatenated text of a subtree.
 */
module Html {
  import opened Wrappers

  /** A node of the tree html.parser builds: an element, or a run of text. */
  datatype Node =
    | Element(tag: string, attrs: map<string, string>, children: seq<Node>)
    | Text(content: string)

  /** The attribute part of a query: no condition, or one attribute that must have one value. */
  datatype AttrFilter = AnyAttrs | AttrIs(key: string, value: string)

  /** Every node strictly below n, in document (pre-)order. */
  function Descendants(n: Node): seq<Node>
  {
    match n
    case Text(_) => []
    case Element(_, _, children) => DescendantsOfSeq(children)
  }

  /** The nodes of ns, each followed by its own descendants. */
  function DescendantsOfSeq(ns: seq<Node>): seq<Node>
  {
    if ns == [] then [] else [ns[0]] + Descendants(ns[0]) + DescendantsOfSeq(ns[1..])
  }

  /**
   * How BeautifulSoup compares a string filter with an attribute: equal
   * values match, and an absent attribute matches only the empty string.
   */
  predicate AttrMatches(attrs: map<string, string>, key: string, value: string)
  {
    if key in attrs then attrs[key] == value else value == ""
  }

  predicate Matches(n: Node, tag: string, filter: AttrFilter)
  {
    && n.Element?
    && n.tag == tag
    && match filter
       case AnyAttrs => true
       case AttrIs(key, value) => AttrMatches(n.attrs, key, value)
  }

  /** The nodes of ns that match the query, in their order in ns. */
  function Select(ns: seq<Node>, tag: string, filter: AttrFilter): (r: seq<Node>)
    ensures |r| <= |ns|
  {
    if ns == [] then []
    else (if Matches(ns[0], tag, filter) then [ns[0]] else []) + Select(ns[1..], tag, filter)
  }

  /** Select keeps exactly the matching nodes. */
  lemma {:induction false} SelectMembers(ns: seq<Node>, tag: string, filter: AttrFilter)
    ensures forall x :: x in Select(ns, tag, filter) <==> x in ns && Matches(x, tag, filter)
  {
    if ns != [] {
      SelectMembers(ns[1..], tag, filter);
      assert ns == [ns[0]] + ns[1..];
    }
  }

  /** Select finds nothing exactly when nothing in ns matches. */
  lemma SelectEmpty(ns: seq<Node>, tag: string, filter: AttrFilter)
    ensures Select(ns, tag, filter) == [] <==> forall x :: x in ns ==> !Matches(x, tag, filter)
  {
    SelectMembers(ns, tag, filter);
    var r := Select(ns, tag, filter);
    if r != [] {
      assert r[0] in r;
    }
  }

  /** n.find_all(tag, attrs): every matching descendant of n, in document order. */
  function FindAll(n: Node, tag: string, filter: AttrFilter): seq<Node>
  {
    Select(Descendants(n), tag, filter)
  }

  /** x matches, sits in ns, and nothing before it in ns matches. */
  ghost predicate IsFirstMatch(ns: seq<Node>, x: Node, tag: string, filter: AttrFilter)
  {
    exists i :: 0 <= i < |ns| && ns[i] == x && Matches(x, tag, filter) &&
      forall j :: 0 <= j < i ==> !Matches(ns[j], tag, filter)
  }

  /** n.find(tag, attrs): the first matching descendant of n in document order, or None. */
  function Find(n: Node, tag: string, filter: AttrFilter): (r: Option<Node>)
    ensures r.None? <==> forall x :: x in Descendants(n) ==> !Matches(x, tag, filter)
    ensures r.Some? ==> IsFirstMatch(Descendants(n), r.value, tag, filter)
  {
    var all := FindAll(n, tag, filter);
    SelectMembers(Descendants(n), tag, filter);
    if all == [] then None
    else
      SelectHead(Descendants(n), tag, filter);
      Some(all[0])
  }

  lemma {:induction false} SelectHead(ns: seq<Node>, tag: string, filter: AttrFilter)
    requires Select(ns, tag, filter) != []
    ensures IsFirstMatch(ns, Select(ns, tag, filter)[0], tag, filter)
  {
    if Matches(ns[0], tag, filter) {
      assert Select(ns, tag, filter)[0] == ns[0];
    } else {
      var rest := ns[1..];
      assert Select(ns, tag, filter) == Select(rest, tag, filter);
      SelectHead(rest, tag, filter);
      var i :| 0 <= i < |rest| && rest[i] == Select(rest, tag, filter)[0] && Matches(rest[i], tag, filter) &&
        forall j :: 0 <= j < i ==> !Matches(rest[j], tag, filter);
      assert ns[i + 1] == rest[i];
      assert forall j :: 0 <= j < i + 1 ==> !Matches(ns[j], tag, filter) by {
        forall j | 0 <= j < i + 1 ensures !Matches(ns[j], tag, filter) {
          if j > 0 { assert ns[j] == rest[j - 1]; }
        }
      }
    }
  }

  /** A sequence has at most one first match. */
  lemma FirstMatchUnique(ns: seq<Node>, x: Node, y: Node, tag: string, filter: AttrFilter)
    requires IsFirstMatch(ns, x, tag, filter) && IsFirstMatch(ns, y, tag, filter)
    ensures x == y
  {
    var i :| 0 <= i < |ns| && ns[i] == x && Matches(x, tag, filter) &&
      forall j :: 0 <= j < i ==> !Matches(ns[j], tag, filter);
    var k :| 0 <= k < |ns| && ns[k] == y && Matches(y, tag, filter) &&
      forall j :: 0 <= j < k ==> !Matches(ns[j], tag, filter);
    assert Matches(ns[i], tag, filter) && Matches(ns[k], tag, filter);
    assert i <= k;
    assert k <= i;
  }

  /** tag.get(key, default). */
  function GetAttr(n: Node, key: string, default: string): string
  {
    if n.Element? && key in n.attrs then n.attrs[key] else default
  }

  /** The .text of a node: the text runs below it, concatenated in document order. */
  function TextOf(n: Node): string
  {
    match n
    case Text(s) => s
    case Element(_, _, children) => TextOfSeq(children)
  }

  function TextOfSeq(ns: seq<Node>): string
  {
    if ns == [] then "" else TextOf(ns[0]) + TextOfSeq(ns[1..])
  }

  /** The contents of the text runs among ns, concatenated in their order. */
  function RunsText(ns: seq<Node>): string
  {
    if ns == [] then ""
    else (if ns[0].Text? then ns[0].content else "") + RunsText(ns[1..])
  }

  lemma {:induction false} RunsTextAppend(a: seq<Node>, b: seq<Node>)
    ensures RunsText(a + b) == RunsText(a) + RunsText(b)
  {
    if a == [] {
      assert a + b == b;
    } else {
      assert (a + b)[1..] == a[1..] + b;
      RunsTextAppend(a[1..], b);
    }
  }

  /** The text of an element is the text of the Text nodes among its descendants, in document order. */
  lemma TextIsDescendantRuns(n: Node)
    requires n.Element?
    ensures TextOf(n) == RunsText(Descendants(n))
  {
    TextOfSeqIsDescendantRuns(n.children);
  }

  lemma {:induction false} TextOfSeqIsDescendantRuns(ns: seq<Node>)
    ensures TextOfSeq(ns) == RunsText(DescendantsOfSeq(ns))
    decreases ns
  {
    if ns != [] {
      var head, rest := ns[0], ns[1..];
      RunsTextAppend([head] + Descendants(head), DescendantsOfSeq(rest));
      RunsTextAppend([head], Descendants(head));
      TextOfSeqIsDescendantRuns(rest);
      match head
      case Text(_) =>
      case Element(_, _, children) => TextOfSeqIsDescendantRuns(children);
    }
  }

  /** A descendant of a descendant is a descendant. */
  lemma {:induction false} DescendantsOfSeqClosed(ns: seq<Node>, d: Node, x: Node)
    requires d in DescendantsOfSeq(ns) && x in Descendants(d)
    ensures x in DescendantsOfSeq(ns)
    decreases ns
  {
    var head, rest := ns[0], ns[1..];
    assert DescendantsOfSeq(ns) == [head] + Descendants(head) + DescendantsOfSeq(rest);
    if d == head {
    } else if d in Descendants(head) {
      DescendantsOfSeqClosed(head.children, d, x);
    } else {
      DescendantsOfSeqClosed(rest, d, x);
    }
  }

  /**
   * find_all reaches into nested elements: whatever a query finds below a
   * descendant d of n, the same query finds below n.
   */
  lemma FindAllNested(n: Node, d: Node, tag: string, filter: AttrFilter)
    requires d in Descendants(n)
    ensures forall x :: x in FindAll(d, tag, filter) ==> x in FindAll(n, tag, filter)
  {
    SelectMembers(Descendants(d), tag, filter);
    SelectMembers(Descendants(n), tag, filter);
    forall x | x in FindAll(d, tag, filter)
      ensures x in FindAll(n, tag, filter)
    {
      DescendantsOfSeqClosed(n.children, d, x);
    }
  }
}
