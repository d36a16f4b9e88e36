/**
 * The HTTP `Link` header serialiser of the web front end (maze_web/link.py):
 * three record types and their string renderings, following the
 * `<uri-reference>; param=value` syntax of section 3 of RFC 8288.
 * Python's `__repr__` of each class returns `str(self)`, so each class has a
 * single rendering function here.
 */
module Link {

  /** A `param=value` pair (class LinkParam). */
  datatype LinkParam = LinkParam(param: string, value: string)

  /** One link: its target and its parameters in the order given (class Link). */
  datatype Link = Link(ref: string, params: seq<LinkParam>)

  /** A whole header value: the links in the order given (class LinkHeader). */
  datatype LinkHeader = LinkHeader(links: seq<Link>)

  /** Python's `sep.join(items)`. */
  function Join(sep: string, items: seq<string>): string
  {
    if |items| == 0 then ""
    else if |items| == 1 then items[0]
    else Join(sep, items[..|items| - 1]) + sep + items[|items| - 1]
  }

  /** Every item preceded by `sep`, concatenated: the reference reading of a join. */
  function Prefixed(sep: string, items: seq<string>): string
  {
    if |items| == 0 then "" else sep + items[0] + Prefixed(sep, items[1..])
  }

  /** `LinkParam.__str__`: `param=value`. */
  function ParamString(p: LinkParam): string
  {
    p.param + "=" + p.value
  }

  function ParamStrings(ps: seq<LinkParam>): (r: seq<string>)
    ensures |r| == |ps|
    ensures forall i :: 0 <= i < |ps| ==> r[i] == ParamString(ps[i])
  {
    if |ps| == 0 then [] else [ParamString(ps[0])] + ParamStrings(ps[1..])
  }

  /** `Link.__str__`: `'; '.join(chain(['<ref>'], map(str, params)))`. */
  function LinkString(l: Link): string
  {
    Join("; ", ["<" + l.ref + ">"] + ParamStrings(l.params))
  }

  function LinkStrings(ls: seq<Link>): (r: seq<string>)
    ensures |r| == |ls|
    ensures forall i :: 0 <= i < |ls| ==> r[i] == LinkString(ls[i])
  {
    if |ls| == 0 then [] else [LinkString(ls[0])] + LinkStrings(ls[1..])
  }

  /** `LinkHeader.__str__`: `', '.join(map(str, links))`. */
  function HeaderString(h: LinkHeader): string
  {
    Join(", ", LinkStrings(h.links))
  }

  /** Position of the first `ch` in `s`, or |s| when there is none. */
  function IndexOfChar(s: string, ch: char): (i: nat)
    ensures i <= |s|
    ensures i < |s| ==> s[i] == ch
    ensures forall k :: 0 <= k < i ==> s[k] != ch
  {
    if |s| == 0 then 0 else if s[0] == ch then 0 else 1 + IndexOfChar(s[1..], ch)
  }

  /** Splits `param=value` at its first `=`: the inverse of ParamString. */
  function SplitParam(s: string): LinkParam
  {
    var i := IndexOfChar(s, '=');
    if i < |s| then LinkParam(s[..i], s[i + 1..]) else LinkParam(s, "")
  }

  /** A parameter name without `=` is recovered from its rendering, with its value. */
  lemma ParamRoundTrip(p: LinkParam)
    requires '=' !in p.param
    ensures SplitParam(ParamString(p)) == p
  {
    var s := ParamString(p);
    var i := IndexOfChar(s, '=');
    assert s[|p.param|] == '=';
    assert forall k :: 0 <= k < |p.param| ==> s[k] == p.param[k];
    assert i == |p.param|;
    assert s[..i] == p.param;
    assert s[i + 1..] == p.value;
  }

  /** Joining is the first item followed by every other item with its separator. */
  lemma {:induction false} JoinIsPrefixed(sep: string, items: seq<string>)
    requires |items| > 0
    ensures Join(sep, items) == items[0] + Prefixed(sep, items[1..])
    decreases |items|
  {
    if |items| == 1 {
      assert items[1..] == [];
    } else {
      var init := items[..|items| - 1];
      JoinIsPrefixed(sep, init);
      PrefixedAppend(sep, init[1..], items[|items| - 1]);
      assert init[1..] + [items[|items| - 1]] == items[1..];
    }
  }

  lemma {:induction false} PrefixedAppend(sep: string, items: seq<string>, x: string)
    ensures Prefixed(sep, items + [x]) == Prefixed(sep, items) + sep + x
    decreases |items|
  {
    if |items| == 0 {
      assert (items + [x])[1..] == [];
    } else {
      assert (items + [x])[1..] == items[1..] + [x];
      PrefixedAppend(sep, items[1..], x);
    }
  }

  /** A link without parameters renders as `<ref>`. */
  lemma LinkWithoutParams(ref: string)
    ensures LinkString(Link(ref, [])) == "<" + ref + ">"
  {
  }

  /** A link renders as `<ref>` followed by `; p=v` for each parameter, in order. */
  lemma LinkStringShape(l: Link)
    ensures LinkString(l) == "<" + l.ref + ">" + Prefixed("; ", ParamStrings(l.params))
  {
    var items := ["<" + l.ref + ">"] + ParamStrings(l.params);
    JoinIsPrefixed("; ", items);
    assert items[1..] == ParamStrings(l.params);
  }

  /** A link's target is recovered from the rendering when it holds no `>`. */
  lemma LinkRefRoundTrip(l: Link)
    requires '>' !in l.ref
    ensures var s := LinkString(l);
            |s| > 0 && s[0] == '<' && s[1..][..IndexOfChar(s[1..], '>')] == l.ref
  {
    LinkStringShape(l);
    var s := LinkString(l);
    var t := s[1..];
    var i := IndexOfChar(t, '>');
    assert t[|l.ref|] == '>';
    assert forall k :: 0 <= k < |l.ref| ==> t[k] == l.ref[k];
    assert i == |l.ref|;
    assert t[..i] == l.ref;
  }

  /** An empty header renders as the empty string. */
  lemma EmptyHeader()
    ensures HeaderString(LinkHeader([])) == ""
  {
  }

  /** A header renders as its links joined by `, `, in order. */
  lemma HeaderStringShape(h: LinkHeader)
    requires |h.links| > 0
    ensures HeaderString(h) == LinkString(h.links[0]) + Prefixed(", ", LinkStrings(h.links[1..]))
  {
    JoinIsPrefixed(", ", LinkStrings(h.links));
    assert LinkStrings(h.links)[1..] == LinkStrings(h.links[1..]);
  }

  /** Appending a link to a non-empty header appends `, ` and its rendering. */
  lemma HeaderAppend(h: LinkHeader, l: Link)
    requires |h.links| > 0
    ensures HeaderString(LinkHeader(h.links + [l])) == HeaderString(h) + ", " + LinkString(l)
  {
    var ls := h.links + [l];
    var items := LinkStrings(ls);
    var init := LinkStrings(h.links);
    assert |items| == |init| + 1 > 1;
    forall i | 0 <= i < |init|
      ensures items[i] == init[i]
    {
      assert ls[i] == h.links[i];
    }
    assert items[..|init|] == init;
    assert items[|init|] == LinkString(l);
  }
}
