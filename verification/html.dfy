/**
 * The parsed HTML document the collector walks: every element of the tree,
 * flattened in document order.  Each element keeps its tag name, its
 * attributes in declaration order and its inner HTML as an opaque string.
 * Parsing and serialisation belong to the HTML library and are not modelled;
 * the library lower-cases tag and attribute names and keeps only the first
 * of duplicated attributes.
 */
module Html {
  import opened Wrappers

  datatype Attr = Attr(name: string, value: string)

  datatype Element = Element(tag: string, attrs: seq<Attr>, inner: string)

  type Document = seq<Element>

  /** The element matches the attribute-presence selector `[name]`. */
  predicate HasAttr(e: Element, name: string) {
    exists a :: a in e.attrs && a.name == name
  }

  /** The value `attr(name)` reads: that of the first attribute called `name`. */
  function AttrValue(attrs: seq<Attr>, name: string): (r: Option<string>)
    ensures r.Some? <==> exists a :: a in attrs && a.name == name
    ensures r.Some? ==> exists i :: 0 <= i < |attrs| && attrs[i] == Attr(name, r.value)
                                    && forall j :: 0 <= j < i ==> attrs[j].name != name
  {
    if |attrs| == 0 then None
    else if attrs[0].name == name then Some(attrs[0].value)
    else
      var r := AttrValue(attrs[1..], name);
      assert forall a :: a in attrs[1..] ==> a in attrs;
      assert forall a :: a in attrs ==> a == attrs[0] || a in attrs[1..];
      if r.Some? then
        var i :| 0 <= i < |attrs[1..]| && attrs[1..][i] == Attr(name, r.value)
                 && forall j :: 0 <= j < i ==> attrs[1..][j].name != name;
        assert attrs[i + 1] == Attr(name, r.value);
        assert forall j :: 0 <= j < i + 1 ==> attrs[j].name != name by {
          forall j | 0 <= j < i + 1 ensures attrs[j].name != name {
            if j > 0 { assert attrs[j] == attrs[1..][j - 1]; }
          }
        }
        r
      else r
  }
}
