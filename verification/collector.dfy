/**
 * Hash collection: which parts of a parsed document are inline code or style,
 * in which order their tokens are produced, and into which bucket they go.
 * The hash function `h` is a parameter; the record transform binds it to the
 * token formatter for the configured algorithm.
 */
module Collector {
  import opened Ascii
  import opened Html

  /**
   * One bucket of tokens.  `All()` is the `all` getter: the element tokens
   * followed by the attribute tokens, each in its own order.
   */
  datatype Bucket = Bucket(elements: seq<string>, attributes: seq<string>) {
    function All(): (r: seq<string>)
      ensures |r| == |elements| + |attributes|
      ensures forall i :: 0 <= i < |elements| ==> r[i] == elements[i]
      ensures forall j :: 0 <= j < |attributes| ==> r[|elements| + j] == attributes[j]
    {
      elements + attributes
    }
  }

  /** The structure handed to the callback: one bucket for scripts, one for styles. */
  datatype Hashes = Hashes(script: Bucket, style: Bucket)

  // ----------------------------------------------------------------------
  // Element rules: inline bodies (`script:not([src])`, `style:not([src])`)
  // and style attributes (`[style]`).  Each selected element gives one token.
  // ----------------------------------------------------------------------

  datatype ElementRule = InlineBody(tag: string) | StyleAttribute

  /** The element is matched by the rule's selector. */
  predicate Selects(rule: ElementRule, e: Element) {
    match rule
    case InlineBody(tag) => e.tag == tag && !HasAttr(e, "src")
    case StyleAttribute => HasAttr(e, "style")
  }

  /** The text a selected element contributes: its inner HTML, or its `style` value. */
  function Source(rule: ElementRule, e: Element): string
    requires Selects(rule, e)
  {
    match rule
    case InlineBody(_) => e.inner
    case StyleAttribute => AttrValue(e.attrs, "style").value
  }

  /** The tokens of one element rule, in document order. */
  function RuleTokens(doc: Document, rule: ElementRule, h: string -> string): seq<string>
    decreases |doc|
  {
    if |doc| == 0 then []
    else (if Selects(rule, doc[0]) then [h(Source(rule, doc[0]))] else []) + RuleTokens(doc[1..], rule, h)
  }

  /** The positions, from `i` on, of the elements a rule selects, increasing. */
  function SelectedFrom(doc: Document, rule: ElementRule, i: nat): (idx: seq<nat>)
    requires i <= |doc|
    ensures forall k :: 0 <= k < |idx| ==> i <= idx[k] < |doc|
    ensures forall j, k :: 0 <= j < k < |idx| ==> idx[j] < idx[k]
    ensures forall j :: i <= j < |doc| ==> (Selects(rule, doc[j]) <==> j in idx)
    decreases |doc| - i
  {
    if i == |doc| then []
    else (if Selects(rule, doc[i]) then [i] else []) + SelectedFrom(doc, rule, i + 1)
  }

  /** The positions of the elements a rule selects, increasing. */
  function Selected(doc: Document, rule: ElementRule): seq<nat> {
    SelectedFrom(doc, rule, 0)
  }

  /** `tokens[k]` is the token of the element at `idx[k]`, which the rule selects. */
  ghost predicate Pairs(tokens: seq<string>, doc: Document, idx: seq<nat>, rule: ElementRule, h: string -> string) {
    |tokens| == |idx|
    && forall k :: 0 <= k < |idx| ==>
         idx[k] < |doc| && Selects(rule, doc[idx[k]]) && tokens[k] == h(Source(rule, doc[idx[k]]))
  }

  /** An element rule's tokens are exactly one token per selected element, in document order. */
  ghost predicate ExactlyFrom(tokens: seq<string>, doc: Document, rule: ElementRule, h: string -> string) {
    Pairs(tokens, doc, Selected(doc, rule), rule, h)
  }

  lemma PairsAppend(t1: seq<string>, t2: seq<string>, doc: Document, i1: seq<nat>, i2: seq<nat>, rule: ElementRule, h: string -> string)
    requires Pairs(t1, doc, i1, rule, h) && Pairs(t2, doc, i2, rule, h)
    ensures Pairs(t1 + t2, doc, i1 + i2, rule, h)
  {
    forall k | |i1| <= k < |i1| + |i2| ensures (t1 + t2)[k] == t2[k - |i1|] && (i1 + i2)[k] == i2[k - |i1|] {
    }
  }

  /** The tokens of the suffix from `i` pair up with the selected positions from `i`. */
  lemma {:induction false} RuleTokensExactFrom(doc: Document, rule: ElementRule, h: string -> string, i: nat)
    requires i <= |doc|
    ensures Pairs(RuleTokens(doc[i..], rule, h), doc, SelectedFrom(doc, rule, i), rule, h)
    decreases |doc| - i
  {
    if i < |doc| {
      RuleTokensExactFrom(doc, rule, h, i + 1);
      var e := doc[i];
      assert doc[i..][0] == e && doc[i..][1..] == doc[i + 1..];
      var head := if Selects(rule, e) then [i] else [];
      var headToks := if Selects(rule, e) then [h(Source(rule, e))] else [];
      assert Pairs(headToks, doc, head, rule, h);
      PairsAppend(headToks, RuleTokens(doc[i + 1..], rule, h), doc, head, SelectedFrom(doc, rule, i + 1), rule, h);
    }
  }

  lemma RuleTokensExact(doc: Document, rule: ElementRule, h: string -> string)
    ensures ExactlyFrom(RuleTokens(doc, rule, h), doc, rule, h)
  {
    RuleTokensExactFrom(doc, rule, h, 0);
    assert doc[0..] == doc;
  }

  /** Element-rule tokens of a concatenation are the concatenation of the tokens. */
  lemma {:induction false} RuleTokensAppend(a: Document, b: Document, rule: ElementRule, h: string -> string)
    ensures RuleTokens(a + b, rule, h) == RuleTokens(a, rule, h) + RuleTokens(b, rule, h)
    decreases |a|
  {
    if |a| > 0 {
      assert (a + b)[1..] == a[1..] + b;
      RuleTokensAppend(a[1..], b, rule, h);
    } else {
      assert a + b == b;
    }
  }

  /**
   * A `script` or `style` element carrying `src` adds nothing to its tag's
   * element tokens, wherever it stands and whatever its body.
   */
  lemma SrcElementIgnored(a: Document, e: Element, b: Document, h: string -> string)
    requires HasAttr(e, "src")
    ensures RuleTokens(a + [e] + b, InlineBody(e.tag), h) == RuleTokens(a + b, InlineBody(e.tag), h)
  {
    RuleTokensAppend(a + [e], b, InlineBody(e.tag), h);
    RuleTokensAppend(a, [e], InlineBody(e.tag), h);
    RuleTokensAppend(a, b, InlineBody(e.tag), h);
    assert [e][1..] == [];
  }

  // ----------------------------------------------------------------------
  // Attribute rules: event handlers (`/^on/i` on the name) and `javascript:`
  // URLs (`/^javascript:/i` on the value), checked independently on every
  // attribute of every element.
  // ----------------------------------------------------------------------

  const JsUrlPrefix: string := "javascript:"

  predicate IsEventHandler(name: string) {
    CiStartsWith(name, "on")
  }

  predicate IsJsUrl(value: string) {
    CiStartsWith(value, JsUrlPrefix)
  }

  /** `value.split(/^javascript:/i)[1]`: the text after the prefix, which may be empty. */
  function JsUrlBody(value: string): (r: string)
    requires IsJsUrl(value)
    ensures |r| == |value| - |JsUrlPrefix|
    ensures forall k :: 0 <= k < |r| ==> r[k] == value[|JsUrlPrefix| + k]
  {
    value[|JsUrlPrefix|..]
  }

  /** The tokens one attribute adds: first the handler rule, then the URL rule. */
  function AttrTokens(a: Attr, h: string -> string): seq<string> {
    (if IsEventHandler(a.name) then [h(a.value)] else [])
    + (if IsJsUrl(a.value) then [h(JsUrlBody(a.value))] else [])
  }

  function AttrListTokens(attrs: seq<Attr>, h: string -> string): seq<string>
    decreases |attrs|
  {
    if |attrs| == 0 then [] else AttrTokens(attrs[0], h) + AttrListTokens(attrs[1..], h)
  }

  /** Every attribute of the document: elements in document order, attributes in declaration order. */
  function FlatAttrs(doc: Document): seq<Attr>
    decreases |doc|
  {
    if |doc| == 0 then [] else doc[0].attrs + FlatAttrs(doc[1..])
  }

  function ScriptAttributeTokens(doc: Document, h: string -> string): seq<string> {
    AttrListTokens(FlatAttrs(doc), h)
  }

  /** How many attributes the handler rule matches. */
  function HandlerCount(attrs: seq<Attr>): nat
    decreases |attrs|
  {
    if |attrs| == 0 then 0 else (if IsEventHandler(attrs[0].name) then 1 else 0) + HandlerCount(attrs[1..])
  }

  /** How many attributes the `javascript:` rule matches. */
  function JsUrlCount(attrs: seq<Attr>): nat
    decreases |attrs|
  {
    if |attrs| == 0 then 0 else (if IsJsUrl(attrs[0].value) then 1 else 0) + JsUrlCount(attrs[1..])
  }

  /** Token `t` is one that attribute `a` gives under the handler rule or the URL rule. */
  predicate Contributes(a: Attr, t: string, h: string -> string) {
    (IsEventHandler(a.name) && t == h(a.value))
    || (IsJsUrl(a.value) && t == h(JsUrlBody(a.value)))
  }

  /** No deduplication: the token count is the handler-match count plus the URL-match count. */
  lemma {:induction false} AttrListTokensCount(attrs: seq<Attr>, h: string -> string)
    ensures |AttrListTokens(attrs, h)| == HandlerCount(attrs) + JsUrlCount(attrs)
    decreases |attrs|
  {
    if |attrs| > 0 {
      AttrListTokensCount(attrs[1..], h);
    }
  }

  /** A token is produced exactly when some attribute contributes it. */
  lemma {:induction false} AttrListTokensMembership(attrs: seq<Attr>, h: string -> string, t: string)
    ensures t in AttrListTokens(attrs, h) <==> exists a :: a in attrs && Contributes(a, t, h)
    decreases |attrs|
  {
    if |attrs| > 0 {
      AttrListTokensMembership(attrs[1..], h, t);
      assert forall a :: a in attrs <==> a == attrs[0] || a in attrs[1..];
      assert t in AttrTokens(attrs[0], h) <==> Contributes(attrs[0], t, h);
      assert AttrListTokens(attrs, h) == AttrTokens(attrs[0], h) + AttrListTokens(attrs[1..], h);
    }
  }

  /** Tokens follow attribute order: those of earlier attributes come first. */
  lemma {:induction false} AttrListTokensAppend(x: seq<Attr>, y: seq<Attr>, h: string -> string)
    ensures AttrListTokens(x + y, h) == AttrListTokens(x, h) + AttrListTokens(y, h)
    decreases |x|
  {
    if |x| > 0 {
      assert (x + y)[1..] == x[1..] + y;
      AttrListTokensAppend(x[1..], y, h);
    } else {
      assert x + y == y;
    }
  }

  /** The attributes of the document are exactly those of its elements. */
  lemma {:induction false} FlatAttrsMembership(doc: Document, a: Attr)
    ensures a in FlatAttrs(doc) <==> exists i :: 0 <= i < |doc| && a in doc[i].attrs
    decreases |doc|
  {
    if |doc| > 0 {
      FlatAttrsMembership(doc[1..], a);
      if a in FlatAttrs(doc[1..]) {
        var i :| 0 <= i < |doc[1..]| && a in doc[1..][i].attrs;
        assert a in doc[i + 1].attrs;
      }
      if exists i :: 0 <= i < |doc| && a in doc[i].attrs {
        var i :| 0 <= i < |doc| && a in doc[i].attrs;
        if i > 0 { assert doc[1..][i - 1] == doc[i]; }
      }
    }
  }

  lemma {:induction false} FlatAttrsAppend(a: Document, b: Document)
    ensures FlatAttrs(a + b) == FlatAttrs(a) + FlatAttrs(b)
    decreases |a|
  {
    if |a| > 0 {
      assert (a + b)[1..] == a[1..] + b;
      FlatAttrsAppend(a[1..], b);
    } else {
      assert a + b == b;
    }
  }

  /**
   * The script-attribute tokens of a document: their number is the number of
   * handler matches plus the number of URL matches over all attributes, and a
   * token occurs exactly when some attribute of some element contributes it.
   */
  lemma ScriptAttributesExact(doc: Document, h: string -> string, t: string)
    ensures |ScriptAttributeTokens(doc, h)| == HandlerCount(FlatAttrs(doc)) + JsUrlCount(FlatAttrs(doc))
    ensures t in ScriptAttributeTokens(doc, h)
            <==> exists i, a :: 0 <= i < |doc| && a in doc[i].attrs && Contributes(a, t, h)
  {
    AttrListTokensCount(FlatAttrs(doc), h);
    AttrListTokensMembership(FlatAttrs(doc), h, t);
    forall a { FlatAttrsMembership(doc, a); }
  }

  /** Element `i`'s attribute tokens sit between those of the elements before and after it. */
  lemma ScriptAttributesOrder(doc: Document, i: nat, h: string -> string)
    requires i < |doc|
    ensures ScriptAttributeTokens(doc, h)
            == ScriptAttributeTokens(doc[..i], h) + AttrListTokens(doc[i].attrs, h) + ScriptAttributeTokens(doc[i + 1..], h)
  {
    assert doc == doc[..i] + [doc[i]] + doc[i + 1..];
    FlatAttrsAppend(doc[..i] + [doc[i]], doc[i + 1..]);
    FlatAttrsAppend(doc[..i], [doc[i]]);
    assert FlatAttrs([doc[i]]) == doc[i].attrs + FlatAttrs([]);
    assert doc[i].attrs + [] == doc[i].attrs;
    AttrListTokensAppend(FlatAttrs(doc[..i]) + doc[i].attrs, FlatAttrs(doc[i + 1..]), h);
    AttrListTokensAppend(FlatAttrs(doc[..i]), doc[i].attrs, h);
  }

  /** One attribute can count twice: a handler whose value is a `javascript:` URL gives two tokens. */
  lemma HandlerAndJsUrl(a: Attr, h: string -> string)
    requires IsEventHandler(a.name) && IsJsUrl(a.value)
    ensures AttrListTokens([a], h) == [h(a.value), h(a.value[11..])]
  {
    assert [a][1..] == [];
  }

  /**
   * The URL test is anchored: any character in front of a `javascript:` URL
   * (`jjavascript:x`, ` javascript:x`) defeats it.
   */
  lemma JsUrlAnchored(c: char, w: string)
    requires CiStartsWith(w, JsUrlPrefix)
    ensures !IsJsUrl([c] + w)
  {
    assert ([c] + w)[1] == w[0];
    assert SameFold(w[0], JsUrlPrefix[0]);
    assert !SameFold(([c] + w)[1], JsUrlPrefix[1]);
  }

  // ----------------------------------------------------------------------
  // The whole collection.
  // ----------------------------------------------------------------------

  /**
   * `collectHashes`: script and style inline bodies, then style attributes,
   * then handler and URL attributes.  Style elements take tokens only from
   * their inline bodies; every attribute token goes to `script.attributes`
   * except those of `style` attributes.
   */
  function CollectHashes(doc: Document, h: string -> string): (r: Hashes)
    ensures ExactlyFrom(r.script.elements, doc, InlineBody("script"), h)
    ensures ExactlyFrom(r.style.elements, doc, InlineBody("style"), h)
    ensures ExactlyFrom(r.style.attributes, doc, StyleAttribute, h)
    ensures |r.script.attributes| == HandlerCount(FlatAttrs(doc)) + JsUrlCount(FlatAttrs(doc))
    ensures forall t :: t in r.script.attributes
              <==> exists i, a :: 0 <= i < |doc| && a in doc[i].attrs && Contributes(a, t, h)
  {
    RuleTokensExact(doc, InlineBody("script"), h);
    RuleTokensExact(doc, InlineBody("style"), h);
    RuleTokensExact(doc, StyleAttribute, h);
    forall t ensures t in ScriptAttributeTokens(doc, h)
              <==> exists i, a :: 0 <= i < |doc| && a in doc[i].attrs && Contributes(a, t, h)
    {
      ScriptAttributesExact(doc, h, t);
    }
    ScriptAttributesExact(doc, h, []);
    Hashes(
      Bucket(RuleTokens(doc, InlineBody("script"), h), ScriptAttributeTokens(doc, h)),
      Bucket(RuleTokens(doc, InlineBody("style"), h), RuleTokens(doc, StyleAttribute, h)))
  }

  /** One inline script and one external script: one element token, no attribute tokens. */
  lemma InlineAndExternalScript(h: string -> string)
    ensures var doc := [Element("script", [], "console.log(1)"), Element("script", [Attr("src", "x.js")], "")];
            var r := CollectHashes(doc, h);
            r.script.elements == [h("console.log(1)")] && r.script.attributes == []
  {
    var e0 := Element("script", [], "console.log(1)");
    var e1 := Element("script", [Attr("src", "x.js")], "");
    var doc := [e0, e1];
    assert doc[1..] == [e1] && [e1][1..] == [];
    assert Attr("src", "x.js") in e1.attrs;
    assert RuleTokens([e1], InlineBody("script"), h) == [];
    assert RuleTokens(doc, InlineBody("script"), h) == [h("console.log(1)")];
    assert FlatAttrs(doc) == [Attr("src", "x.js")] by {
      assert FlatAttrs([e1]) == [Attr("src", "x.js")] + FlatAttrs([]);
    }
    assert AttrListTokens([Attr("src", "x.js")], h) == [] by {
      assert !IsJsUrl("x.js");
      assert !SameFold("src"[0], "on"[0]);
      assert [Attr("src", "x.js")][1..] == [];
    }
  }

  /** A `style` attribute gives one style-attribute token for its literal value. */
  lemma StyleAttributeScenario(h: string -> string)
    ensures var doc := [Element("div", [Attr("style", "color:red")], "")];
            var r := CollectHashes(doc, h);
            r.style.attributes == [h("color:red")] && r.style.elements == []
  {
    var doc := [Element("div", [Attr("style", "color:red")], "")];
    assert Attr("style", "color:red") in doc[0].attrs;
    assert doc[1..] == [];
  }
}
