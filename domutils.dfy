/**
 * The text pipeline around the DOM parse and serialise step of `AMP_DOM_Utils`:
 * the rewrites `get_dom` applies before `loadHTML`, the post-processing of
 * each serialised node in `get_content_from_dom_node`, the concatenation of
 * the body's children in `get_content_from_dom`, and the document wrapper of
 * `get_dom_from_content`. The parse and serialise step itself is not modelled:
 * a node arrives here as the text `saveHTML` produced for it.
 */
module DomUtils {
  import opened Text
  import opened Placeholders
  import Mustache
  import Bind
  import BindTags
  import BindRestore
  import VoidTags

  // ---------------------------------------------------------------------------
  // get_dom: before parsing

  /**
   * The rewrites `get_dom` applies, in order, before handing the document to
   * the parser: binding attributes renamed, template delimiters replaced by
   * placeholders, listed start tags given their end tags. No `{{` or `}}`
   * reaches the parser, and text without markup or delimiters reaches it
   * unchanged.
   */
  function PrepareDocument(doc: string, prefix: string, ph: seq<string>): (r: string)
    requires ValidPlaceholders(ph)
    ensures Absent("{{", r) && Absent("}}", r)
    ensures Lacks(doc, '<') && Lacks(doc, '{') && Lacks(doc, '}') ==> r == doc
  {
    ConvertPlain(doc, prefix);
    var e := Mustache.Encode(BindTags.Convert(doc, prefix), ph);
    VoidTags.CloseVoidKeepsBraces(e);
    VoidTags.CloseVoidTags(e)
  }

  lemma ConvertPlain(doc: string, prefix: string)
    ensures Lacks(doc, '<') ==> BindTags.Convert(doc, prefix) == doc
  {
    if Lacks(doc, '<') {
      assert doc + [] == doc;
      BindTags.ConvertCopiesPlainText(doc, [], prefix);
    }
  }

  // ---------------------------------------------------------------------------
  // get_content_from_dom_node: after serialising

  /**
   * The post-processing of one serialised node: whitespace-only text becomes
   * empty; otherwise binding attributes are restored, placeholders are turned
   * back into delimiters, and every listed end tag is removed. Text without
   * markup, prefix or placeholders comes back as it is.
   */
  function NodeContent(html: string, prefix: string, ph: seq<string>): (r: string)
    requires ValidPlaceholders(ph)
    ensures TrimsToEmpty(html) ==> r == []
    ensures !TrimsToEmpty(html) && Lacks(html, '<') && Absent(prefix, html) && FreeOfPlaceholders(html, ph) ==> r == html
  {
    if TrimsToEmpty(html) then []
    else VoidTags.StripVoidEndTags(Mustache.Decode(BindRestore.Restore(html, prefix), ph))
  }

  /**
   * A listed end tag, in any letter case, is deleted and the text around it
   * is kept.
   */
  lemma NodeContentDropsVoidEndTag(x: string, w: string, y: string, prefix: string, ph: seq<string>)
    requires ValidPlaceholders(ph)
    requires Lacks(x, '<') && VoidTags.IsSelfClosingTag(w)
    requires Absent(prefix, x + VoidTags.EndTag(w) + y) && FreeOfPlaceholders(x + VoidTags.EndTag(w) + y, ph)
    ensures NodeContent(x + VoidTags.EndTag(w) + y, prefix, ph) == x + VoidTags.StripVoidEndTags(y)
  {
    var html := x + VoidTags.EndTag(w) + y;
    assert html[|x|] == '<';
    StripAfterPlainText(x, w, y);
  }

  lemma StripAfterPlainText(x: string, w: string, y: string)
    requires Lacks(x, '<') && VoidTags.IsSelfClosingTag(w)
    ensures VoidTags.StripVoidEndTags(x + VoidTags.EndTag(w) + y) == x + VoidTags.StripVoidEndTags(y)
  {
    Assoc(x, VoidTags.EndTag(w), y);
    VoidTags.StripCopiesPlainText(x, VoidTags.EndTag(w) + y, VoidTags.VoidNames);
    VoidTags.VoidNamesAreLower();
    VoidTags.StripDeletesEndTag(w, y, VoidTags.VoidNames);
  }

  /**
   * Text without markup, template delimiters included, goes through the
   * rewrites before parsing and the post-processing after serialising and
   * comes out as it went in, provided no `\s` character in it is followed
   * by the prefix: the delimiters become placeholders and back, and no
   * placeholder brings in a `<` or a place where the restore pattern could
   * start.
   */
  lemma PlainTextRoundTrip(doc: string, prefix: string, ph: seq<string>)
    requires ValidPlaceholders(ph) && Bind.PrefixShape(prefix)
    requires Lacks(doc, '<')
    requires BindRestore.NoMatchSite(doc, prefix) && FreeOfPlaceholders(doc, ph) && !TrimsToEmpty(doc)
    ensures NodeContent(PrepareDocument(doc, prefix, ph), prefix, ph) == doc
  {
    var e := Mustache.Encode(doc, ph);
    ConvertPlain(doc, prefix);
    LacksAbsent(doc, "<");
    Mustache.EncodeKeepsAbsent(doc, "<", ph);
    AbsentLacks(e, '<');
    assert PrepareDocument(doc, prefix, ph) == e;
    Mustache.EncodeKeepsNonBlank(doc, ph);
    EncodedHasNoMatchSite(doc, prefix, ph);
    BindRestore.RestoreWithoutSite(e, prefix);
    Mustache.DecodeEncode(doc, ph);
  }

  /** Encoding gives the restore pattern no place to start that the text did not have. */
  lemma EncodedHasNoMatchSite(doc: string, prefix: string, ph: seq<string>)
    requires ValidPlaceholders(ph) && Bind.PrefixShape(prefix) && BindRestore.NoMatchSite(doc, prefix)
    ensures BindRestore.NoMatchSite(Mustache.Encode(doc, ph), prefix)
  {
    var e := Mustache.Encode(doc, ph);
    BindRestore.PrefixLacksUnderscore(prefix);
    forall i | 0 <= i < |e| && IsSpace(e[i])
      ensures !StartsWith(e[i + 1..], prefix)
    {
      var w := [e[i]] + prefix;
      BindRestore.NoMatchSiteAbsent(doc, prefix, e[i]);
      Mustache.EncodeKeepsAbsent(doc, w, ph);
      assert e[i..][1..] == e[i + 1..] && e[i..][0] == e[i];
      StartsWithHead(e[i..], prefix);
    }
  }

  /**
   * Markup does not survive the round trip in general: an explicit end tag
   * of a listed element, which the parser is given as written, is deleted
   * afterwards, so `<br></br>` comes back as `<br>`. This holds for every
   * listed name but `basefont`, whose start tag also matches as `base`.
   */
  lemma ExplicitVoidEndTagLost(n: string, prefix: string, ph: seq<string>)
    requires ValidPlaceholders(ph) && Bind.PrefixShape(prefix)
    requires n in VoidTags.VoidNames && VoidTags.NoListedPrefix(n, VoidTags.VoidNames)
    ensures NodeContent(PrepareDocument(VoidTags.StartTag(n, "") + VoidTags.EndTag(n), prefix, ph), prefix, ph)
            == VoidTags.StartTag(n, "")
  {
    PairPrepared(n, prefix, ph);
    VoidTags.VoidNameLengths(n);
    NodeContentOfShortMarkup(VoidTags.StartTag(n, "") + VoidTags.EndTag(n), prefix, ph);
    VoidTags.PairStrippedVoid(n);
  }

  /** Markup too short to hold the prefix or a placeholder is only stripped of listed end tags. */
  lemma NodeContentOfShortMarkup(html: string, prefix: string, ph: seq<string>)
    requires ValidPlaceholders(ph) && |html| < |prefix| && |html| < 46
    requires html != [] && html[0] == '<'
    ensures NodeContent(html, prefix, ph) == VoidTags.StripVoidEndTags(html)
  {
    assert !TrimsToEmpty(html) by {
      assert !IsTrimmable(html[0]);
    }
    ShortAbsent(prefix, html);
    forall k | 0 <= k < |ph|
      ensures Absent(ph[k], html)
    {
      ShortAbsent(ph[k], html);
    }
  }

  /** `<n></n>` reaches the parser as it is: the look-ahead keeps `<n>` from gaining a second end tag. */
  lemma PairPrepared(n: string, prefix: string, ph: seq<string>)
    requires ValidPlaceholders(ph)
    requires n in VoidTags.VoidNames && VoidTags.NoListedPrefix(n, VoidTags.VoidNames)
    ensures PrepareDocument(VoidTags.StartTag(n, "") + VoidTags.EndTag(n), prefix, ph)
            == VoidTags.StartTag(n, "") + VoidTags.EndTag(n)
  {
    var names := VoidTags.VoidNames;
    var s := VoidTags.StartTag(n, "") + VoidTags.EndTag(n);
    VoidTags.VoidNamesAreLower();
    VoidTags.NameIsLower(n, names);
    VoidTags.PairLacks(n, ']');
    VoidTags.PairLacks(n, '{');
    VoidTags.PairLacks(n, '}');
    LacksAbsent(s, "]=");
    assert s + [] == s;
    VoidTags.CloseKeepsClosed(n, "", [], names);
  }

  // ---------------------------------------------------------------------------
  // get_content_from_dom: the body's children

  /** The body's content: each child's post-processed text, in document order. */
  function BodyContent(children: seq<string>, prefix: string, ph: seq<string>): string
    requires ValidPlaceholders(ph)
  {
    if children == [] then []
    else BodyContent(children[..|children| - 1], prefix, ph) + NodeContent(children[|children| - 1], prefix, ph)
  }

  /**
   * `get_content_from_dom`: empty when the document has no body, otherwise the
   * children's texts appended one after another. `body` holds the text
   * `saveHTML` produced for each child of the body element.
   */
  method ContentFromDom(body: Option<seq<string>>, prefix: string, ph: seq<string>) returns (out: string)
    requires ValidPlaceholders(ph)
    ensures body.None? ==> out == []
    ensures body.Some? ==> out == BodyContent(body.value, prefix, ph)
  {
    out := [];
    if body.None? {
      return;
    }
    var children := body.value;
    var i := 0;
    while i < |children|
      invariant i <= |children|
      invariant out == BodyContent(children[..i], prefix, ph)
    {
      assert children[..i + 1][..i] == children[..i];
      out := out + NodeContent(children[i], prefix, ph);
      i := i + 1;
    }
    assert children[..i] == children;
  }

  /** The content of two runs of children is the content of the first followed by that of the second. */
  lemma {:induction false} BodyContentAppend(xs: seq<string>, ys: seq<string>, prefix: string, ph: seq<string>)
    requires ValidPlaceholders(ph)
    ensures BodyContent(xs + ys, prefix, ph) == BodyContent(xs, prefix, ph) + BodyContent(ys, prefix, ph)
    decreases |ys|
  {
    if ys == [] {
      assert xs + ys == xs;
    } else {
      var zs := ys[..|ys| - 1];
      assert (xs + ys)[..|xs + ys| - 1] == xs + zs;
      assert (xs + ys)[|xs + ys| - 1] == ys[|ys| - 1];
      BodyContentAppend(xs, zs, prefix, ph);
      Assoc(BodyContent(xs, prefix, ph), BodyContent(zs, prefix, ph), NodeContent(ys[|ys| - 1], prefix, ph));
    }
  }

  /** Children that serialise to whitespace alone contribute nothing. */
  lemma {:induction false} BodyContentOfBlankChildren(children: seq<string>, prefix: string, ph: seq<string>)
    requires ValidPlaceholders(ph)
    requires forall k :: 0 <= k < |children| ==> TrimsToEmpty(children[k])
    ensures BodyContent(children, prefix, ph) == []
    decreases |children|
  {
    if children != [] {
      var front := children[..|children| - 1];
      assert forall k :: 0 <= k < |front| ==> front[k] == children[k];
      BodyContentOfBlankChildren(front, prefix, ph);
    }
  }

  // ---------------------------------------------------------------------------
  // get_dom_from_content: the wrapper document

  /** Everything the wrapper puts before the content; `charset` is the site's configured charset. */
  function WrapHead(charset: string): string
  {
    "<html><head><meta http-equiv=\"content-type\" content=\"text/html; charset=" + charset + "\"></head><body>"
  }

  const WrapTail: string := "</body></html>"

  /**
   * The document `get_dom_from_content` hands to `get_dom`: the content as
   * the body of a page whose head declares the charset. The content sits
   * between the head and the tail and can be cut back out.
   */
  function WrapContent(charset: string, content: string): (r: string)
    ensures |r| == |WrapHead(charset)| + |content| + |WrapTail|
    ensures StartsWith(r, WrapHead(charset))
    ensures r[|WrapHead(charset)|..|r| - |WrapTail|] == content
    ensures r[|r| - |WrapTail|..] == WrapTail
  {
    var h := WrapHead(charset);
    var r := h + content + WrapTail;
    assert r[..|h|] == h;
    assert r[|h|..|r| - |WrapTail|] == content;
    r
  }

  /**
   * `get_dom_from_content` up to the parser: the wrapped content, rewritten
   * as `get_dom` does. Whatever the content and the charset, no `{{` or `}}`
   * reaches the parser.
   */
  function DocumentFromContent(charset: string, content: string, prefix: string, ph: seq<string>): (r: string)
    requires ValidPlaceholders(ph)
    ensures Absent("{{", r) && Absent("}}", r)
  {
    PrepareDocument(WrapContent(charset, content), prefix, ph)
  }
}
