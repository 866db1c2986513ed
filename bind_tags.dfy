/**
 * The tag-level pass of `convert_amp_bind_attributes`: which start tags the
 * pattern `<(?P<name>[a-zA-Z0-9_\-]+)(?P<attrs>\s[^>]+\]=[^>]+)>` picks
 * out, and the document-wide `preg_replace_callback` that hands each of
 * them to the attribute rewrite of module `Bind`.
 */
module BindTags {
  import opened Text
  import opened Bind

  /** A start tag the tag pattern matched: its name and its attribute span. */
  datatype Tag = Tag(name: string, attrs: string)

  /** The text the tag pattern consumes: `<`, name, attributes, `>`. */
  function TagText(t: Tag): string
  {
    "<" + t.name + t.attrs + ">"
  }

  /** `]=` with at least one character before it after the leading `\s`, and one after it. */
  predicate HasBindEq(attrs: string)
  {
    exists k :: 2 <= k <= |attrs| - 3 && attrs[k] == ']' && attrs[k + 1] == '='
  }

  /** All characters of `s` are name characters and there is at least one. */
  predicate IsName(s: string)
  {
    s != [] && forall i :: 0 <= i < |s| ==> IsNameChar(s[i])
  }

  /** The conditions under which the tag pattern matches `<name attrs>`. */
  predicate TagOk(t: Tag)
  {
    IsName(t.name) && t.attrs != [] && IsSpace(t.attrs[0]) && Lacks(t.attrs, '>') && HasBindEq(t.attrs)
  }

  /**
   * The tag pattern tried at the front of `s`. The name group cannot give
   * back characters (a name character is never `\s`), and neither
   * attribute class admits `>`, so the span runs exactly to the first `>`.
   */
  function TagMatch(s: string): (r: Option<Tag>)
    ensures s == [] || s[0] != '<' ==> r.None?
  {
    if s == [] || s[0] != '<' then None
    else
      var n := NameRun(s[1..]);
      if n == 0 then None
      else match IndexOf(s[1 + n..], '>')
        case None => None
        case Some(j) =>
          var t := Tag(s[1..1 + n], s[1 + n..1 + n + j]);
          if t.attrs != [] && IsSpace(t.attrs[0]) && HasBindEq(t.attrs) then Some(t) else None
  }

  /** What the tag pattern matches is a described start tag at the front of `s`. */
  lemma TagMatchSound(s: string)
    ensures TagMatch(s).Some? ==> TagOk(TagMatch(s).value) && StartsWith(s, TagText(TagMatch(s).value))
  {
    if TagMatch(s).Some? {
      var n := NameRun(s[1..]);
      TagMatchText(s, n, IndexOf(s[1 + n..], '>').value);
    }
  }

  lemma TagMatchText(s: string, n: nat, j: nat)
    requires 1 <= n && 1 + n + j < |s| && s[0] == '<' && s[1 + n + j] == '>'
    requires n == NameRun(s[1..]) && Lacks(s[1 + n..][..j], '>')
    ensures IsName(s[1..1 + n]) && Lacks(s[1 + n..1 + n + j], '>')
    ensures StartsWith(s, TagText(Tag(s[1..1 + n], s[1 + n..1 + n + j])))
  {
    assert forall i :: 0 <= i < n ==> s[1..1 + n][i] == s[1..][i];
    assert s[1 + n..1 + n + j] == s[1 + n..][..j];
    assert s[..2 + n + j] == [s[0]] + s[1..1 + n] + s[1 + n..1 + n + j] + [s[1 + n + j]];
  }

  /** The pieces of a text that starts with a tag's text. */
  lemma TagTextAt(s: string, t: Tag)
    requires StartsWith(s, TagText(t))
    ensures 1 + |t.name| + |t.attrs| < |s|
    ensures s[0] == '<' && s[1..1 + |t.name|] == t.name
    ensures s[1 + |t.name|..][..|t.attrs|] == t.attrs
    ensures s[1 + |t.name|..][|t.attrs|] == '>'
    ensures s[1 + |t.name|..1 + |t.name| + |t.attrs|] == t.attrs
  {
    var n := |t.name|;
    var j := |t.attrs|;
    var tt := TagText(t);
    assert s[..2 + n + j] == tt;
    assert forall i :: 0 <= i < n ==> tt[1 + i] == t.name[i];
    assert forall i :: 0 <= i < j ==> tt[1 + n + i] == t.attrs[i];
    assert s[1..1 + n] == t.name;
    assert s[1 + n..1 + n + j] == t.attrs;
    assert s[1 + n..][..j] == s[1 + n..1 + n + j];
  }

  /** The tag pattern matches every start tag it describes, and nothing longer or shorter. */
  lemma TagMatchComplete(s: string, t: Tag)
    requires TagOk(t) && StartsWith(s, TagText(t))
    ensures TagMatch(s) == Some(t)
  {
    var n, j := |t.name|, |t.attrs|;
    TagTextAt(s, t);
    TagNameRun(s, t);
    IndexOfFirst(s[1 + n..], '>', j);
    assert s[1 + n..1 + n + j] == t.attrs;
    TagMatchFrom(s, n, j);
    SomeTag(TagMatch(s), t);
  }

  lemma SomeTag(o: Option<Tag>, t: Tag)
    requires o.Some? && o.value.name == t.name && o.value.attrs == t.attrs
    ensures o == Some(t)
  {
  }

  /** The tag pattern's result once the name run and the first `>` are known. */
  lemma TagMatchFrom(s: string, n: nat, j: nat)
    requires s != [] && s[0] == '<' && 1 <= n && n == NameRun(s[1..])
    requires IndexOf(s[1 + n..], '>') == Some(j)
    requires j >= 1 && IsSpace(s[1 + n..1 + n + j][0]) && HasBindEq(s[1 + n..1 + n + j])
    ensures TagMatch(s).Some?
    ensures TagMatch(s).value.name == s[1..1 + n] && TagMatch(s).value.attrs == s[1 + n..1 + n + j]
  {
    var a := s[1 + n..1 + n + j];
    assert a != [] && IsSpace(a[0]) && HasBindEq(a);
    assert TagMatch(s) == Some(Tag(s[1..1 + n], a));
  }

  /** The name group of a described tag is its whole name. */
  lemma TagNameRun(s: string, t: Tag)
    requires TagOk(t) && StartsWith(s, TagText(t))
    ensures NameRun(s[1..]) == |t.name|
  {
    var n := |t.name|;
    TagTextAt(s, t);
    assert forall i :: 0 <= i < n ==> s[1..][i] == s[1..1 + n][i];
    assert s[1..][n] == s[1 + n..][..|t.attrs|][0];
    NameRunExact(s[1..], n);
  }

  /** Length of the text a tag match consumes. */
  function TagLen(t: Tag): nat
  {
    |t.name| + |t.attrs| + 2
  }

  /**
   * `preg_replace_callback` with the tag pattern: every match, scanning
   * left to right without overlap, is replaced by the callback's result,
   * and all other text is copied.
   */
  function Convert(s: string, prefix: string): (r: string)
    ensures Absent("]=", s) ==> r == s
    decreases |s|
  {
    if s == [] then []
    else match TagMatch(s)
      case Some(t) =>
        TagMatchSound(s);
        TagMatchBindEq(s);
        TagReplacement(t.name, t.attrs, prefix) + Convert(s[TagLen(t)..], prefix)
      case None =>
        AbsentRest("]=", s);
        [s[0]] + Convert(s[1..], prefix)
  }

  /** Where the tag pattern does not match, one character is copied and the scan moves on. */
  lemma ConvertCopy(s: string, prefix: string)
    requires s != [] && TagMatch(s).None?
    ensures Convert(s, prefix) == [s[0]] + Convert(s[1..], prefix)
  {
  }

  /** A tag match contains `]=`. */
  lemma TagMatchBindEq(s: string)
    ensures Absent("]=", s) ==> TagMatch(s).None?
  {
    if TagMatch(s).Some? {
      TagMatchSound(s);
      TagHasBindEq(s, TagMatch(s).value);
    }
  }

  lemma TagHasBindEq(s: string, t: Tag)
    requires TagOk(t) && StartsWith(s, TagText(t))
    ensures !Absent("]=", s)
  {
    var k :| 2 <= k <= |t.attrs| - 3 && t.attrs[k] == ']' && t.attrs[k + 1] == '=';
    BindEqAt(s, t, k);
  }

  lemma BindEqAt(s: string, t: Tag, k: nat)
    requires StartsWith(s, TagText(t))
    requires k + 1 < |t.attrs| && t.attrs[k] == ']' && t.attrs[k + 1] == '='
    ensures 1 + |t.name| + k <= |s| && StartsWith(s[1 + |t.name| + k..], "]=")
  {
    TagTextAt(s, t);
    var i := 1 + |t.name| + k;
    assert s[i] == t.attrs[k] && s[i + 1] == t.attrs[k + 1];
    assert s[i..][..2] == "]=";
  }

  /** Text before the first `<` is copied verbatim. */
  lemma {:induction false} ConvertCopiesPlainText(x: string, y: string, prefix: string)
    requires Lacks(x, '<')
    ensures Convert(x + y, prefix) == x + Convert(y, prefix)
    decreases |x|
  {
    if x == [] {
      assert x + y == y;
    } else {
      ConsSplit(x, y);
      ConvertCopy(x + y, prefix);
      ConvertCopiesPlainText(x[1..], y, prefix);
      ConsJoin(x, Convert(y, prefix));
    }
  }
}
