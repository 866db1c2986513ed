/**
 * `restore_amp_bind_attributes`: the single substitution
 * `\s<prefix>([a-zA-Z0-9_\-]+)` → ` [$1]` over the serialised document, and
 * the conditions under which it undoes `convert_amp_bind_attributes`.
 */
module BindRestore {
  import opened Text
  import opened Bind
  import opened BindTags

  /**
   * Length of a match of `\s<prefix>([a-zA-Z0-9_\-]+)` at the front of `s`,
   * 0 when there is none. The name group is greedy and nothing follows it,
   * so it takes the whole run of name characters.
   */
  function BindMatch(s: string, prefix: string): (m: nat)
    ensures m == 0 || (|prefix| + 2 <= m <= |s| && IsSpace(s[0]) && StartsWith(s[1..], prefix))
    ensures m != 0 ==> IsName(s[1 + |prefix|..m])
    ensures m != 0 ==> m == |s| || !IsNameChar(s[m])
  {
    if s != [] && IsSpace(s[0]) && StartsWith(s[1..], prefix) then
      var n := NameRun(s[1 + |prefix|..]);
      if n == 0 then 0
      else
        BindMatchName(s, |prefix|, n);
        1 + |prefix| + n
    else 0
  }

  lemma BindMatchName(s: string, p: nat, n: nat)
    requires 1 + p <= |s| && 1 <= n && n == NameRun(s[1 + p..])
    ensures IsName(s[1 + p..1 + p + n])
    ensures 1 + p + n == |s| || !IsNameChar(s[1 + p + n])
  {
    var u := s[1 + p..];
    assert s[1 + p..1 + p + n] == u[..n];
  }

  /** A match is found exactly when a `\s` character, the prefix and a non-empty name follow each other. */
  lemma BindMatchComplete(s: string, prefix: string)
    ensures BindMatch(s, prefix) != 0
            <==> s != [] && IsSpace(s[0]) && StartsWith(s[1..], prefix) && NameRun(s[1 + |prefix|..]) > 0
  {
  }

  /** `preg_replace` of the restore pattern: every match, left to right, becomes ` [NAME]`. */
  function Restore(s: string, prefix: string): (r: string)
    ensures Absent(prefix, s) ==> r == s
    decreases |s|
  {
    if s == [] then []
    else
      var m := BindMatch(s, prefix);
      if m == 0 then
        AbsentRest(prefix, s);
        [s[0]] + Restore(s[1..], prefix)
      else " [" + s[1 + |prefix|..m] + "]" + Restore(s[m..], prefix)
  }

  /** No `\s` character is followed by the prefix, so the pattern has nowhere to start. */
  predicate NoMatchSite(s: string, prefix: string)
  {
    forall i :: 0 <= i < |s| && IsSpace(s[i]) ==> !StartsWith(s[i + 1..], prefix)
  }

  /** Where the pattern has nowhere to start, no `\s` character followed by the prefix occurs. */
  lemma NoMatchSiteAbsent(s: string, prefix: string, c: char)
    requires NoMatchSite(s, prefix) && IsSpace(c)
    ensures Absent([c] + prefix, s)
  {
    forall i | 0 <= i <= |s|
      ensures !StartsWith(s[i..], [c] + prefix)
    {
      ConsParts(c, prefix);
      if i < |s| {
        assert s[i..][1..] == s[i + 1..] && s[i..][0] == s[i];
      }
      if StartsWith(s[i..], [c] + prefix) {
        StartsWithTail(s[i..], [c] + prefix);
      }
    }
  }

  /** Text in which the pattern has nowhere to start is copied. */
  lemma {:induction false} RestoreWithoutSite(s: string, prefix: string)
    requires NoMatchSite(s, prefix)
    ensures Restore(s, prefix) == s
    decreases |s|
  {
    if s != [] {
      assert BindMatch(s, prefix) == 0;
      forall i | 0 <= i < |s[1..]| && IsSpace(s[1..][i])
        ensures !StartsWith(s[1..][i + 1..], prefix)
      {
        assert s[1..][i + 1..] == s[i + 2..];
      }
      RestoreWithoutSite(s[1..], prefix);
      RestoreCopy(s, prefix);
    }
  }

  /** The prefix is a run of name characters. */
  predicate PrefixOk(prefix: string)
  {
    IsName(prefix)
  }

  lemma ShapeIsOk(prefix: string)
    requires PrefixShape(prefix)
    ensures PrefixOk(prefix)
  {
    PrefixChars(prefix);
  }

  /** The prefix holds no `_`, the first character of every template placeholder. */
  lemma PrefixLacksUnderscore(p: string)
    requires PrefixShape(p)
    ensures Lacks(p, '_')
  {
    forall i | 0 <= i < |p| ensures p[i] != '_' {
      if i < 12 {
        assert p[i] == p[..12][i];
      }
    }
  }

  /** Where no match starts, the first character is copied. */
  lemma RestoreCopy(s: string, prefix: string)
    requires s != [] && BindMatch(s, prefix) == 0
    ensures Restore(s, prefix) == [s[0]] + Restore(s[1..], prefix)
  {
  }

  /** Where a match starts, it is rewritten and the scan resumes after it. */
  lemma RestoreRewrite(s: string, prefix: string, m: nat)
    requires m == BindMatch(s, prefix) && m != 0
    ensures Restore(s, prefix) == " [" + s[1 + |prefix|..m] + "]" + Restore(s[m..], prefix)
  {
  }

  /** A match that starts in `u` cannot run on into text that starts with a non-name character. */
  lemma BindMatchCut(u: string, v: string, prefix: string)
    requires PrefixOk(prefix) && u != [] && (v == [] || !IsNameChar(v[0]))
    ensures BindMatch(u + v, prefix) == BindMatch(u, prefix)
  {
    var w := u + v;
    var p := |prefix|;
    if v == [] {
      assert w == u;
    } else if |u| <= p {
      assert w[1..][|u| - 1] == v[0];
      assert IsNameChar(prefix[|u| - 1]);
      assert p > |w[1..]| || w[1..][..p][|u| - 1] != prefix[|u| - 1];
    } else {
      assert w[1..][..p] == u[1..][..p];
      if IsSpace(u[0]) && StartsWith(u[1..], prefix) {
        assert w[1 + p..] == u[1 + p..] + v;
        NameRunCut(u[1 + p..], v);
      }
    }
  }

  /** The substitution distributes over a cut before a non-name character. */
  lemma {:induction false} RestoreSplit(x: string, y: string, prefix: string)
    requires PrefixOk(prefix) && (y == [] || !IsNameChar(y[0]))
    ensures Restore(x + y, prefix) == Restore(x, prefix) + Restore(y, prefix)
    decreases |x|, 1
  {
    if x == [] {
      assert x + y == y && Restore(x, prefix) == [];
    } else {
      RestoreSplitStep(x, y, prefix);
    }
  }

  /** One step of the scan over a non-empty `x`: a copied character or a rewritten match. */
  lemma {:induction false} RestoreSplitStep(x: string, y: string, prefix: string)
    requires PrefixOk(prefix) && (y == [] || !IsNameChar(y[0])) && x != []
    ensures Restore(x + y, prefix) == Restore(x, prefix) + Restore(y, prefix)
    decreases |x|, 0
  {
    var m := BindMatch(x, prefix);
    if m == 0 {
      RestoreSplit(x[1..], y, prefix);
      RestoreSplitCopy(x, y, prefix);
    } else {
      RestoreSplit(x[m..], y, prefix);
      RestoreSplitRewrite(x, y, prefix, m);
    }
  }

  lemma RestoreSplitCopy(x: string, y: string, prefix: string)
    requires PrefixOk(prefix) && (y == [] || !IsNameChar(y[0]))
    requires x != [] && BindMatch(x, prefix) == 0
    requires Restore(x[1..] + y, prefix) == Restore(x[1..], prefix) + Restore(y, prefix)
    ensures Restore(x + y, prefix) == Restore(x, prefix) + Restore(y, prefix)
  {
    BindMatchCut(x, y, prefix);
    ConsSplit(x, y);
    RestoreCopy(x + y, prefix);
    RestoreCopy(x, prefix);
    Assoc([x[0]], Restore(x[1..], prefix), Restore(y, prefix));
  }

  lemma RestoreSplitRewrite(x: string, y: string, prefix: string, m: nat)
    requires PrefixOk(prefix) && (y == [] || !IsNameChar(y[0]))
    requires x != [] && m != 0 && BindMatch(x, prefix) == m
    requires Restore(x[m..] + y, prefix) == Restore(x[m..], prefix) + Restore(y, prefix)
    ensures Restore(x + y, prefix) == Restore(x, prefix) + Restore(y, prefix)
  {
    BindMatchCut(x, y, prefix);
    RestoreRewrite(x + y, prefix, m);
    RestoreRewrite(x, prefix, m);
    AppendSlice(x, y, 1 + |prefix|, m);
    Assoc(" [" + x[1 + |prefix|..m] + "]", Restore(x[m..], prefix), Restore(y, prefix));
  }

  /** Text without `\s` characters holds no match and is copied. */
  lemma {:induction false} RestoreSkip(x: string, y: string, prefix: string)
    requires forall i :: 0 <= i < |x| ==> !IsSpace(x[i])
    ensures Restore(x + y, prefix) == x + Restore(y, prefix)
    decreases |x|
  {
    if x == [] {
      assert x + y == y;
    } else {
      ConsSplit(x, y);
      RestoreCopy(x + y, prefix);
      RestoreSkip(x[1..], y, prefix);
      ConsJoin(x, Restore(y, prefix));
    }
  }

  /** A `>` is copied. */
  lemma RestoreGt(y: string, prefix: string)
    ensures Restore(">" + y, prefix) == ">" + Restore(y, prefix)
  {
    ConsSplit(">", y);
    RestoreCopy(">" + y, prefix);
  }

  /** No match runs across a `>`. */
  lemma RestoreAfterClose(x: string, y: string, prefix: string)
    requires PrefixOk(prefix) && x != [] && x[|x| - 1] == '>'
    ensures Restore(x + y, prefix) == Restore(x, prefix) + Restore(y, prefix)
  {
    var h := x[..|x| - 1];
    assert x == h + ">";
    Assoc(h, ">", y);
    RestoreSplit(h, ">" + y, prefix);
    RestoreSplit(h, ">", prefix);
    RestoreGt(y, prefix);
    RestoreGt([], prefix);
    assert ">" + [] == ">";
    Assoc(Restore(h, prefix), ">", Restore(y, prefix));
  }

  // ---------------------------------------------------------------------------
  // One converted tag

  /** PHP `trim('[' . name . ']', '[]')` gives the bare name back. */
  lemma TrimBracketsInner(inner: string)
    requires IsName(inner)
    ensures TrimBrackets("[" + inner + "]") == inner
  {
    var s := "[" + inner + "]";
    var t := inner + "]";
    assert s[1..] == t;
    assert TrimBrackets(s) == TrimBrackets(t);
    assert t[0] == inner[0] && t[|t| - 1] == ']' && t[..|t| - 1] == inner;
    assert TrimBrackets(t) == TrimBrackets(inner);
    assert IsNameChar(inner[0]) && IsNameChar(inner[|inner| - 1]);
  }

  /**
   * A `[name]` attribute restores only when it is preceded by exactly one
   * space and its name is closed by `]`.
   */
  predicate AttrSafe(a: Attr)
  {
    Bracketed(a) ==> a.ws == " " && a.name[|a.name| - 1] == ']'
  }

  /**
   * A tag the conversion either leaves alone (the scan stopped early) or
   * rewrites from a span without trailing whitespace whose bracketed
   * attributes are all safe.
   */
  predicate TagSafe(attrs: string)
  {
    var sc := Scan(RTrim(attrs));
    sc.1 != [] || (RTrim(attrs) == attrs && forall i :: 0 <= i < |sc.0| ==> AttrSafe(sc.0[i]))
  }

  /** ` <prefix>name` is one whole match. */
  lemma RenamedMatch(prefix: string, inner: string)
    requires IsName(inner)
    ensures BindMatch(" " + prefix + inner, prefix) == 1 + |prefix| + |inner|
    ensures (" " + prefix + inner)[1 + |prefix|..1 + |prefix| + |inner|] == inner
  {
    var head := " " + prefix + inner;
    assert head[1..] == prefix + inner;
    assert head[1 + |prefix|..] == inner;
    NameRunExact(inner, |inner|);
  }

  /** ` <prefix>name` restores to ` [name]`. */
  lemma RestoreRenamed(prefix: string, inner: string)
    requires IsName(inner)
    ensures Restore(" " + prefix + inner, prefix) == " [" + inner + "]"
  {
    var head := " " + prefix + inner;
    RenamedMatch(prefix, inner);
    RestoreRewrite(head, prefix, |head|);
    assert head[|head|..] == [];
  }

  /** ` <prefix>name=value` restores to ` [name]=value` when the value holds no prefix. */
  lemma RestoreRenamedValue(prefix: string, inner: string, value: string)
    requires PrefixOk(prefix) && IsName(inner)
    requires (value == [] || value[0] == '=') && Absent(prefix, value)
    ensures Restore(" " + prefix + inner + value, prefix) == " [" + inner + "]" + value
  {
    RestoreSplit(" " + prefix + inner, value, prefix);
    RestoreRenamed(prefix, inner);
  }

  /** The pieces of a safe `[name]` match and of its conversion. */
  lemma BracketedParts(a: Attr, prefix: string, inner: string)
    requires AttrOk(a) && AttrSafe(a) && Bracketed(a) && inner == a.name[1..|a.name| - 1]
    requires Absent(prefix, Matched(a))
    ensures IsName(inner) && Absent(prefix, a.value)
    ensures ConvertAttr(a, prefix) == " " + prefix + inner + a.value
    ensures Matched(a) == " [" + inner + "]" + a.value
  {
    assert a.name == "[" + inner + "]";
    assert forall i :: 0 <= i < |inner| ==> inner[i] == a.name[i + 1];
    TrimBracketsInner(inner);
    AbsentParts(prefix, a.ws + a.name, a.value);
  }

  /** A converted `[name]` attribute restores to the original match. */
  lemma RestoreBracketed(a: Attr, prefix: string)
    requires PrefixOk(prefix) && AttrOk(a) && AttrSafe(a) && Bracketed(a)
    requires Absent(prefix, Matched(a))
    ensures Restore(ConvertAttr(a, prefix), prefix) == Matched(a)
  {
    var inner := a.name[1..|a.name| - 1];
    BracketedParts(a, prefix, inner);
    RestoreRenamedValue(prefix, inner, a.value);
  }

  /** Every converted attribute restores to the original match. */
  lemma RestoreConvertAttr(a: Attr, prefix: string)
    requires PrefixOk(prefix) && AttrOk(a) && AttrSafe(a)
    requires Absent(prefix, Matched(a))
    ensures Restore(ConvertAttr(a, prefix), prefix) == Matched(a)
  {
    if Bracketed(a) {
      RestoreBracketed(a, prefix);
    }
  }

  /** A converted attribute starts with `\s`. */
  lemma ConvertAllHead(toks: seq<Attr>, prefix: string)
    requires forall i :: 0 <= i < |toks| ==> AttrOk(toks[i])
    ensures ConvertAll(toks, prefix) == [] || IsSpace(ConvertAll(toks, prefix)[0])
  {
    if toks != [] {
      var c := ConvertAttr(toks[0], prefix);
      assert c != [] && IsSpace(c[0]);
      assert (c + ConvertAll(toks[1..], prefix))[0] == c[0];
    }
  }

  /** The converted attribute span followed by `>` restores to the original span and `>`. */
  lemma {:induction false} RestoreConvertAll(toks: seq<Attr>, prefix: string)
    requires PrefixOk(prefix)
    requires forall i :: 0 <= i < |toks| ==> AttrOk(toks[i]) && AttrSafe(toks[i])
    requires Absent(prefix, Concat(toks))
    ensures Restore(ConvertAll(toks, prefix) + ">", prefix) == Concat(toks) + ">"
    decreases |toks|
  {
    if toks == [] {
      RestoreGt([], prefix);
    } else {
      AbsentParts(prefix, Matched(toks[0]), Concat(toks[1..]));
      RestoreConvertAll(toks[1..], prefix);
      RestoreConvertCons(toks, prefix);
    }
  }

  lemma RestoreConvertCons(toks: seq<Attr>, prefix: string)
    requires PrefixOk(prefix) && toks != []
    requires forall i :: 0 <= i < |toks| ==> AttrOk(toks[i]) && AttrSafe(toks[i])
    requires Absent(prefix, Matched(toks[0]))
    requires Restore(ConvertAll(toks[1..], prefix) + ">", prefix) == Concat(toks[1..]) + ">"
    ensures Restore(ConvertAll(toks, prefix) + ">", prefix) == Concat(toks) + ">"
  {
    var a := toks[0];
    var rest := toks[1..];
    var tail := ConvertAll(rest, prefix) + ">";
    ConvertAllHead(rest, prefix);
    assert tail[0] == '>' || IsSpace(tail[0]);
    Assoc(ConvertAttr(a, prefix), ConvertAll(rest, prefix), ">");
    RestoreSplit(ConvertAttr(a, prefix), tail, prefix);
    RestoreConvertAttr(a, prefix);
    Assoc(Matched(a), Concat(rest), ">");
  }

  /** Restoring the callback's result for a safe tag gives the original tag text back. */
  lemma RestoreTag(t: Tag, prefix: string)
    requires PrefixOk(prefix) && IsName(t.name)
    requires Absent(prefix, TagText(t)) && TagSafe(t.attrs)
    ensures Restore(TagReplacement(t.name, t.attrs, prefix), prefix) == TagText(t)
  {
    if Scan(RTrim(t.attrs)).1 == [] {
      RestoreRebuilt(t, prefix);
    }
  }

  lemma RestoreRebuilt(t: Tag, prefix: string)
    requires PrefixOk(prefix) && IsName(t.name)
    requires Absent(prefix, TagText(t)) && TagSafe(t.attrs) && Scan(RTrim(t.attrs)).1 == []
    ensures Restore(TagReplacement(t.name, t.attrs, prefix), prefix) == TagText(t)
  {
    var toks := Scan(RTrim(t.attrs)).0;
    RebuiltParts(t, prefix, toks);
    RestoreConvertAll(toks, prefix);
    RestoreOpenTag(t.name, ConvertAll(toks, prefix), t.attrs, prefix);
  }

  /** The facts about a rebuilt tag that its restoration needs. */
  lemma RebuiltParts(t: Tag, prefix: string, toks: seq<Attr>)
    requires Absent(prefix, TagText(t)) && TagSafe(t.attrs)
    requires Scan(RTrim(t.attrs)).1 == [] && toks == Scan(RTrim(t.attrs)).0
    ensures TagReplacement(t.name, t.attrs, prefix) == "<" + t.name + ConvertAll(toks, prefix) + ">"
    ensures Concat(toks) == t.attrs && Absent(prefix, Concat(toks))
    ensures forall i :: 0 <= i < |toks| ==> AttrOk(toks[i]) && AttrSafe(toks[i])
  {
    AbsentParts(prefix, "<" + t.name + t.attrs, ">");
    AbsentParts(prefix, "<" + t.name, t.attrs);
  }

  /** The tag name and `<` are copied by the restore pass. */
  lemma RestoreOpenTag(name: string, conv: string, attrs: string, prefix: string)
    requires IsName(name)
    requires Restore(conv + ">", prefix) == attrs + ">"
    ensures Restore("<" + name + conv + ">", prefix) == "<" + name + attrs + ">"
  {
    RestoreSkip("<" + name, conv + ">", prefix);
    Assoc("<" + name, conv, ">");
    Assoc("<" + name, attrs, ">");
  }

  // ---------------------------------------------------------------------------
  // The whole document

  /** Every tag the conversion meets, scanning as it does, is safe. */
  predicate DocSafe(s: string)
    decreases |s|
  {
    if s == [] then true
    else match TagMatch(s)
      case Some(t) =>
        TagMatchSound(s);
        TagSafe(t.attrs) && DocSafe(s[TagLen(t)..])
      case None => DocSafe(s[1..])
  }

  /** The converted text is non-empty where the text is, and starts with `<` where a tag matched. */
  lemma ConvertHead(s: string, prefix: string)
    requires s != []
    ensures Convert(s, prefix) != []
    ensures TagMatch(s).Some? ==> Convert(s, prefix)[0] == '<'
  {
    TagMatchSound(s);
    if TagMatch(s).Some? {
      var t := TagMatch(s).value;
      var r := TagReplacement(t.name, t.attrs, prefix);
      assert (r + Convert(s[TagLen(t)..], prefix))[0] == r[0];
    }
  }

  /** What the conversion emits before its first `<` is copied from the input. */
  lemma {:induction false} ConvertStartsWith(s: string, w: string, prefix: string)
    requires Lacks(w, '<')
    ensures StartsWith(Convert(s, prefix), w) ==> StartsWith(s, w)
    decreases |s|
  {
    if s != [] && w != [] && StartsWith(Convert(s, prefix), w) {
      ConvertHead(s, prefix);
      StartsWithTail(Convert(s, prefix), w);
      ConvertCopy(s, prefix);
      ConvertStartsWith(s[1..], w[1..], prefix);
      StartsWithCons(s, w);
    }
  }

  /**
   * The two passes are inverse on a document in which the prefix does not
   * occur and whose converted tags are safe.
   */
  lemma {:induction false} RestoreConvert(s: string, prefix: string)
    requires PrefixOk(prefix) && Absent(prefix, s) && DocSafe(s)
    ensures Restore(Convert(s, prefix), prefix) == s
    decreases |s|
  {
    if s != [] {
      match TagMatch(s)
      case Some(t) =>
        TagMatchSound(s);
        PrefixSplit(s, TagText(t));
        AbsentParts(prefix, TagText(t), s[TagLen(t)..]);
        RestoreConvert(s[TagLen(t)..], prefix);
        RestoreConvertTag(s, t, prefix);
      case None =>
        AbsentTail(prefix, s);
        RestoreConvert(s[1..], prefix);
        RestoreConvertCopy(s, prefix);
    }
  }

  lemma RestoreConvertTag(s: string, t: Tag, prefix: string)
    requires PrefixOk(prefix) && Absent(prefix, s) && DocSafe(s)
    requires TagMatch(s) == Some(t) && s == TagText(t) + s[TagLen(t)..]
    requires Restore(Convert(s[TagLen(t)..], prefix), prefix) == s[TagLen(t)..]
    ensures Restore(Convert(s, prefix), prefix) == s
  {
    TagMatchSound(s);
    var r := TagReplacement(t.name, t.attrs, prefix);
    var rest := Convert(s[TagLen(t)..], prefix);
    assert Convert(s, prefix) == r + rest;
    AbsentParts(prefix, TagText(t), s[TagLen(t)..]);
    RestoreTag(t, prefix);
    RestoreAfterClose(r, rest, prefix);
  }

  lemma RestoreConvertCopy(s: string, prefix: string)
    requires PrefixOk(prefix) && s != [] && TagMatch(s).None? && !StartsWith(s[1..], prefix)
    requires Restore(Convert(s[1..], prefix), prefix) == s[1..]
    ensures Restore(Convert(s, prefix), prefix) == s
  {
    var c := Convert(s[1..], prefix);
    ConvertCopy(s, prefix);
    ConvertStartsWith(s[1..], prefix, prefix);
    ConsParts(s[0], c);
    RestoreCopy([s[0]] + c, prefix);
    ConsSelf(s);
  }

  /** The theorem for the prefix the plugin generates. */
  lemma RestoreConvertShaped(s: string, prefix: string)
    requires PrefixShape(prefix) && Absent(prefix, s) && DocSafe(s)
    ensures Restore(Convert(s, prefix), prefix) == s
  {
    ShapeIsOk(prefix);
    RestoreConvert(s, prefix);
  }
}
