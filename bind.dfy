/**
 * Binding-attribute conversion (`convert_amp_bind_attributes`) and its
 * reverse (`restore_amp_bind_attributes`).
 *
 * amp-bind attributes such as `[text]="x"` are not legal HTML attribute
 * names, so before parsing every start tag whose attribute span holds `]=`
 * has its attributes rescanned one by one and each `[name]` is renamed to
 * `<prefix>name`; after serialisation `\s<prefix>NAME` becomes ` [NAME]`.
 * Both regular expressions are modelled as hand-written scanners that take
 * the same choices PCRE's backtracking takes.
 *
 * The prefix `amp-binding-<md5>-` is salted per request; here it is a
 * parameter of the stated shape.
 */
module Bind {
  import opened Text

  /** `amp-binding-` followed by 32 lower-case hex digits and `-`. */
  predicate PrefixShape(p: string)
  {
    |p| == 45 && p[..12] == "amp-binding-" && p[44] == '-'
    && forall i :: 12 <= i < 44 ==> IsLowerHex(p[i])
  }

  lemma PrefixChars(p: string)
    requires PrefixShape(p)
    ensures p != [] && forall i :: 0 <= i < |p| ==> IsNameChar(p[i])
  {
    forall i | 0 <= i < |p| ensures IsNameChar(p[i]) {
      if i < 12 {
        assert p[i] == p[..12][i];
      }
    }
  }

  // ---------------------------------------------------------------------------
  // One attribute: `^\s+(?P<name>\[?[a-zA-Z0-9_\-]+\]?)(?P<value>=(?:"[^"]*"|'[^']*'|[^'"\s]+))?`

  /**
   * One match of the attribute pattern. `value` is the `=...` group, or
   * empty when the group did not take part (a taking part group always
   * starts with `=`, so the two cases cannot be confused).
   */
  datatype Attr = Attr(ws: string, name: string, value: string)

  /** The whole text of the match, `$attr_matches[0]`. */
  function Matched(a: Attr): string
  {
    a.ws + a.name + a.value
  }

  /** A character of an unquoted value, `[^'"\s]`. */
  predicate IsUnquotedChar(c: char)
  {
    c != '\'' && c != '"' && !IsSpace(c)
  }

  function UnquotedRun(s: string): (n: nat)
    ensures n <= |s|
    ensures forall i :: 0 <= i < n ==> IsUnquotedChar(s[i])
    ensures n == |s| || !IsUnquotedChar(s[n])
  {
    if s == [] || !IsUnquotedChar(s[0]) then 0 else 1 + UnquotedRun(s[1..])
  }

  /**
   * The value group can match at the front of `s`: `=` and then an opening
   * `"` with a closing one later, an opening `'` with a closing one later, or
   * a character of an unquoted value.
   */
  predicate ValueStarts(s: string)
  {
    |s| >= 2 && s[0] == '='
    && (s[1] == '"' ==> !Lacks(s[2..], '"'))
    && (s[1] == '\'' ==> !Lacks(s[2..], '\''))
    && (s[1] != '"' && s[1] != '\'' ==> !IsSpace(s[1]))
  }

  /**
   * Length of the value group at the front of `s`, 0 when it does not
   * match: a double-quoted string up to the first closing `"`, else a
   * single-quoted one, else a non-empty unquoted run.
   */
  function ValueLen(s: string): (n: nat)
    ensures n <= |s|
    ensures n == 0 || (n >= 2 && s[0] == '=')
  {
    if |s| < 2 || s[0] != '=' then 0
    else if s[1] == '"' then
      (match IndexOf(s[2..], '"') case Some(j) => j + 3 case None => 0)
    else if s[1] == '\'' then
      (match IndexOf(s[2..], '\'') case Some(j) => j + 3 case None => 0)
    else
      var u := UnquotedRun(s[1..]);
      if u == 0 then 0 else u + 1
  }

  /**
   * The value group takes part exactly when it can match, and then it is a
   * quoted string ending at the first matching quote, or the longest run of
   * unquoted characters.
   */
  lemma ValueGroup(s: string)
    ensures ValueLen(s) > 0 <==> ValueStarts(s)
    ensures var n := ValueLen(s);
      n > 0 && s[1] == '"' ==> n >= 3 && s[n - 1] == '"' && Lacks(s[2..n - 1], '"')
    ensures var n := ValueLen(s);
      n > 0 && s[1] == '\'' ==> n >= 3 && s[n - 1] == '\'' && Lacks(s[2..n - 1], '\'')
    ensures var n := ValueLen(s);
      n > 0 && s[1] != '"' && s[1] != '\'' ==>
        (forall i :: 1 <= i < n ==> IsUnquotedChar(s[i])) && (n == |s| || !IsUnquotedChar(s[n]))
  {
    if |s| >= 2 && s[0] == '=' {
      if s[1] == '"' || s[1] == '\'' {
        var q := s[1];
        match IndexOf(s[2..], q)
        case Some(j) => QuotedValue(s, q, j);
        case None =>
      } else {
        UnquotedValue(s, UnquotedRun(s[1..]));
      }
    }
  }

  lemma QuotedValue(s: string, q: char, j: nat)
    requires |s| >= 2 && j + 2 < |s| && s[2 + j] == q && Lacks(s[2..][..j], q)
    ensures s[j + 2] == q && Lacks(s[2..j + 2], q) && !Lacks(s[2..], q)
  {
    assert s[2..j + 2] == s[2..][..j];
    assert s[2..][j] == q;
  }

  lemma UnquotedValue(s: string, u: nat)
    requires |s| >= 2 && u == UnquotedRun(s[1..])
    ensures u > 0 <==> IsUnquotedChar(s[1])
    ensures forall i :: 1 <= i < u + 1 ==> IsUnquotedChar(s[i])
    ensures u + 1 == |s| || !IsUnquotedChar(s[u + 1])
  {
    assert forall i :: 1 <= i < u + 1 ==> s[i] == s[1..][i - 1];
    if u + 1 < |s| {
      assert s[u + 1] == s[1..][u];
    }
  }

  /** The shape of a name group: an optional `[`, name characters, an optional `]`. */
  predicate NameOk(n: string)
  {
    var b := if n != [] && n[0] == '[' then 1 else 0;
    var e := if n != [] && n[|n| - 1] == ']' then |n| - 1 else |n|;
    b < e && forall i :: b <= i < e ==> IsNameChar(n[i])
  }

  predicate AttrOk(a: Attr)
  {
    a.ws != [] && (forall i :: 0 <= i < |a.ws| ==> IsSpace(a.ws[i]))
    && a.name != [] && NameOk(a.name)
    && (a.value == [] || a.value[0] == '=')
  }

  /** A name group can match at the front of `t`: a name character, or `[` and a name character. */
  predicate NameStarts(t: string)
  {
    (t != [] && IsNameChar(t[0])) || (|t| >= 2 && t[0] == '[' && IsNameChar(t[1]))
  }

  /**
   * Length of the name group at the front of `t`: `[` if present, the
   * longest run of name characters (at least one), `]` if present.
   */
  function NameLen(t: string): (k: Option<nat>)
    ensures k.Some? ==> 1 <= k.value <= |t| && NameOk(t[..k.value])
  {
    var b := if t != [] && t[0] == '[' then 1 else 0;
    var n := NameRun(t[b..]);
    if n == 0 then None
    else
      var c := if b + n < |t| && t[b + n] == ']' then 1 else 0;
      NameLenOk(t, b, n, c);
      Some(b + n + c)
  }

  /**
   * The name group takes part exactly when it can match, and then it is
   * the longest one: unless it ends in `]`, the character after it is
   * neither a name character nor `]`.
   */
  lemma NameGroup(t: string)
    ensures NameLen(t).Some? <==> NameStarts(t)
    ensures NameLen(t).Some? ==>
      var k := NameLen(t).value;
      t[k - 1] == ']' || k == |t| || (!IsNameChar(t[k]) && t[k] != ']')
  {
    var b := if t != [] && t[0] == '[' then 1 else 0;
    var n := NameRun(t[b..]);
    if b == 1 && |t| >= 2 {
      assert t[b..][0] == t[1];
    }
    if n > 0 {
      var c := if b + n < |t| && t[b + n] == ']' then 1 else 0;
      if c == 0 && b + n < |t| {
        assert t[b + n] == t[b..][n];
      }
    }
  }

  lemma NameLenOk(t: string, b: nat, n: nat, c: nat)
    requires b == (if t != [] && t[0] == '[' then 1 else 0)
    requires 1 <= n && b + n <= |t| && n == NameRun(t[b..])
    requires c == (if b + n < |t| && t[b + n] == ']' then 1 else 0)
    ensures NameOk(t[..b + n + c])
  {
    var m := t[..b + n + c];
    assert forall i :: b <= i < b + n ==> m[i] == t[b..][i - b];
    assert m[0] == '[' <==> b == 1;
    assert m[|m| - 1] == ']' <==> c == 1;
  }

  /** `preg_match` of the anchored attribute pattern against `s`. */
  function AttrMatch(s: string): (r: Option<Attr>)
    ensures r.Some? ==> AttrOk(r.value) && StartsWith(s, Matched(r.value))
    ensures r.Some? ==> |Matched(r.value)| >= 2
    ensures r.Some? ==> |r.value.ws| == |s| || !IsSpace(s[|r.value.ws|])
  {
    var w := SpaceRun(s);
    if w == 0 then None
    else match NameLen(s[w..])
      case None => None
      case Some(k) =>
        AttrParts(s, w, k);
        Some(AttrAt(s, w, k))
  }

  /**
   * The pattern matches exactly when a whitespace run is followed by a name
   * group; the match then takes the longest name group and the value group
   * the pattern's alternatives give, whose shapes `NameLen` and `ValueLen`
   * state.
   */
  lemma AttrMatchComplete(s: string)
    ensures AttrMatch(s).None? <==> SpaceRun(s) == 0 || !NameStarts(s[SpaceRun(s)..])
    ensures AttrMatch(s).Some? ==> |AttrMatch(s).value.ws| == SpaceRun(s)
    ensures AttrMatch(s).Some? ==> NameLen(s[SpaceRun(s)..]) == Some(|AttrMatch(s).value.name|)
    ensures AttrMatch(s).Some? ==>
      |AttrMatch(s).value.value| == ValueLen(s[SpaceRun(s) + |AttrMatch(s).value.name|..])
  {
    var w := SpaceRun(s);
    NameGroup(s[w..]);
    if w > 0 && NameLen(s[w..]).Some? {
      var k := NameLen(s[w..]).value;
      AttrMatchAt(s, w, k);
    } else {
      AttrMatchNone(s);
    }
  }

  lemma AttrMatchNone(s: string)
    requires SpaceRun(s) == 0 || NameLen(s[SpaceRun(s)..]).None?
    ensures AttrMatch(s).None?
  {
  }

  lemma AttrMatchAt(s: string, w: nat, k: nat)
    requires w == SpaceRun(s) && w > 0 && NameLen(s[w..]) == Some(k)
    ensures AttrMatch(s).Some?
    ensures |AttrMatch(s).value.ws| == w && |AttrMatch(s).value.name| == k
    ensures |AttrMatch(s).value.value| == ValueLen(s[SpaceRun(s) + |AttrMatch(s).value.name|..])
  {
    assert AttrMatch(s) == Some(AttrAt(s, w, k));
    assert SpaceRun(s) + |AttrMatch(s).value.name| == w + k;
  }

  /** The match made of `w` whitespace characters, a name group of length `k` and the value group after it. */
  function AttrAt(s: string, w: nat, k: nat): (a: Attr)
    requires w + k <= |s|
    ensures |a.ws| == w && |a.name| == k && |a.value| == ValueLen(s[w + k..])
  {
    Attr(s[..w], s[w..w + k], s[w + k..w + k + ValueLen(s[w + k..])])
  }

  lemma AttrParts(s: string, w: nat, k: nat)
    requires 1 <= w && 1 <= k && w + k <= |s|
    requires forall i :: 0 <= i < w ==> IsSpace(s[i])
    requires NameOk(s[w..][..k])
    ensures AttrOk(AttrAt(s, w, k))
    ensures Matched(AttrAt(s, w, k)) == s[..w + k + ValueLen(s[w + k..])]
  {
    var v := ValueLen(s[w + k..]);
    assert s[w..w + k] == s[w..][..k];
    SliceSplit(s, w, w + k, w + k + v);
  }

  function Concat(toks: seq<Attr>): string
  {
    if toks == [] then [] else Matched(toks[0]) + Concat(toks[1..])
  }

  lemma ConcatCons(a: Attr, toks: seq<Attr>)
    ensures Concat([a] + toks) == Matched(a) + Concat(toks)
  {
    assert ([a] + toks)[1..] == toks;
  }

  /**
   * The `while (preg_match(...))` scan of an attribute span: the matches in
   * order, and the part no match consumed.
   */
  function Scan(s: string): (r: (seq<Attr>, string))
    ensures Concat(r.0) + r.1 == s
    ensures forall i :: 0 <= i < |r.0| ==> AttrOk(r.0[i])
    ensures AttrMatch(r.1).None?
    ensures AttrMatch(s).Some? ==> r.0 != [] && r.0[0] == AttrMatch(s).value
    decreases |s|
  {
    match AttrMatch(s)
    case None => ([], s)
    case Some(a) =>
      var rest := Scan(s[|Matched(a)|..]);
      ScanCons(s, a, rest.0, rest.1);
      ([a] + rest.0, rest.1)
  }

  lemma ScanCons(s: string, a: Attr, toks: seq<Attr>, unparsed: string)
    requires AttrOk(a) && StartsWith(s, Matched(a))
    requires Concat(toks) + unparsed == s[|Matched(a)|..]
    requires forall i :: 0 <= i < |toks| ==> AttrOk(toks[i])
    ensures Concat([a] + toks) + unparsed == s
    ensures forall i :: 0 <= i < |[a] + toks| ==> AttrOk(([a] + toks)[i])
  {
    ConcatCons(a, toks);
    PrefixThenRest(s, Matched(a), Concat(toks), unparsed);
  }

  // ---------------------------------------------------------------------------
  // Rewriting one start tag

  /** PHP `trim($s, '[]')`: strips `[` and `]` from both ends. */
  function TrimBrackets(s: string): (r: string)
    decreases |s|
  {
    if s != [] && (s[0] == '[' || s[0] == ']') then TrimBrackets(s[1..])
    else if s != [] && (s[|s| - 1] == '[' || s[|s| - 1] == ']') then TrimBrackets(s[..|s| - 1])
    else s
  }

  /** The name group starts with `[`: an amp-bind attribute. */
  predicate Bracketed(a: Attr)
  {
    a.name != [] && a.name[0] == '['
  }

  /** The replacement text of one attribute match. */
  function ConvertAttr(a: Attr, prefix: string): string
  {
    if Bracketed(a) then " " + prefix + TrimBrackets(a.name) + a.value else Matched(a)
  }

  function ConvertAll(toks: seq<Attr>, prefix: string): string
  {
    if toks == [] then [] else ConvertAttr(toks[0], prefix) + ConvertAll(toks[1..], prefix)
  }

  /**
   * The callback's result for a start tag `<name attrs>`: the rebuilt tag
   * when the scan consumes the whole right-trimmed span, otherwise the
   * tag exactly as it was.
   */
  function TagReplacement(name: string, attrs: string, prefix: string): (r: string)
    ensures |r| >= 2 && r[0] == '<' && r[|r| - 1] == '>'
    ensures StartsWith(r, "<" + name)
  {
    var sc := Scan(RTrim(attrs));
    var mid := if sc.1 != [] then attrs else ConvertAll(sc.0, prefix);
    TagShape(name, mid);
    "<" + name + mid + ">"
  }

  lemma TagShape(name: string, mid: string)
    ensures var t := "<" + name + mid + ">"; |t| >= 2 && t[0] == '<' && t[|t| - 1] == '>'
    ensures StartsWith("<" + name + mid + ">", "<" + name)
  {
    assert ("<" + name + mid + ">")[..|name| + 1] == "<" + name;
  }

  /** One turn of the scan: the first match, then the scan of what follows it. */
  lemma ScanStep(s: string, offset: nat, a: Attr, next: nat)
    requires offset <= |s| && AttrMatch(s[offset..]) == Some(a) && next == offset + |Matched(a)|
    ensures next <= |s|
    ensures Scan(s[offset..]).0 == [a] + Scan(s[next..]).0
    ensures Scan(s[offset..]).1 == Scan(s[next..]).1
  {
    DropDrop(s, offset, |Matched(a)|);
    ScanUnfold(s[offset..], a, s[next..]);
  }

  lemma ScanUnfold(t: string, a: Attr, u: string)
    requires AttrMatch(t) == Some(a) && u == t[|Matched(a)|..]
    ensures Scan(t).0 == [a] + Scan(u).0
    ensures Scan(t).1 == Scan(u).1
  {
  }

  lemma ConvertAllCons(a: Attr, toks: seq<Attr>, prefix: string)
    ensures ConvertAll([a] + toks, prefix) == ConvertAttr(a, prefix) + ConvertAll(toks, prefix)
  {
    assert ([a] + toks)[1..] == toks;
  }

  /** The two appends of the `[name]` branch add up to the converted attribute. */
  lemma BracketAppend(before: string, a: Attr, prefix: string)
    requires Bracketed(a)
    ensures a.value != [] ==> before + " " + prefix + TrimBrackets(a.name) + a.value == before + ConvertAttr(a, prefix)
    ensures a.value == [] ==> before + " " + prefix + TrimBrackets(a.name) == before + ConvertAttr(a, prefix)
  {
  }

  /** Appending one converted attribute keeps `new + rest == all`. */
  lemma AppendStep(done: string, c: string, rest: string, all: string)
    requires done + (c + rest) == all
    ensures (done + c) + rest == all
  {
  }

  /**
   * The state of the scan loop at `offset`: what is still to be scanned
   * leaves the same unparsed rest as the whole span, and `done` followed by
   * its conversion is the conversion of the whole span.
   */
  ghost predicate Pending(s: string, offset: nat, done: string, prefix: string, unparsed: string, all: string)
  {
    offset <= |s| && Scan(s[offset..]).1 == unparsed
    && done + ConvertAll(Scan(s[offset..]).0, prefix) == all
  }

  lemma PendingStart(s: string, prefix: string)
    ensures Pending(s, 0, "", prefix, Scan(s).1, ConvertAll(Scan(s).0, prefix))
  {
    assert s[0..] == s;
  }

  /**
   * The body of the scan loop: `$offset` moves past the match, and a
   * `[name]` match is appended as `' ' . prefix . trim(name, '[]')` and
   * then its value if the value group is set, any other match verbatim.
   */
  method ScanOne(oldAttrs: string, prefix: string, offset: nat, newAttrs: string, ghost unparsed: string, ghost all: string)
    returns (next: nat, r: string)
    requires Pending(oldAttrs, offset, newAttrs, prefix, unparsed, all)
    requires AttrMatch(oldAttrs[offset..]).Some?
    ensures offset < next
    ensures Pending(oldAttrs, next, r, prefix, unparsed, all)
  {
    var a := AttrMatch(oldAttrs[offset..]).value;
    next := offset + |Matched(a)|;
    ScanStep(oldAttrs, offset, a, next);
    ghost var rest := Scan(oldAttrs[next..]).0;
    ConvertAllCons(a, rest, prefix);
    AppendStep(newAttrs, ConvertAttr(a, prefix), ConvertAll(rest, prefix), all);
    r := newAttrs;
    if a.name[0] == '[' {
      BracketAppend(newAttrs, a, prefix);
      r := r + " " + prefix + TrimBrackets(a.name);
      if a.value != [] {
        r := r + a.value;
      }
    } else {
      r := r + Matched(a);
    }
  }

  /**
   * The replace callback as the source runs it: `$offset` and `$new_attrs`
   * advance one attribute match at a time until the pattern no longer
   * matches at `$offset`; a span the matches do not use up is a parse
   * error and the tag is returned as it was.
   */
  method ReplaceTag(name: string, attrs: string, prefix: string) returns (r: string)
    ensures r == TagReplacement(name, attrs, prefix)
    ensures Scan(RTrim(attrs)).1 != [] ==> r == "<" + name + attrs + ">"
  {
    var oldAttrs := RTrim(attrs);
    var newAttrs := "";
    var offset := 0;
    ghost var unparsed := Scan(oldAttrs).1;
    ghost var all := ConvertAll(Scan(oldAttrs).0, prefix);
    PendingStart(oldAttrs, prefix);
    while offset <= |oldAttrs| && AttrMatch(oldAttrs[offset..]).Some?
      invariant Pending(oldAttrs, offset, newAttrs, prefix, unparsed, all)
      decreases |oldAttrs| - offset
    {
      offset, newAttrs := ScanOne(oldAttrs, prefix, offset, newAttrs, unparsed, all);
    }
    ScanFinish(name, attrs, prefix, oldAttrs, offset, newAttrs);
    if |oldAttrs| != offset {
      return "<" + name + attrs + ">";
    }
    return "<" + name + newAttrs + ">";
  }

  /** Where the pattern no longer matches, the scan stops and leaves the rest unparsed. */
  lemma ScanDone(s: string, offset: nat)
    requires offset <= |s| && AttrMatch(s[offset..]).None?
    ensures Scan(s[offset..]) == ([], s[offset..])
    ensures s[offset..] == [] <==> offset == |s|
  {
  }

  /** The state the scan loop leaves behind determines the callback's result. */
  lemma ScanFinish(name: string, attrs: string, prefix: string, oldAttrs: string, offset: nat, newAttrs: string)
    requires oldAttrs == RTrim(attrs)
    requires Pending(oldAttrs, offset, newAttrs, prefix, Scan(oldAttrs).1, ConvertAll(Scan(oldAttrs).0, prefix))
    requires !(offset <= |oldAttrs| && AttrMatch(oldAttrs[offset..]).Some?)
    ensures offset != |oldAttrs| ==> TagReplacement(name, attrs, prefix) == "<" + name + attrs + ">"
    ensures offset != |oldAttrs| ==> Scan(oldAttrs).1 != []
    ensures offset == |oldAttrs| ==> TagReplacement(name, attrs, prefix) == "<" + name + newAttrs + ">"
  {
    ScanDone(oldAttrs, offset);
    var sc := Scan(oldAttrs);
    assert offset == |oldAttrs| ==> newAttrs == ConvertAll(sc.0, prefix);
  }
}
