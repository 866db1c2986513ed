/**
 * The void-element list and the two regular-expression rewrites built on
 * it: before parsing, a listed start tag that is not immediately closed
 * gets its end tag appended (`<(area|base|…)[^>]*>(?!</\1>)` → `$0</$1>`);
 * after serialisation, every listed end tag is deleted, ignoring case
 * (`</(area|base|…)>` with the `i` flag → ``). The list is the elements that
 * section 8.3 of the W3C HTML5 recommendation, "Serializing HTML
 * fragments", serialises without an end tag.
 */
module VoidTags {
  import opened Text

  /** The self-closing element names, in the order the alternations try them. */
  const VoidNames: seq<string> := [
    "area", "base", "basefont", "bgsound", "br", "col", "embed", "frame", "hr",
    "img", "input", "keygen", "link", "meta", "param", "source", "track", "wbr"
  ]

  /**
   * `is_self_closing_tag`: the lower-cased tag name is on the list. A name
   * is self-closing exactly when its end tag, in the name's own letter case,
   * is one the end-tag strip deletes.
   */
  predicate IsSelfClosingTag(tag: string)
    ensures IsSelfClosingTag(tag) <==> IsEndTagOf(EndTag(tag), VoidNames)
  {
    EndTagName(tag);
    ToLower(tag) in VoidNames
  }

  lemma EndTagName(tag: string)
    ensures EndTag(tag)[2..|EndTag(tag)| - 1] == tag
    ensures |ToLower(tag)| == |tag|
    ensures "" !in VoidNames
  {
  }

  /** `</name>` for a name. */
  function EndTag(name: string): string
  {
    "</" + name + ">"
  }

  // ---------------------------------------------------------------------------
  // Start tags: `<(area|base|…)[^>]*>(?!</\1>)` → `$0</$1>`

  /** Where alternative `name` of the start-tag pattern matches at the front of `s`. */
  datatype VoidHit = VoidHit(name: string, len: nat)

  /**
   * `<name[^>]*>` at the front of `s`: the length up to and including the
   * first `>` after the name. `[^>]*` cannot give back characters, since
   * the `>` after it would then have to match a non-`>` character.
   */
  function StartTagLen(s: string, name: string): (r: Option<nat>)
    ensures r.Some? ==> 2 + |name| <= r.value <= |s| && s[r.value - 1] == '>'
  {
    if 1 + |name| <= |s| && s[0] == '<' && s[1..1 + |name|] == name then
      match IndexOf(s[1 + |name|..], '>')
      case Some(j) => Some(2 + |name| + j)
      case None => None
    else None
  }

  /**
   * The alternation tried from alternative `v` on: the first name whose
   * start tag is at the front of `s` and is not directly followed by its
   * own end tag. When the look-ahead fails, PCRE backtracks into the next
   * alternative, so `<basefont></base>` still matches as `basefont`.
   */
  function MatchFrom(s: string, names: seq<string>, v: nat): (r: Option<VoidHit>)
    requires v <= |names|
    ensures r.Some? ==> 2 <= r.value.len <= |s|
    decreases |names| - v
  {
    if v == |names| then None
    else
      var n := names[v];
      match StartTagLen(s, n)
      case Some(e) =>
        if !StartsWith(s[e..], EndTag(n)) then Some(VoidHit(n, e)) else MatchFrom(s, names, v + 1)
      case None => MatchFrom(s, names, v + 1)
  }

  /** A match is a listed name's start tag, not followed by that name's end tag. */
  lemma {:induction false} MatchSound(s: string, names: seq<string>, v: nat)
    requires v <= |names|
    ensures MatchFrom(s, names, v).Some? ==> MatchFrom(s, names, v).value.name in names[v..]
    ensures MatchFrom(s, names, v).Some? ==>
      StartTagLen(s, MatchFrom(s, names, v).value.name) == Some(MatchFrom(s, names, v).value.len)
    ensures MatchFrom(s, names, v).Some? ==>
      !StartsWith(s[MatchFrom(s, names, v).value.len..], EndTag(MatchFrom(s, names, v).value.name))
    decreases |names| - v
  {
    if v < |names| {
      MatchSound(s, names, v + 1);
      assert names[v..] == [names[v]] + names[v + 1..];
    }
  }

  /**
   * The start-tag rewrite: `preg_replace` scans left to right; at a match
   * the matched text is kept and `</name>` appended, and the scan resumes
   * after the match.
   */
  function CloseTags(s: string, names: seq<string>): string
    decreases |s|
  {
    if s == [] then []
    else match MatchFrom(s, names, 0)
      case Some(h) => s[..h.len] + EndTag(h.name) + CloseTags(s[h.len..], names)
      case None => [s[0]] + CloseTags(s[1..], names)
  }

  // ---------------------------------------------------------------------------
  // End tags: `</(area|base|…)>` with the `i` flag → ``

  /** A listed end tag, in any case. */
  predicate IsEndTagOf(w: string, names: seq<string>)
  {
    |w| >= 4 && w[0] == '<' && w[1] == '/' && w[|w| - 1] == '>' && ToLower(w[2..|w| - 1]) in names
  }

  /**
   * Length of a listed end tag at the front of `s`, 0 when there is none.
   * No name contains `>`, so a match ends at the first `>`.
   */
  function EndTagLen(s: string, names: seq<string>): (m: nat)
    ensures m <= |s|
  {
    match IndexOf(s, '>')
    case None => 0
    case Some(k) => if IsEndTagOf(s[..k + 1], names) then k + 1 else 0
  }

  /** The end-tag rewrite: every listed end tag, left to right, is deleted. */
  function StripEndTags(s: string, names: seq<string>): string
    decreases |s|
  {
    if s == [] then []
    else
      var m := EndTagLen(s, names);
      if m == 0 then [s[0]] + StripEndTags(s[1..], names) else StripEndTags(s[m..], names)
  }

  /** `</name>` of a listed name is a listed end tag, its only `>` being the last. */
  lemma EndTagOfVoidName(n: string, names: seq<string>)
    requires LowerNames(names)
    requires n in names
    ensures EndTagLen(EndTag(n), names) == |n| + 3
  {
    NameIsLower(n, names);
    ToLowerOfLower(n);
    var w := EndTag(n);
    assert w[..|n| + 2] == "</" + n;
    assert Lacks(w[..|n| + 2], '>');
    IndexOfFirst(w, '>', |n| + 2);
    assert w[..|n| + 3] == w;
    assert w[2..|w| - 1] == n;
  }

  // ---------------------------------------------------------------------------
  // The end-tag strip

  /** A match is decided by the text up to the first `>`. */
  lemma EndTagLenCut(x: string, y: string, names: seq<string>)
    requires IndexOf(x, '>').Some?
    ensures EndTagLen(x + y, names) == EndTagLen(x, names)
  {
    var k := IndexOf(x, '>').value;
    assert (x + y)[..k] == x[..k];
    IndexOfFirst(x + y, '>', k);
    assert (x + y)[..k + 1] == x[..k + 1];
  }

  /** A whole listed end tag in front of `y` is deleted. */
  lemma StripWhole(x: string, y: string, names: seq<string>)
    requires x != [] && EndTagLen(x, names) == |x|
    ensures StripEndTags(x + y, names) == StripEndTags(y, names)
  {
    EndTagLenCut(x, y, names);
    assert (x + y)[|x|..] == y;
  }

  /** The strip never looks past a `>`, so it works piecewise on text cut after one. */
  lemma {:induction false} StripSplit(x: string, y: string, names: seq<string>)
    requires x != [] && x[|x| - 1] == '>'
    ensures StripEndTags(x + y, names) == StripEndTags(x, names) + StripEndTags(y, names)
    decreases |x|
  {
    IndexOfFirstSome(x);
    EndTagLenCut(x, y, names);
    var m := EndTagLen(x, names);
    if m == 0 {
      StripCopy(x, names);
      StripCopy(x + y, names);
      ConsSplit(x, y);
      if |x| == 1 {
        assert x[1..] + y == y;
      } else {
        StripSplit(x[1..], y, names);
      }
      Assoc([x[0]], StripEndTags(x[1..], names), StripEndTags(y, names));
    } else {
      StripJump(x, names);
      StripJump(x + y, names);
      AppendSlice(x, y, m, m);
      if m < |x| {
        StripSplit(x[m..], y, names);
      } else {
        assert x[m..] + y == y;
      }
    }
  }

  lemma StripCopy(s: string, names: seq<string>)
    requires s != [] && EndTagLen(s, names) == 0
    ensures StripEndTags(s, names) == [s[0]] + StripEndTags(s[1..], names)
  {
  }

  lemma StripJump(s: string, names: seq<string>)
    requires s != [] && EndTagLen(s, names) > 0
    ensures StripEndTags(s, names) == StripEndTags(s[EndTagLen(s, names)..], names)
  {
  }

  lemma IndexOfFirstSome(x: string)
    requires x != [] && x[|x| - 1] == '>'
    ensures IndexOf(x, '>').Some?
  {
  }

  /** Text without `<` passes through the strip unchanged. */
  lemma {:induction false} StripCopiesPlainText(x: string, y: string, names: seq<string>)
    requires Lacks(x, '<')
    ensures StripEndTags(x + y, names) == x + StripEndTags(y, names)
    decreases |x|
  {
    if x != [] {
      ConsSplit(x, y);
      assert EndTagLen(x + y, names) == 0;
      StripCopiesPlainText(x[1..], y, names);
      ConsJoin(x, StripEndTags(y, names));
    } else {
      assert x + y == y;
    }
  }

  /** `</name>` for a listed name is deleted whatever the case of its letters. */
  lemma StripDeletesEndTag(w: string, y: string, names: seq<string>)
    requires LowerNames(names)
    requires ToLower(w) in names
    ensures StripEndTags("</" + w + ">" + y, names) == StripEndTags(y, names)
  {
    var n := ToLower(w);
    NameIsLower(n, names);
    assert forall i :: 0 <= i < |w| ==> w[i] != '>' by {
      forall i | 0 <= i < |w| ensures w[i] != '>' {
        assert n[i] == ToLowerChar(w[i]);
      }
    }
    var t := "</" + w + ">";
    assert t[..|w| + 2] == "</" + w;
    IndexOfFirst(t, '>', |w| + 2);
    assert t[..|w| + 3] == t;
    assert t[2..|t| - 1] == w;
    StripWhole(t, y, names);
  }

  // ---------------------------------------------------------------------------
  // The start-tag rewrite

  /** The start-tag pattern only matches at a `<`. */
  lemma {:induction false} NoHitWithoutLt(s: string, v: nat, names: seq<string>)
    requires v <= |names| && (s == [] || s[0] != '<')
    ensures MatchFrom(s, names, v).None?
    decreases |names| - v
  {
    if v < |names| {
      NoHitWithoutLt(s, v + 1, names);
    }
  }

  /** A match of `<name[^>]*>` ends at the first `>` of the text. */
  lemma StartTagEndsAtFirstGt(s: string, n: string, k: nat)
    requires LowerWord(n) && StartTagLen(s, n).Some?
    requires k < |s| && s[k] == '>' && Lacks(s[..k], '>')
    ensures StartTagLen(s, n) == Some(k + 1)
  {
        var e := StartTagLen(s, n).value;
    assert s[e - 1] == '>';
    assert k > |n| by {
      assert s[1..1 + |n|] == n;
      assert forall i :: 0 < i <= |n| ==> s[i] == n[i - 1];
    }
    var u := s[1 + |n|..];
    assert u[k - 1 - |n|] == '>';
    LacksSlice(s, '>', 1 + |n|, k);
    IndexOfFirst(u, '>', k - 1 - |n|);
  }

  /** Without any `>` nothing matches, so the rewrite changes nothing. */
  lemma {:induction false} CloseWithoutGt(s: string, names: seq<string>)
    requires Lacks(s, '>')
    ensures CloseTags(s, names) == s
    decreases |s|
  {
    if s != [] {
      MatchSound(s, names, 0);
      assert MatchFrom(s, names, 0).None?;
      CloseWithoutGt(s[1..], names);
      ConsSelf(s);
    }
  }

  /**
   * Up to its first `>` the rewrite copies the text; right after that `>`
   * it inserts either nothing or one listed end tag.
   */
  lemma {:induction false} CloseChunk(s: string, k: nat, names: seq<string>) returns (x: string)
    requires LowerNames(names)
    requires k < |s| && s[k] == '>' && Lacks(s[..k], '>')
    ensures CloseTags(s, names) == s[..k + 1] + x + CloseTags(s[k + 1..], names)
    ensures x == [] || EndTagLen(x, names) == |x| > 0
    decreases k
  {
    match MatchFrom(s, names, 0)
    case Some(h) =>
      x := CloseChunkHit(s, k, h, names);
    case None =>
      if k == 0 {
        x := [];
        CloseCopy(s, names);
        assert s[..1] + x == [s[0]];
      } else {
        LacksSlice(s, '>', 1, k);
        var y := CloseChunk(s[1..], k - 1, names);
        CloseChunkCopy(s, k, y, names);
        x := y;
      }
  }

  lemma CloseChunkHit(s: string, k: nat, h: VoidHit, names: seq<string>) returns (x: string)
    requires LowerNames(names)
    requires k < |s| && s[k] == '>' && Lacks(s[..k], '>')
    requires MatchFrom(s, names, 0) == Some(h)
    ensures CloseTags(s, names) == s[..k + 1] + x + CloseTags(s[k + 1..], names)
    ensures EndTagLen(x, names) == |x| > 0
  {
    MatchSound(s, names, 0);
    assert names[0..] == names;
    NameIsLower(h.name, names);
    StartTagEndsAtFirstGt(s, h.name, k);
    EndTagOfVoidName(h.name, names);
    x := EndTag(h.name);
  }

  lemma CloseChunkCopy(s: string, k: nat, x: string, names: seq<string>)
    requires 0 < k < |s| && MatchFrom(s, names, 0).None?
    requires CloseTags(s[1..], names) == s[1..][..k] + x + CloseTags(s[1..][k..], names)
    ensures CloseTags(s, names) == s[..k + 1] + x + CloseTags(s[k + 1..], names)
  {
    CloseCopy(s, names);
    DropDrop(s, 1, k);
    ConsChunk(s, k, x, CloseTags(s[k + 1..], names));
  }

  lemma CloseHit(s: string, h: VoidHit, names: seq<string>)
    requires s != [] && MatchFrom(s, names, 0) == Some(h)
    ensures CloseTags(s, names) == s[..h.len] + EndTag(h.name) + CloseTags(s[h.len..], names)
  {
  }

  lemma CloseCopy(s: string, names: seq<string>)
    requires s != [] && MatchFrom(s, names, 0).None?
    ensures CloseTags(s, names) == [s[0]] + CloseTags(s[1..], names)
  {
  }

  /**
   * Deleting the listed end tags after serialisation removes every end tag
   * the rewrite before parsing inserted: the two regular expressions are
   * inverse on text.
   */
  lemma {:induction false} StripUndoesClose(s: string, names: seq<string>)
    requires LowerNames(names)
    ensures StripEndTags(CloseTags(s, names), names) == StripEndTags(s, names)
    decreases |s|
  {
    match IndexOf(s, '>')
    case None =>
      CloseWithoutGt(s, names);
    case Some(k) =>
      var x := CloseChunk(s, k, names);
      StripUndoesClose(s[k + 1..], names);
      StripChunk(s[..k + 1], x, s[k + 1..], names);
      assert s[..k + 1] + s[k + 1..] == s;
  }

  lemma StripChunk(head: string, x: string, rest: string, names: seq<string>)
    requires head != [] && head[|head| - 1] == '>'
    requires x == [] || EndTagLen(x, names) == |x| > 0
    requires StripEndTags(CloseTags(rest, names), names) == StripEndTags(rest, names)
    ensures StripEndTags(head + x + CloseTags(rest, names), names) == StripEndTags(head + rest, names)
  {
    var c := CloseTags(rest, names);
    Assoc(head, x, c);
    StripSplit(head, x + c, names);
    if x != [] {
      StripWhole(x, c, names);
    } else {
      assert x + c == c;
    }
    StripSplit(head, rest, names);
  }

  /** Text without `<` passes through the start-tag rewrite unchanged. */
  lemma {:induction false} CloseCopiesPlainText(x: string, y: string, names: seq<string>)
    requires Lacks(x, '<')
    ensures CloseTags(x + y, names) == x + CloseTags(y, names)
    decreases |x|
  {
    if x != [] {
      ConsSplit(x, y);
      NoHitWithoutLt(x + y, 0, names);
      CloseCopy(x + y, names);
      CloseCopiesPlainText(x[1..], y, names);
      ConsJoin(x, CloseTags(y, names));
    } else {
      assert x + y == y;
    }
  }

  /** The rewrite starts with the character the text starts with. */
  lemma CloseHead(s: string, names: seq<string>)
    requires s != []
    ensures CloseTags(s, names) != [] && CloseTags(s, names)[0] == s[0]
  {
    match MatchFrom(s, names, 0)
    case Some(h) => CloseHit(s, h, names);
    case None => CloseCopy(s, names);
  }

  /** An end tag of a lower-case name holds no character but `<`, `/`, `>` and letters. */
  lemma EndTagLacks(n: string, c: char)
    requires LowerWord(n) && c != '<' && c != '/' && c != '>' && !('a' <= c <= 'z')
    ensures Lacks(EndTag(n), c) && EndTag(n)[|EndTag(n)| - 1] == '>'
  {
    var e := EndTag(n);
    forall i | 0 <= i < |e|
      ensures e[i] != c
    {
      if 2 <= i < |e| - 1 {
        assert e[i] == n[i - 2];
      }
    }
  }

  /**
   * The start-tag rewrite creates no doubled character `c` (such as `{{`)
   * where the text had none: what it inserts holds no `c` and follows a `>`.
   */
  lemma {:induction false} CloseKeepsPairAbsent(s: string, names: seq<string>, c: char)
    requires LowerNames(names) && c != '<' && c != '/' && c != '>' && !('a' <= c <= 'z')
    requires Absent([c, c], s)
    ensures Absent([c, c], CloseTags(s, names))
    decreases |s|
  {
    if s != [] {
      match MatchFrom(s, names, 0)
      case Some(h) =>
        CloseHitKeepsPairAbsent(s, h, names, c);
      case None =>
        CloseCopy(s, names);
        AbsentTail([c, c], s);
        CloseKeepsPairAbsent(s[1..], names, c);
        if |s| >= 2 {
          if s[0] == c {
            AbsentPairFront(c, s);
          }
          CloseHead(s[1..], names);
        }
        AbsentPairCons(c, s[0], CloseTags(s[1..], names));
    }
  }

  lemma {:induction false} CloseHitKeepsPairAbsent(s: string, h: VoidHit, names: seq<string>, c: char)
    requires LowerNames(names) && c != '<' && c != '/' && c != '>' && !('a' <= c <= 'z')
    requires Absent([c, c], s) && s != [] && MatchFrom(s, names, 0) == Some(h)
    ensures Absent([c, c], CloseTags(s, names))
    decreases |s|, 0
  {
    CloseHit(s, h, names);
    MatchSound(s, names, 0);
    NameIsLower(h.name, names);
    var x, e := s[..h.len], EndTag(h.name);
    assert x + s[h.len..] == s;
    AbsentParts([c, c], x, s[h.len..]);
    CloseKeepsPairAbsent(s[h.len..], names, c);
    EndTagLacks(h.name, c);
    LacksAbsent(e, [c, c]);
    AbsentPairJoin(c, x, e);
    AbsentPairJoin(c, x + e, CloseTags(s[h.len..], names));
  }

  /** `<n></n>` holds no character but `<`, `/`, `>` and the letters of `n`. */
  lemma PairLacks(n: string, c: char)
    requires LowerWord(n) && c != '<' && c != '/' && c != '>' && !('a' <= c <= 'z')
    ensures Lacks(StartTag(n, "") + EndTag(n), c)
  {
    var o := StartTag(n, "");
    forall i | 0 <= i < |o|
      ensures o[i] != c
    {
      if 1 <= i < |o| - 1 {
        assert o[i] == n[i - 1];
      }
    }
    EndTagLacks(n, c);
    var s := o + EndTag(n);
    forall i | 0 <= i < |s|
      ensures s[i] != c
    {
      if i >= |o| {
        assert s[i] == EndTag(n)[i - |o|];
      }
    }
  }

  /** The strip keeps the start tag `<n>` of a listed name and deletes the end tag `</n>` after it. */
  lemma PairStripped(n: string, names: seq<string>)
    requires LowerNames(names) && n in names
    ensures StripEndTags(StartTag(n, "") + EndTag(n), names) == StartTag(n, "")
  {
    NameIsLower(n, names);
    var o, e := StartTag(n, ""), EndTag(n);
    StripSplit(o, e, names);
    StartTagKept(n, names);
    ToLowerOfLower(n);
    assert e + [] == "</" + n + ">" + [] && e + [] == e;
    StripDeletesEndTag(n, [], names);
    assert StripEndTags([], names) == [];
    assert o + [] == o;
  }

  /** The same for the list itself. */
  lemma PairStrippedVoid(n: string)
    requires n in VoidNames
    ensures StripVoidEndTags(StartTag(n, "") + EndTag(n)) == StartTag(n, "")
  {
    VoidNamesAreLower();
    PairStripped(n, VoidNames);
  }

  /** A start tag passes through the strip. */
  lemma StartTagKept(n: string, names: seq<string>)
    requires LowerWord(n)
    ensures StripEndTags(StartTag(n, ""), names) == StartTag(n, "")
  {
    var o := StartTag(n, "");
    assert o[1] == n[0];
    assert o[..1] + o[1..] == o;
    assert Lacks(o[1..], '<') by {
      forall i | 0 <= i < |o| - 1
        ensures o[1..][i] != '<'
      {
        if i < |n| {
          assert o[1..][i] == n[i];
        }
      }
    }
    StripCopy(o, names);
    assert o[1..] + [] == o[1..];
    StripCopiesPlainText(o[1..], [], names);
    assert StripEndTags([], names) == [];
  }

  /** No listed name is longer than eight letters. */
  lemma VoidNameLengths(n: string)
    requires n in VoidNames
    ensures |n| <= 8
  {
  }

  /** No other listed name is a prefix of `n`; of the list only `basefont` fails this. */
  predicate NoListedPrefix(n: string, names: seq<string>)
  {
    forall w :: 0 <= w < |names| && names[w] != n ==> !StartsWith(n, names[w])
  }

  /**
   * The attribute span of a start tag as HTML writes it: no `>` in it, and
   * it does not continue the tag name.
   */
  predicate AttrSpan(a: string)
  {
    Lacks(a, '>') && (a == [] || !IsNameChar(a[0]))
  }

  /** The start tag `<n a>`. */
  function StartTag(n: string, a: string): string
  {
    "<" + n + a + ">"
  }

  lemma StartTagHit(n: string, a: string, rest: string)
    requires Lacks(a, '>')
    ensures StartTagLen(StartTag(n, a) + rest, n) == Some(|n| + |a| + 2)
  {
    var s := StartTag(n, a) + rest;
    assert s[1..1 + |n|] == n;
    var u := s[1 + |n|..];
    assert u == a + ">" + rest;
    assert u[..|a|] == a;
    IndexOfFirst(u, '>', |a|);
  }

  lemma StartTagMiss(n: string, a: string, rest: string, m: string)
    requires LowerWord(m) && !StartsWith(n, m) && (a == [] || !IsNameChar(a[0]))
    ensures StartTagLen(StartTag(n, a) + rest, m).None?
  {
    var s := StartTag(n, a) + rest;
    if 1 + |m| <= |s| {
      if |m| <= |n| {
        assert s[1..1 + |m|] == n[..|m|];
        assert n[..|m|] != m;
      } else {
        assert s[1 + |n|] == (a + ">" + rest)[0];
        assert s[1..1 + |m|][|n|] == s[1 + |n|];
        assert !IsNameChar(s[1 + |n|]);
        assert s[1..1 + |m|] != m;
      }
    }
  }

  /** At a listed start tag followed by its own end tag, no alternative matches. */
  lemma {:induction false} VoidTagFromClosed(n: string, a: string, rest: string, v: nat, names: seq<string>)
    requires LowerNames(names)
    requires NoListedPrefix(n, names) && AttrSpan(a) && v <= |names| && StartsWith(rest, EndTag(n))
    ensures MatchFrom(StartTag(n, a) + rest, names, v).None?
    decreases |names| - v
  {
    if v < |names| {
      VoidTagFromClosed(n, a, rest, v + 1, names);
      ClosedStep(n, a, rest, v, names);
    } else {
      MatchEnd(StartTag(n, a) + rest, names, v);
    }
  }

  lemma ClosedStep(n: string, a: string, rest: string, v: nat, names: seq<string>)
    requires LowerNames(names)
    requires v < |names| && NoListedPrefix(n, names) && AttrSpan(a) && StartsWith(rest, EndTag(n))
    ensures MatchFrom(StartTag(n, a) + rest, names, v) == MatchFrom(StartTag(n, a) + rest, names, v + 1)
  {
    VoidTagFromStep(n, a, rest, v, names);
  }

  lemma MatchEnd(s: string, names: seq<string>, v: nat)
    requires v == |names|
    ensures MatchFrom(s, names, v).None?
  {
  }

  /** At a listed start tag not followed by its end tag, the alternation matches it as `n`. */
  lemma {:induction false} VoidTagFromOpen(n: string, a: string, rest: string, v: nat, i: nat, names: seq<string>)
    requires LowerNames(names)
    requires i < |names| && names[i] == n && v <= i
    requires NoListedPrefix(n, names) && AttrSpan(a) && !StartsWith(rest, EndTag(n))
    ensures MatchFrom(StartTag(n, a) + rest, names, v) == Some(VoidHit(n, |n| + |a| + 2))
    decreases i - v
  {
    VoidTagFromStep(n, a, rest, v, names);
    if names[v] != n {
      VoidTagFromOpen(n, a, rest, v + 1, i, names);
    }
  }

  /** One alternative of the pattern tried at `<n a>`. */
  lemma VoidTagFromStep(n: string, a: string, rest: string, v: nat, names: seq<string>)
    requires LowerNames(names)
    requires v < |names| && NoListedPrefix(n, names) && AttrSpan(a)
    ensures names[v] == n && !StartsWith(rest, EndTag(n)) ==>
      MatchFrom(StartTag(n, a) + rest, names, v) == Some(VoidHit(n, |n| + |a| + 2))
    ensures names[v] != n || StartsWith(rest, EndTag(n)) ==>
      MatchFrom(StartTag(n, a) + rest, names, v) == MatchFrom(StartTag(n, a) + rest, names, v + 1)
  {
    var s := StartTag(n, a) + rest;
    var m := names[v];
    if m == n {
      StartTagHit(n, a, rest);
      assert s[|n| + |a| + 2..] == rest;
      HitStep(s, names, v, |n| + |a| + 2);
    } else {
      NameAtIsLower(names, v);
      StartTagMiss(n, a, rest, m);
      MissStep(s, names, v);
    }
  }

  lemma MissStep(s: string, names: seq<string>, v: nat)
    requires v < |names| && StartTagLen(s, names[v]).None?
    ensures MatchFrom(s, names, v) == MatchFrom(s, names, v + 1)
  {
  }

  lemma HitStep(s: string, names: seq<string>, v: nat, e: nat)
    requires v < |names| && StartTagLen(s, names[v]) == Some(e)
    ensures !StartsWith(s[e..], EndTag(names[v])) ==> MatchFrom(s, names, v) == Some(VoidHit(names[v], e))
    ensures StartsWith(s[e..], EndTag(names[v])) ==> MatchFrom(s, names, v) == MatchFrom(s, names, v + 1)
  {
  }

  /** A listed start tag not followed by its end tag gets one. */
  lemma CloseAddsEndTag(n: string, a: string, rest: string, names: seq<string>)
    requires LowerNames(names)
    requires n in names && NoListedPrefix(n, names) && AttrSpan(a) && !StartsWith(rest, EndTag(n))
    ensures CloseTags(StartTag(n, a) + rest, names) == StartTag(n, a) + EndTag(n) + CloseTags(rest, names)
  {
    var s := StartTag(n, a) + rest;
    var i :| 0 <= i < |names| && names[i] == n;
    VoidTagFromOpen(n, a, rest, 0, i, names);
    var t := StartTag(n, a);
    assert s[..|t|] == t && s[|t|..] == rest;
  }

  /**
   * A listed start tag already followed by its end tag is left alone. The
   * scan copies such a tag character by character, so a `<` in its span
   * would be tried as the start of another tag.
   */
  lemma CloseKeepsClosed(n: string, a: string, rest: string, names: seq<string>)
    requires LowerNames(names)
    requires n in names && NoListedPrefix(n, names) && AttrSpan(a) && Lacks(a, '<')
    ensures CloseTags(StartTag(n, a) + EndTag(n) + rest, names) == StartTag(n, a) + EndTag(n) + CloseTags(rest, names)
  {
    var open, tail := StartTag(n, a), EndTag(n) + rest;
    assert StartsWith(tail, EndTag(n));
    VoidTagFromClosed(n, a, tail, 0, names);
    Assoc(open, EndTag(n), rest);
    CloseCopy(open + tail, names);
    ConsSplit(open, tail);
    NameIsLower(n, names);
    StartTagTail(n, a);
    CloseCopiesPlainText(open[1..], tail, names);
    ConsJoin(open, CloseTags(tail, names));
    CloseCloseTag(n, rest, names);
    Assoc(open, EndTag(n), CloseTags(rest, names));
  }

  /** After its `<`, a start tag with such a span holds no further `<`. */
  lemma StartTagTail(n: string, a: string)
    requires LowerWord(n) && Lacks(a, '<')
    ensures Lacks(StartTag(n, a)[1..], '<')
  {
    var b := StartTag(n, a)[1..];
    forall i | 0 <= i < |b|
      ensures b[i] != '<'
    {
      if i < |n| {
        assert b[i] == n[i];
      } else if i < |n| + |a| {
        assert b[i] == a[i - |n|];
      }
    }
  }

  /** Past its `<`, an end tag is text without `<`. */
  lemma CloseCloseTag(n: string, rest: string, names: seq<string>)
    requires LowerNames(names)
    requires n in names
    ensures CloseTags(EndTag(n) + rest, names) == EndTag(n) + CloseTags(rest, names)
  {
    NameIsLower(n, names);
    var t := EndTag(n) + rest;
    assert t[1] == '/';
    assert MatchFrom(t, names, 0).None? by {
      NoEndTagHit(t, 0, names);
    }
    CloseCopy(t, names);
    ConsSplit(EndTag(n), rest);
    EndTagTail(n);
    CloseCopiesPlainText(EndTag(n)[1..], rest, names);
    ConsJoin(EndTag(n), CloseTags(rest, names));
  }

  /** After its `<`, `</name>` holds no further `<`. */
  lemma EndTagTail(n: string)
    requires LowerWord(n)
    ensures Lacks(EndTag(n)[1..], '<')
  {
    var b := EndTag(n)[1..];
    forall i | 0 <= i < |b|
      ensures b[i] != '<'
    {
      if 0 < i <= |n| {
        assert b[i] == n[i - 1];
      }
    }
  }

  lemma {:induction false} NoEndTagHit(s: string, v: nat, names: seq<string>)
    requires LowerNames(names)
    requires v <= |names| && |s| >= 2 && s[1] == '/'
    ensures MatchFrom(s, names, v).None?
    decreases |names| - v
  {
    if v < |names| {
      NameAtIsLower(names, v);
      EndTagMiss(s, names[v]);
      MissStep(s, names, v);
      NoEndTagHit(s, v + 1, names);
    }
  }

  lemma EndTagMiss(s: string, m: string)
    requires LowerWord(m) && |s| >= 2 && s[1] == '/'
    ensures StartTagLen(s, m).None?
  {
    if 1 + |m| <= |s| {
      assert s[1..1 + |m|][0] == '/';
    }
  }

  // ---------------------------------------------------------------------------
  // Facts about the list

  /** A non-empty word of lower-case ASCII letters. */
  predicate LowerWord(w: string)
  {
    w != [] && forall i :: 0 <= i < |w| ==> 'a' <= w[i] <= 'z'
  }

  /** Every name of an alternation list is a lower-case word. */
  predicate LowerNames(names: seq<string>)
  {
    names == [] || (LowerWord(names[0]) && LowerNames(names[1..]))
  }

  lemma VoidNamesAreLower()
    ensures LowerNames(VoidNames)
  {
    assert forall k :: 0 <= k < |VoidNames| ==> LowerWord(VoidNames[k]);
    LowerEach(VoidNames);
  }

  lemma {:induction false} LowerEach(names: seq<string>)
    requires forall k :: 0 <= k < |names| ==> LowerWord(names[k])
    ensures LowerNames(names)
  {
    if names != [] {
      assert forall k :: 0 <= k < |names| - 1 ==> names[1..][k] == names[k + 1];
      LowerEach(names[1..]);
    }
  }

  lemma {:induction false} NameAtIsLower(names: seq<string>, v: nat)
    requires LowerNames(names) && v < |names|
    ensures LowerWord(names[v])
  {
    if v > 0 {
      NameAtIsLower(names[1..], v - 1);
    }
  }

  lemma NameIsLower(n: string, names: seq<string>)
    requires LowerNames(names) && n in names
    ensures LowerWord(n)
  {
    var v :| 0 <= v < |names| && names[v] == n;
    NameAtIsLower(names, v);
  }

  lemma ToLowerOfLower(w: string)
    requires LowerWord(w)
    ensures ToLower(w) == w
  {
    var r := ToLower(w);
    assert forall i :: 0 <= i < |w| ==> r[i] == w[i];
  }

  // ---------------------------------------------------------------------------
  // The two rewrites over the void-element list

  /**
   * `get_dom`'s start-tag rewrite, its alternation built from the list. The
   * end-tag strip removes every end tag it adds, and text without markup is
   * left as it is.
   */
  function CloseVoidTags(s: string): (r: string)
    ensures StripVoidEndTags(r) == StripVoidEndTags(s)
    ensures Lacks(s, '<') ==> r == s
  {
    VoidNamesAreLower();
    StripUndoesClose(s, VoidNames);
    ClosePlain(s, VoidNames);
    CloseTags(s, VoidNames)
  }

  /**
   * `get_content_from_dom_node`'s end-tag rewrite, built from the same list.
   * It only deletes, and text without markup is left as it is.
   */
  function StripVoidEndTags(s: string): (r: string)
    ensures |r| <= |s|
    ensures Lacks(s, '<') ==> r == s
    ensures (forall i :: 0 <= i < |s| ==> EndTagLen(s[i..], VoidNames) == 0) ==> r == s
  {
    StripShrinks(s, VoidNames);
    StripPlain(s, VoidNames);
    StripWithoutEndTags(s, VoidNames);
    StripEndTags(s, VoidNames)
  }

  /** The rewrite brings no template delimiter `{{` or `}}` into a text that had none. */
  lemma CloseVoidKeepsBraces(s: string)
    ensures Absent("{{", s) ==> Absent("{{", CloseVoidTags(s))
    ensures Absent("}}", s) ==> Absent("}}", CloseVoidTags(s))
  {
    VoidNamesAreLower();
    assert "{{" == ['{', '{'] && "}}" == ['}', '}'];
    if Absent("{{", s) {
      CloseKeepsPairAbsent(s, VoidNames, '{');
    }
    if Absent("}}", s) {
      CloseKeepsPairAbsent(s, VoidNames, '}');
    }
  }

  lemma ClosePlain(s: string, names: seq<string>)
    ensures Lacks(s, '<') ==> CloseTags(s, names) == s
  {
    if Lacks(s, '<') {
      CloseCopiesPlainText(s, [], names);
      assert s + [] == s;
    }
  }

  lemma StripPlain(s: string, names: seq<string>)
    ensures Lacks(s, '<') ==> StripEndTags(s, names) == s
  {
    if Lacks(s, '<') {
      StripCopiesPlainText(s, [], names);
      assert s + [] == s;
    }
  }

  /** Text in which no listed end tag starts anywhere is left as it is. */
  lemma {:induction false} StripWithoutEndTags(s: string, names: seq<string>)
    ensures (forall i :: 0 <= i < |s| ==> EndTagLen(s[i..], names) == 0) ==> StripEndTags(s, names) == s
    decreases |s|
  {
    if s != [] && forall i :: 0 <= i < |s| ==> EndTagLen(s[i..], names) == 0 {
      assert s[0..] == s;
      forall i | 0 <= i < |s[1..]|
        ensures EndTagLen(s[1..][i..], names) == 0
      {
        assert s[1..][i..] == s[i + 1..];
      }
      StripWithoutEndTags(s[1..], names);
      ConsSelf(s);
    }
  }

  lemma {:induction false} StripShrinks(s: string, names: seq<string>)
    ensures |StripEndTags(s, names)| <= |s|
    decreases |s|
  {
    if s != [] {
      var m := EndTagLen(s, names);
      if m == 0 {
        StripShrinks(s[1..], names);
      } else {
        StripShrinks(s[m..], names);
      }
    }
  }

  // ---------------------------------------------------------------------------
  // The alternation has no word boundary

  /** `<basefont>` matches as `base` and gains `</base>` (the rewrite is `CloseTags` over the list). */
  lemma BasefontClosedAsBase()
    ensures CloseTags("<basefont>", VoidNames) == "<basefont>" + EndTag("base")
  {
    var s := "<basefont>";
    BaseMissesArea(s);
    BaseHitsBasefont(s);
    FirstNames();
    assert !StartsWith(s[10..], EndTag("base"));
    MissStep(s, VoidNames, 0);
    HitStep(s, VoidNames, 1, 10);
    CloseHit(s, VoidHit("base", 10), VoidNames);
    assert s[..10] == s;
    assert CloseTags(s[10..], VoidNames) == [];
  }

  lemma FirstNames()
    ensures VoidNames[0] == "area" && VoidNames[1] == "base" && VoidNames[2] == "basefont"
  {
  }

  lemma BaseMissesArea(s: string)
    requires StartsWith(s, "<basefont>")
    ensures StartTagLen(s, "area").None?
  {
    assert s[1..5][0] == 'b';
  }

  lemma BaseHitsBasefont(s: string)
    requires StartsWith(s, "<basefont>")
    ensures StartTagLen(s, "base") == Some(10)
    ensures StartTagLen(s, "basefont") == Some(10)
  {
    var p := "<basefont>";
    assert s[..10] == p;
    assert s[1..5] == p[1..5] == "base";
    assert s[1..9] == p[1..9] == "basefont";
    var u := s[5..];
    assert u[..4] == p[5..9];
    IndexOfFirst(u, '>', 4);
    assert s[9..][..0] == [];
    IndexOfFirst(s[9..], '>', 0);
  }

  /** Applied twice, the rewrite adds another end tag: it is not idempotent. */
  lemma CloseNotIdempotent()
    ensures CloseTags(CloseTags("<basefont>", VoidNames), VoidNames) == "<basefont>" + EndTag("basefont") + EndTag("base")
  {
    BasefontClosedAsBase();
    var s := "<basefont>" + EndTag("base");
    BaseMissesArea(s);
    BaseHitsBasefont(s);
    FirstNames();
    assert s[10..] == EndTag("base");
    assert StartsWith(s[10..], EndTag("base"));
    assert !StartsWith(s[10..], EndTag("basefont"));
    MissStep(s, VoidNames, 0);
    HitStep(s, VoidNames, 1, 10);
    HitStep(s, VoidNames, 2, 10);
    CloseHit(s, VoidHit("basefont", 10), VoidNames);
    assert s[..10] == "<basefont>";
    VoidNamesAreLower();
    CloseCloseTag("base", [], VoidNames);
    assert EndTag("base") + [] == EndTag("base");
  }

  /**
   * Deletion is a single pass: `<</br>/br>` loses its inner `</br>`, and the
   * `</br>` that deletion leaves behind survives.
   */
  lemma StripSinglePass(n: string, names: seq<string>)
    requires LowerNames(names)
    requires n in names
    ensures StripEndTags("<" + EndTag(n) + EndTag(n)[1..], names) == EndTag(n)
  {
    var e := EndTag(n);
    var t := e + e[1..];
    var s := "<" + e + e[1..];
    Assoc("<", e, e[1..]);
    NoEndTagAtLtLt(s, names);
    StripCopy(s, names);
    ConsParts('<', t);
    EndTagOfVoidName(n, names);
    StripWhole(e, e[1..], names);
    NameIsLower(n, names);
    EndTagTail(n);
    StripCopiesPlainText(e[1..], [], names);
    assert e[1..] + [] == e[1..];
    assert StripEndTags(t, names) == e[1..];
    ConsSelf(e);
  }

  lemma NoEndTagAtLtLt(s: string, names: seq<string>)
    requires |s| >= 2 && s[1] == '<'
    ensures EndTagLen(s, names) == 0
  {
    match IndexOf(s, '>')
    case None =>
    case Some(k) =>
      assert k >= 1 ==> s[..k + 1][1] == '<';
  }

}
